/** Runs of the timer: a sequence of user toggles and timer ticks delivered,
    one at a time, to a machine. The properties here relate many transitions:
    consistency of every reachable state, monotonicity of the counters under a
    clock that does not go backwards, the per-session accounting, and the
    15-second save sampling. */
module TimerTrace {
  import opened Wrappers
  import opened TimerManager

  /** One serialized entry point, stamped with the instant it runs at. */
  datatype Event = ToggleAt(at: Time) | TickAt(at: Time)

  function Step(mc: Machine, e: Event): Machine {
    match e
    case ToggleAt(t) => Toggle(mc, t)
    case TickAt(t) => Tick(mc, t)
  }

  /** Delivers the events in order. */
  function Run(mc: Machine, evs: seq<Event>): Machine
    decreases |evs|
  {
    if |evs| == 0 then mc else Run(Step(mc, evs[0]), evs[1..])
  }

  /** Every event happens no earlier than `t0` and no earlier than the one before it. */
  predicate Chronological(t0: Time, evs: seq<Event>) {
    && (forall i :: 0 <= i < |evs| ==> t0 <= evs[i].at)
    && (forall i, j :: 0 <= i < j < |evs| ==> evs[i].at <= evs[j].at)
  }

  predicate AllTicks(evs: seq<Event>) {
    forall i :: 0 <= i < |evs| ==> evs[i].TickAt?
  }

  /** The instant of the last event, or `t0` when there is none. */
  function LastAt(t0: Time, evs: seq<Event>): Time {
    if |evs| == 0 then t0 else evs[|evs| - 1].at
  }

  /** The manager's timestamps lie no later than `t`, and the displayed
      session time does not exceed the session time accrued by `t`. */
  predicate NotAfter(m: Manager, t: Time) {
    && (m.startTime.Some? ==> m.startTime.value <= t)
    && (m.lastTick.Some? ==> m.lastTick.value <= t)
    && m.elapsedSeconds <= m.lastPauseTime + RunLength(m, t)
  }

  lemma {:induction false} RunAppend(mc: Machine, a: seq<Event>, b: seq<Event>)
    ensures Run(mc, a + b) == Run(Run(mc, a), b)
    decreases |a|
  {
    if |a| > 0 {
      assert (a + b)[0] == a[0];
      assert (a + b)[1..] == a[1..] + b;
      RunAppend(Step(mc, a[0]), a[1..], b);
    } else {
      assert a + b == b;
    }
  }

  /** Every state reachable from a consistent one is consistent: in particular
      `startTime` is present exactly while the timer runs. */
  lemma {:induction false} RunPreservesValid(mc: Machine, evs: seq<Event>)
    requires Valid(mc.mgr)
    ensures Valid(Run(mc, evs).mgr)
    decreases |evs|
  {
    if |evs| > 0 {
      TransitionsPreserveValid(mc, evs[0].at);
      RunPreservesValid(Step(mc, evs[0]), evs[1..]);
    }
  }

  /** Every state the program can reach after construction is consistent. */
  lemma ReachableValid(d: Defaults, now: Time, cal: Calendar, evs: seq<Event>)
    ensures Valid(Run(Init(d, now, cal), evs).mgr)
  {
    RunPreservesValid(Init(d, now, cal), evs);
  }

  lemma NotAfterLater(m: Manager, t: Time, t': Time)
    requires NotAfter(m, t) && t <= t'
    ensures NotAfter(m, t')
  {
  }

  /** One event at or after `t0` keeps the timestamps in the past and never
      decreases the session time, the paused total or the day total. */
  lemma StepMonotone(mc: Machine, t0: Time, e: Event)
    requires Valid(mc.mgr) && NotAfter(mc.mgr, t0) && t0 <= e.at
    ensures var r := Step(mc, e).mgr;
      && Valid(r) && NotAfter(r, e.at)
      && r.elapsedSeconds >= mc.mgr.elapsedSeconds
      && r.lastPauseTime >= mc.mgr.lastPauseTime
      && r.cumulativeTimeToday >= mc.mgr.cumulativeTimeToday
  {
    NotAfterLater(mc.mgr, t0, e.at);
    TransitionsPreserveValid(mc, e.at);
  }

  /** With a clock that never goes backwards, the displayed session time, the
      paused total and the day total never decrease. */
  lemma {:induction false} RunMonotone(mc: Machine, t0: Time, evs: seq<Event>)
    requires Valid(mc.mgr) && NotAfter(mc.mgr, t0) && Chronological(t0, evs)
    ensures var r := Run(mc, evs).mgr;
      && Valid(r) && NotAfter(r, LastAt(t0, evs))
      && r.elapsedSeconds >= mc.mgr.elapsedSeconds
      && r.lastPauseTime >= mc.mgr.lastPauseTime
      && r.cumulativeTimeToday >= mc.mgr.cumulativeTimeToday
    decreases |evs|
  {
    if |evs| > 0 {
      StepMonotone(mc, t0, evs[0]);
      var rest := evs[1..];
      assert Chronological(evs[0].at, rest) by {
        forall i | 0 <= i < |rest| ensures evs[0].at <= rest[i].at {
          assert rest[i] == evs[i + 1];
        }
      }
      RunMonotone(Step(mc, evs[0]), evs[0].at, rest);
      if |rest| > 0 {
        assert LastAt(evs[0].at, rest) == LastAt(t0, evs);
      }
    }
  }

  /** The day total never decreases after construction while the clock does
      not go backwards. */
  lemma DayTotalMonotone(d: Defaults, now: Time, cal: Calendar, evs: seq<Event>)
    requires Chronological(now, evs)
    ensures Run(Init(d, now, cal), evs).mgr.cumulativeTimeToday
      >= Init(d, now, cal).mgr.cumulativeTimeToday
  {
    RunMonotone(Init(d, now, cal), now, evs);
  }

  /** The events after the first end at the last instant of the whole, and
      are all ticks when the whole is. */
  lemma Tail(t: Time, evs: seq<Event>)
    requires |evs| > 0
    ensures LastAt(evs[0].at, evs[1..]) == LastAt(t, evs)
    ensures AllTicks(evs) ==> AllTicks(evs[1..])
  {
    var rest := evs[1..];
    forall i | 0 <= i < |rest| ensures rest[i] == evs[i + 1] {
    }
  }

  /** No tick of `evs` would set the session time to a multiple of 15 seconds,
      for a session with paused total `base` that started at `start`. */
  predicate MissesSavePoints(base: Duration, start: Time, evs: seq<Event>) {
    forall i :: 0 <= i < |evs| ==> !IsSavePoint(base + (evs[i].at - start))
  }

  /** A run of ticks inside one session, after a previous tick at `t`: the day
      total grows by exactly the time from `t` to the last tick, and the
      session time is recomputed from the start. This holds for any clock:
      when the clock is set back, the day total shrinks by the same amount. */
  lemma {:induction false} TickRun(mc: Machine, t: Time, evs: seq<Event>)
    requires mc.mgr.startTime.Some? && mc.mgr.lastTick == Some(t)
    requires AllTicks(evs)
    ensures var r := Run(mc, evs).mgr;
      && r.startTime == mc.mgr.startTime && r.isRunning == mc.mgr.isRunning
      && r.lastPauseTime == mc.mgr.lastPauseTime
      && r.lastTick == Some(LastAt(t, evs))
      && r.cumulativeTimeToday == mc.mgr.cumulativeTimeToday + (LastAt(t, evs) - t)
    ensures |evs| > 0 ==>
      Run(mc, evs).mgr.elapsedSeconds == mc.mgr.lastPauseTime + (LastAt(t, evs) - mc.mgr.startTime.value)
    decreases |evs|
  {
    if |evs| > 0 {
      Tail(t, evs);
      TickRun(Step(mc, evs[0]), evs[0].at, evs[1..]);
    }
  }

  /** Ticks that all miss the save points leave the store untouched. */
  lemma {:induction false} TickRunKeepsStore(mc: Machine, evs: seq<Event>)
    requires mc.mgr.startTime.Some? && AllTicks(evs)
    requires MissesSavePoints(mc.mgr.lastPauseTime, mc.mgr.startTime.value, evs)
    ensures Run(mc, evs).defaults == mc.defaults
    decreases |evs|
  {
    if |evs| > 0 {
      var rest := evs[1..];
      forall i | 0 <= i < |rest| ensures rest[i] == evs[i + 1] {
      }
      TickRunKeepsStore(Step(mc, evs[0]), rest);
    }
  }

  /** Ticks once a second for `n` seconds after `t0`. */
  function Seconds(t0: Time, n: nat): (evs: seq<Event>)
    ensures |evs| == n && AllTicks(evs) && Chronological(t0, evs)
    ensures forall i :: 0 <= i < n ==> evs[i].at == t0 + i + 1
  {
    seq(n, i requires 0 <= i < n => TickAt(t0 + i + 1))
  }

  /** One whole session: start at `t0`, ticks, pause at `p`. The paused total
      gains the full session length `p - t0`, but the day total gains only the
      time up to the last tick: the stretch between the last tick and the
      pause is counted in the paused total and not in the day total. The
      displayed session time keeps the value of the last tick. */
  lemma Session(mc: Machine, t0: Time, ticks: seq<Event>, p: Time)
    requires Valid(mc.mgr) && !mc.mgr.isRunning
    requires AllTicks(ticks)
    ensures var r := Run(mc, [ToggleAt(t0)] + ticks + [ToggleAt(p)]);
      && !r.mgr.isRunning
      && r.mgr.lastPauseTime == mc.mgr.lastPauseTime + (p - t0)
      && r.mgr.cumulativeTimeToday == mc.mgr.cumulativeTimeToday + (LastAt(t0, ticks) - t0)
      && r.mgr.elapsedSeconds
         == (if |ticks| == 0 then mc.mgr.elapsedSeconds else mc.mgr.lastPauseTime + (LastAt(t0, ticks) - t0))
      && r.defaults == Defaults(Some(r.mgr.cumulativeTimeToday), Some(p))
  {
    SessionSteps(mc, t0, ticks, p);
    TickRun(Toggle(mc, t0), t0, ticks);
  }

  /** A session's run is a start, the ticks, and a pause. */
  lemma SessionSteps(mc: Machine, t0: Time, ticks: seq<Event>, p: Time)
    ensures Run(mc, [ToggleAt(t0)] + ticks + [ToggleAt(p)]) == Toggle(Run(Toggle(mc, t0), ticks), p)
  {
    var started := Toggle(mc, t0);
    assert Run(mc, [ToggleAt(t0)]) == started;
    var ticked := Run(started, ticks);
    assert Run(ticked, [ToggleAt(p)]) == Toggle(ticked, p);
    RunAppend(mc, [ToggleAt(t0)], ticks);
    RunAppend(mc, [ToggleAt(t0)] + ticks, [ToggleAt(p)]);
  }

  /** A run that is stopped abruptly after 14 one-second ticks of a session
      that began with a zero paused total has never written the store: up to
      14 seconds of the day total are not persisted. */
  lemma CrashAfterFourteenTicks(mc: Machine, t0: Time)
    requires Valid(mc.mgr) && !mc.mgr.isRunning && mc.mgr.lastPauseTime == 0
    ensures Run(mc, [ToggleAt(t0)] + Seconds(t0, 14)).defaults == mc.defaults
  {
    var started := Toggle(mc, t0);
    assert Run(mc, [ToggleAt(t0)]) == started;
    RunAppend(mc, [ToggleAt(t0)], Seconds(t0, 14));
    var evs := Seconds(t0, 14);
    forall i | 0 <= i < |evs|
      ensures !IsSavePoint(started.mgr.lastPauseTime + (evs[i].at - started.mgr.startTime.value))
    {
      SavePointIsMultiple(i + 1);
    }
    TickRunKeepsStore(started, evs);
  }

  /** The fifteenth tick of that session writes the store, which then holds a
      day total 15 seconds larger than before the session. */
  lemma FifteenthTickSaves(mc: Machine, t0: Time)
    requires Valid(mc.mgr) && !mc.mgr.isRunning && mc.mgr.lastPauseTime == 0
    ensures Run(mc, [ToggleAt(t0)] + Seconds(t0, 15)).defaults
      == Defaults(Some(mc.mgr.cumulativeTimeToday + 15), Some(t0 + 15))
  {
    var started := Toggle(mc, t0);
    assert Run(mc, [ToggleAt(t0)]) == started;
    var first := Seconds(t0, 14);
    var evs := Seconds(t0, 15);
    assert evs == first + [TickAt(t0 + 15)];
    RunAppend(mc, [ToggleAt(t0)], evs);
    RunAppend(started, first, [TickAt(t0 + 15)]);
    TickRun(started, t0, first);
    SavePointIsMultiple(15);
  }
}

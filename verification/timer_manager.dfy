/** The timer/accumulator state machine of the menu-bar stopwatch.

    Every entry point of the Swift class `TimerManager` runs on the main run loop, so
    each is modelled as a pure transition of a `Machine` (the object's fields
    together with the key-value store it writes) that takes the current
    instant `now` explicitly. Clock readings are whole seconds; the store is
    a plain record; the local calendar is a parameter mapping each instant to
    its day. */
module TimerManager {
  import opened Wrappers
  import SwiftInt

  /** A wall-clock instant, in whole seconds since an arbitrary epoch. */
  type Time = int

  /** A signed interval in whole seconds; `b - a` is `b.timeIntervalSince(a)`. */
  type Duration = int

  /** The local calendar: the number of the day on which each instant falls. */
  type Calendar = Time -> int

  predicate SameDay(cal: Calendar, a: Time, b: Time) {
    cal(a) == cal(b)
  }

  /** While running, the store is written on ticks whose session time is a multiple of this. */
  const SaveEvery: int := 15

  /** The two keys the manager keeps in the key-value store; either may be absent. */
  datatype Defaults = Defaults(cumulativeTime: Option<Duration>, todayDate: Option<Time>)

  /** The manager's fields. `savedCumulativeTime` is written but never read. */
  datatype Manager = Manager(
    isRunning: bool,
    elapsedSeconds: Duration,
    cumulativeTimeToday: Duration,
    startTime: Option<Time>,
    lastPauseTime: Duration,
    savedCumulativeTime: Duration,
    lastTick: Option<Time>)

  /** The manager together with the store it persists to. */
  datatype Machine = Machine(mgr: Manager, defaults: Defaults)

  /** The fields' declared initial values: paused, every counter zero, no timestamps. */
  const Initial: Manager := Manager(false, 0, 0, None, 0, 0, None)

  /** `startTime` is present exactly while the timer runs, and a running
      timer has a previous tick to measure the day total from. */
  predicate Valid(m: Manager) {
    && (m.startTime.Some? <==> m.isRunning)
    && (m.isRunning ==> m.lastTick.Some?)
  }

  /** The store holds a date, and that date is the same day as `now`. */
  predicate StoredToday(d: Defaults, now: Time, cal: Calendar) {
    d.todayDate.Some? && SameDay(cal, d.todayDate.value, now)
  }

  /** Whether a tick that sets the session time to `elapsed` writes the store:
      Swift's `Int(elapsed) % 15 == 0`. */
  predicate IsSavePoint(elapsed: Duration) {
    SwiftInt.Rem(elapsed, SaveEvery) == 0
  }

  // ---------------------------------------------------------------------------
  // Persistence

  /** Reading the stored total: an absent number reads as zero. */
  function LoadSavedCumulativeTime(d: Defaults): (r: Duration)
    ensures d.cumulativeTime.None? ==> r == 0
    ensures d.cumulativeTime.Some? ==> r == d.cumulativeTime.value
  {
    d.cumulativeTime.GetOr(0)
  }

  /** Loads the stored total into the day total; nothing else changes. */
  function LoadSavedTime(m: Manager, d: Defaults): (r: Manager)
    ensures r.cumulativeTimeToday == LoadSavedCumulativeTime(d)
    ensures r.(cumulativeTimeToday := m.cumulativeTimeToday) == m
  {
    m.(cumulativeTimeToday := LoadSavedCumulativeTime(d))
  }

  /** Writes the day total and the current instant to the store. Loading
      afterwards yields the total that was saved. */
  function SaveCurrentTime(mc: Machine, now: Time): (r: Machine)
    ensures r.mgr == mc.mgr
    ensures r.defaults.cumulativeTime.Some?
    ensures LoadSavedCumulativeTime(r.defaults) == mc.mgr.cumulativeTimeToday
    ensures r.defaults.todayDate == Some(now)
  {
    mc.(defaults := Defaults(Some(mc.mgr.cumulativeTimeToday), Some(now)))
  }

  // ---------------------------------------------------------------------------
  // Construction and day rollover

  /** Clears the session: paused, session counters zero, no timestamps. The day
      total is kept. */
  function ResetTimer(m: Manager): (r: Manager)
    ensures Valid(r) && !r.isRunning
    ensures r.elapsedSeconds == 0 && r.lastPauseTime == 0
    ensures r.startTime.None? && r.lastTick.None?
    ensures r.cumulativeTimeToday == m.cumulativeTimeToday
    ensures r.savedCumulativeTime == m.savedCumulativeTime
  {
    m.(elapsedSeconds := 0, lastPauseTime := 0, startTime := None, lastTick := None, isRunning := false)
  }

  /** Starts a new day: the manager returns to its initial state and the store
      records a zero total dated `now`. */
  function ResetForNewDay(mc: Machine, now: Time): (r: Machine)
    ensures r.mgr == Initial
    ensures r.defaults.cumulativeTime.Some? && LoadSavedCumulativeTime(r.defaults) == 0
    ensures r.defaults.todayDate == Some(now)
  {
    var m := ResetTimer(mc.mgr).(cumulativeTimeToday := 0, savedCumulativeTime := 0);
    Machine(m, Defaults(Some(0), Some(now)))
  }

  /** Rolls over when the store has no date or a date on another day;
      otherwise changes nothing. */
  function CheckForNewDay(mc: Machine, now: Time, cal: Calendar): (r: Machine)
    ensures StoredToday(mc.defaults, now, cal) ==> r == mc
    ensures !StoredToday(mc.defaults, now, cal) ==>
      r.mgr == Initial && r.defaults == Defaults(Some(0), Some(now))
    ensures StoredToday(r.defaults, now, cal)
  {
    match mc.defaults.todayDate
    case None => ResetForNewDay(mc, now)
    case Some(savedDate) =>
      if !SameDay(cal, savedDate, now) then ResetForNewDay(mc, now) else mc
  }

  /** Construction at instant `now` against store `d`: load the stored total,
      then check for a new day. */
  function Init(d: Defaults, now: Time, cal: Calendar): (r: Machine)
    ensures Valid(r.mgr) && !r.mgr.isRunning
    ensures r.mgr.elapsedSeconds == 0 && r.mgr.lastPauseTime == 0
    ensures r.mgr.startTime.None? && r.mgr.lastTick.None?
    ensures StoredToday(d, now, cal) ==>
      r.defaults == d && r.mgr.cumulativeTimeToday == LoadSavedCumulativeTime(d)
    ensures !StoredToday(d, now, cal) ==>
      r.mgr.cumulativeTimeToday == 0 && r.defaults == Defaults(Some(0), Some(now))
    ensures StoredToday(r.defaults, now, cal)
    ensures r.mgr.cumulativeTimeToday == LoadSavedCumulativeTime(r.defaults)
  {
    CheckForNewDay(Machine(LoadSavedTime(Initial, d), d), now, cal)
  }

  // ---------------------------------------------------------------------------
  // Running and pausing

  /** Begins a session at `now`: both timestamps are set; the counters and the
      store are untouched. */
  function StartTimer(mc: Machine, now: Time): (r: Machine)
    ensures r.mgr.startTime == Some(now) && r.mgr.lastTick == Some(now)
    ensures r.mgr.(startTime := mc.mgr.startTime, lastTick := mc.mgr.lastTick) == mc.mgr
    ensures r.defaults == mc.defaults
  {
    mc.(mgr := mc.mgr.(startTime := Some(now), lastTick := Some(now)))
  }

  /** Ends a session at `now`: its length is folded into `lastPauseTime`, the
      start is cleared, and the store is always written. The displayed session
      time and the day total are not updated. */
  function PauseTimer(mc: Machine, now: Time): (r: Machine)
    ensures r.mgr.startTime.None?
    ensures mc.mgr.startTime.Some? ==>
      r.mgr.lastPauseTime == mc.mgr.lastPauseTime + (now - mc.mgr.startTime.value)
    ensures mc.mgr.startTime.None? ==> r.mgr.lastPauseTime == mc.mgr.lastPauseTime
    ensures r.mgr.(startTime := mc.mgr.startTime, lastPauseTime := mc.mgr.lastPauseTime) == mc.mgr
    ensures r.defaults == Defaults(Some(mc.mgr.cumulativeTimeToday), Some(now))
  {
    var m := match mc.mgr.startTime
      case Some(startTime) =>
        mc.mgr.(lastPauseTime := mc.mgr.lastPauseTime + (now - startTime), startTime := None)
      case None => mc.mgr;
    SaveCurrentTime(Machine(m, mc.defaults), now)
  }

  /** The user's single action: flip `isRunning`, then start if it became true
      and pause if it became false. The result is always consistent, whatever
      the state before. */
  function Toggle(mc: Machine, now: Time): (r: Machine)
    ensures r.mgr.isRunning == !mc.mgr.isRunning
    ensures Valid(r.mgr)
    ensures r.mgr.elapsedSeconds == mc.mgr.elapsedSeconds
    ensures r.mgr.cumulativeTimeToday == mc.mgr.cumulativeTimeToday
    ensures !mc.mgr.isRunning ==>
      && r.mgr.startTime == Some(now) && r.mgr.lastTick == Some(now)
      && r.mgr.lastPauseTime == mc.mgr.lastPauseTime
      && r.defaults == mc.defaults
    ensures mc.mgr.isRunning ==>
      && r.mgr.startTime.None? && r.mgr.lastTick == mc.mgr.lastTick
      && r.mgr.lastPauseTime == mc.mgr.lastPauseTime + RunLength(mc.mgr, now)
      && r.defaults == Defaults(Some(mc.mgr.cumulativeTimeToday), Some(now))
  {
    var flipped := mc.(mgr := mc.mgr.(isRunning := !mc.mgr.isRunning));
    if flipped.mgr.isRunning then StartTimer(flipped, now) else PauseTimer(flipped, now)
  }

  /** How long the current session has run at `now` (zero when there is none). */
  function RunLength(m: Manager, now: Time): (r: Duration)
    ensures m.startTime.Some? ==> m.startTime.value + r == now
    ensures m.startTime.None? ==> r == 0
  {
    match m.startTime
    case Some(s) => now - s
    case None => 0
  }

  /** The once-per-second callback at instant `now`. Without a start time it
      does nothing; otherwise it recomputes the session time from the start,
      adds the time since the previous tick to the day total, records this
      tick, and writes the store exactly when the new session time is a
      multiple of 15 seconds. */
  function Tick(mc: Machine, now: Time): (r: Machine)
    ensures mc.mgr.startTime.None? ==> r == mc
    ensures r.mgr.isRunning == mc.mgr.isRunning && r.mgr.startTime == mc.mgr.startTime
    ensures r.mgr.lastPauseTime == mc.mgr.lastPauseTime
    ensures mc.mgr.startTime.Some? ==>
      && r.mgr.elapsedSeconds == mc.mgr.lastPauseTime + (now - mc.mgr.startTime.value)
      && r.mgr.cumulativeTimeToday == mc.mgr.cumulativeTimeToday
           + (if mc.mgr.lastTick.Some? then now - mc.mgr.lastTick.value else 0)
      && r.mgr.lastTick == Some(now)
    ensures mc.mgr.startTime.Some? && IsSavePoint(r.mgr.elapsedSeconds) ==>
      r.defaults == Defaults(Some(r.mgr.cumulativeTimeToday), Some(now))
    ensures !IsSavePoint(r.mgr.elapsedSeconds) ==> r.defaults == mc.defaults
  {
    match mc.mgr.startTime
    case None => mc
    case Some(startTime) =>
      var m0 := mc.mgr.(elapsedSeconds := mc.mgr.lastPauseTime + (now - startTime));
      var m1 := match m0.lastTick
        case Some(lastTick) => m0.(cumulativeTimeToday := m0.cumulativeTimeToday + (now - lastTick))
        case None => m0;
      var m2 := m1.(lastTick := Some(now));
      if IsSavePoint(m2.elapsedSeconds) then SaveCurrentTime(Machine(m2, mc.defaults), now)
      else Machine(m2, mc.defaults)
  }

  // ---------------------------------------------------------------------------
  // Properties of single transitions

  /** The save test on Swift's truncating remainder is plain divisibility by 15. */
  lemma SavePointIsMultiple(elapsed: Duration)
    ensures IsSavePoint(elapsed) <==> elapsed % SaveEvery == 0
  {
  }

  /** Every transition keeps the manager consistent. */
  lemma TransitionsPreserveValid(mc: Machine, now: Time)
    requires Valid(mc.mgr)
    ensures Valid(Toggle(mc, now).mgr)
    ensures Valid(Tick(mc, now).mgr)
  {
  }

  /** A tick that reads a clock set back before the previous tick lowers the
      day total: nothing in the tick guards against a negative increment. */
  lemma ClockSetBackLowersDayTotal(mc: Machine, now: Time)
    requires mc.mgr.startTime.Some? && mc.mgr.lastTick.Some?
    requires now < mc.mgr.lastTick.value
    ensures Tick(mc, now).mgr.cumulativeTimeToday < mc.mgr.cumulativeTimeToday
  {
  }

  /** A tick at an instant on another day than the previous tick keeps adding
      to the same day total; when it saves, the store dates that total with
      the new day. */
  lemma MidnightNotNoticed(mc: Machine, cal: Calendar, now: Time)
    requires mc.mgr.startTime.Some? && mc.mgr.lastTick.Some?
    requires !SameDay(cal, mc.mgr.lastTick.value, now)
    requires IsSavePoint(mc.mgr.lastPauseTime + RunLength(mc.mgr, now))
    ensures Tick(mc, now).defaults
      == Defaults(Some(mc.mgr.cumulativeTimeToday + (now - mc.mgr.lastTick.value)), Some(now))
    ensures Tick(mc, now).mgr.cumulativeTimeToday
      == mc.mgr.cumulativeTimeToday + (now - mc.mgr.lastTick.value)
  {
  }

  /** A tick while paused (a stray tick) changes nothing. */
  lemma StrayTickIgnored(mc: Machine, now: Time)
    requires Valid(mc.mgr) && !mc.mgr.isRunning
    ensures Tick(mc, now) == mc
  {
  }

  /** Starting and immediately pausing at the same instant leaves the session
      and day totals as they were and writes the day total to the store. */
  lemma ToggleTwice(mc: Machine, now: Time)
    requires Valid(mc.mgr) && !mc.mgr.isRunning
    ensures var r := Toggle(Toggle(mc, now), now).mgr;
      && !r.isRunning && r.startTime.None?
      && r.elapsedSeconds == mc.mgr.elapsedSeconds
      && r.lastPauseTime == mc.mgr.lastPauseTime
      && r.cumulativeTimeToday == mc.mgr.cumulativeTimeToday
    ensures Toggle(Toggle(mc, now), now).defaults
      == Defaults(Some(mc.mgr.cumulativeTimeToday), Some(now))
  {
  }

  /** Constructing again later on the same day reproduces the same state: the
      rollover check is idempotent. */
  lemma InitIdempotent(d: Defaults, now: Time, later: Time, cal: Calendar)
    requires SameDay(cal, now, later)
    ensures Init(Init(d, now, cal).defaults, later, cal) == Init(d, now, cal)
  {
  }

  /** A pause followed by a restart keeps the day total when the restart falls
      on the same day, and discards it otherwise. */
  lemma RestartAfterPause(mc: Machine, now: Time, later: Time, cal: Calendar)
    requires Valid(mc.mgr) && mc.mgr.isRunning
    ensures var r := Init(Toggle(mc, now).defaults, later, cal).mgr;
      r.cumulativeTimeToday == if SameDay(cal, now, later) then mc.mgr.cumulativeTimeToday else 0
  {
  }
}

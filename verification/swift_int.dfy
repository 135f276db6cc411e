/** Swift's `Int` division and remainder, which truncate toward zero (unlike
    Dafny's Euclidean `/` and `%`). Only positive divisors occur in the
    modelled code, so the divisor is required to be positive. The 64-bit
    width of `Int` is not modelled. */
module SwiftInt {

  /** `a / d` in Swift: the quotient rounded toward zero. */
  function Quot(a: int, d: int): (q: int)
    requires d > 0
    ensures a >= 0 ==> q >= 0
    ensures a < 0 ==> q <= 0
  {
    if a >= 0 then a / d else -((-a) / d)
  }

  /** `a % d` in Swift: the remainder takes the sign of the dividend. */
  function Rem(a: int, d: int): (r: int)
    requires d > 0
    ensures a >= 0 ==> 0 <= r < d
    ensures a < 0 ==> -d < r <= 0
  {
    if a >= 0 then a % d else -((-a) % d)
  }

  /** Division identity: quotient and remainder reassemble the dividend. */
  lemma DivisionIdentity(a: int, d: int)
    requires d > 0
    ensures Quot(a, d) * d + Rem(a, d) == a
  {
  }

  /** On non-negative operands Swift and Dafny agree. */
  lemma AgreesOnNatural(a: int, d: int)
    requires d > 0 && a >= 0
    ensures Quot(a, d) == a / d && Rem(a, d) == a % d
  {
  }

  /** Euclidean quotient and remainder are the only pair with the remainder in [0, d). */
  lemma DivModUnique(a: int, d: int, q: int, r: int)
    requires d > 0
    requires a == q * d + r && 0 <= r < d
    ensures a / d == q && a % d == r
  {
    var q', r' := a / d, a % d;
    assert a == q' * d + r';
    assert r' - r == (q - q') * d;
    // both remainders lie in [0, d), so the multiplier q - q' can be neither positive nor negative
    if q - q' >= 1 {
    } else if q - q' <= -1 {
    }
  }
}

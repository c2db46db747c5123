/** Option and Result values, used for Java's nullable references and thrown exceptions. */
module Wrappers {

  datatype Option<+T> = None | Some(value: T) {
    function GetOr(default: T): T {
      match this
      case Some(v) => v
      case None => default
    }
  }

  /** A computation that either returns a value or throws; `E` names the exception. */
  datatype Result<+R, +E> = Success(value: R) | Failure(error: E)

  /** A computation with no value that either completes or throws. */
  datatype Outcome<+E> = Pass | Fail(error: E)
}

/** Timestamps are whole milliseconds since the epoch; every operation takes the clock as `now`. */
module Time {
  const SECOND_MS: int := 1000
  const MINUTE_MS: int := 60 * SECOND_MS
  const HOUR_MS: int := 60 * MINUTE_MS
  const DAY_MS: int := 24 * HOUR_MS

  /** `LocalDateTime.plusMinutes` */
  function PlusMinutes(t: int, minutes: int): int
  {
    t + minutes * MINUTE_MS
  }

  /** `LocalDateTime.plusHours` */
  function PlusHours(t: int, hours: int): int
  {
    t + hours * HOUR_MS
  }
}

/** The parts of Java's integer semantics that the model needs written out. */
module JavaInt {
  const INT_MIN: int := -0x8000_0000
  const INT_MAX: int := 0x7fff_ffff

  predicate IsInt32(x: int) {
    INT_MIN <= x <= INT_MAX
  }

  /** Two's-complement wrap-around of a mathematical integer into `int` range. */
  function Wrap32(x: int): (r: int)
    ensures IsInt32(r)
    ensures (r - x) % 0x1_0000_0000 == 0
    ensures IsInt32(x) ==> r == x
  {
    var m := (x - INT_MIN) % 0x1_0000_0000;
    m + INT_MIN
  }

  /** Java's `/` on integers: the quotient is truncated toward zero. */
  function Div(a: int, b: int): (q: int)
    requires b != 0
    ensures a >= 0 && b > 0 ==> q == a / b
    ensures (a >= 0) == (b > 0) || a == 0 ==> q >= 0
    ensures (a >= 0) != (b > 0) ==> q <= 0
  {
    var n := if a < 0 then -a else a;
    var d := if b < 0 then -b else b;
    if (a < 0) == (b < 0) then n / d else -(n / d)
  }

  lemma {:induction false} DivTruncatesTowardZero(a: int, b: int)
    requires b != 0
    ensures var q := Div(a, b);
            var r := a - q * b;
            (r == 0 || (r > 0) == (a > 0)) && (if r < 0 then -r else r) < (if b < 0 then -b else b)
  {
    var n := if a < 0 then -a else a;
    var d := if b < 0 then -b else b;
    assert n == (n / d) * d + n % d;
    if a < 0 && b < 0 {
      assert Div(a, b) == n / d;
      assert a - Div(a, b) * b == -(n % d);
    } else if a < 0 {
      assert Div(a, b) == -(n / d);
      assert a - Div(a, b) * b == -(n % d);
    } else if b < 0 {
      assert Div(a, b) == -(n / d);
      assert a - Div(a, b) * b == n % d;
    } else {
      assert a - Div(a, b) * b == n % d;
    }
  }

  /** `BigDecimal.divide(d, scale, RoundingMode.HALF_UP)` for an integer quotient n/d:
      round to nearest, ties away from zero. */
  function DivHalfUp(n: int, d: int): (q: int)
    requires d > 0
    ensures n >= 0 ==> 2 * q * d <= 2 * n + d < 2 * q * d + 2 * d
    ensures n >= 0 ==> q >= 0
    ensures n <= 0 ==> q <= 0
  {
    if n >= 0 then (2 * n + d) / (2 * d) else -((2 * -n + d) / (2 * d))
  }

  /** Multiplying by a positive factor keeps the order. */
  lemma MulMonotone(a: int, b: int, d: int)
    requires a <= b && d > 0
    ensures a * d <= b * d
  {
    assert b * d - a * d == (b - a) * d;
  }

  /** A half-up quotient never exceeds k when the dividend is at most k times the divisor. */
  lemma DivHalfUpAtMost(n: int, d: int, k: int)
    requires d > 0 && 0 <= n <= k * d
    ensures DivHalfUp(n, d) <= k
  {
    var q := DivHalfUp(n, d);
    if q > k {
      MulMonotone(k + 1, q, d);
    }
  }

  /** An exact quotient needs no rounding. */
  lemma DivHalfUpExact(k: int, d: int)
    requires d > 0 && k >= 0
    ensures DivHalfUp(k * d, d) == k
  {
    var q := DivHalfUp(k * d, d);
    DivHalfUpAtMost(k * d, d, k);
    if q < k {
      MulMonotone(q + 1, k, d);
    }
  }

  /** A larger dividend never gives a smaller half-up quotient. */
  lemma DivHalfUpMonotone(n1: int, n2: int, d: int)
    requires d > 0 && 0 <= n1 <= n2
    ensures DivHalfUp(n1, d) <= DivHalfUp(n2, d)
  {
    var q1, q2 := DivHalfUp(n1, d), DivHalfUp(n2, d);
    if q1 > q2 {
      MulMonotone(q2 + 1, q1, d);
    }
  }
}

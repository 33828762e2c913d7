/** JavaScript's remainder operator on integral numbers, which the slide navigator and the
    tick-year filter use. */
module JsMath {

  function Abs(x: int): nat {
    if x >= 0 then x else -x
  }

  /** The integer part of `a / b` rounded toward zero, as `Math.trunc(a / b)`. */
  function JsQuotient(a: int, b: int): int
    requires b != 0
  {
    var q := Abs(a) / Abs(b);
    if (a >= 0) == (b > 0) then q else -q
  }

  /** `a % b`: the remainder of division truncated toward zero, so it takes the sign of the
      dividend (`-1 % 5` is `-1`, where Dafny's Euclidean `%` gives `4`). */
  function JsRemainder(a: int, b: int): int
    requires b != 0
  {
    var m := Abs(a) % Abs(b);
    if a >= 0 then m else -m
  }

  /** The remainder completes the truncated division, is smaller in size than the divisor and
      never has the opposite sign of the dividend. */
  lemma JsDivision(a: int, b: int)
    requires b != 0
    ensures a == JsQuotient(a, b) * b + JsRemainder(a, b)
    ensures Abs(JsRemainder(a, b)) < Abs(b)
    ensures a >= 0 ==> JsRemainder(a, b) >= 0
    ensures a < 0 ==> JsRemainder(a, b) <= 0
  {
    var q, m := Abs(a) / Abs(b), Abs(a) % Abs(b);
    assert Abs(a) == q * Abs(b) + m;
    if b < 0 {
      assert q * Abs(b) == -(q * b);
    }
  }

  /** On a non-negative dividend and a positive divisor JavaScript's and Dafny's remainders agree. */
  lemma JsRemainderNonNegative(a: int, b: int)
    requires a >= 0 && b > 0
    ensures JsRemainder(a, b) == a % b
  {
  }

  /** A non-zero multiple of `m` is at least `m` in size. */
  lemma MultipleSize(k: int, m: int)
    requires m > 0
    ensures k >= 1 ==> k * m >= m
    ensures k <= -1 ==> k * m <= -m
  {
    if k >= 1 {
      assert k * m == (k - 1) * m + m;
    } else if k <= -1 {
      assert k * m == (k + 1) * m - m;
    }
  }

  /** Euclidean division has one quotient and remainder: whatever writes `a` as `q * m + r`
      with `0 <= r < m` gives Dafny's `a % m`. */
  lemma ModUnique(a: int, m: int, q: int, r: int)
    requires m > 0 && 0 <= r < m && a == q * m + r
    ensures a % m == r
  {
    var q0, r0 := a / m, a % m;
    assert (q - q0) * m == r0 - r;
    MultipleSize(q - q0, m);
  }
}

/** The parts of C#'s 32-bit `int` arithmetic that differ from Dafny's
    unbounded, Euclidean `int`: unchecked two's-complement wrap-around, and
    division and remainder that truncate toward zero. */
module CSharpInt {

  /** `int.MinValue <= x <= int.MaxValue`. */
  predicate InInt32(x: int) {
    -0x8000_0000 <= x <= 0x7FFF_FFFF
  }

  function Abs(x: int): nat {
    if x < 0 then -x else x
  }

  /** The value an unchecked C# `int` operation yields when the exact
      mathematical result is `x`. */
  function Wrap32(x: int): (r: int)
    ensures InInt32(r)
    ensures InInt32(x) ==> r == x
  {
    (x + 0x8000_0000) % 0x1_0000_0000 - 0x8000_0000
  }

  /** Wrap32 keeps the value modulo 2^32. */
  lemma Wrap32Congruent(x: int)
    ensures (x - Wrap32(x)) % 0x1_0000_0000 == 0
  {
    var q := (x + 0x8000_0000) / 0x1_0000_0000;
    assert x - Wrap32(x) == 0x1_0000_0000 * q;
    MultipleHasNoRemainder(x - Wrap32(x), 0x1_0000_0000, q);
  }

  /** C#'s integer `/`: the quotient of the magnitudes, negated when the
      operands' signs differ, so it rounds toward zero. */
  function TruncDiv(a: int, b: int): (q: int)
    requires b != 0
    ensures a >= 0 && b > 0 ==> q == a / b
  {
    if b > 0 then
      if a >= 0 then a / b else -((-a) / b)
    else
      if a >= 0 then -(a / -b) else (-a) / -b
  }

  /** C#'s integer `%`: the remainder of the magnitudes, carrying the sign
      of the dividend. */
  function TruncRem(a: int, b: int): (r: int)
    requires b != 0
    ensures a >= 0 && b > 0 ==> r == a % b
    ensures a < 0 && b > 0 ==> -b < r <= 0 && (r == 0 <==> a % b == 0)
  {
    NegatedRemainder(a, b);
    if b > 0 then
      if a >= 0 then a % b else -((-a) % b)
    else
      if a >= 0 then a % -b else -((-a) % -b)
  }

  /** TruncDiv and TruncRem are C#'s pair: `a == b * q + r`, the remainder
      is smaller than the divisor in magnitude, and it is never of the
      opposite sign to the dividend. */
  lemma TruncDivision(a: int, b: int)
    requires b != 0
    ensures a == b * TruncDiv(a, b) + TruncRem(a, b)
    ensures Abs(TruncRem(a, b)) < Abs(b)
    ensures TruncRem(a, b) == 0 || (TruncRem(a, b) < 0 <==> a < 0)
  {
    if b > 0 {
      TruncDivisionByPositive(a, b);
    } else {
      var q := TruncDiv(a, -b);
      TruncDivisionByPositive(a, -b);
      assert TruncDiv(a, b) == -q && TruncRem(a, b) == TruncRem(a, -b);
      assert b * -q == -b * q;
    }
  }

  lemma TruncDivisionByPositive(a: int, b: int)
    requires b > 0
    ensures a == b * TruncDiv(a, b) + TruncRem(a, b)
    ensures -b < TruncRem(a, b) < b
    ensures TruncRem(a, b) == 0 || (TruncRem(a, b) < 0 <==> a < 0)
  {
    if a < 0 {
      var n := -a;
      assert n == b * (n / b) + n % b;
      assert TruncDiv(a, b) == -(n / b) && TruncRem(a, b) == -(n % b);
      assert b * -(n / b) == -(b * (n / b));
    }
  }

  /** For a negative dividend and positive divisor, the remainder of the
      magnitude vanishes exactly when the Euclidean remainder does. */
  lemma NegatedRemainder(a: int, b: int)
    requires b != 0
    ensures a < 0 && b > 0 ==> ((-a) % b == 0 <==> a % b == 0)
  {
    if a < 0 && b > 0 {
      var n := -a;
      if n % b == 0 {
        assert n == b * (n / b);
        MultipleHasNoRemainder(a, b, -(n / b));
      }
      if a % b == 0 {
        assert a == b * (a / b);
        MultipleHasNoRemainder(n, b, -(a / b));
      }
    }
  }

  lemma MultipleHasNoRemainder(x: int, b: int, k: int)
    requires b > 0 && x == b * k
    ensures x % b == 0
  {
    var d := k - x / b;
    assert b * d == x % b;
    MultipleOutsideBand(b, d);
  }

  /** Euclidean division is unique: any `q`, `r` with `a == b * q + r` and
      `0 <= r < b` are Dafny's quotient and remainder. */
  lemma EuclideanUnique(a: int, b: int, q: int, r: int)
    requires b > 0 && a == b * q + r && 0 <= r < b
    ensures a / b == q && a % b == r
  {
    var d := q - a / b;
    assert b * d == a % b - r;
    MultipleOutsideBand(b, d);
  }

  /** A non-zero multiple of a positive `b` lies outside the band (-b, b). */
  lemma MultipleOutsideBand(b: int, d: int)
    requires b > 0
    ensures d >= 1 ==> b * d >= b
    ensures d <= -1 ==> b * d <= -b
  {
  }
}

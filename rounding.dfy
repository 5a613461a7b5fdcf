/**
 * The two numeric conversions the item model relies on, stated on exact reals:
 * Ruby's `Float#round(2)`, which rounds to the nearest hundredth and sends a tie
 * away from zero, and ActiveModel's integer type cast, which truncates toward zero.
 */
module Rounding {

  /** `x` is a whole number of hundredths (a price in cents). */
  predicate IsCents(x: real) {
    (x * 100.0).Floor as real == x * 100.0
  }

  /** `x` is a whole number. */
  predicate IsWhole(x: real) {
    x.Floor as real == x
  }

  /**
   * `x.round(2)`: the multiple of 0.01 nearest to `x`; on a tie the one farther
   * from zero. The two windows below single the result out: each is half-open and
   * exactly one hundredth wide.
   */
  function Round2(x: real): (r: real)
    ensures IsCents(r)
    ensures x >= 0.0 ==> 0.0 <= r && x - 0.005 < r <= x + 0.005
    ensures x < 0.0 ==> r <= 0.0 && x - 0.005 <= r < x + 0.005
  {
    if x >= 0.0 then
      var k := (x * 100.0 + 0.5).Floor;
      Hundredths(x, k);
      k as real / 100.0
    else
      var k := (-x * 100.0 + 0.5).Floor;
      Hundredths(-x, k);
      (-k) as real / 100.0
  }

  /** `k` hundredths, with `k` the integer part of `100 * y + 0.5`, lie within half a hundredth of `y`. */
  lemma Hundredths(y: real, k: int)
    requires k as real <= y * 100.0 + 0.5 < k as real + 1.0
    ensures IsCents(k as real / 100.0) && IsCents((-k) as real / 100.0)
    ensures y - 0.005 < k as real / 100.0 <= y + 0.005
    ensures (-k) as real / 100.0 == -(k as real / 100.0)
  {
    assert (k as real / 100.0) * 100.0 == k as real;
    assert ((-k) as real / 100.0) * 100.0 == (-k) as real;
  }

  /** Any multiple of 0.01 lying in the rounding window of `x` is `Round2(x)`. */
  lemma Round2Unique(x: real, c: real)
    requires IsCents(c)
    requires x >= 0.0 ==> x - 0.005 < c <= x + 0.005
    requires x < 0.0 ==> x - 0.005 <= c < x + 0.005
    ensures Round2(x) == c
  {
    var r := Round2(x);
    var m, n := (r * 100.0).Floor, (c * 100.0).Floor;
    assert m as real == r * 100.0 && n as real == c * 100.0;
    assert -1.0 < (m - n) as real < 1.0;
  }

  /** Rounding leaves a value that is already in cents unchanged. */
  lemma Round2OfCents(c: real)
    requires IsCents(c)
    ensures Round2(c) == c
  {
    Round2Unique(c, c);
  }

  /** Rounding never reverses the order of two values. */
  lemma Round2Monotone(x: real, y: real)
    requires x <= y
    ensures Round2(x) <= Round2(y)
  {
    if x >= 0.0 {
      assert (x * 100.0 + 0.5).Floor <= (y * 100.0 + 0.5).Floor;
    } else if y < 0.0 {
      assert (-y * 100.0 + 0.5).Floor <= (-x * 100.0 + 0.5).Floor;
    }
  }

  /**
   * ActiveModel's integer cast of a numeric value (`value.to_i`): the whole part,
   * truncated toward zero.
   */
  function TruncateToInt(x: real): (r: int)
    ensures x >= 0.0 ==> 0 <= r && r as real <= x < r as real + 1.0
    ensures x < 0.0 ==> r <= 0 && r as real - 1.0 < x <= r as real
    ensures IsWhole(x) ==> r as real == x
  {
    if x >= 0.0 then x.Floor
    else
      var k := (-x).Floor;
      assert IsWhole(x) ==> k as real == -x by {
        if IsWhole(x) { assert (-x.Floor) as real == -x; }
      }
      -k
  }
}

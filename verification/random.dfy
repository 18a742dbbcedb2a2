/**
 * The game's source of randomness. Every call of `Math.random()` becomes a parameter of
 * type `RandomValue`, a number in [0, 1); `randInt` turns one such draw into an integer range.
 */
module Random {

  /** A value that `Math.random()` can return. */
  type RandomValue = u: real | 0.0 <= u < 1.0

  /** `randInt(min, max)`: scales one draw onto the inclusive range [lo, hi]. */
  function RandInt(lo: int, hi: int, u: RandomValue): (r: int)
    requires lo <= hi
    ensures lo <= r <= hi
  {
    var span := hi - lo + 1;
    assert u * span as real < span as real by {
      assert (1.0 - u) * span as real > 0.0;
    }
    (u * span as real).Floor + lo
  }

  /** Every integer of the range is produced by some draw: the range is exactly [lo, hi]. */
  lemma RandIntCovers(lo: int, hi: int, r: int)
    requires lo <= r <= hi
    ensures exists u: RandomValue :: RandInt(lo, hi, u) == r
  {
    var span := hi - lo + 1;
    var u: real := (r - lo) as real / span as real;
    assert u * span as real == (r - lo) as real;
    assert 0.0 <= u < 1.0;
    assert RandInt(lo, hi, u) == r;
  }

}

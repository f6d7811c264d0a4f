/** The pack carousel's slide index and `goToSlide`'s wrap-around. */
module Carousel {

  /** `CAROUSEL_PACKS.length` */
  const SlideCount: nat := 6

  /** Euclidean division as Dafny defines it: `a` is `b * (a / b) + a % b` with `0 <= a % b < b`. */
  lemma DivMod(a: int, b: int)
    requires b > 0
    ensures a == b * (a / b) + a % b && 0 <= a % b < b
  {
  }

  lemma MulAtLeast(b: int, d: int)
    requires b > 0 && d >= 1
    ensures b * d >= b
  {
  }

  /** The remainder in `[0, b)` of a division of `a` by `b` is unique. */
  lemma RemainderUnique(a: int, b: int, q: int, r: int)
    requires b > 0 && 0 <= r < b && a == b * q + r
    ensures a % b == r
  {
    DivMod(a, b);
    var q' := a / b;
    if q > q' { assert b * q - b * q' == b * (q - q'); MulAtLeast(b, q - q'); }
    if q < q' { assert b * q' - b * q == b * (q' - q); MulAtLeast(b, q' - q); }
  }

  /**
   * JavaScript's `a % b` for a positive `b`: `a` minus a multiple of `b`,
   * carrying the sign of `a` (toward-zero division).
   */
  function JsRem(a: int, b: int): (r: int)
    requires b > 0
    ensures a >= 0 ==> 0 <= r < b
    ensures a < 0 ==> -b < r <= 0
    ensures (a - r) % b == 0
  {
    if a >= 0 then
      DivMod(a, b);
      RemainderUnique(a - a % b, b, a / b, 0);
      a % b
    else
      DivMod(-a, b);
      var m := (-a) % b;
      assert a + m == b * (-((-a) / b));
      RemainderUnique(a + m, b, -((-a) / b), 0);
      -m
  }

  /** Two truncating remainders in a row leave the Euclidean remainder. */
  lemma WrapSteps(i: int, len: int, inner: int, r: int)
    requires len > 0
    requires (i - inner) % len == 0 && (inner + len - r) % len == 0
    requires 0 <= r < len
    ensures r == i % len
  {
    DivMod(i - inner, len);
    DivMod(inner + len - r, len);
    var k1 := (i - inner) / len;
    var k2 := (inner + len - r) / len;
    assert i - inner == len * k1;
    assert inner + len - r == len * k2;
    assert len * k1 + len * k2 - len == len * (k1 + k2 - 1);
    RemainderUnique(i, len, k1 + k2 - 1, r);
  }

  /** `((i % len) + len) % len` with JavaScript's `%`. */
  function WrapIndex(i: int, len: int): (r: int)
    requires len > 0
    ensures 0 <= r < len
    ensures r == i % len
  {
    var inner := JsRem(i, len);
    var r := JsRem(inner + len, len);
    WrapSteps(i, len, inner, r);
    r
  }

  /** The wrapped index differs from `i` by a whole number of laps. */
  lemma WrapIndexCongruent(i: int, len: int)
    requires len > 0
    ensures i == len * (i / len) + WrapIndex(i, len)
  {
    DivMod(i, len);
  }

  /** An index already in range is kept. */
  lemma InRangeKept(i: int, len: int)
    requires len > 0 && 0 <= i < len
    ensures WrapIndex(i, len) == i
  {
    RemainderUnique(i, len, 0, i);
  }

  /** Stepping left from the first slide lands on the last; stepping right from the last lands on the first. */
  lemma StepsWrap(len: int)
    requires len > 0
    ensures WrapIndex(0 - 1, len) == len - 1
    ensures WrapIndex(len - 1 + 1, len) == 0
  {
    RemainderUnique(-1, len, -1, len - 1);
    RemainderUnique(len, len, 1, 0);
  }

  class Slideshow {
    /** `carouselIndex` */
    var index: int

    constructor ()
      ensures index == 0
    {
      index := 0;
    }

    /** `goToSlide(i)`: the slide `i` names, counted around the carousel. */
    method GoToSlide(i: int)
      modifies this
      ensures 0 <= index < SlideCount
      ensures index == WrapIndex(i, SlideCount)
    {
      index := WrapIndex(i, SlideCount);
    }
  }
}

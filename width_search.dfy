/**
 * `optimal_width` of visualize/visualize.py: the narrowest row width that
 * makes the layout at least as wide as it is tall.
 */
module WidthSearch {

  /** w is wide enough: a layout of `total` pixels in rows of w has at most w full rows. */
  predicate WideEnough(total: nat, w: nat)
    requires w >= 1
  {
    total / w <= w
  }

  /** w is the smallest width that is wide enough. */
  predicate IsSmallestWidth(total: nat, w: nat)
  {
    && w >= 1
    && WideEnough(total, w)
    && forall v :: 1 <= v < w ==> !WideEnough(total, v)
  }

  /** `optimal_width`: count up from 1 while the width is not wide enough. */
  method OptimalWidth(total: nat) returns (width: nat)
    ensures IsSmallestWidth(total, width)
    ensures width <= if total == 0 then 1 else total
  {
    width := 1;
    while total / width > width
      invariant 1 <= width
      invariant width <= if total == 0 then 1 else total
      invariant forall v :: 1 <= v < width ==> !WideEnough(total, v)
      decreases total - width
    {
      DivAtMost(total, width);
      width := width + 1;
    }
  }

  lemma DivAtMost(total: nat, w: nat)
    requires w >= 1
    ensures total / w <= total
  {
  }

  /** Once a width is wide enough, every larger width is too. */
  lemma WideEnoughUpward(total: nat, w: nat, v: nat)
    requires 1 <= w <= v && WideEnough(total, w)
    ensures WideEnough(total, v)
  {
    DivAntitone(total, w, v);
  }

  lemma DivAntitone(total: nat, w: nat, v: nat)
    requires 1 <= w <= v
    ensures total / v <= total / w
  {
    var q, p := total / v, total / w;
    assert q * v <= total;
    MulMonotone(w, v, q);
    assert q * w <= total;
    assert total == p * w + total % w && total % w < w;
    if q > p {
      MulMonotone(p + 1, q, w);
      assert false;
    }
  }

  /** There is only one smallest width, so the search result is determined by `total`. */
  lemma SmallestWidthUnique(total: nat, w1: nat, w2: nat)
    requires IsSmallestWidth(total, w1) && IsSmallestWidth(total, w2)
    ensures w1 == w2
  {
  }

  /** The smallest width is at least the integer square root, so the layout is near square. */
  lemma SmallestWidthNearSquare(total: nat, w: nat)
    requires IsSmallestWidth(total, w)
    ensures (w - 1) * (w - 1) < total || w == 1
    ensures total < (w + 1) * w
  {
    if w > 1 {
      assert !WideEnough(total, w - 1);
      assert total / (w - 1) >= w;
      assert total >= (total / (w - 1)) * (w - 1);
      MulMonotone(w, total / (w - 1), w - 1);
    }
    assert total == (total / w) * w + total % w;
    MulMonotone(total / w, w, w);
  }

  lemma MulMonotone(a: nat, b: nat, c: nat)
    requires a <= b
    ensures a * c <= b * c && c * a <= c * b
  {
  }

  /** Twelve pixels give width 4: 12 / 3 = 4 > 3 but 12 / 4 = 3 <= 4. */
  lemma TwelvePixels()
    ensures IsSmallestWidth(12, 4)
  {
  }

  /** No pixels still give width 1. */
  lemma NoPixels()
    ensures IsSmallestWidth(0, 1)
  {
  }
}

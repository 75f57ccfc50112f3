/** Positions seen from inside a subtree: their heights, and the way up to its
    root. */
module Ancestry {
  import opened Geometry

  lemma SubtreeSpan(r: nat)
    ensures Start(r) >= 0 && Start(r) + TreeSize(HeightAt(r)) - 1 == r
  {
    Children(r);
  }

  lemma SubtreeHalves(r: nat)
    requires HeightAt(r) > 0
    ensures var k := HeightAt(r);
            && r >= Pow2(k) && TreeSize(k) == 2 * TreeSize(k - 1) + 1
            && HeightAt(r - Pow2(k)) == HeightAt(r - 1) == k - 1
            && Start(r - Pow2(k)) == Start(r) && Start(r - 1) == Start(r) + TreeSize(k - 1)
  {
    Children(r);
    TreeSizeSplits(HeightAt(r));
    hide HeightAt, TreeSize, Pow2;
  }

  lemma HeightInLeft(k: nat, off: nat)
    requires k > 0 && off < TreeSize(k - 1)
    ensures off < TreeSize(k) && HeightIn(k, off) == HeightIn(k - 1, off)
  {
    TreeSizeSplits(k);
  }

  lemma HeightInRight(k: nat, off: nat)
    requires k > 0 && off < TreeSize(k - 1)
    ensures off + TreeSize(k - 1) < TreeSize(k) && HeightIn(k, off + TreeSize(k - 1)) == HeightIn(k - 1, off)
  {
    TreeSizeSplits(k);
  }

  lemma HeightInRoot(k: nat)
    ensures HeightIn(k, TreeSize(k) - 1) == k && TreeSize(0) == 1
  {
  }

  /** The height of a position is its height inside any subtree that holds it,
      wherever in the array that subtree starts. */
  lemma {:induction false} HeightInside(r: nat, off: nat)
    requires off < TreeSize(HeightAt(r))
    ensures Start(r) + off >= 0
    ensures HeightAt(Start(r) + off) == HeightIn(HeightAt(r), off)
    decreases HeightAt(r)
  {
    hide *;
    var k := HeightAt(r);
    SubtreeSpan(r);
    HeightInRoot(k);
    if off < TreeSize(k) - 1 {
      SubtreeHalves(r);
      var half := TreeSize(k - 1);
      if off < half {
        HeightInLeft(k, off);
        HeightInside(r - Pow2(k), off);
      } else {
        var o: nat := off - half;
        HeightInRight(k, o);
        HeightInside(r - 1, o);
      }
    }
  }

  /** `height` is the height of `pos` inside every subtree that holds it. */
  ghost predicate HeightEverywhere(pos: nat, height: nat) {
    forall r: nat :: Contains(r, pos) ==> HeightWithin(r, pos) == height
  }

  ghost function HeightWithin(r: nat, pos: nat): nat
    requires Contains(r, pos)
  {
    HeightIn(HeightAt(r), pos - Start(r))
  }

  lemma HeightAtEverywhere(pos: nat)
    ensures HeightEverywhere(pos, HeightAt(pos))
  {
    hide HeightAt, HeightIn, TreeSize;
    forall r: nat | Contains(r, pos) ensures HeightWithin(r, pos) == HeightAt(pos) {
      HeightInside(r, pos - Start(r));
    }
  }

  /** Every parent on the way lies inside the subtree. */
  lemma {:induction false} ParentsBelow(r: nat, t: nat)
    requires Contains(r, t)
    ensures forall j :: 0 <= j < |PathTo(r, t)| ==> PathTo(r, t)[j].parentPos <= r
    decreases HeightAt(r)
  {
    if r == t {
      PathToSelf(r);
    } else {
      PathToUnfold(r, t);
      Children(r);
      var left := r - Pow2(HeightAt(r));
      ParentsBelow(if t <= left then left else r - 1, t);
    }
  }
}

/** The flat-array layout of a Merkle Mountain Range.

    Nodes are stored in post-order: a perfect tree of height `h` occupies
    `TreeSize(h)` consecutive positions with its root last.  The height of a
    position does not depend on how far the array has grown, so every question
    about mountains and subtrees becomes a question about one global function,
    `HeightAt`, and about intervals of positions. */
module Geometry {

  datatype Option<+T> = None | Some(value: T)

  function Pow2(n: nat): (p: nat)
    ensures p >= 1
  {
    if n == 0 then 1 else 2 * Pow2(n - 1)
  }

  lemma Pow2Monotone(m: nat, n: nat)
    requires m <= n
    ensures Pow2(m) <= Pow2(n)
    decreases n
  {
    if m < n {
      Pow2Monotone(m, n - 1);
    }
  }

  lemma Pow2Doubles(n: nat)
    ensures Pow2(n + 1) == 2 * Pow2(n)
  {
  }

  lemma Pow2Exceeds(n: nat)
    ensures n < Pow2(n)
  {
  }

  /** Number of nodes of a perfect tree of height `h`. */
  function TreeSize(h: nat): (n: nat)
    ensures n >= 1
  {
    Pow2(h + 1) - 1
  }

  lemma TreeSizeMonotone(g: nat, h: nat)
    requires g <= h
    ensures TreeSize(g) <= TreeSize(h)
    ensures g < h ==> 2 * TreeSize(g) < TreeSize(h)
  {
    Pow2Monotone(g + 1, h + 1);
    if g < h {
      Pow2Monotone(g + 2, h + 1);
    }
  }

  // ---------------------------------------------------------------- heights

  /** Height of the node at offset `off` of a perfect tree of height `k`. */
  function HeightIn(k: nat, off: nat): (h: nat)
    requires off < TreeSize(k)
    ensures h <= k
  {
    if off == TreeSize(k) - 1 then k
    else if off < Pow2(k) - 1 then HeightIn(k - 1, off)
    else HeightIn(k - 1, off - (Pow2(k) - 1))
  }

  /** Height of a position of the unbounded array. */
  function HeightAt(pos: nat): (h: nat)
  {
    Pow2Exceeds(pos);
    HeightIn(pos, pos)
  }

  /** Any perfect tree that starts at position 0 and is large enough gives the
      same height. */
  lemma HeightInStable(k: nat, j: nat, off: nat)
    requires k <= j && off < TreeSize(k)
    ensures off < TreeSize(j) && HeightIn(j, off) == HeightIn(k, off)
    decreases j
  {
    TreeSizeMonotone(k, j);
    if k < j {
      TreeSizeMonotone(k, j - 1);
      HeightInStable(k, j - 1, off);
    }
  }

  lemma HeightAtIn(k: nat, pos: nat)
    requires pos < TreeSize(k)
    ensures HeightAt(pos) == HeightIn(k, pos)
  {
    Pow2Exceeds(pos);
    if k <= pos {
      HeightInStable(k, pos, pos);
    } else {
      HeightInStable(pos, k, pos);
    }
  }

  /** First position of the subtree rooted at `r`. */
  function Start(r: nat): int {
    r - TreeSize(HeightAt(r)) + 1
  }

  /** Position `t` lies in the subtree rooted at `r`. */
  predicate Contains(r: nat, t: nat) {
    Start(r) <= t <= r
  }

  lemma ChildrenIn(k: nat, off: nat)
    requires off < TreeSize(k)
    ensures off + 1 >= TreeSize(HeightIn(k, off))
    ensures HeightIn(k, off) > 0 ==>
              var h := HeightIn(k, off);
              && off >= Pow2(h)
              && HeightIn(k, off - 1) == h - 1
              && HeightIn(k, off - Pow2(h)) == h - 1
  {
    var h := HeightIn(k, off);
    if off == TreeSize(k) - 1 {
    } else if off < Pow2(k) - 1 {
      ChildrenIn(k - 1, off);
    } else {
      ChildrenIn(k - 1, off - (Pow2(k) - 1));
    }
  }

  /** A node of height `h > 0` at `r` has children of height `h - 1` at `r - 1`
      and at `r - 2^h`, and its subtree does not reach below position 0. */
  lemma Children(r: nat)
    ensures Start(r) >= 0
    ensures HeightAt(r) > 0 ==>
              var h := HeightAt(r);
              && r >= Pow2(h)
              && HeightAt(r - 1) == h - 1
              && HeightAt(r - Pow2(h)) == h - 1
              && Start(r - Pow2(h)) == Start(r)
              && Start(r - 1) == r - Pow2(h) + 1
  {
    hide Pow2, HeightIn, HeightAt, TreeSize;
    var h := HeightAtFits(r);
    ChildrenIn(r, r);
    if h > 0 {
      HeightAtIn(r, r - 1);
      HeightAtIn(r, r - Pow2(h));
      TreeSizeSplits(h);
    }
  }

  lemma HeightAtFits(r: nat) returns (h: nat)
    ensures r < TreeSize(r) && h == HeightAt(r) == HeightIn(r, r)
  {
    Pow2Exceeds(r);
    h := HeightAt(r);
  }

  lemma TreeSizeSplits(h: nat)
    requires h > 0
    ensures TreeSize(h) == 2 * TreeSize(h - 1) + 1
    ensures TreeSize(h - 1) == Pow2(h) - 1
  {
  }

  /** Subtrees nest: whatever lies in the subtree of `r` brings its own whole
      subtree along, and only `r` itself has full height. */
  lemma {:induction false} Nested(r: nat, t: nat)
    requires Contains(r, t)
    ensures Start(r) <= Start(t)
    ensures HeightAt(t) <= HeightAt(r)
    ensures HeightAt(t) == HeightAt(r) <==> t == r
    decreases HeightAt(r)
  {
    Children(r);
    var h := HeightAt(r);
    if t != r && h > 0 {
      Nested(if t <= r - Pow2(h) then r - Pow2(h) else r - 1, t);
    }
  }

  // ------------------------------------------------------------------ paths

  datatype Step = Step(siblingPos: nat, targetIsRight: bool, parentPos: nat)

  /** Bottom-up sibling path from `t` to the root `r` of height `h`. */
  function Path(r: nat, h: nat, t: nat): seq<Step>
    requires r + 1 >= TreeSize(h)
  {
    if h == 0 || r == t then []
    else
      var left := r - Pow2(h);
      if t <= left then Path(left, h - 1, t) + [Step(r - 1, false, r)]
      else Path(r - 1, h - 1, t) + [Step(left, true, r)]
  }

  /** The path inside the subtree of `r`. */
  function PathTo(r: nat, t: nat): seq<Step> {
    Children(r);
    Path(r, HeightAt(r), t)
  }

  lemma PathUnfold(r: nat, h: nat, t: nat)
    requires h > 0 && r != t && r + 1 >= TreeSize(h)
    ensures r >= Pow2(h) && r - Pow2(h) + 1 >= TreeSize(h - 1) && r >= TreeSize(h - 1)
    ensures var left := r - Pow2(h);
            Path(r, h, t) ==
            if t <= left then Path(left, h - 1, t) + [Step(r - 1, false, r)]
            else Path(r - 1, h - 1, t) + [Step(left, true, r)]
  {
    TreeSizeSplits(h);
  }

  lemma PathToUnfold(r: nat, t: nat)
    requires Contains(r, t) && r != t
    ensures HeightAt(r) > 0 && r >= Pow2(HeightAt(r))
    ensures var left := r - Pow2(HeightAt(r));
            if t <= left
            then Contains(left, t) && PathTo(r, t) == PathTo(left, t) + [Step(r - 1, false, r)]
            else Contains(r - 1, t) && PathTo(r, t) == PathTo(r - 1, t) + [Step(left, true, r)]
  {
    Children(r);
    var h := HeightAt(r);
    assert h > 0 by {
      Nested(r, t);
    }
    TreeSizeSplits(h);
    hide HeightAt, Pow2, TreeSize;
    PathUnfold(r, h, t);
  }

  /** A walk of steps from `t` up to `r`: each step joins the node reached so
      far with its sibling under their common parent. */
  predicate Climbs(path: seq<Step>, t: nat, r: nat)
    decreases |path|
  {
    if path == [] then t == r
    else
      var s := path[0];
      var h := HeightAt(t);
      && HeightAt(s.siblingPos) == h
      && HeightAt(s.parentPos) == h + 1
      && (if s.targetIsRight then s.siblingPos + Pow2(h + 1) == s.parentPos && t + 1 == s.parentPos
          else t + Pow2(h + 1) == s.parentPos && s.siblingPos + 1 == s.parentPos)
      && Climbs(path[1..], s.parentPos, r)
  }

  lemma {:induction false} ClimbsAppend(path: seq<Step>, t: nat, m: nat, s: Step)
    requires Climbs(path, t, m) && Climbs([s], m, s.parentPos)
    ensures Climbs(path + [s], t, s.parentPos)
    decreases |path|
  {
    if path != [] {
      assert (path + [s])[1..] == path[1..] + [s];
      ClimbsAppend(path[1..], path[0].parentPos, m, s);
    } else {
      assert path + [s] == [s];
    }
  }

  lemma LastStepClimbs(r: nat, left: nat)
    requires HeightAt(r) > 0 && left + Pow2(HeightAt(r)) == r
    ensures Climbs([Step(r - 1, false, r)], left, r)
    ensures Climbs([Step(left, true, r)], r - 1, r)
  {
    Children(r);
    assert [Step(r - 1, false, r)][1..] == [] && [Step(left, true, r)][1..] == [];
  }

  /** The path ends at its target, climbs one level a step, and its length is
      the difference of the heights. */
  lemma {:induction false} PathClimbs(r: nat, t: nat)
    requires Contains(r, t)
    ensures Climbs(PathTo(r, t), t, r)
    ensures |PathTo(r, t)| == HeightAt(r) - HeightAt(t)
    decreases HeightAt(r)
  {
    if r != t {
      PathToUnfold(r, t);
      Children(r);
      var left := r - Pow2(HeightAt(r));
      LastStepClimbs(r, left);
      var child := if t <= left then left else r - 1;
      PathClimbs(child, t);
      ClimbsAppend(PathTo(child, t), t, child, PathTo(r, t)[|PathTo(child, t)|]);
    } else {
      Children(r);
    }
  }

  lemma {:induction false} ClimbsUp(path: seq<Step>, t: nat, r: nat)
    requires Climbs(path, t, r)
    ensures t <= r && (t == r <==> path == [])
    decreases |path|
  {
    if path != [] {
      ClimbsUp(path[1..], path[0].parentPos, r);
    }
  }

  /** A node is a right child exactly when its parent comes next. */
  lemma StepSide(t: nat, s: Step)
    requires Climbs([s], t, s.parentPos)
    ensures s.targetIsRight <==> HeightAt(t + 1) == HeightAt(t) + 1
  {
    var h := HeightAt(t);
    Pow2Doubles(h);
    if !s.targetIsRight {
      assert Start(s.siblingPos) == t + 1;
      Nested(s.siblingPos, t + 1);
    }
  }

  lemma FirstStep(path: seq<Step>, t: nat, r: nat)
    requires path != [] && Climbs(path, t, r)
    ensures Climbs([path[0]], t, path[0].parentPos) && Climbs(path[1..], path[0].parentPos, r)
  {
    assert [path[0]][1..] == [];
  }

  lemma SameStep(t: nat, s: Step, u: Step)
    requires Climbs([s], t, s.parentPos) && Climbs([u], t, u.parentPos) && s.targetIsRight == u.targetIsRight
    ensures s == u
  {
  }

  lemma {:induction false} ClimbsUnique(p: seq<Step>, q: seq<Step>, t: nat, r: nat)
    requires Climbs(p, t, r) && Climbs(q, t, r)
    ensures p == q
    decreases |p|
  {
    ClimbsUp(p, t, r);
    ClimbsUp(q, t, r);
    if p != [] {
      FirstStep(p, t, r);
      FirstStep(q, t, r);
      hide Climbs;
      StepSide(t, p[0]);
      StepSide(t, q[0]);
      SameStep(t, p[0], q[0]);
      ClimbsUnique(p[1..], q[1..], p[0].parentPos, r);
      assert p == [p[0]] + p[1..] && q == [q[0]] + q[1..];
    }
  }

  /** The path is the only climb from the target to the root. */
  lemma PathExact(path: seq<Step>, r: nat, t: nat)
    requires Contains(r, t)
    ensures path == PathTo(r, t) <==> Climbs(path, t, r)
  {
    PathClimbs(r, t);
    hide PathTo, Climbs;
    if Climbs(path, t, r) {
      ClimbsUnique(path, PathTo(r, t), t, r);
    }
  }

  lemma PathToSelf(r: nat)
    ensures PathTo(r, r) == []
  {
    Children(r);
  }

  /** Path composition: climbing to an inner root `p` and then from `p` to `r`
      is the same walk as climbing to `r` directly. */
  lemma {:induction false} PathComposes(r: nat, p: nat, t: nat)
    requires Contains(r, p) && Contains(p, t)
    ensures Contains(r, t)
    ensures PathTo(r, t) == PathTo(p, t) + PathTo(r, p)
    decreases HeightAt(r)
  {
    hide Pow2, TreeSize, HeightAt, PathTo;
    Nested(r, p);
    if r == p {
      PathToSelf(r);
    } else {
      PathToUnfold(r, p);
      var left := r - Pow2(HeightAt(r));
      Children(r);
      if p <= left {
        PathComposes(left, p, t);
        PathToUnfold(r, t);
      } else {
        Nested(r - 1, p);
        PathComposes(r - 1, p, t);
        PathToUnfold(r, t);
      }
    }
  }

  // ---------------------------------------------------------- leaf counting

  function Popcount(n: nat): (c: nat)
  {
    if n == 0 then 0 else n % 2 + Popcount(n / 2)
  }

  lemma PopcountBound(n: nat)
    ensures Popcount(n) <= n
  {
  }

  /** Number of nodes of a range with `f` leaves. */
  function NodeCount(f: nat): nat {
    PopcountBound(f);
    2 * f - Popcount(f)
  }

  lemma PopcountTopBit(h: nat, g: nat)
    requires g < Pow2(h)
    ensures Popcount(Pow2(h) + g) == 1 + Popcount(g)
  {
    if h > 0 {
      PopcountTopBit(h - 1, g / 2);
      assert (Pow2(h) + g) % 2 == g % 2 && (Pow2(h) + g) / 2 == Pow2(h - 1) + g / 2;
    } else {
      assert Popcount(1) == 1 + Popcount(0);
    }
  }

  /** The top mountain of `2^h + g` leaves is a perfect tree; the rest is a
      range of `g` leaves. */
  lemma NodeCountTopBit(h: nat, g: nat)
    requires g < Pow2(h)
    ensures NodeCount(Pow2(h) + g) == TreeSize(h) + NodeCount(g)
  {
    PopcountTopBit(h, g);
  }

  lemma TopBit(f: nat) returns (h: nat, g: nat)
    requires f > 0
    ensures f == Pow2(h) + g && g < Pow2(h)
  {
    if f == 1 {
      h, g := 0, 0;
    } else {
      var h', g' := TopBit(f / 2);
      h, g := h' + 1, 2 * g' + f % 2;
    }
  }

  lemma {:induction false} NodeCountBound(f: nat, b: nat)
    requires f < Pow2(b)
    ensures NodeCount(f) < TreeSize(b)
    decreases f
  {
    if f > 0 {
      var h, g := TopBit(f);
      NodeCountTopBit(h, g);
      NodeCountBound(g, h);
      if b <= h {
        Pow2Monotone(b, h);
      }
      TreeSizeMonotone(h, b);
    }
  }

  lemma PopcountSucc(n: nat)
    ensures Popcount(n + 1) <= Popcount(n) + 1
  {
    if n % 2 == 1 {
      PopcountSucc(n / 2);
      assert (n + 1) / 2 == n / 2 + 1;
    } else {
      assert (n + 1) / 2 == n / 2;
    }
  }

  /** `NodeCount` is strictly increasing, so a node count determines the number
      of leaves. */
  lemma {:induction false} NodeCountIncreasing(f: nat, g: nat)
    ensures f < g <==> NodeCount(f) < NodeCount(g)
    ensures f == g <==> NodeCount(f) == NodeCount(g)
    decreases f + g
  {
    if f < g {
      PopcountSucc(g - 1);
      NodeCountIncreasing(f, g - 1);
    } else if g < f {
      PopcountSucc(f - 1);
      NodeCountIncreasing(f - 1, g);
    }
  }

  // ------------------------------------------------------------------ peaks

  lemma TopHeightExists(r: nat)
    requires r > 0
    ensures exists h: nat :: TreeSize(h) <= r < TreeSize(h + 1)
  {
    if r < 3 {
      assert TreeSize(0) <= r < TreeSize(0 + 1);
    } else {
      TopHeightExists((r - 1) / 2);
      var g: nat :| TreeSize(g) <= (r - 1) / 2 < TreeSize(g + 1);
      assert TreeSize(g + 1) <= r < TreeSize((g + 1) + 1);
    }
  }

  /** Largest `h` such that a perfect tree of height `h` fits in `r` nodes. */
  ghost function TopHeight(r: nat): (h: nat)
    requires r > 0
    ensures TreeSize(h) <= r < TreeSize(h + 1)
  {
    TopHeightExists(r);
    var h: nat :| TreeSize(h) <= r < TreeSize(h + 1);
    h
  }

  lemma TopHeightUnique(r: nat, h: nat)
    requires r > 0 && TreeSize(h) <= r < TreeSize(h + 1)
    ensures TopHeight(r) == h
  {
    var k := TopHeight(r);
    if k < h {
      TreeSizeMonotone(k + 1, h);
    } else if h < k {
      TreeSizeMonotone(h + 1, k);
    }
  }

  /** Greedy decomposition of `r` nodes, laid out from `offset`, into perfect
      trees of strictly decreasing height below `bound`; the positions of their
      roots, or `None` when two equal heights meet. */
  ghost function PeaksFrom(offset: nat, r: nat, bound: nat): Option<seq<nat>>
    decreases r
  {
    if r == 0 then Some([])
    else
      var h := TopHeight(r);
      if h >= bound then None
      else
        match PeaksFrom(offset + TreeSize(h), r - TreeSize(h), h)
        case None => None
        case Some(rest) => Some([offset + TreeSize(h) - 1] + rest)
  }

  /** Peak positions of a range of `size` nodes, if there is such a range. */
  ghost function PeaksOf(size: nat): Option<seq<nat>> {
    PeaksFrom(0, size, size + 1)
  }

  /** Number of leaves of the greedy decomposition. */
  ghost function LeavesIn(r: nat): nat {
    if r == 0 then 0 else Pow2(TopHeight(r)) + LeavesIn(r - TreeSize(TopHeight(r)))
  }

  /** The mountains under `ps` tile the positions `from .. to`. */
  predicate Tiles(ps: seq<nat>, from: nat, to: nat) {
    if ps == [] then from == to
    else Start(ps[0]) == from && from <= ps[0] < to && Tiles(ps[1..], ps[0] + 1, to)
  }

  predicate HeightsDecreaseBelow(ps: seq<nat>, bound: nat) {
    ps == [] || (HeightAt(ps[0]) < bound && HeightsDecreaseBelow(ps[1..], HeightAt(ps[0])))
  }

  function LeafSum(ps: seq<nat>): nat {
    if ps == [] then 0 else Pow2(HeightAt(ps[0])) + LeafSum(ps[1..])
  }

  /** Heights repeat from `offset` on, for as long as a tree of height `b` lasts. */
  ghost predicate Aligned(offset: nat, b: nat) {
    forall off: nat :: off < TreeSize(b) ==> SameHeight(offset, off)
  }

  ghost predicate SameHeight(offset: nat, off: nat) {
    HeightAt(offset + off) == HeightAt(off)
  }

  /** After a mountain of height `h < b` heights repeat again, now for as long
      as a tree of height `h` lasts. */
  lemma AlignedStep(offset: nat, b: nat, h: nat)
    requires Aligned(offset, b) && h < b
    ensures Aligned(offset + TreeSize(h), h)
    ensures HeightAt(offset + TreeSize(h) - 1) == h
  {
    TreeSizeMonotone(h, b);
    assert SameHeight(offset, TreeSize(h) - 1);
    HeightAtIn(h, TreeSize(h) - 1);
    var next := offset + TreeSize(h);
    forall off: nat | off < TreeSize(h)
      ensures SameHeight(next, off)
    {
      assert SameHeight(offset, TreeSize(h) + off);
      RightTwin(h, off);
      assert next + off == offset + (TreeSize(h) + off);
    }
  }

  /** Heights in the right half of a perfect tree repeat those of the left. */
  lemma RightTwin(h: nat, off: nat)
    requires off < TreeSize(h)
    ensures HeightAt(TreeSize(h) + off) == HeightAt(off)
  {
    HeightAtIn(h + 1, TreeSize(h) + off);
    HeightAtIn(h, off);
  }

  /** The shape of a peak list laid out from `offset`. */
  ghost predicate Shaped(ps: seq<nat>, offset: nat, r: nat, bound: nat) {
    Tiles(ps, offset, offset + r) && HeightsDecreaseBelow(ps, bound) && LeafSum(ps) == LeavesIn(r)
  }

  lemma ShapedCons(offset: nat, r: nat, bound: nat, rest: seq<nat>)
    requires r > 0 && TopHeight(r) < bound
    requires var n := TreeSize(TopHeight(r));
             HeightAt(offset + n - 1) == TopHeight(r) && Shaped(rest, offset + n, r - n, TopHeight(r))
    ensures Shaped([offset + TreeSize(TopHeight(r)) - 1] + rest, offset, r, bound)
  {
    var ps := [offset + TreeSize(TopHeight(r)) - 1] + rest;
    assert ps[1..] == rest;
  }

  lemma PeaksFromTop(offset: nat, r: nat, bound: nat)
    requires r > 0 && TopHeight(r) < bound
    ensures var n := TreeSize(TopHeight(r));
            var rest := PeaksFrom(offset + n, r - n, TopHeight(r));
            PeaksFrom(offset, r, bound) == if rest.None? then None else Some([offset + n - 1] + rest.value)
  {
  }

  lemma PeaksFromEnd(offset: nat, r: nat, bound: nat)
    requires r > 0 ==> TopHeight(r) >= bound
    ensures PeaksFrom(offset, r, bound).Some? ==> Shaped(PeaksFrom(offset, r, bound).value, offset, r, bound)
  {
  }

  lemma {:induction false} PeaksFromShape(offset: nat, r: nat, bound: nat)
    requires Aligned(offset, bound)
    ensures PeaksFrom(offset, r, bound).Some? ==> Shaped(PeaksFrom(offset, r, bound).value, offset, r, bound)
    decreases r
  {
    hide *;
    if r > 0 && TopHeight(r) < bound {
      var h := TopHeight(r);
      var n := TreeSize(h);
      PeaksFromTop(offset, r, bound);
      AlignedStep(offset, bound, h);
      PeaksFromShape(offset + n, r - n, h);
      var tail := PeaksFrom(offset + n, r - n, h);
      if tail.Some? {
        ShapedCons(offset, r, bound, tail.value);
      }
    } else {
      PeaksFromEnd(offset, r, bound);
    }
  }

  lemma PeaksFromUnfold(offset: nat, r: nat, bound: nat, h: nat)
    requires TreeSize(h) <= r < TreeSize(h + 1)
    ensures LeavesIn(r) == Pow2(h) + LeavesIn(r - TreeSize(h))
    ensures PeaksFrom(offset, r, bound).Some? <==>
            h < bound && PeaksFrom(offset + TreeSize(h), r - TreeSize(h), h).Some?
    ensures PeaksFrom(offset, r, bound).Some? ==>
              |PeaksFrom(offset, r, bound).value| == 1 + |PeaksFrom(offset + TreeSize(h), r - TreeSize(h), h).value|
  {
    TopHeightUnique(r, h);
  }

  lemma PeaksFromZero(offset: nat, bound: nat)
    ensures PeaksFrom(offset, 0, bound) == Some([])
    ensures NodeCount(0) == Popcount(0) == LeavesIn(0) == 0
  {
  }

  lemma {:induction false} PeaksFromNodeCount(offset: nat, f: nat, bound: nat)
    requires f < Pow2(bound)
    ensures PeaksFrom(offset, NodeCount(f), bound).Some?
    ensures |PeaksFrom(offset, NodeCount(f), bound).value| == Popcount(f)
    ensures LeavesIn(NodeCount(f)) == f
    decreases f
  {
    hide *;
    PeaksFromZero(offset, bound);
    if f > 0 {
      var h, g := TopBit(f);
      NodeCountTopBit(h, g);
      NodeCountBound(g, h);
      TreeSizeDoubles(h);
      if bound <= h {
        Pow2Monotone(bound, h);
      }
      PopcountTopBit(h, g);
      PeaksFromNodeCount(offset + TreeSize(h), g, h);
      PeaksFromUnfold(offset, NodeCount(f), bound, h);
    }
  }

  lemma {:induction false} PeaksFromIsNodeCount(offset: nat, r: nat, bound: nat)
    requires PeaksFrom(offset, r, bound).Some?
    ensures LeavesIn(r) < Pow2(bound) && NodeCount(LeavesIn(r)) == r
    decreases r
  {
    hide *;
    PeaksFromZero(offset, bound);
    if r > 0 {
      var h := TopHeight(r);
      PeaksFromUnfold(offset, r, bound, h);
      PeaksFromIsNodeCount(offset + TreeSize(h), r - TreeSize(h), h);
      NodeCountTopBit(h, LeavesIn(r - TreeSize(h)));
      Pow2Monotone(h + 1, bound);
      Pow2Doubles(h);
    }
  }

  lemma FromStart(bound: nat)
    ensures Aligned(0, bound)
  {
  }

  /** `PeaksOf` decides exactly the node counts; the peaks it finds tile the
      array with mountains of strictly decreasing height, one per set bit of
      the leaf count. */
  lemma PeaksDecide(size: nat)
    ensures PeaksOf(size).Some? <==> exists f: nat :: NodeCount(f) == size
    ensures PeaksOf(size).Some? ==>
              var ps := PeaksOf(size).value;
              && NodeCount(LeavesIn(size)) == size
              && |ps| == Popcount(LeavesIn(size))
              && Tiles(ps, 0, size)
              && HeightsDecreaseBelow(ps, size + 1)
              && LeafSum(ps) == LeavesIn(size)
  {
    hide NodeCount, Tiles, HeightsDecreaseBelow, LeafSum, PeaksFrom, LeavesIn, HeightAt;
    if PeaksOf(size).Some? {
      FromStart(size + 1);
      PeaksFromIsNodeCount(0, size, size + 1);
      PeaksFromNodeCount(0, LeavesIn(size), size + 1);
      PeaksFromShape(0, size, size + 1);
    }
    forall f: nat | NodeCount(f) == size
      ensures PeaksOf(size).Some?
    {
      PeaksOfNodeCount(f);
    }
  }

  /** Counting leaves inverts counting nodes. */
  lemma PeaksOfNodeCount(f: nat)
    ensures PeaksOf(NodeCount(f)).Some?
    ensures LeavesIn(NodeCount(f)) == f
  {
    PopcountBound(f);
    Pow2Exceeds(f);
    Pow2Monotone(f, NodeCount(f) + 1);
    PeaksFromNodeCount(0, f, NodeCount(f) + 1);
  }

  /** Mountains of strictly decreasing height below `bound` are together smaller
      than a tree of height `bound`. */
  lemma {:induction false} TilesShort(ps: seq<nat>, from: nat, to: nat, bound: nat)
    requires Tiles(ps, from, to) && HeightsDecreaseBelow(ps, bound)
    ensures from <= to < from + TreeSize(bound)
    decreases |ps|
  {
    if ps != [] {
      var h := HeightAt(ps[0]);
      TilesShort(ps[1..], ps[0] + 1, to, h);
      TreeSizeMonotone(h, bound);
      hide HeightAt, TreeSize, Tiles, HeightsDecreaseBelow;
    }
  }

  lemma FirstMountain(ps: seq<nat>, from: nat, to: nat, bound: nat)
    requires ps != [] && Tiles(ps, from, to) && HeightsDecreaseBelow(ps, bound)
    ensures var h := HeightAt(ps[0]);
            && h < bound && ps[0] == from + TreeSize(h) - 1 && ps[0] < to
            && Tiles(ps[1..], from + TreeSize(h), to) && HeightsDecreaseBelow(ps[1..], h)
  {
    hide HeightAt, TreeSize;
  }

  lemma {:induction false} PeaksFromUnique(ps: seq<nat>, offset: nat, r: nat, bound: nat)
    requires Tiles(ps, offset, offset + r) && HeightsDecreaseBelow(ps, bound)
    ensures PeaksFrom(offset, r, bound) == Some(ps)
    decreases |ps|
  {
    hide *;
    if ps == [] {
      NothingTiled(ps, offset, offset + r);
      PeaksFromZero(offset, bound);
    } else {
      FirstMountain(ps, offset, offset + r, bound);
      var h := HeightAt(ps[0]);
      var n := TreeSize(h);
      TilesShort(ps[1..], offset + n, offset + r, h);
      TreeSizeDoubles(h);
      TopHeightUnique(r, h);
      PeaksFromUnique(ps[1..], offset + n, r - n, h);
      PeaksFromTop(offset, r, bound);
      assert ps == [ps[0]] + ps[1..];
    }
  }

  lemma NothingTiled(ps: seq<nat>, from: nat, to: nat)
    requires ps == [] && Tiles(ps, from, to)
    ensures from == to
  {
  }

  /** The peaks are the only way to tile the array with mountains of strictly
      decreasing height. */
  lemma PeaksUnique(ps: seq<nat>, size: nat)
    ensures PeaksOf(size) == Some(ps) <==> Tiles(ps, 0, size) && HeightsDecreaseBelow(ps, size + 1)
  {
    PeaksDecide(size);
    hide Tiles, HeightsDecreaseBelow, PeaksFrom, LeafSum, LeavesIn, NodeCount, Popcount;
    if Tiles(ps, 0, size) && HeightsDecreaseBelow(ps, size + 1) {
      PeaksFromUnique(ps, 0, size, size + 1);
    }
  }

  // ------------------------------------------------------------ leaf layout

  /** After two mountains of equal height comes their parent. */
  lemma TwinParent(offset: nat, bound: nat, h: nat)
    requires Aligned(offset, bound) && h < bound
    ensures HeightAt(offset + 2 * TreeSize(h)) == h + 1
  {
    var top := 2 * TreeSize(h);
    TreeSizeMonotone(h + 1, bound);
    assert SameHeight(offset, top);
    HeightAtIn(h + 1, top);
  }

  lemma TreeSizeDoubles(h: nat)
    ensures TreeSize(h + 1) == 2 * TreeSize(h) + 1
  {
  }

  lemma FirstLeaf(offset: nat, bound: nat)
    requires Aligned(offset, bound)
    ensures HeightAt(offset) == 0
  {
    assert SameHeight(offset, 0);
  }

  lemma NoTwins(offset: nat, h: nat)
    ensures PeaksFrom(offset, TreeSize(h), h) == None
  {
    TopHeightUnique(TreeSize(h), h);
  }

  /** From an aligned offset, the next position holds a leaf exactly when the
      nodes before it split into mountains of distinct heights. */
  lemma {:induction false} LeafFrom(offset: nat, r: nat, bound: nat)
    requires Aligned(offset, bound) && r < TreeSize(bound)
    ensures HeightAt(offset + r) == 0 <==> PeaksFrom(offset, r, bound).Some?
    decreases r
  {
    hide Pow2, TreeSize, HeightAt, Aligned;
    if r == 0 {
      FirstLeaf(offset, bound);
    } else {
      var h := TopHeight(r);
      var rest := r - TreeSize(h);
      TreeSizeDoubles(h);
      if h >= bound {
        TreeSizeMonotone(bound, h);
      }
      if rest < TreeSize(h) {
        AlignedStep(offset, bound, h);
        LeafFrom(offset + TreeSize(h), rest, h);
        assert offset + TreeSize(h) + rest == offset + r;
      } else {
        TwinParent(offset, bound, h);
        NoTwins(offset + TreeSize(h), h);
      }
    }
  }

  /** `leafIndexToPos` is a bijection from leaf indices onto the positions of
      height 0. */
  lemma LeafPositions(pos: nat)
    ensures HeightAt(pos) == 0 <==> exists i: nat :: NodeCount(i) == pos
    ensures HeightAt(pos) == 0 ==> NodeCount(LeavesIn(pos)) == pos
  {
    Pow2Exceeds(pos);
    TreeSizeMonotone(pos, pos + 1);
    FromStart(pos + 1);
    LeafFrom(0, pos, pos + 1);
    PeaksDecide(pos);
  }

  lemma LeafPosition(i: nat)
    ensures HeightAt(NodeCount(i)) == 0
    ensures LeavesIn(NodeCount(i)) == i
  {
    LeafPositions(NodeCount(i));
    PeaksOfNodeCount(i);
  }

  // -------------------------------------------------------- containing peak

  /** Index of the first mountain that contains `pos`. */
  function ContainingIndex(ps: seq<nat>, pos: nat): Option<nat> {
    if ps == [] then None
    else if Contains(ps[0], pos) then Some(0)
    else
      match ContainingIndex(ps[1..], pos)
      case None => None
      case Some(i) => Some(i + 1)
  }

  /** Every position of the array lies in exactly one mountain, and that is the
      one found. */
  lemma {:induction false} ContainingIndexExact(ps: seq<nat>, from: nat, to: nat, pos: nat)
    requires Tiles(ps, from, to) && from <= pos < to
    ensures var i := ContainingIndex(ps, pos);
            && i.Some? && i.value < |ps|
            && forall j :: 0 <= j < |ps| ==> (Contains(ps[j], pos) <==> j == i.value)
    decreases |ps|
  {
    if Contains(ps[0], pos) {
      TilesAbove(ps[1..], ps[0] + 1, to);
    } else {
      ContainingIndexExact(ps[1..], ps[0] + 1, to, pos);
    }
  }

  lemma {:induction false} TilesAbove(ps: seq<nat>, from: nat, to: nat)
    requires Tiles(ps, from, to)
    ensures from <= to
    ensures forall j :: 0 <= j < |ps| ==> from <= Start(ps[j]) && ps[j] < to
    decreases |ps|
  {
    if ps != [] {
      TilesAbove(ps[1..], ps[0] + 1, to);
    }
  }
}

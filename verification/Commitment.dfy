/** The root commits to the log: to every leaf, to their order and to their
    number. */
module Commitment {
  import opened Geometry
  import opened Hashing
  import opened Proofs
  import opened Soundness
  import opened HonestLog

  /** Everything hashed to build the nodes of the range. */
  ghost function NodeInputs(H: Hash, leaves: seq<Digest>): set<Bytes> {
    set pos: nat | pos < NodeCount(|leaves|) :: NodePreimage(H, leaves, pos)
  }

  /** Everything hashed to build the range and its root at `m` leaves. */
  ghost function TreeInputs(H: Hash, leaves: seq<Digest>, m: nat): set<Bytes>
    requires FitsCap(leaves) && m <= |leaves|
  {
    NodeInputs(H, leaves) + BagInputs(H, PeaksAt(H, leaves, m))
  }

  lemma NodeInputKnown(H: Hash, leaves: seq<Digest>, pos: nat)
    requires pos < NodeCount(|leaves|)
    ensures NodePreimage(H, leaves, pos) in NodeInputs(H, leaves)
    ensures Node(H, leaves, pos) == H(NodePreimage(H, leaves, pos))
  {
    hide NodePreimage, NodeCount;
  }

  /** The preimage of a node has the shape its height calls for. */
  lemma NodePreimageUnfold(H: Hash, leaves: seq<Digest>, pos: nat)
    requires pos < NodeCount(|leaves|)
    ensures HeightAt(pos) == 0 ==>
              LeavesIn(pos) < |leaves| && NodePreimage(H, leaves, pos) == LeafPreimage(leaves[LeavesIn(pos)])
    ensures HeightAt(pos) > 0 ==>
              var left := pos - Pow2(HeightAt(pos));
              && left >= 0 && pos >= 1
              && NodePreimage(H, leaves, pos) == InteriorPreimage(Node(H, leaves, left), Node(H, leaves, pos - 1), pos)
    ensures |NodePreimage(H, leaves, pos)| == if HeightAt(pos) == 0 then 33 else 72
  {
    Children(pos);
    if HeightAt(pos) == 0 {
      LeafPositions(pos);
      NodeCountIncreasing(LeavesIn(pos), |leaves|);
    }
  }

  /** An honest proof hashes nothing that was not hashed to build the range. */
  lemma {:induction false} FoldInputsHonest(H: Hash, leaves: seq<Digest>, r: nat, t: nat)
    requires Contains(r, t) && r < NodeCount(|leaves|)
    ensures FoldInputs(H, Node(H, leaves, t), PathTo(r, t), SiblingNodes(H, leaves, r, t)) <= NodeInputs(H, leaves)
    decreases HeightAt(r)
  {
    if r == t {
      PathToSelf(r);
    } else {
      PathToUnfold(r, t);
      Children(r);
      SiblingNodesUnfold(H, leaves, r, t);
      var left := r - Pow2(HeightAt(r));
      var child := if t <= left then left else r - 1;
      FoldInputsHonest(H, leaves, child, t);
      FoldHonest(H, leaves, child, t);
      hide PathTo, SiblingNodes, Contains, Pow2, NodeInputs, HeightAt, Node, Fold;
      var step := if t <= left then Step(r - 1, false, r) else Step(left, true, r);
      var sib := Node(H, leaves, if t <= left then r - 1 else left);
      FoldAppend(H, Node(H, leaves, t), PathTo(child, t), [step], SiblingNodes(H, leaves, child, t), [sib]);
      FoldInputsOne(H, Node(H, leaves, child), step, sib);
      NodePreimageUnfold(H, leaves, r);
      NodeInputKnown(H, leaves, r);
    }
  }

  lemma FoldInputsOne(H: Hash, acc: Digest, step: Step, sib: Digest)
    ensures FoldInputs(H, acc, [step], [sib]) == {StepPreimage(acc, step, sib)}
  {
    assert [step][1..] == [] && [sib][1..] == [];
  }

  lemma HonestInclusionInputs(H: Hash, leaves: seq<Digest>, m: nat, i: nat)
    requires FitsCap(leaves) && i < m <= |leaves|
    ensures InclusionInputs(H, SizeAt(leaves, m), i, leaves[i], HonestInclusion(H, leaves, m, i)) <=
            TreeInputs(H, leaves, m)
  {
    var k := LeafMountain(leaves, m, i);
    LeafNode(H, leaves, i);
    LeafPosition(i);
    NodePreimageUnfold(H, leaves, NodeCount(i));
    NodeInputKnown(H, leaves, NodeCount(i));
    FoldInputsHonest(H, leaves, PeakList(SizeAt(leaves, m))[k], NodeCount(i));
    HonestProvenPeaks(H, leaves, m, i);
    hide PathTo, MountainOf, PeakList, SiblingNodes, Contains, Fold, Node, NodeCount, NodeInputs, FoldInputs, BagInputs,
         PeaksAt, ProvenPeaks;
  }

  /** An accepted consistency proof between the roots of two logs means that the
      old log is a prefix of the new one, or some of the byte strings hashed to
      build the two logs and to check the proof collide. */
  lemma ConsistencyMeansPrefix(H: Hash, olds: seq<Digest>, news: seq<Digest>, c: Consistency)
    requires FitsCap(olds) && FitsCap(news)
    requires Extends(H, RootAt(H, olds, |olds|), SizeAt(olds, |olds|), RootAt(H, news, |news|), SizeAt(news, |news|), c)
    ensures || olds <= news
            || CollisionIn(H, TreeInputs(H, olds, |olds|) + TreeInputs(H, news, |news|)
                              + ConsistencyInputs(H, SizeAt(olds, |olds|), SizeAt(news, |news|), c))
  {
    var a, b := SizeAt(olds, |olds|), SizeAt(news, |news|);
    NodeCountIncreasing(|olds|, |news|);
    var inputs := TreeInputs(H, olds, |olds|) + TreeInputs(H, news, |news|) + ConsistencyInputs(H, a, b, c);
    if !CollisionIn(H, inputs) {
      forall i: nat | i < |olds|
        ensures olds[i] == news[i]
      {
        SameLeaf(H, olds, news, c, i);
      }
    }
  }

  lemma SameLeaf(H: Hash, olds: seq<Digest>, news: seq<Digest>, c: Consistency, i: nat)
    requires FitsCap(olds) && FitsCap(news) && i < |olds| <= |news|
    requires Extends(H, RootAt(H, olds, |olds|), SizeAt(olds, |olds|), RootAt(H, news, |news|), SizeAt(news, |news|), c)
    ensures || olds[i] == news[i]
            || CollisionIn(H, TreeInputs(H, olds, |olds|) + TreeInputs(H, news, |news|)
                              + ConsistencyInputs(H, SizeAt(olds, |olds|), SizeAt(news, |news|), c))
  {
    var a, b := SizeAt(olds, |olds|), SizeAt(news, |news|);
    var p, q := HonestInclusion(H, olds, |olds|, i), HonestInclusion(H, news, |news|, i);
    InclusionComplete(H, olds, |olds|, i);
    InclusionComplete(H, news, |news|, i);
    AppendOnly(H, RootAt(H, olds, |olds|), a, RootAt(H, news, |news|), b, i, c, olds[i], p, news[i], q);
    HonestInclusionInputs(H, olds, |olds|, i);
    HonestInclusionInputs(H, news, |news|, i);
    hide TreeInputs, InclusionInputs, ConsistencyInputs, HonestInclusion, RootAt, Extends, Includes;
    CollisionMonotone(H, InclusionInputs(H, a, i, olds[i], p) + ConsistencyInputs(H, a, b, c)
                         + InclusionInputs(H, b, i, news[i], q),
                      TreeInputs(H, olds, |olds|) + TreeInputs(H, news, |news|) + ConsistencyInputs(H, a, b, c));
  }

  // ------------------------------------------------- one root, one log

  /** What a bagged suffix of peaks was hashed from: a node, or two digests. */
  ghost function TopPreimage(H: Hash, leaves: seq<Digest>, ps: seq<nat>): Bytes
    requires ps != [] && Within(ps, NodeCount(|leaves|))
  {
    if |ps| == 1 then NodePreimage(H, leaves, ps[0])
    else BagPreimage(Bag(H, NodesAt(H, leaves, ps[1..])), Node(H, leaves, ps[0]))
  }

  ghost function SuffixInputs(H: Hash, leaves: seq<Digest>, ps: seq<nat>): set<Bytes>
    requires Within(ps, NodeCount(|leaves|))
  {
    NodeInputs(H, leaves) + BagInputs(H, NodesAt(H, leaves, ps))
  }

  lemma TopPreimageKnown(H: Hash, leaves: seq<Digest>, ps: seq<nat>)
    requires ps != [] && Within(ps, NodeCount(|leaves|))
    ensures Bag(H, NodesAt(H, leaves, ps)) == H(TopPreimage(H, leaves, ps))
    ensures TopPreimage(H, leaves, ps) in SuffixInputs(H, leaves, ps)
    ensures |TopPreimage(H, leaves, ps)| == if |ps| > 1 then 64 else if HeightAt(ps[0]) == 0 then 33 else 72
    ensures |ps| > 1 ==> SuffixInputs(H, leaves, ps[1..]) <= SuffixInputs(H, leaves, ps)
  {
    var ds := NodesAt(H, leaves, ps);
    NodeInputKnown(H, leaves, ps[0]);
    NodePreimageUnfold(H, leaves, ps[0]);
    hide NodePreimage, NodeInputs, Node, NodeCount, HeightAt;
    if |ps| > 1 {
      BagFromLeft(H, ds);
      assert ds[1..] == NodesAt(H, leaves, ps[1..]);
    }
  }

  /** Equal nodes that start mountains at the same place are roots of the same
      mountain: an interior hash commits to its position. */
  lemma SamePeak(H: Hash, us: seq<Digest>, vs: seq<Digest>, p: nat, q: nat)
    requires FitsCap(us) && FitsCap(vs) && p < NodeCount(|us|) && q < NodeCount(|vs|)
    requires Start(p) == Start(q) && Node(H, us, p) == Node(H, vs, q)
    ensures p == q || CollisionIn(H, NodeInputs(H, us) + NodeInputs(H, vs))
  {
    NodeInputKnown(H, us, p);
    NodeInputKnown(H, vs, q);
    if NodePreimage(H, us, p) == NodePreimage(H, vs, q) {
      SamePreimagePosition(H, us, vs, p, q);
    }
    hide NodePreimage, NodeInputs, Node, NodeCount, HeightAt, Pow2, Start;
  }

  lemma SamePreimagePosition(H: Hash, us: seq<Digest>, vs: seq<Digest>, p: nat, q: nat)
    requires FitsCap(us) && FitsCap(vs) && p < NodeCount(|us|) && q < NodeCount(|vs|)
    requires Start(p) == Start(q) && NodePreimage(H, us, p) == NodePreimage(H, vs, q)
    ensures p == q
  {
    hide *;
    FitsCapMeans(us);
    FitsCapMeans(vs);
    NodePreimageUnfold(H, us, p);
    NodePreimageUnfold(H, vs, q);
    if HeightAt(p) == 0 {
      LeafStart(p);
      LeafStart(q);
    } else {
      PreimagePosition(Node(H, us, p - Pow2(HeightAt(p))), Node(H, us, p - 1), p,
                       Node(H, vs, q - Pow2(HeightAt(q))), Node(H, vs, q - 1), q);
    }
  }

  lemma FitsCapMeans(leaves: seq<Digest>)
    ensures FitsCap(leaves) <==> NodeCount(|leaves|) < 0x4_0000_0000_0000
  {
  }

  lemma LeafStart(p: nat)
    requires HeightAt(p) == 0
    ensures Start(p) == p
  {
  }

  lemma TilesFirst(ps: seq<nat>, from: nat, to: nat)
    requires Tiles(ps, from, to)
    ensures ps == [] <==> from == to
    ensures ps != [] ==> Start(ps[0]) == from && Tiles(ps[1..], ps[0] + 1, to)
    ensures |ps| == 1 ==> ps[0] + 1 == to
  {
  }

  /** Two bagged suffixes with the same root and the same start begin with the
      same mountain, and go on alike. */
  lemma SameFirst(H: Hash, us: seq<Digest>, vs: seq<Digest>, ps: seq<nat>, qs: seq<nat>)
    requires FitsCap(us) && FitsCap(vs)
    requires Within(ps, NodeCount(|us|)) && Within(qs, NodeCount(|vs|)) && ps != [] && qs != []
    requires Start(ps[0]) == Start(qs[0])
    requires TopPreimage(H, us, ps) == TopPreimage(H, vs, qs)
    ensures ps[0] == qs[0] || CollisionIn(H, NodeInputs(H, us) + NodeInputs(H, vs))
    ensures |ps| == 1 <==> |qs| == 1
    ensures |ps| > 1 ==> Bag(H, NodesAt(H, us, ps[1..])) == Bag(H, NodesAt(H, vs, qs[1..]))
  {
    TopPreimageKnown(H, us, ps);
    TopPreimageKnown(H, vs, qs);
    NodeInputKnown(H, us, ps[0]);
    NodeInputKnown(H, vs, qs[0]);
    hide NodePreimage, NodeInputs, Node, NodeCount, HeightAt, Start, Bag, BagInputs, NodesAt, SuffixInputs;
    if |ps| > 1 {
      PreimagesInjective(Bag(H, NodesAt(H, us, ps[1..])), Node(H, us, ps[0]), 0,
                         Bag(H, NodesAt(H, vs, qs[1..])), Node(H, vs, qs[0]), 0);
    }
    SamePeak(H, us, vs, ps[0], qs[0]);
  }

  lemma SuffixInputsCover(H: Hash, us: seq<Digest>, vs: seq<Digest>, ps: seq<nat>, qs: seq<nat>)
    requires Within(ps, NodeCount(|us|)) && Within(qs, NodeCount(|vs|)) && ps != [] && qs != []
    ensures var inputs := SuffixInputs(H, us, ps) + SuffixInputs(H, vs, qs);
            && NodeInputs(H, us) + NodeInputs(H, vs) <= inputs
            && TopPreimage(H, us, ps) in inputs && TopPreimage(H, vs, qs) in inputs
            && (|ps| > 1 && |qs| > 1 ==> SuffixInputs(H, us, ps[1..]) + SuffixInputs(H, vs, qs[1..]) <= inputs)
  {
    TopPreimageKnown(H, us, ps);
    TopPreimageKnown(H, vs, qs);
    hide NodePreimage, NodeInputs, Node, NodeCount, HeightAt, BagInputs, NodesAt, TopPreimage;
  }

  /** Two tilings from the same place with the same bagged root end at the same
      place. */
  lemma {:induction false} SameExtent(H: Hash, us: seq<Digest>, vs: seq<Digest>, ps: seq<nat>, qs: seq<nat>,
                                      from: nat, to: nat, to': nat)
    requires FitsCap(us) && FitsCap(vs)
    requires Within(ps, NodeCount(|us|)) && Within(qs, NodeCount(|vs|)) && ps != [] && qs != []
    requires Tiles(ps, from, to) && Tiles(qs, from, to')
    requires Bag(H, NodesAt(H, us, ps)) == Bag(H, NodesAt(H, vs, qs))
    ensures to == to' || CollisionIn(H, SuffixInputs(H, us, ps) + SuffixInputs(H, vs, qs))
    decreases |ps|
  {
    var inputs := SuffixInputs(H, us, ps) + SuffixInputs(H, vs, qs);
    TopPreimageKnown(H, us, ps);
    TopPreimageKnown(H, vs, qs);
    SuffixInputsCover(H, us, vs, ps, qs);
    TilesFirst(ps, from, to);
    TilesFirst(qs, from, to');
    WithinRest(ps, NodeCount(|us|));
    WithinRest(qs, NodeCount(|vs|));
    hide *;
    CollisionFound(H, TopPreimage(H, us, ps), TopPreimage(H, vs, qs), inputs);
    if TopPreimage(H, us, ps) == TopPreimage(H, vs, qs) {
      SameFirst(H, us, vs, ps, qs);
      CollisionMonotone(H, NodeInputs(H, us) + NodeInputs(H, vs), inputs);
      if |ps| > 1 && ps[0] == qs[0] {
        SameExtent(H, us, vs, ps[1..], qs[1..], ps[0] + 1, to, to');
        CollisionMonotone(H, SuffixInputs(H, us, ps[1..]) + SuffixInputs(H, vs, qs[1..]), inputs);
      }
    }
  }

  lemma WithinRest(ps: seq<nat>, size: nat)
    requires ps != [] && Within(ps, size)
    ensures Within(ps[1..], size)
  {
  }

  lemma HashedFrom(H: Hash, leaves: seq<Digest>)
    requires FitsCap(leaves) && leaves != []
    ensures exists x :: x in TreeInputs(H, leaves, |leaves|) && H(x) == RootAt(H, leaves, |leaves|)
  {
    var size := SizeAt(leaves, |leaves|);
    PeaksDecide(size);
    NodeCountIncreasing(0, |leaves|);
    TilesFirst(PeakList(size), 0, size);
    PeaksStored(leaves, |leaves|);
    TopPreimageKnown(H, leaves, PeakList(size));
  }

  /** A root determines the whole log.  Two logs with the same root are equal, or
      building them exhibits a collision, or one of them is empty and building
      the other found a preimage of the all-zero digest. */
  lemma RootCommits(H: Hash, us: seq<Digest>, vs: seq<Digest>)
    requires FitsCap(us) && FitsCap(vs)
    requires RootAt(H, us, |us|) == RootAt(H, vs, |vs|)
    ensures || us == vs
            || CollisionIn(H, TreeInputs(H, us, |us|) + TreeInputs(H, vs, |vs|))
            || ((us == [] || vs == []) &&
                exists x :: x in TreeInputs(H, us, |us|) + TreeInputs(H, vs, |vs|) && H(x) == ZERO_DIGEST)
  {
    if us == [] || vs == [] {
      if us != vs {
        EmptyRoot(H, us, vs);
      }
    } else {
      SameSize(H, us, vs);
      if |us| == |vs| && !CollisionIn(H, TreeInputs(H, us, |us|) + TreeInputs(H, vs, |vs|)) {
        forall i: nat | i < |us|
          ensures us[i] == vs[i]
        {
          SameRootLeaf(H, us, vs, i);
        }
      }
    }
  }

  lemma NoPeaks(size: nat)
    requires ValidSize(size) && size == 0
    ensures PeakList(size) == []
  {
    PeaksFromZero(0, size + 1);
  }

  lemma EmptyRootIsZero(H: Hash, leaves: seq<Digest>)
    requires FitsCap(leaves) && leaves == []
    ensures RootAt(H, leaves, |leaves|) == ZERO_DIGEST
  {
    hide PeaksOf, NodeCount, NodesAt, Zeros;
    PeaksFromZero(0, 1);
    NoPeaks(SizeAt(leaves, |leaves|));
  }

  lemma EmptyRoot(H: Hash, us: seq<Digest>, vs: seq<Digest>)
    requires FitsCap(us) && FitsCap(vs) && (us == [] <==> vs != [])
    requires RootAt(H, us, |us|) == RootAt(H, vs, |vs|)
    ensures exists x :: x in TreeInputs(H, us, |us|) + TreeInputs(H, vs, |vs|) && H(x) == ZERO_DIGEST
  {
    hide RootAt, TreeInputs;
    EmptyRootIsZero(H, if us == [] then us else vs);
    HashedFrom(H, if us == [] then vs else us);
  }

  lemma SameSize(H: Hash, us: seq<Digest>, vs: seq<Digest>)
    requires FitsCap(us) && FitsCap(vs) && us != [] && vs != []
    requires RootAt(H, us, |us|) == RootAt(H, vs, |vs|)
    ensures |us| == |vs| || CollisionIn(H, TreeInputs(H, us, |us|) + TreeInputs(H, vs, |vs|))
  {
    var a, b := SizeAt(us, |us|), SizeAt(vs, |vs|);
    PeaksDecide(a);
    PeaksDecide(b);
    NodeCountIncreasing(0, |us|);
    NodeCountIncreasing(0, |vs|);
    NodeCountIncreasing(|us|, |vs|);
    TilesFirst(PeakList(a), 0, a);
    TilesFirst(PeakList(b), 0, b);
    PeaksStored(us, |us|);
    PeaksStored(vs, |vs|);
    SameExtent(H, us, vs, PeakList(a), PeakList(b), 0, a, b);
  }

  lemma SameRootLeaf(H: Hash, us: seq<Digest>, vs: seq<Digest>, i: nat)
    requires FitsCap(us) && FitsCap(vs) && i < |us| == |vs|
    requires RootAt(H, us, |us|) == RootAt(H, vs, |vs|)
    ensures us[i] == vs[i] || CollisionIn(H, TreeInputs(H, us, |us|) + TreeInputs(H, vs, |vs|))
  {
    var p, q := HonestInclusion(H, us, |us|, i), HonestInclusion(H, vs, |vs|, i);
    InclusionComplete(H, us, |us|, i);
    InclusionComplete(H, vs, |vs|, i);
    var size := SizeAt(us, |us|);
    InclusionBinding(H, RootAt(H, us, |us|), size, i, us[i], p, vs[i], q);
    HonestInclusionInputs(H, us, |us|, i);
    HonestInclusionInputs(H, vs, |vs|, i);
    hide TreeInputs, InclusionInputs, HonestInclusion, RootAt, Includes;
    CollisionMonotone(H, InclusionInputs(H, size, i, us[i], p) + InclusionInputs(H, size, i, vs[i], q),
                      TreeInputs(H, us, |us|) + TreeInputs(H, vs, |vs|));
  }
}

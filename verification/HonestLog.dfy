/** The range of a real list of leaves, and the proofs read off it. */
module HonestLog {
  import opened Geometry
  import opened Hashing
  import opened Proofs
  import opened Soundness

  /** Hash stored at position `pos` of the range over `leaves`. */
  ghost function Node(H: Hash, leaves: seq<Digest>, pos: nat): Digest
    requires pos < NodeCount(|leaves|)
    decreases HeightAt(pos)
  {
    H(NodePreimage(H, leaves, pos))
  }

  /** What is hashed at `pos`: a leaf body, or the two children with the
      position they are joined at. */
  ghost function NodePreimage(H: Hash, leaves: seq<Digest>, pos: nat): Bytes
    requires pos < NodeCount(|leaves|)
    decreases HeightAt(pos), 0
  {
    Children(pos);
    if HeightAt(pos) == 0 then
      LeafPositions(pos);
      NodeCountIncreasing(LeavesIn(pos), |leaves|);
      LeafPreimage(leaves[LeavesIn(pos)])
    else
      InteriorPreimage(H(NodePreimage(H, leaves, pos - Pow2(HeightAt(pos)))), H(NodePreimage(H, leaves, pos - 1)), pos)
  }

  ghost predicate Within(ps: seq<nat>, size: nat) {
    forall j :: 0 <= j < |ps| ==> ps[j] < size
  }

  /** The stored hashes at the given positions. */
  ghost function NodesAt(H: Hash, leaves: seq<Digest>, ps: seq<nat>): (ds: seq<Digest>)
    requires Within(ps, NodeCount(|leaves|))
    ensures |ds| == |ps|
    ensures forall j :: 0 <= j < |ps| ==> ds[j] == Node(H, leaves, ps[j])
  {
    seq(|ps|, j requires 0 <= j < |ps| => Node(H, leaves, ps[j]))
  }

  lemma NodeUnfold(H: Hash, leaves: seq<Digest>, pos: nat)
    requires pos < NodeCount(|leaves|)
    ensures HeightAt(pos) == 0 ==>
              LeavesIn(pos) < |leaves| && Node(H, leaves, pos) == LeafHash(H, leaves[LeavesIn(pos)])
    ensures HeightAt(pos) > 0 ==>
              var left := pos - Pow2(HeightAt(pos));
              && left >= 0 && pos >= 1
              && HeightAt(left) == HeightAt(pos - 1) == HeightAt(pos) - 1
              && Node(H, leaves, pos) == InteriorHash(H, Node(H, leaves, left), Node(H, leaves, pos - 1), pos)
  {
    Children(pos);
    if HeightAt(pos) == 0 {
      LeafPositions(pos);
      NodeCountIncreasing(LeavesIn(pos), |leaves|);
    }
  }

  /** Appending never changes a stored node. */
  lemma {:induction false} NodeStable(H: Hash, leaves: seq<Digest>, m: nat, pos: nat)
    requires m <= |leaves| && pos < NodeCount(m)
    ensures pos < NodeCount(|leaves|)
    ensures Node(H, leaves[..m], pos) == Node(H, leaves, pos)
    decreases HeightAt(pos)
  {
    hide Node, HeightAt, Pow2, NodeCount, LeavesIn;
    NodeCountIncreasing(m, |leaves|);
    NodeUnfold(H, leaves, pos);
    NodeUnfold(H, leaves[..m], pos);
    if HeightAt(pos) > 0 {
      NodeStable(H, leaves, m, pos - Pow2(HeightAt(pos)));
      NodeStable(H, leaves, m, pos - 1);
    }
  }

  // ----------------------------------------------------------- root, peaks

  ghost predicate FitsCap(leaves: seq<Digest>) {
    NodeCount(|leaves|) < MAX_MMR_SIZE
  }

  /** Node count of the range as it stood after its first `m` leaves. */
  ghost function SizeAt(leaves: seq<Digest>, m: nat): (size: nat)
    requires FitsCap(leaves) && m <= |leaves|
    ensures ValidSize(size) && size == NodeCount(m) <= NodeCount(|leaves|) && LeavesIn(size) == m
  {
    PeaksOfNodeCount(m);
    NodeCountIncreasing(m, |leaves|);
    NodeCount(m)
  }

  lemma PeaksStored(leaves: seq<Digest>, m: nat)
    requires FitsCap(leaves) && m <= |leaves|
    ensures Within(PeakList(SizeAt(leaves, m)), SizeAt(leaves, m))
  {
    var size := SizeAt(leaves, m);
    forall j | 0 <= j < |PeakList(size)| ensures PeakList(size)[j] < size {
      PeakBelow(size, j);
    }
  }

  ghost function PeaksAt(H: Hash, leaves: seq<Digest>, m: nat): (ds: seq<Digest>)
    requires FitsCap(leaves) && m <= |leaves|
    ensures |ds| == |PeakList(SizeAt(leaves, m))|
  {
    PeaksStored(leaves, m);
    NodesAt(H, leaves, PeakList(SizeAt(leaves, m)))
  }

  /** Root of the range as it stood after its first `m` leaves. */
  ghost function RootAt(H: Hash, leaves: seq<Digest>, m: nat): Digest
    requires FitsCap(leaves) && m <= |leaves|
  {
    Bag(H, PeaksAt(H, leaves, m))
  }

  /** Reading an old root from the grown range gives the root that the shorter
      log had. */
  lemma PrefixRoot(H: Hash, leaves: seq<Digest>, m: nat)
    requires FitsCap(leaves) && m <= |leaves|
    ensures FitsCap(leaves[..m]) && RootAt(H, leaves[..m], m) == RootAt(H, leaves, m)
  {
    var size := SizeAt(leaves, m);
    PeaksStored(leaves, m);
    var ps := PeakList(size);
    forall j | 0 <= j < |ps|
      ensures PeaksAt(H, leaves[..m], m)[j] == PeaksAt(H, leaves, m)[j]
    {
      NodeStable(H, leaves, m, ps[j]);
    }
    assert PeaksAt(H, leaves[..m], m) == PeaksAt(H, leaves, m);
  }

  // --------------------------------------------------------------- climbing

  ghost function Siblings(path: seq<Step>): (ps: seq<nat>)
    ensures |ps| == |path|
    ensures forall j :: 0 <= j < |path| ==> ps[j] == path[j].siblingPos
  {
    seq(|path|, j requires 0 <= j < |path| => path[j].siblingPos)
  }

  lemma {:induction false} SiblingsBelow(r: nat, t: nat)
    requires Contains(r, t)
    ensures Within(Siblings(PathTo(r, t)), r)
    decreases HeightAt(r)
  {
    if r == t {
      PathToSelf(r);
    } else {
      PathToUnfold(r, t);
      Children(r);
      var left := r - Pow2(HeightAt(r));
      SiblingsBelow(if t <= left then left else r - 1, t);
    }
  }

  /** The siblings an honest prover reads on the way from `t` to `r`. */
  ghost function SiblingNodes(H: Hash, leaves: seq<Digest>, r: nat, t: nat): (ds: seq<Digest>)
    requires Contains(r, t) && r < NodeCount(|leaves|)
    ensures |ds| == |PathTo(r, t)|
  {
    SiblingsBelow(r, t);
    NodesAt(H, leaves, Siblings(PathTo(r, t)))
  }

  lemma SiblingNodesUnfold(H: Hash, leaves: seq<Digest>, r: nat, t: nat)
    requires Contains(r, t) && r < NodeCount(|leaves|) && r != t
    ensures HeightAt(r) > 0 && r >= Pow2(HeightAt(r))
    ensures var left := r - Pow2(HeightAt(r));
            if t <= left
            then Contains(left, t) &&
                 SiblingNodes(H, leaves, r, t) == SiblingNodes(H, leaves, left, t) + [Node(H, leaves, r - 1)]
            else Contains(r - 1, t) &&
                 SiblingNodes(H, leaves, r, t) == SiblingNodes(H, leaves, r - 1, t) + [Node(H, leaves, left)]
  {
    hide Pow2, Contains, HeightAt, PathTo;
    PathToUnfold(r, t);
    SiblingsBelow(r, t);
  }

  /** Folding stored siblings up a path reproduces the stored node at its top. */
  lemma {:induction false} FoldHonest(H: Hash, leaves: seq<Digest>, r: nat, t: nat)
    requires Contains(r, t) && r < NodeCount(|leaves|)
    ensures Fold(H, Node(H, leaves, t), PathTo(r, t), SiblingNodes(H, leaves, r, t)) == Node(H, leaves, r)
    decreases HeightAt(r)
  {
    if r == t {
      PathToSelf(r);
    } else {
      PathToUnfold(r, t);
      Children(r);
      SiblingNodesUnfold(H, leaves, r, t);
      var left := r - Pow2(HeightAt(r));
      var child := if t <= left then left else r - 1;
      FoldHonest(H, leaves, child, t);
      var step := if t <= left then Step(r - 1, false, r) else Step(left, true, r);
      var sib := Node(H, leaves, if t <= left then r - 1 else left);
      FoldAppend(H, Node(H, leaves, t), PathTo(child, t), [step], SiblingNodes(H, leaves, child, t), [sib]);
      FoldOne(H, Node(H, leaves, child), step, sib);
    }
  }

  lemma FoldOne(H: Hash, acc: Digest, step: Step, sib: Digest)
    ensures Fold(H, acc, [step], [sib]) == H(StepPreimage(acc, step, sib))
  {
    assert [step][1..] == [] && [sib][1..] == [];
  }

  // ----------------------------------------------------- inclusion, honestly

  lemma LeafMountain(leaves: seq<Digest>, m: nat, i: nat) returns (k: nat)
    requires FitsCap(leaves) && i < m <= |leaves|
    ensures var size := SizeAt(leaves, m);
            && NodeCount(i) < size
            && k == MountainOf(size, NodeCount(i)) < |PeakList(size)|
            && PeakList(size)[k] < NodeCount(|leaves|)
            && Contains(PeakList(size)[k], NodeCount(i))
  {
    var size := SizeAt(leaves, m);
    LeafInRange(size, i);
    k := MountainOf(size, NodeCount(i));
    MountainUnique(size, NodeCount(i), k);
    PeakBelow(size, k);
  }

  /** The inclusion proof of leaf `i` read off the range at `m` leaves. */
  ghost function HonestInclusion(H: Hash, leaves: seq<Digest>, m: nat, i: nat): (p: Inclusion)
    requires FitsCap(leaves) && i < m <= |leaves|
    ensures InclusionFits(SizeAt(leaves, m), i, p)
  {
    var size := SizeAt(leaves, m);
    LeafInRange(size, i);
    var k := MountainOf(size, NodeCount(i));
    MountainUnique(size, NodeCount(i), k);
    PeakBelow(size, k);
    var peaks := PeaksAt(H, leaves, m);
    Inclusion(SiblingNodes(H, leaves, PeakList(size)[k], NodeCount(i)), peaks[..k], peaks[k + 1..])
  }

  lemma LeafNode(H: Hash, leaves: seq<Digest>, i: nat)
    requires i < |leaves|
    ensures NodeCount(i) < NodeCount(|leaves|) && Node(H, leaves, NodeCount(i)) == LeafHash(H, leaves[i])
  {
    NodeCountIncreasing(i, |leaves|);
    LeafPosition(i);
  }

  lemma HonestFold(H: Hash, leaves: seq<Digest>, m: nat, i: nat) returns (k: nat)
    requires FitsCap(leaves) && i < m <= |leaves|
    ensures k < |PeaksAt(H, leaves, m)|
    ensures var p := HonestInclusion(H, leaves, m, i);
            && p.left == PeaksAt(H, leaves, m)[..k]
            && p.right == PeaksAt(H, leaves, m)[k + 1..]
            && Fold(H, LeafHash(H, leaves[i]), LeafPath(SizeAt(leaves, m), i), p.siblings) == PeaksAt(H, leaves, m)[k]
  {
    k := LeafMountain(leaves, m, i);
    LeafNode(H, leaves, i);
    FoldHonest(H, leaves, PeakList(SizeAt(leaves, m))[k], NodeCount(i));
    hide PathTo, MountainOf, PeakList, SiblingNodes, Contains, Fold, Node, NodeCount;
  }

  /** The peaks an honest proof commits to are the stored ones. */
  lemma HonestProvenPeaks(H: Hash, leaves: seq<Digest>, m: nat, i: nat)
    requires FitsCap(leaves) && i < m <= |leaves|
    ensures ProvenPeaks(H, SizeAt(leaves, m), i, leaves[i], HonestInclusion(H, leaves, m, i)) == PeaksAt(H, leaves, m)
  {
    var k := HonestFold(H, leaves, m, i);
    hide PeaksAt, HonestInclusion, LeafPath, InclusionFits, Fold, PeakList, NodeCount;
    var peaks := PeaksAt(H, leaves, m);
    assert peaks[..k] + [peaks[k]] + peaks[k + 1..] == peaks;
  }

  /** Completeness: every leaf of every range has an accepted inclusion proof,
      at every size the range has had since. */
  lemma InclusionComplete(H: Hash, leaves: seq<Digest>, m: nat, i: nat)
    requires FitsCap(leaves) && i < m <= |leaves|
    ensures Includes(H, RootAt(H, leaves, m), SizeAt(leaves, m), i, leaves[i], HonestInclusion(H, leaves, m, i))
  {
    HonestProvenPeaks(H, leaves, m, i);
  }

  /** Against the root of a real range, only the real leaf can be proved. */
  lemma OnlyRealLeaves(H: Hash, leaves: seq<Digest>, m: nat, i: int, body: Digest, p: Inclusion)
    requires FitsCap(leaves) && m <= |leaves|
    requires Includes(H, RootAt(H, leaves, m), SizeAt(leaves, m), i, body, p)
    ensures 0 <= i < m
    ensures || (body == leaves[i] && p == HonestInclusion(H, leaves, m, i))
            || CollisionIn(H, InclusionInputs(H, SizeAt(leaves, m), i, body, p)
                              + InclusionInputs(H, SizeAt(leaves, m), i, leaves[i], HonestInclusion(H, leaves, m, i)))
  {
    InclusionComplete(H, leaves, m, i);
    InclusionBinding(H, RootAt(H, leaves, m), SizeAt(leaves, m), i, body, p,
                     leaves[i], HonestInclusion(H, leaves, m, i));
  }

  // --------------------------------------------------- consistency, honestly

  lemma PeakMountain(leaves: seq<Digest>, l: nat, m: nat, j: nat) returns (k: nat)
    requires FitsCap(leaves) && l <= m <= |leaves| && j < |PeakList(SizeAt(leaves, l))|
    ensures var a, b := SizeAt(leaves, l), SizeAt(leaves, m);
            && a <= b
            && k == NewMountain(a, b, j) < |PeakList(b)|
            && PeakList(a)[j] < a
            && PeakList(b)[k] < b
            && Contains(PeakList(b)[k], PeakList(a)[j])
  {
    NodeCountIncreasing(l, m);
    var a, b := SizeAt(leaves, l), SizeAt(leaves, m);
    PeakBelow(a, j);
    k := NewMountain(a, b, j);
    MountainUnique(b, PeakList(a)[j], k);
    PeakBelow(b, k);
  }

  /** The climb of old peak `j` from `l` leaves to `m` leaves. */
  ghost function HonestClimb(H: Hash, leaves: seq<Digest>, l: nat, m: nat, j: nat): (ds: seq<Digest>)
    requires FitsCap(leaves) && l <= m <= |leaves| && j < |PeakList(SizeAt(leaves, l))|
    ensures SizeAt(leaves, l) <= SizeAt(leaves, m)
    ensures |ds| == |PeakPath(SizeAt(leaves, l), SizeAt(leaves, m), j)|
  {
    NodeCountIncreasing(l, m);
    var a, b := SizeAt(leaves, l), SizeAt(leaves, m);
    PeakBelow(a, j);
    var k := NewMountain(a, b, j);
    MountainUnique(b, PeakList(a)[j], k);
    PeakBelow(b, k);
    SiblingNodes(H, leaves, PeakList(b)[k], PeakList(a)[j])
  }

  /** The proof that the log at `l` leaves is a prefix of the log at `m`. */
  ghost function HonestConsistency(H: Hash, leaves: seq<Digest>, l: nat, m: nat): (p: Consistency)
    requires FitsCap(leaves) && l <= m <= |leaves|
    ensures ConsistencyFits(SizeAt(leaves, l), SizeAt(leaves, m), p)
  {
    NodeCountIncreasing(l, m);
    var n := |PeakList(SizeAt(leaves, l))|;
    Consistency(PeaksAt(H, leaves, l),
                seq(n, j requires 0 <= j < n => HonestClimb(H, leaves, l, m, j)),
                PeaksAt(H, leaves, m))
  }

  lemma HonestPeakClimbs(H: Hash, leaves: seq<Digest>, l: nat, m: nat, j: nat)
    requires FitsCap(leaves) && l <= m <= |leaves| && j < |PeakList(SizeAt(leaves, l))|
    ensures SizeAt(leaves, l) <= SizeAt(leaves, m)
    ensures Fold(H, PeaksAt(H, leaves, l)[j], PeakPath(SizeAt(leaves, l), SizeAt(leaves, m), j),
                 HonestClimb(H, leaves, l, m, j)) ==
            PeaksAt(H, leaves, m)[NewMountain(SizeAt(leaves, l), SizeAt(leaves, m), j)]
  {
    var k := PeakMountain(leaves, l, m, j);
    var a, b := SizeAt(leaves, l), SizeAt(leaves, m);
    FoldHonest(H, leaves, PeakList(b)[k], PeakList(a)[j]);
    hide PathTo, SiblingNodes, Contains, Fold, Node, PeakList, NewMountain;
  }

  /** Completeness: between any two states of a log there is an accepted
      consistency proof. */
  lemma ConsistencyComplete(H: Hash, leaves: seq<Digest>, l: nat, m: nat)
    requires FitsCap(leaves) && l <= m <= |leaves|
    ensures Extends(H, RootAt(H, leaves, l), SizeAt(leaves, l), RootAt(H, leaves, m), SizeAt(leaves, m),
                    HonestConsistency(H, leaves, l, m))
  {
    NodeCountIncreasing(l, m);
    hide PathTo, SiblingNodes, Contains, Fold, Node, PeakList, NewMountain, HonestClimb, PeakPath;
    forall j | 0 <= j < |PeakList(SizeAt(leaves, l))|
      ensures Fold(H, PeaksAt(H, leaves, l)[j], PeakPath(SizeAt(leaves, l), SizeAt(leaves, m), j),
                   HonestClimb(H, leaves, l, m, j)) ==
              PeaksAt(H, leaves, m)[NewMountain(SizeAt(leaves, l), SizeAt(leaves, m), j)]
    {
      HonestPeakClimbs(H, leaves, l, m, j);
    }
  }

  // --------------------------------------------------------- on the wire

  function EncodeInclusion(size: nat, i: nat, p: Inclusion): InclusionProof {
    InclusionProof(1, "inclusion", size, i, HexDigests(p.siblings), HexDigests(p.left), HexDigests(p.right))
  }

  function HexWitnesses(ws: seq<seq<Digest>>): (r: seq<seq<string>>)
    ensures |r| == |ws|
  {
    if ws == [] then [] else [HexDigests(ws[0])] + HexWitnesses(ws[1..])
  }

  function EncodeConsistency(a: nat, b: nat, p: Consistency): ConsistencyProof {
    ConsistencyProof(1, "consistency", a, b, HexDigests(p.olds), HexWitnesses(p.siblings), HexDigests(p.news))
  }

  lemma {:induction false} ParseHexWitnesses(ws: seq<seq<Digest>>)
    ensures ParseWitnesses(HexWitnesses(ws)) == Some(ws)
    decreases |ws|
  {
    if ws != [] {
      ParseHexDigests(ws[0]);
      ParseHexWitnesses(ws[1..]);
      assert HexWitnesses(ws)[1..] == HexWitnesses(ws[1..]);
      assert ws == [ws[0]] + ws[1..];
    }
  }

  /** Hex encoding loses nothing: a proof decodes to the digests it was built from. */
  lemma WireRoundTrip(a: nat, b: nat, p: Inclusion, c: Consistency)
    ensures DecodeInclusion(EncodeInclusion(a, b, p)) == Some(p)
    ensures DecodeConsistency(EncodeConsistency(a, b, c)) == Some(c)
  {
    ParseHexDigests(p.siblings);
    ParseHexDigests(p.left);
    ParseHexDigests(p.right);
    ParseHexDigests(c.olds);
    ParseHexDigests(c.news);
    ParseHexWitnesses(c.siblings);
  }

  /** Whether the verifier accepts an honest proof depends on the root alone: it
      does exactly when the root is the real one. */
  lemma HonestInclusionAccepted(H: Hash, leaves: seq<Digest>, m: nat, i: nat, rootHex: string, bodyHex: string)
    requires FitsCap(leaves) && i < m <= |leaves| && ParseDigest(bodyHex) == Some(leaves[i])
    ensures AcceptsInclusion(H, rootHex, SizeAt(leaves, m), i, bodyHex,
                             EncodeInclusion(SizeAt(leaves, m), i, HonestInclusion(H, leaves, m, i))) <==>
            ParseDigest(rootHex) == Some(RootAt(H, leaves, m))
  {
    hide HexDigests, ParseDigests, ParseDigest, SizeAt, PeaksAt, ProvenPeaks, InclusionFits, HonestInclusion,
         BytesToHex;
    var p := HonestInclusion(H, leaves, m, i);
    WireRoundTrip(SizeAt(leaves, m), i, p, Consistency([], [], []));
    HonestProvenPeaks(H, leaves, m, i);
  }

  lemma HonestConsistencyAccepted(H: Hash, leaves: seq<Digest>, l: nat, m: nat, rootAHex: string, rootBHex: string)
    requires FitsCap(leaves) && l <= m <= |leaves|
    ensures AcceptsConsistency(H, rootAHex, SizeAt(leaves, l), rootBHex, SizeAt(leaves, m),
                               EncodeConsistency(SizeAt(leaves, l), SizeAt(leaves, m),
                                                 HonestConsistency(H, leaves, l, m))) <==>
            ParseDigest(rootAHex) == Some(RootAt(H, leaves, l)) && ParseDigest(rootBHex) == Some(RootAt(H, leaves, m))
  {
    ConsistencyComplete(H, leaves, l, m);
    hide HexDigests, ParseDigests, ParseDigest, SizeAt, PeaksAt, ConsistencyFits;
    var c := HonestConsistency(H, leaves, l, m);
    WireRoundTrip(SizeAt(leaves, l), SizeAt(leaves, m), Inclusion([], [], []), c);
  }
}

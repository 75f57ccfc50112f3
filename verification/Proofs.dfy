/** What an inclusion proof and a consistency proof claim. */
module Proofs {
  import opened Ancestry
  import opened Geometry
  import opened Hashing

  const MAX_MMR_SIZE: nat := 0x4_0000_0000_0000

  /** A size the verifiers work with: below the cap and the node count of some
      number of leaves. */
  ghost predicate ValidSize(size: int) {
    0 <= size < MAX_MMR_SIZE && PeaksOf(size).Some?
  }

  /** In numbers: the node counts below 2^50. */
  lemma ValidSizeMeans(size: int)
    ensures ValidSize(size) <==> 0 <= size < 1125899906842624 && exists n: nat :: NodeCount(n) == size
  {
    if size >= 0 {
      PeaksDecide(size);
    }
    hide NodeCount;
  }

  ghost function PeakList(size: nat): seq<nat>
    requires ValidSize(size)
  {
    PeaksOf(size).value
  }

  /** Index of the mountain of a `size`-node range that holds position `pos`. */
  ghost function MountainOf(size: nat, pos: nat): (k: nat)
    requires ValidSize(size) && pos < size
    ensures k < |PeakList(size)|
  {
    PeaksDecide(size);
    ContainingIndexExact(PeakList(size), 0, size, pos);
    ContainingIndex(PeakList(size), pos).value
  }

  lemma MountainUnique(size: nat, pos: nat, j: nat)
    requires ValidSize(size) && pos < size && j < |PeakList(size)|
    ensures Contains(PeakList(size)[j], pos) <==> j == MountainOf(size, pos)
  {
    PeaksDecide(size);
    ContainingIndexExact(PeakList(size), 0, size, pos);
  }

  /** The height of a position does not depend on the size of the range: it is
      its height inside the mountain of any valid size that holds it. */
  lemma HeightInMountain(size: nat, pos: nat)
    requires ValidSize(size) && pos < size
    ensures var peak := PeakList(size)[MountainOf(size, pos)];
            Contains(peak, pos) && HeightAt(pos) == HeightIn(HeightAt(peak), pos - Start(peak))
  {
    var peak := PeakList(size)[MountainOf(size, pos)];
    MountainUnique(size, pos, MountainOf(size, pos));
    HeightInside(peak, pos - Start(peak));
  }

  lemma LeafInRange(size: nat, i: nat)
    requires ValidSize(size)
    ensures i < LeavesIn(size) <==> NodeCount(i) < size
  {
    PeaksDecide(size);
    NodeCountIncreasing(i, LeavesIn(size));
  }

  lemma PeakBelow(size: nat, j: nat)
    requires ValidSize(size) && j < |PeakList(size)|
    ensures PeakList(size)[j] < size
  {
    PeaksDecide(size);
    TilesAbove(PeakList(size), 0, size);
  }

  // ------------------------------------------------------------ inclusion

  datatype InclusionProof = InclusionProof(
    v: int, kind: string, size: int, leafIndex: int,
    siblings: seq<string>, peaksLeft: seq<string>, peaksRight: seq<string>)

  /** The digests an inclusion proof carries. */
  datatype Inclusion = Inclusion(siblings: seq<Digest>, left: seq<Digest>, right: seq<Digest>)

  function DecodeInclusion(p: InclusionProof): Option<Inclusion> {
    match (ParseDigests(p.siblings), ParseDigests(p.peaksLeft), ParseDigests(p.peaksRight))
    case (Some(w), Some(l), Some(r)) => Some(Inclusion(w, l, r))
    case _ => None
  }

  /** Sibling path of leaf `i` inside its mountain. */
  ghost function LeafPath(size: nat, i: nat): seq<Step>
    requires ValidSize(size) && i < LeavesIn(size)
  {
    LeafInRange(size, i);
    PathTo(PeakList(size)[MountainOf(size, NodeCount(i))], NodeCount(i))
  }

  /** The proof has one sibling per step and one digest per other peak. */
  ghost predicate InclusionFits(size: int, i: int, p: Inclusion) {
    && ValidSize(size)
    && 0 <= i < LeavesIn(size)
    && |p.siblings| == |LeafPath(size, i)|
    && (LeafInRange(size, i); |p.left| == MountainOf(size, NodeCount(i)))
    && |p.left| + 1 + |p.right| == |PeakList(size)|
  }

  /** The peaks that a proof of `body` at leaf `i` commits to. */
  ghost function ProvenPeaks(H: Hash, size: nat, i: nat, body: Digest, p: Inclusion): (ps: seq<Digest>)
    requires InclusionFits(size, i, p)
    ensures |ps| == |PeakList(size)|
  {
    p.left + [Fold(H, LeafHash(H, body), LeafPath(size, i), p.siblings)] + p.right
  }

  /** `p` proves that leaf `i` of the `size`-node range with this root is `body`. */
  ghost predicate Includes(H: Hash, root: Digest, size: int, i: int, body: Digest, p: Inclusion) {
    InclusionFits(size, i, p) && Bag(H, ProvenPeaks(H, size, i, body, p)) == root
  }

  /** Everything hashed while checking the proof. */
  ghost function InclusionInputs(H: Hash, size: nat, i: nat, body: Digest, p: Inclusion): set<Bytes>
    requires InclusionFits(size, i, p)
  {
    {LeafPreimage(body)} + FoldInputs(H, LeafHash(H, body), LeafPath(size, i), p.siblings)
    + BagInputs(H, ProvenPeaks(H, size, i, body, p))
  }

  ghost predicate AcceptsInclusion(H: Hash, rootHex: string, size: int, i: int, bodyHex: string,
                                   proof: InclusionProof)
  {
    && ParseDigest(rootHex).Some? && ParseDigest(bodyHex).Some?
    && proof.v == 1 && proof.kind == "inclusion" && proof.size == size && proof.leafIndex == i
    && DecodeInclusion(proof).Some?
    && Includes(H, ParseDigest(rootHex).value, size, i, ParseDigest(bodyHex).value, DecodeInclusion(proof).value)
  }

  // ---------------------------------------------------------- consistency

  datatype ConsistencyProof = ConsistencyProof(
    v: int, kind: string, sizeA: int, sizeB: int,
    oldPeaks: seq<string>, siblings: seq<seq<string>>, newPeaks: seq<string>)

  datatype Consistency = Consistency(olds: seq<Digest>, siblings: seq<seq<Digest>>, news: seq<Digest>)

  function ParseWitnesses(ws: seq<seq<string>>): (r: Option<seq<seq<Digest>>>)
    ensures r.Some? ==> |r.value| == |ws|
    ensures r.Some? <==> forall j :: 0 <= j < |ws| ==> ParseDigests(ws[j]).Some?
    ensures r.Some? ==> forall j :: 0 <= j < |ws| ==> ParseDigests(ws[j]) == Some(r.value[j])
  {
    if ws == [] then Some([])
    else
      match (ParseDigests(ws[0]), ParseWitnesses(ws[1..]))
      case (Some(w), Some(rest)) => Some([w] + rest)
      case _ => None
  }

  function DecodeConsistency(p: ConsistencyProof): Option<Consistency> {
    match (ParseDigests(p.oldPeaks), ParseWitnesses(p.siblings), ParseDigests(p.newPeaks))
    case (Some(o), Some(w), Some(n)) => Some(Consistency(o, w, n))
    case _ => None
  }

  /** Index of the mountain of the larger range that swallowed old peak `j`. */
  ghost function NewMountain(a: nat, b: nat, j: nat): (k: nat)
    requires ValidSize(a) && ValidSize(b) && a <= b && j < |PeakList(a)|
    ensures k < |PeakList(b)|
  {
    PeakBelow(a, j);
    MountainOf(b, PeakList(a)[j])
  }

  /** Sibling path from old peak `j` up to the new peak above it. */
  ghost function PeakPath(a: nat, b: nat, j: nat): seq<Step>
    requires ValidSize(a) && ValidSize(b) && a <= b && j < |PeakList(a)|
  {
    PathTo(PeakList(b)[NewMountain(a, b, j)], PeakList(a)[j])
  }

  ghost predicate ConsistencyFits(a: int, b: int, p: Consistency) {
    && ValidSize(a) && ValidSize(b) && a <= b
    && |p.olds| == |p.siblings| == |PeakList(a)|
    && |p.news| == |PeakList(b)|
    && forall j :: 0 <= j < |PeakList(a)| ==> |p.siblings[j]| == |PeakPath(a, b, j)|
  }

  /** `p` proves that the `a`-node range with root `rootA` is a prefix of the
      `b`-node range with root `rootB`. */
  ghost predicate Extends(H: Hash, rootA: Digest, a: int, rootB: Digest, b: int, p: Consistency) {
    && ConsistencyFits(a, b, p)
    && Bag(H, p.olds) == rootA
    && Bag(H, p.news) == rootB
    && forall j :: 0 <= j < |PeakList(a)| ==>
         Fold(H, p.olds[j], PeakPath(a, b, j), p.siblings[j]) == p.news[NewMountain(a, b, j)]
  }

  /** Everything hashed while checking the proof. */
  ghost function ConsistencyInputs(H: Hash, a: nat, b: nat, p: Consistency): set<Bytes>
    requires ConsistencyFits(a, b, p)
  {
    BagInputs(H, p.olds) + BagInputs(H, p.news)
    + (set j, x | 0 <= j < |PeakList(a)| && x in FoldInputs(H, p.olds[j], PeakPath(a, b, j), p.siblings[j]) :: x)
  }

  ghost predicate AcceptsConsistency(H: Hash, rootAHex: string, a: int, rootBHex: string, b: int,
                                     proof: ConsistencyProof)
  {
    && ParseDigest(rootAHex).Some? && ParseDigest(rootBHex).Some?
    && proof.v == 1 && proof.kind == "consistency" && proof.sizeA == a && proof.sizeB == b
    && DecodeConsistency(proof).Some?
    && Extends(H, ParseDigest(rootAHex).value, a, ParseDigest(rootBHex).value, b, DecodeConsistency(proof).value)
  }
}

/** What accepted proofs establish, up to an explicit hash collision. */
module Soundness {
  import opened Geometry
  import opened Hashing
  import opened Proofs

  // -------------------------------------------------------------- binding

  lemma MiddleEqual(l: seq<Digest>, x: Digest, r: seq<Digest>, l': seq<Digest>, x': Digest, r': seq<Digest>)
    requires |l| == |l'| && l + [x] + r == l' + [x'] + r'
    ensures l == l' && x == x' && r == r'
  {
    var s := l + [x] + r;
    assert s == l' + [x'] + r';
    assert l == s[..|l|] == l' && x == s[|l|] == x' && r == s[|l| + 1..] == r';
  }

  /** Inclusion binding: for a fixed root, size and leaf index, two accepted
      proofs agree on the body digest and on every digest they carry, or the
      two runs hash different byte strings to the same digest. */
  lemma InclusionBinding(H: Hash, root: Digest, size: nat, i: nat,
                         body: Digest, p: Inclusion, body': Digest, p': Inclusion)
    requires Includes(H, root, size, i, body, p) && Includes(H, root, size, i, body', p')
    ensures (body == body' && p == p') ||
            CollisionIn(H, InclusionInputs(H, size, i, body, p) + InclusionInputs(H, size, i, body', p'))
  {
    var path := LeafPath(size, i);
    var top, top' := Fold(H, LeafHash(H, body), path, p.siblings), Fold(H, LeafHash(H, body'), path, p'.siblings);
    var inputs := InclusionInputs(H, size, i, body, p) + InclusionInputs(H, size, i, body', p');
    var ps, ps' := ProvenPeaks(H, size, i, body, p), ProvenPeaks(H, size, i, body', p');
    BagBinding(H, ps, ps');
    CollisionMonotone(H, BagInputs(H, ps) + BagInputs(H, ps'), inputs);
    if ps == ps' {
      MiddleEqual(p.left, top, p.right, p'.left, top', p'.right);
      FoldBinding(H, LeafHash(H, body), LeafHash(H, body'), path, p.siblings, p'.siblings);
      CollisionMonotone(H, FoldInputs(H, LeafHash(H, body), path, p.siblings)
                           + FoldInputs(H, LeafHash(H, body'), path, p'.siblings), inputs);
      if LeafHash(H, body) == LeafHash(H, body') {
        PreimagesInjective(body, body, 0, body', body', 0);
        if body != body' {
          assert LeafPreimage(body) in inputs && LeafPreimage(body') in inputs;
        }
      }
    }
  }

  // ------------------------------------------------------------- transport

  /** Leaf `i` of the smaller range sits under old peak `k`, which sits under the
      new peak `q`; the path to `q` is the path to `k` followed by the path from
      `k` to `q`. */
  lemma LeafPathExtends(a: nat, b: nat, i: nat)
    requires ValidSize(a) && ValidSize(b) && a <= b && i < LeavesIn(a)
    ensures i < LeavesIn(b) && NodeCount(i) < a
    ensures var k := MountainOf(a, NodeCount(i));
            && LeafPath(b, i) == LeafPath(a, i) + PeakPath(a, b, k)
            && MountainOf(b, NodeCount(i)) == NewMountain(a, b, k)
  {
    LeafInRange(a, i);
    LeafInRange(b, i);
    var pos := NodeCount(i);
    var k := MountainOf(a, pos);
    MountainUnique(a, pos, k);
    PeakBelow(a, k);
    var p := PeakList(a)[k];
    var q := NewMountain(a, b, k);
    MountainUnique(b, p, q);
    PathComposes(PeakList(b)[q], p, pos);
    MountainUnique(b, pos, q);
  }

  /** The inclusion proof under the new root that an old inclusion proof and a
      consistency proof yield together. */
  ghost function Lifted(a: nat, b: nat, i: nat, p: Inclusion, c: Consistency): Inclusion
    requires InclusionFits(a, i, p) && ConsistencyFits(a, b, c)
  {
    LeafInRange(a, i);
    var k := MountainOf(a, NodeCount(i));
    var q := NewMountain(a, b, k);
    Inclusion(p.siblings + c.siblings[k], c.news[..q], c.news[q + 1..])
  }

  lemma LiftedFits(a: nat, b: nat, i: nat, p: Inclusion, c: Consistency)
    requires InclusionFits(a, i, p) && ConsistencyFits(a, b, c)
    ensures InclusionFits(b, i, Lifted(a, b, i, p, c))
  {
    LeafPathExtends(a, b, i);
  }

  /** The lifted proof climbs through the old peak, so it proves the new peaks. */
  lemma LiftedPeaks(H: Hash, rootA: Digest, a: nat, rootB: Digest, b: nat, i: nat,
                    body: Digest, p: Inclusion, c: Consistency)
    requires InclusionFits(a, i, p) && Extends(H, rootA, a, rootB, b, c)
    requires ProvenPeaks(H, a, i, body, p) == c.olds
    ensures var lifted := Lifted(a, b, i, p, c);
            var k := (LeafInRange(a, i); MountainOf(a, NodeCount(i)));
            && InclusionFits(b, i, lifted)
            && ProvenPeaks(H, b, i, body, lifted) == c.news
            && FoldInputs(H, LeafHash(H, body), LeafPath(b, i), lifted.siblings) ==
                 FoldInputs(H, LeafHash(H, body), LeafPath(a, i), p.siblings)
                 + FoldInputs(H, c.olds[k], PeakPath(a, b, k), c.siblings[k])
  {
    hide PeakPath, NewMountain, PeakList, ValidSize, LeafPath, MountainOf, FoldInputs, Fold, NodeCount;
    LeafInRange(a, i);
    MiddleAt(p.left, Fold(H, LeafHash(H, body), LeafPath(a, i), p.siblings), p.right);
    LiftedFold(H, rootA, a, rootB, b, i, LeafHash(H, body), p, c);
    SplitAt(c.news, NewMountain(a, b, MountainOf(a, NodeCount(i))));
  }

  lemma MiddleAt(l: seq<Digest>, x: Digest, r: seq<Digest>)
    ensures (l + [x] + r)[|l|] == x
  {
  }

  lemma SplitAt(s: seq<Digest>, k: nat)
    requires k < |s|
    ensures s[..k] + [s[k]] + s[k + 1..] == s
  {
  }

  /** Climbing the lifted path is climbing to the old peak and on to the new one. */
  lemma LiftedFold(H: Hash, rootA: Digest, a: nat, rootB: Digest, b: nat, i: nat, start: Digest, p: Inclusion,
                   c: Consistency)
    requires InclusionFits(a, i, p) && Extends(H, rootA, a, rootB, b, c)
    requires var k := (LeafInRange(a, i); MountainOf(a, NodeCount(i)));
             Fold(H, start, LeafPath(a, i), p.siblings) == c.olds[k]
    ensures InclusionFits(b, i, Lifted(a, b, i, p, c))
    ensures var k := (LeafInRange(a, i); MountainOf(a, NodeCount(i)));
            var w := Lifted(a, b, i, p, c).siblings;
            && Fold(H, start, LeafPath(b, i), w) == c.news[NewMountain(a, b, k)]
            && FoldInputs(H, start, LeafPath(b, i), w) ==
                 FoldInputs(H, start, LeafPath(a, i), p.siblings)
                 + FoldInputs(H, c.olds[k], PeakPath(a, b, k), c.siblings[k])
  {
    LiftedFits(a, b, i, p, c);
    LeafPathExtends(a, b, i);
    var k := MountainOf(a, NodeCount(i));
    hide PeakPath, NewMountain, PeakList, ValidSize, LeafPath, MountainOf, FoldInputs, Fold, NodeCount;
    FoldAppend(H, start, LeafPath(a, i), PeakPath(a, b, k), p.siblings, c.siblings[k]);
  }

  lemma ClimbInputsKnown(H: Hash, a: nat, b: nat, c: Consistency, k: nat)
    requires ConsistencyFits(a, b, c) && k < |PeakList(a)|
    ensures FoldInputs(H, c.olds[k], PeakPath(a, b, k), c.siblings[k]) <= ConsistencyInputs(H, a, b, c)
  {
    hide PeakPath, PeakList, ValidSize, FoldInputs, BagInputs;
  }

  /** Transport: an inclusion under the old root and an accepted consistency
      proof give an accepted inclusion of the same body under the new root,
      hashing nothing that the two given proofs do not hash; otherwise those two
      runs contain a collision. */
  lemma Transport(H: Hash, rootA: Digest, a: nat, rootB: Digest, b: nat, i: nat,
                  body: Digest, p: Inclusion, c: Consistency)
    requires Includes(H, rootA, a, i, body, p) && Extends(H, rootA, a, rootB, b, c)
    ensures InclusionFits(b, i, Lifted(a, b, i, p, c))
    ensures var known := InclusionInputs(H, a, i, body, p) + ConsistencyInputs(H, a, b, c);
            var lifted := Lifted(a, b, i, p, c);
            || CollisionIn(H, known)
            || (Includes(H, rootB, b, i, body, lifted) && InclusionInputs(H, b, i, body, lifted) <= known)
  {
    hide PeakPath, NewMountain, PeakList, ValidSize, LeafPath, MountainOf, FoldInputs, Fold, BagInputs, Lifted;
    var known := InclusionInputs(H, a, i, body, p) + ConsistencyInputs(H, a, b, c);
    LiftedFits(a, b, i, p, c);
    var ps := ProvenPeaks(H, a, i, body, p);
    BagBinding(H, ps, c.olds);
    CollisionMonotone(H, BagInputs(H, ps) + BagInputs(H, c.olds), known);
    if ps == c.olds {
      LeafInRange(a, i);
      LiftedPeaks(H, rootA, a, rootB, b, i, body, p, c);
      ClimbInputsKnown(H, a, b, c, MountainOf(a, NodeCount(i)));
    }
  }

  /** Append-only soundness: with an accepted consistency proof between two
      roots, a leaf proved under both has the same body digest, or the three
      runs contain a collision. */
  lemma AppendOnly(H: Hash, rootA: Digest, a: nat, rootB: Digest, b: nat, i: nat, c: Consistency,
                   body: Digest, p: Inclusion, body': Digest, p': Inclusion)
    requires Extends(H, rootA, a, rootB, b, c)
    requires Includes(H, rootA, a, i, body, p) && Includes(H, rootB, b, i, body', p')
    ensures body == body' ||
            CollisionIn(H, InclusionInputs(H, a, i, body, p) + ConsistencyInputs(H, a, b, c)
                           + InclusionInputs(H, b, i, body', p'))
  {
    var known := InclusionInputs(H, a, i, body, p) + ConsistencyInputs(H, a, b, c);
    var all := known + InclusionInputs(H, b, i, body', p');
    Transport(H, rootA, a, rootB, b, i, body, p, c);
    CollisionMonotone(H, known, all);
    var lifted := Lifted(a, b, i, p, c);
    if Includes(H, rootB, b, i, body, lifted) && InclusionInputs(H, b, i, body, lifted) <= known {
      InclusionBinding(H, rootB, b, i, body, lifted, body', p');
      CollisionMonotone(H, InclusionInputs(H, b, i, body, lifted) + InclusionInputs(H, b, i, body', p'), all);
    }
  }

  // ----------------------------------------------------------- composition

  /** The proof from the first range to the third that two consecutive
      consistency proofs yield. */
  ghost function Composed(a: nat, b: nat, c: nat, p: Consistency, q: Consistency): Consistency
    requires ConsistencyFits(a, b, p) && ConsistencyFits(b, c, q)
  {
    Consistency(p.olds,
                seq(|p.siblings|, j requires 0 <= j < |p.siblings| => p.siblings[j] + q.siblings[NewMountain(a, b, j)]),
                q.news)
  }

  lemma PeakPathExtends(a: nat, b: nat, c: nat, j: nat)
    requires ValidSize(a) && ValidSize(b) && ValidSize(c) && a <= b <= c && j < |PeakList(a)|
    ensures var k := NewMountain(a, b, j);
            && PeakPath(a, c, j) == PeakPath(a, b, j) + PeakPath(b, c, k)
            && NewMountain(a, c, j) == NewMountain(b, c, k)
  {
    var k := NewMountain(a, b, j);
    PeakBelow(a, j);
    PeakBelow(b, k);
    var t, p := PeakList(a)[j], PeakList(b)[k];
    MountainUnique(b, t, k);
    var q := NewMountain(b, c, k);
    MountainUnique(c, p, q);
    PathComposes(PeakList(c)[q], p, t);
    MountainUnique(c, t, q);
  }

  lemma ComposedClimb(H: Hash, a: nat, b: nat, c: nat, p: Consistency, q: Consistency, j: nat)
    requires ConsistencyFits(a, b, p) && ConsistencyFits(b, c, q) && j < |PeakList(a)|
    ensures var k := NewMountain(a, b, j);
            var w := p.siblings[j] + q.siblings[k];
            && |w| == |PeakPath(a, c, j)|
            && Fold(H, p.olds[j], PeakPath(a, c, j), w) ==
               Fold(H, Fold(H, p.olds[j], PeakPath(a, b, j), p.siblings[j]), PeakPath(b, c, k), q.siblings[k])
  {
    PeakPathExtends(a, b, c, j);
    var k := NewMountain(a, b, j);
    hide PeakPath, NewMountain, PeakList, ValidSize, Fold, FoldInputs;
    FoldAppend(H, p.olds[j], PeakPath(a, b, j), PeakPath(b, c, k), p.siblings[j], q.siblings[k]);
  }

  /** Consistency is transitive: two accepted proofs in a row compose to an
      accepted proof from the first root to the third, or the two runs contain a
      collision. */
  lemma ConsistencyComposes(H: Hash, rootA: Digest, a: nat, rootB: Digest, b: nat, rootC: Digest, c: nat,
                            p: Consistency, q: Consistency)
    requires Extends(H, rootA, a, rootB, b, p) && Extends(H, rootB, b, rootC, c, q)
    ensures || CollisionIn(H, ConsistencyInputs(H, a, b, p) + ConsistencyInputs(H, b, c, q))
            || Extends(H, rootA, a, rootC, c, Composed(a, b, c, p, q))
  {
    hide PeakPath, NewMountain, PeakList, ValidSize, Fold, FoldInputs, BagInputs;
    BagBinding(H, p.news, q.olds);
    CollisionMonotone(H, BagInputs(H, p.news) + BagInputs(H, q.olds),
                      ConsistencyInputs(H, a, b, p) + ConsistencyInputs(H, b, c, q));
    if p.news == q.olds {
      forall j | 0 <= j < |PeakList(a)|
        ensures |Composed(a, b, c, p, q).siblings[j]| == |PeakPath(a, c, j)|
        ensures Fold(H, p.olds[j], PeakPath(a, c, j), Composed(a, b, c, p, q).siblings[j]) ==
                q.news[NewMountain(a, c, j)]
      {
        PeakPathExtends(a, b, c, j);
        ComposedClimb(H, a, b, c, p, q, j);
      }
    }
  }

  // ---------------------------------------------------- proof uniqueness

  lemma ClimbBinding(H: Hash, rootA: Digest, a: nat, rootB: Digest, b: nat, p: Consistency, q: Consistency, k: nat)
    requires Extends(H, rootA, a, rootB, b, p) && Extends(H, rootA, a, rootB, b, q)
    requires p.news == q.news && k < |PeakList(a)|
    ensures p.siblings[k] == q.siblings[k] ||
            CollisionIn(H, ConsistencyInputs(H, a, b, p) + ConsistencyInputs(H, a, b, q))
  {
    ClimbInputsKnown(H, a, b, p, k);
    ClimbInputsKnown(H, a, b, q, k);
    hide PeakPath, NewMountain, PeakList, ValidSize, Fold, FoldInputs, BagInputs, ConsistencyInputs;
    FoldBinding(H, p.olds[k], q.olds[k], PeakPath(a, b, k), p.siblings[k], q.siblings[k]);
    CollisionMonotone(H, FoldInputs(H, p.olds[k], PeakPath(a, b, k), p.siblings[k])
                         + FoldInputs(H, q.olds[k], PeakPath(a, b, k), q.siblings[k]),
                      ConsistencyInputs(H, a, b, p) + ConsistencyInputs(H, a, b, q));
  }

  /** Consistency binding: for fixed roots and sizes two accepted proofs agree on
      every digest they carry, or the two runs contain a collision. */
  lemma ConsistencyBinding(H: Hash, rootA: Digest, a: nat, rootB: Digest, b: nat, p: Consistency, q: Consistency)
    requires Extends(H, rootA, a, rootB, b, p) && Extends(H, rootA, a, rootB, b, q)
    ensures p == q || CollisionIn(H, ConsistencyInputs(H, a, b, p) + ConsistencyInputs(H, a, b, q))
  {
    var inputs := ConsistencyInputs(H, a, b, p) + ConsistencyInputs(H, a, b, q);
    hide PeakPath, NewMountain, PeakList, ValidSize, Fold, FoldInputs, BagInputs;
    BagBinding(H, p.olds, q.olds);
    BagBinding(H, p.news, q.news);
    CollisionMonotone(H, BagInputs(H, p.olds) + BagInputs(H, q.olds), inputs);
    CollisionMonotone(H, BagInputs(H, p.news) + BagInputs(H, q.news), inputs);
    if !CollisionIn(H, inputs) {
      forall k | 0 <= k < |PeakList(a)| ensures p.siblings[k] == q.siblings[k] {
        ClimbBinding(H, rootA, a, rootB, b, p, q, k);
      }
      assert p.siblings == q.siblings;
    }
  }

  // ------------------------------------------------------- on the wire form

  /** Everything hashed by a run that accepts. */
  ghost function AcceptedInclusionInputs(H: Hash, rootHex: string, size: int, i: int, bodyHex: string,
                                         proof: InclusionProof): set<Bytes>
    requires AcceptsInclusion(H, rootHex, size, i, bodyHex, proof)
  {
    InclusionInputs(H, size, i, ParseDigest(bodyHex).value, DecodeInclusion(proof).value)
  }

  ghost function AcceptedConsistencyInputs(H: Hash, rootAHex: string, a: int, rootBHex: string, b: int,
                                           proof: ConsistencyProof): set<Bytes>
    requires AcceptsConsistency(H, rootAHex, a, rootBHex, b, proof)
  {
    ConsistencyInputs(H, a, b, DecodeConsistency(proof).value)
  }

  /** Append-only soundness of the verifiers as called. */
  lemma AcceptedAppendOnly(H: Hash, rootAHex: string, a: int, rootBHex: string, b: int, i: int, c: ConsistencyProof,
                           bodyHex: string, p: InclusionProof, bodyHex': string, p': InclusionProof)
    requires AcceptsConsistency(H, rootAHex, a, rootBHex, b, c)
    requires AcceptsInclusion(H, rootAHex, a, i, bodyHex, p)
    requires AcceptsInclusion(H, rootBHex, b, i, bodyHex', p')
    ensures ParseDigest(bodyHex) == ParseDigest(bodyHex') ||
            CollisionIn(H, AcceptedInclusionInputs(H, rootAHex, a, i, bodyHex, p)
                           + AcceptedConsistencyInputs(H, rootAHex, a, rootBHex, b, c)
                           + AcceptedInclusionInputs(H, rootBHex, b, i, bodyHex', p'))
  {
    AppendOnly(H, ParseDigest(rootAHex).value, a, ParseDigest(rootBHex).value, b, i, DecodeConsistency(c).value,
               ParseDigest(bodyHex).value, DecodeInclusion(p).value,
               ParseDigest(bodyHex').value, DecodeInclusion(p').value);
  }

  /** Inclusion binding of the verifier as called. */
  lemma AcceptedInclusionBinding(H: Hash, rootHex: string, size: int, i: int,
                                 bodyHex: string, p: InclusionProof, bodyHex': string, p': InclusionProof)
    requires AcceptsInclusion(H, rootHex, size, i, bodyHex, p)
    requires AcceptsInclusion(H, rootHex, size, i, bodyHex', p')
    ensures || (ParseDigest(bodyHex) == ParseDigest(bodyHex') && DecodeInclusion(p) == DecodeInclusion(p'))
            || CollisionIn(H, AcceptedInclusionInputs(H, rootHex, size, i, bodyHex, p)
                              + AcceptedInclusionInputs(H, rootHex, size, i, bodyHex', p'))
  {
    InclusionBinding(H, ParseDigest(rootHex).value, size, i, ParseDigest(bodyHex).value, DecodeInclusion(p).value,
                     ParseDigest(bodyHex').value, DecodeInclusion(p').value);
  }
}

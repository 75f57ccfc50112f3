/** The completeness certificate: how `capsule bundle` builds it and what the
    viewer's check of it establishes. */
module Certificate {
  import opened Hashing
  import opened Proofs
  import opened Soundness
  import opened HonestLog
  import Geometry
  import Mmr

  type Option<+T> = Geometry.Option<T>

  datatype RangeProof = RangeProof(fromSeq: int, toSeq: int, size: int,
                                   inclusionFrom: Option<InclusionProof>, inclusionTo: Option<InclusionProof>)
  datatype Certificate = Certificate(rangeProof: Option<RangeProof>, rangeRoot: string,
                                     checkpointSize: int, checkpointRoot: string,
                                     consistencyProof: Option<ConsistencyProof>)

  datatype Status = Skip | Fail | Pass

  // ---------------------------------------------------------------- checker

  /** The first and last record are proved under the range root, each at the
      leaf index that the certificate carries. */
  ghost predicate BoundariesProved(H: Hash, ids: seq<string>, cc: Certificate)
    requires ids != []
  {
    && cc.rangeProof.Some?
    && var rp := cc.rangeProof.value;
    && rp.inclusionFrom.Some? && rp.inclusionTo.Some?
    && AcceptsInclusion(H, cc.rangeRoot, rp.size, rp.inclusionFrom.value.leafIndex, ids[0], rp.inclusionFrom.value)
    && AcceptsInclusion(H, cc.rangeRoot, rp.size, rp.inclusionTo.value.leafIndex, ids[|ids| - 1], rp.inclusionTo.value)
  }

  /** The checkpoint extends the range, where the certificate claims a bridge. */
  ghost predicate BridgeProved(H: Hash, cc: Certificate)
    requires cc.rangeProof.Some?
  {
    cc.consistencyProof.Some? ==>
      AcceptsConsistency(H, cc.rangeRoot, cc.rangeProof.value.size, cc.checkpointRoot, cc.checkpointSize,
                         cc.consistencyProof.value)
  }

  ghost predicate Certifies(H: Hash, ids: seq<string>, cc: Certificate)
    requires ids != []
  {
    BoundariesProved(H, ids, cc) && BridgeProved(H, cc)
  }

  /** The viewer's completeness stage. */
  method CheckCompleteness(H: Hash, ids: seq<string>, certificate: Option<Certificate>) returns (status: Status)
    ensures status == Skip <==> ids == [] || certificate.None?
    ensures status == Pass <==> ids != [] && certificate.Some? && Certifies(H, ids, certificate.value)
  {
    hide AcceptsInclusion, AcceptsConsistency;
    if |ids| == 0 { return Skip; }
    if certificate.None? { return Skip; }
    var cc := certificate.value;
    if cc.rangeProof.None? { return Fail; }
    var rp := cc.rangeProof.value;
    if rp.inclusionFrom.None? || rp.inclusionTo.None? { return Fail; }
    var okFrom := Mmr.VerifyInclusion(H, cc.rangeRoot, rp.size, rp.inclusionFrom.value.leafIndex, ids[0],
                                      rp.inclusionFrom.value);
    var okTo := Mmr.VerifyInclusion(H, cc.rangeRoot, rp.size, rp.inclusionTo.value.leafIndex, ids[|ids| - 1],
                                    rp.inclusionTo.value);
    if !okFrom || !okTo { return Fail; }
    if cc.consistencyProof.Some? {
      var okC := Mmr.VerifyConsistency(H, cc.rangeRoot, rp.size, cc.checkpointRoot, cc.checkpointSize,
                                       cc.consistencyProof.value);
      if !okC { return Fail; }
    }
    return Pass;
  }

  /** What the check does not look at: the sequence numbers it reports, the
      records between the two boundaries, and, without a bridge, the checkpoint. */
  lemma NotChecked(H: Hash, ids: seq<string>, ids': seq<string>, cc: Certificate, fromSeq: int, toSeq: int,
                   root: string, size: int)
    requires ids != [] && ids' != [] && ids'[0] == ids[0] && ids'[|ids'| - 1] == ids[|ids| - 1]
    requires cc.rangeProof.Some?
    ensures var rp := cc.rangeProof.value.(fromSeq := fromSeq, toSeq := toSeq);
            var relabelled := cc.(rangeProof := Geometry.Some(rp));
            Certifies(H, ids', relabelled) <==> Certifies(H, ids, cc)
    ensures cc.consistencyProof.None? ==>
              (Certifies(H, ids, cc.(checkpointRoot := root, checkpointSize := size)) <==> Certifies(H, ids, cc))
  {
    hide AcceptsInclusion, AcceptsConsistency;
  }

  /** Everything hashed while checking the bridge and one boundary. */
  ghost function BoundaryInputs(H: Hash, cc: Certificate, p: InclusionProof, id: string): set<Bytes>
    requires cc.rangeProof.Some? && cc.consistencyProof.Some? && BridgeProved(H, cc)
    requires AcceptsInclusion(H, cc.rangeRoot, cc.rangeProof.value.size, p.leafIndex, id, p)
  {
    AcceptedInclusionInputs(H, cc.rangeRoot, cc.rangeProof.value.size, p.leafIndex, id, p)
    + AcceptedConsistencyInputs(H, cc.rangeRoot, cc.rangeProof.value.size, cc.checkpointRoot, cc.checkpointSize,
                                cc.consistencyProof.value)
  }

  lemma BoundaryIsReal(H: Hash, cc: Certificate, p: InclusionProof, id: string, leaves: seq<Digest>)
    requires FitsCap(leaves)
    requires cc.rangeProof.Some? && cc.consistencyProof.Some? && BridgeProved(H, cc)
    requires ParseDigest(cc.checkpointRoot) == Geometry.Some(RootAt(H, leaves, |leaves|))
    requires cc.checkpointSize == SizeAt(leaves, |leaves|)
    requires AcceptsInclusion(H, cc.rangeRoot, cc.rangeProof.value.size, p.leafIndex, id, p)
    ensures 0 <= p.leafIndex < |leaves|
    ensures || ParseDigest(id) == Geometry.Some(leaves[p.leafIndex])
            || CollisionIn(H, BoundaryInputs(H, cc, p, id)
                              + InclusionInputs(H, SizeAt(leaves, |leaves|), p.leafIndex, leaves[p.leafIndex],
                                                HonestInclusion(H, leaves, |leaves|, p.leafIndex)))
  {
    var a, b, i := cc.rangeProof.value.size, cc.checkpointSize, p.leafIndex;
    var c := DecodeConsistency(cc.consistencyProof.value).value;
    LeafPathExtends(a, b, i);
    InclusionComplete(H, leaves, |leaves|, i);
    AppendOnly(H, ParseDigest(cc.rangeRoot).value, a, RootAt(H, leaves, |leaves|), b, i, c,
               ParseDigest(id).value, DecodeInclusion(p).value,
               leaves[i], HonestInclusion(H, leaves, |leaves|, i));
  }

  /** A pass whose bridge ends at the root of a real log: the first and the last
      record of the bundle are the leaves of that log at the indices in the
      certificate, or the hashed inputs collide. */
  lemma PassMeansRealBoundaries(H: Hash, ids: seq<string>, cc: Certificate, leaves: seq<Digest>)
    requires FitsCap(leaves) && ids != [] && Certifies(H, ids, cc) && cc.consistencyProof.Some?
    requires ParseDigest(cc.checkpointRoot) == Geometry.Some(RootAt(H, leaves, |leaves|))
    requires cc.checkpointSize == SizeAt(leaves, |leaves|)
    ensures var rp := cc.rangeProof.value;
            var i, j := rp.inclusionFrom.value.leafIndex, rp.inclusionTo.value.leafIndex;
            && 0 <= i < |leaves| && 0 <= j < |leaves|
            && (|| (ParseDigest(ids[0]) == Geometry.Some(leaves[i]) &&
                    ParseDigest(ids[|ids| - 1]) == Geometry.Some(leaves[j]))
                || CollisionIn(H, BoundaryInputs(H, cc, rp.inclusionFrom.value, ids[0])
                                  + InclusionInputs(H, SizeAt(leaves, |leaves|), i, leaves[i],
                                                    HonestInclusion(H, leaves, |leaves|, i)))
                || CollisionIn(H, BoundaryInputs(H, cc, rp.inclusionTo.value, ids[|ids| - 1])
                                  + InclusionInputs(H, SizeAt(leaves, |leaves|), j, leaves[j],
                                                    HonestInclusion(H, leaves, |leaves|, j))))
  {
    hide AcceptsInclusion, AcceptsConsistency, CollisionIn, HonestInclusion, InclusionInputs, BoundaryInputs;
    BoundaryIsReal(H, cc, cc.rangeProof.value.inclusionFrom.value, ids[0], leaves);
    BoundaryIsReal(H, cc, cc.rangeProof.value.inclusionTo.value, ids[|ids| - 1], leaves);
  }

  /** Everything hashed while checking a boundary, and to prove the real leaf at
      its index in the range of the log at `m` leaves. */
  ghost function RangeInputs(H: Hash, cc: Certificate, p: InclusionProof, id: string, leaves: seq<Digest>, m: nat)
    : set<Bytes>
    requires FitsCap(leaves) && m <= |leaves| && 0 <= p.leafIndex < m && cc.rangeProof.Some?
    requires AcceptsInclusion(H, cc.rangeRoot, cc.rangeProof.value.size, p.leafIndex, id, p)
  {
    AcceptedInclusionInputs(H, cc.rangeRoot, cc.rangeProof.value.size, p.leafIndex, id, p)
    + InclusionInputs(H, SizeAt(leaves, m), p.leafIndex, leaves[p.leafIndex],
                      HonestInclusion(H, leaves, m, p.leafIndex))
  }

  lemma RangeBoundaryIsReal(H: Hash, cc: Certificate, p: InclusionProof, id: string, leaves: seq<Digest>, m: nat)
    requires FitsCap(leaves) && m <= |leaves| && cc.rangeProof.Some?
    requires ParseDigest(cc.rangeRoot) == Geometry.Some(RootAt(H, leaves, m))
    requires cc.rangeProof.value.size == SizeAt(leaves, m)
    requires AcceptsInclusion(H, cc.rangeRoot, cc.rangeProof.value.size, p.leafIndex, id, p)
    ensures 0 <= p.leafIndex < m
    ensures ParseDigest(id) == Geometry.Some(leaves[p.leafIndex]) ||
            CollisionIn(H, RangeInputs(H, cc, p, id, leaves, m))
  {
    OnlyRealLeaves(H, leaves, m, p.leafIndex, ParseDigest(id).value, DecodeInclusion(p).value);
  }

  /** A pass, bridged or not, whose range root is the root that a real log had at
      that size: the first and the last record of the bundle are the leaves of that
      log at the indices in the certificate, or the hashed inputs collide. */
  lemma RangeMeansRealBoundaries(H: Hash, ids: seq<string>, cc: Certificate, leaves: seq<Digest>, m: nat)
    requires FitsCap(leaves) && m <= |leaves| && ids != [] && Certifies(H, ids, cc)
    requires ParseDigest(cc.rangeRoot) == Geometry.Some(RootAt(H, leaves, m))
    requires cc.rangeProof.value.size == SizeAt(leaves, m)
    ensures var p, q := cc.rangeProof.value.inclusionFrom.value, cc.rangeProof.value.inclusionTo.value;
            && 0 <= p.leafIndex < m && 0 <= q.leafIndex < m
            && (|| (ParseDigest(ids[0]) == Geometry.Some(leaves[p.leafIndex]) &&
                    ParseDigest(ids[|ids| - 1]) == Geometry.Some(leaves[q.leafIndex]))
                || CollisionIn(H, RangeInputs(H, cc, p, ids[0], leaves, m))
                || CollisionIn(H, RangeInputs(H, cc, q, ids[|ids| - 1], leaves, m)))
  {
    hide AcceptsInclusion, AcceptsConsistency, CollisionIn, RangeInputs, RootAt, SizeAt;
    RangeBoundaryIsReal(H, cc, cc.rangeProof.value.inclusionFrom.value, ids[0], leaves, m);
    RangeBoundaryIsReal(H, cc, cc.rangeProof.value.inclusionTo.value, ids[|ids| - 1], leaves, m);
  }

  // --------------------------------------------------------------- producer

  datatype LedgerRecord = LedgerRecord(seqNo: nat, capsuleId: string)

  /** The index the producer asks for proofs. */
  datatype MmrIndex = MmrIndex(
    rangeProof: (nat, nat) -> RangeProof,
    rootAt: int -> Digest,
    consistencyProof: (int, int) -> ConsistencyProof)

  method BuildCertificate(mmr: MmrIndex, records: seq<LedgerRecord>, treeSize: nat) returns (cc: Option<Certificate>)
    ensures cc.None? <==> records == []
    ensures cc.Some? ==> cc.value == BuiltFor(mmr, records[0].seqNo, records[|records| - 1].seqNo, treeSize)
  {
    if |records| == 0 { return Geometry.None; }
    var fromSeq, toSeq := records[0].seqNo, records[|records| - 1].seqNo;
    var proof := mmr.rangeProof(fromSeq, toSeq);
    var rangeRoot := BytesToHex(mmr.rootAt(proof.size));
    var checkpointSize := Geometry.NodeCount(treeSize);
    var checkpointRoot, consistency;
    if checkpointSize == proof.size {
      checkpointRoot := rangeRoot;
      consistency := Geometry.None;
    } else {
      checkpointRoot := BytesToHex(mmr.rootAt(checkpointSize));
      consistency := Geometry.Some(mmr.consistencyProof(proof.size, checkpointSize));
    }
    return Geometry.Some(Certificate(
      Geometry.Some(RangeProof(proof.fromSeq, proof.toSeq, proof.size, proof.inclusionFrom, proof.inclusionTo)),
      rangeRoot, checkpointSize, checkpointRoot, consistency));
  }

  /** The certificate for a range of sequence numbers. */
  function BuiltFor(mmr: MmrIndex, fromSeq: nat, toSeq: nat, treeSize: nat): Certificate {
    var proof := mmr.rangeProof(fromSeq, toSeq);
    var end := Geometry.NodeCount(treeSize);
    Certificate(Geometry.Some(proof), BytesToHex(mmr.rootAt(proof.size)), end, BytesToHex(mmr.rootAt(end)),
                if end == proof.size then Geometry.None else Geometry.Some(mmr.consistencyProof(proof.size, end)))
  }

  /** The index over a ledger whose `i`-th record (from 1) has leaf `leaves[i - 1]`. */
  ghost predicate Indexes(H: Hash, mmr: MmrIndex, leaves: seq<Digest>) {
    && FitsCap(leaves)
    && (forall m: nat :: m <= |leaves| ==> mmr.rootAt(SizeAt(leaves, m)) == RootAt(H, leaves, m))
    && (forall l: nat, m: nat :: 1 <= l <= m <= |leaves| ==> mmr.rangeProof(l, m) == RealRange(H, leaves, l, m))
    && (forall l: nat, m: nat :: l <= m <= |leaves| ==>
          mmr.consistencyProof(SizeAt(leaves, l), SizeAt(leaves, m)) ==
          EncodeConsistency(SizeAt(leaves, l), SizeAt(leaves, m), HonestConsistency(H, leaves, l, m)))
  }

  /** Both boundaries are proved in the range as it stood right after the last. */
  ghost function RealRange(H: Hash, leaves: seq<Digest>, fromSeq: nat, toSeq: nat): RangeProof
    requires FitsCap(leaves) && 1 <= fromSeq <= toSeq <= |leaves|
  {
    var size := SizeAt(leaves, toSeq);
    RangeProof(fromSeq, toSeq, size,
               Geometry.Some(EncodeInclusion(size, fromSeq - 1, HonestInclusion(H, leaves, toSeq, fromSeq - 1))),
               Geometry.Some(EncodeInclusion(size, toSeq - 1, HonestInclusion(H, leaves, toSeq, toSeq - 1))))
  }

  /** The branch that skips the bridge is taken exactly when the range reaches
      the end of the ledger. */
  lemma BridgeBranch(H: Hash, mmr: MmrIndex, leaves: seq<Digest>, l: nat, m: nat)
    requires Indexes(H, mmr, leaves) && 1 <= l <= m <= |leaves|
    ensures BuiltFor(mmr, l, m, |leaves|).consistencyProof.None? <==> m == |leaves|
  {
    Geometry.NodeCountIncreasing(m, |leaves|);
    hide RealRange, RootAt, BytesToHex, EncodeConsistency, HonestConsistency;
    assert mmr.rangeProof(l, m) == RealRange(H, leaves, l, m);
    RealRangeSize(H, leaves, l, m);
  }

  lemma RealRangeSize(H: Hash, leaves: seq<Digest>, l: nat, m: nat)
    requires FitsCap(leaves) && 1 <= l <= m <= |leaves|
    ensures RealRange(H, leaves, l, m).size == SizeAt(leaves, m)
  {
  }

  lemma RealBoundaries(H: Hash, leaves: seq<Digest>, l: nat, m: nat, ids: seq<string>, cc: Certificate)
    requires FitsCap(leaves) && 1 <= l <= m <= |leaves| && ids != []
    requires ParseDigest(ids[0]) == Geometry.Some(leaves[l - 1])
    requires ParseDigest(ids[|ids| - 1]) == Geometry.Some(leaves[m - 1])
    requires cc.rangeProof == Geometry.Some(RealRange(H, leaves, l, m))
    requires cc.rangeRoot == BytesToHex(RootAt(H, leaves, m))
    ensures BoundariesProved(H, ids, cc)
  {
    hide AcceptsInclusion, RootAt, BytesToHex, HonestInclusion, SizeAt;
    ParseHexDigest(RootAt(H, leaves, m));
    HonestInclusionAccepted(H, leaves, m, l - 1, cc.rangeRoot, ids[0]);
    HonestInclusionAccepted(H, leaves, m, m - 1, cc.rangeRoot, ids[|ids| - 1]);
  }

  lemma RealBridge(H: Hash, mmr: MmrIndex, leaves: seq<Digest>, l: nat, m: nat)
    requires Indexes(H, mmr, leaves) && 1 <= l <= m <= |leaves|
    ensures BridgeProved(H, BuiltFor(mmr, l, m, |leaves|))
  {
    var n := |leaves|;
    assert mmr.rangeProof(l, m) == RealRange(H, leaves, l, m);
    RealRangeSize(H, leaves, l, m);
    hide RealRange, AcceptsConsistency, RootAt, BytesToHex, EncodeConsistency, HonestConsistency;
    ParseHexDigest(RootAt(H, leaves, m));
    ParseHexDigest(RootAt(H, leaves, n));
    HonestConsistencyAccepted(H, leaves, m, n, BytesToHex(RootAt(H, leaves, m)), BytesToHex(RootAt(H, leaves, n)));
    assert mmr.rootAt(SizeAt(leaves, m)) == RootAt(H, leaves, m);
    assert mmr.rootAt(SizeAt(leaves, n)) == RootAt(H, leaves, n);
    assert mmr.consistencyProof(SizeAt(leaves, m), SizeAt(leaves, n)) ==
           EncodeConsistency(SizeAt(leaves, m), SizeAt(leaves, n), HonestConsistency(H, leaves, m, n));
  }

  /** A selection of ledger records, in order of sequence number. */
  ghost predicate Selection(leaves: seq<Digest>, records: seq<LedgerRecord>) {
    && (forall k :: 0 <= k < |records| ==>
          1 <= records[k].seqNo <= |leaves| &&
          ParseDigest(records[k].capsuleId) == Geometry.Some(leaves[records[k].seqNo - 1]))
    && (forall j, k :: 0 <= j <= k < |records| ==> records[j].seqNo <= records[k].seqNo)
  }

  lemma BuiltRange(H: Hash, mmr: MmrIndex, leaves: seq<Digest>, l: nat, m: nat)
    requires Indexes(H, mmr, leaves) && 1 <= l <= m <= |leaves|
    ensures BuiltFor(mmr, l, m, |leaves|).rangeProof == Geometry.Some(RealRange(H, leaves, l, m))
    ensures BuiltFor(mmr, l, m, |leaves|).rangeRoot == BytesToHex(RootAt(H, leaves, m))
  {
    assert mmr.rangeProof(l, m) == RealRange(H, leaves, l, m);
    assert mmr.rootAt(SizeAt(leaves, m)) == RootAt(H, leaves, m);
    RealRangeSize(H, leaves, l, m);
    hide RealRange, RootAt, BytesToHex, EncodeConsistency, HonestConsistency;
  }

  /** What the certificate says of the ledger, field by field: the sequence numbers
      and the range as it stood after the last, the whole ledger as checkpoint, both
      with the roots that the log had, bridged or not. */
  lemma BuiltFields(H: Hash, mmr: MmrIndex, leaves: seq<Digest>, l: nat, m: nat)
    requires Indexes(H, mmr, leaves) && 1 <= l <= m <= |leaves|
    ensures var cc := BuiltFor(mmr, l, m, |leaves|);
            && cc.rangeProof.Some?
            && cc.rangeProof.value.fromSeq == l && cc.rangeProof.value.toSeq == m
            && cc.rangeProof.value.size == Geometry.NodeCount(m)
            && cc.checkpointSize == Geometry.NodeCount(|leaves|)
            && ParseDigest(cc.rangeRoot) == Geometry.Some(RootAt(H, leaves, m))
            && ParseDigest(cc.checkpointRoot) == Geometry.Some(RootAt(H, leaves, |leaves|))
    ensures m < |leaves| ==>
              BuiltFor(mmr, l, m, |leaves|).consistencyProof ==
              Geometry.Some(EncodeConsistency(SizeAt(leaves, m), SizeAt(leaves, |leaves|),
                                              HonestConsistency(H, leaves, m, |leaves|)))
  {
    var n := |leaves|;
    BuiltRange(H, mmr, leaves, l, m);
    BridgeBranch(H, mmr, leaves, l, m);
    ParseHexDigest(RootAt(H, leaves, m));
    ParseHexDigest(RootAt(H, leaves, n));
    assert mmr.rootAt(SizeAt(leaves, n)) == RootAt(H, leaves, n);
    assert mmr.consistencyProof(SizeAt(leaves, m), SizeAt(leaves, n)) ==
           EncodeConsistency(SizeAt(leaves, m), SizeAt(leaves, n), HonestConsistency(H, leaves, m, n));
    hide RootAt, BytesToHex, EncodeConsistency, HonestConsistency, HonestInclusion, ParseDigest;
  }

  lemma BuiltCertifies(H: Hash, mmr: MmrIndex, leaves: seq<Digest>, l: nat, m: nat, ids: seq<string>)
    requires Indexes(H, mmr, leaves) && 1 <= l <= m <= |leaves| && ids != []
    requires ParseDigest(ids[0]) == Geometry.Some(leaves[l - 1])
    requires ParseDigest(ids[|ids| - 1]) == Geometry.Some(leaves[m - 1])
    ensures Certifies(H, ids, BuiltFor(mmr, l, m, |leaves|))
  {
    BuiltRange(H, mmr, leaves, l, m);
    RealBridge(H, mmr, leaves, l, m);
    var cc := BuiltFor(mmr, l, m, |leaves|);
    assert FitsCap(leaves);
    assert BridgeProved(H, cc);
    hide *;
    RealBoundaries(H, leaves, l, m, ids, cc);
    BothCertify(H, ids, cc);
  }

  lemma BothCertify(H: Hash, ids: seq<string>, cc: Certificate)
    requires ids != [] && BoundariesProved(H, ids, cc) && BridgeProved(H, cc)
    ensures Certifies(H, ids, cc)
  {
    hide BoundariesProved, BridgeProved;
  }

  /** Producer and checker agree: for every non-empty selection from a gap-free
      ledger, with or without a bridge, the certificate that is built passes. */
  lemma ProducerCheckerAgree(H: Hash, mmr: MmrIndex, leaves: seq<Digest>, records: seq<LedgerRecord>, ids: seq<string>)
    requires Indexes(H, mmr, leaves) && Selection(leaves, records) && records != []
    requires |ids| == |records| && forall k :: 0 <= k < |ids| ==> ids[k] == records[k].capsuleId
    ensures Certifies(H, ids, BuiltFor(mmr, records[0].seqNo, records[|records| - 1].seqNo, |leaves|))
  {
    hide Indexes, BuiltFor, Certifies, ParseDigest;
    BuiltCertifies(H, mmr, leaves, records[0].seqNo, records[|records| - 1].seqNo, ids);
  }
}

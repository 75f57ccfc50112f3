/** `capsule checkpoint verify`: the run over the stored checkpoints. */
module Checkpoints {
  import opened Hashing
  import opened Proofs
  import opened Soundness
  import opened HonestLog
  import opened Commitment
  import Geometry
  import Mmr

  type Option<+T> = Geometry.Option<T>

  datatype Receipt = Receipt(tsUrl: string, leafIndex: int, treeSize: int)
  datatype CheckpointRecord = CheckpointRecord(mmrSize: int, root: string, keyId: string, signature: string,
                                               witnesses: seq<Receipt>)

  /** An entry of the checkpoint directory: the size in its file name and what
      loading it gave. */
  datatype Stored = Stored(size: int, record: Option<CheckpointRecord>)

  /** The log at hand: number of leaves, leaf digests by sequence number (from 1),
      and the proofs it hands out. */
  datatype LiveLog = LiveLog(
    leafCount: nat,
    bodyDigest: int -> Digest,
    inclusionProof: (int, int) -> InclusionProof,
    consistencyProof: (int, int) -> ConsistencyProof)

  /** The checks that depend on keys and on receipts. */
  datatype Trust = Trust(signatureOk: CheckpointRecord -> bool, receiptOk: Receipt -> bool)

  datatype Exit = NothingToVerify | Clean | Failed | Crashed

  // ------------------------------------------------------ one checkpoint

  /** The root of a checkpoint as the verifiers get it: its bytes, in hex. */
  function RootText(cp: CheckpointRecord): string {
    match FromHex(cp.root)
    case Some(bs) => BytesToHex(bs)
    case None => ""
  }

  /** A root in plain hex is read as what it says; white space between its bytes
      makes no difference. */
  lemma RootTextPlain(cp: CheckpointRecord)
    requires HexToBytes(cp.root).Some?
    ensures ParseDigest(RootText(cp)) == ParseDigest(cp.root)
  {
    FromHexAgrees(cp.root);
    HexRoundTrip(HexToBytes(cp.root).value);
  }

  predicate ReceiptsOk(trust: Trust, cp: CheckpointRecord) {
    forall w :: w in cp.witnesses ==> trust.receiptOk(w)
  }

  ghost predicate ConsistentWith(H: Hash, log: LiveLog, prev: CheckpointRecord, cp: CheckpointRecord) {
    AcceptsConsistency(H, RootText(prev), prev.mmrSize, RootText(cp), cp.mmrSize,
                       log.consistencyProof(prev.mmrSize, cp.mmrSize))
  }

  /** Counting the leaves of an impossible size raises. */
  ghost predicate Crashes(log: LiveLog, size: int) {
    size <= Geometry.NodeCount(log.leafCount) && !ValidSize(size)
  }

  /** Where the log is long enough, the last witnessed leaf is proved under the
      checkpoint root. */
  ghost predicate Anchored(H: Hash, log: LiveLog, size: int, cp: CheckpointRecord) {
    size <= Geometry.NodeCount(log.leafCount) && ValidSize(size) ==>
      var lastSeq := Geometry.LeavesIn(size);
      1 <= lastSeq <= log.leafCount ==>
        AcceptsInclusion(H, RootText(cp), size, lastSeq - 1, BytesToHex(log.bodyDigest(lastSeq)),
                         log.inclusionProof(lastSeq, size))
  }

  ghost predicate Sound(H: Hash, log: LiveLog, trust: Trust, prev: Option<CheckpointRecord>, size: int,
                        cp: CheckpointRecord)
  {
    && trust.signatureOk(cp)
    && (prev.Some? ==> ConsistentWith(H, log, prev.value, cp))
    && Anchored(H, log, size, cp)
    && ReceiptsOk(trust, cp)
  }

  // --------------------------------------------------------------- the run

  /** The checkpoints that could be loaded, with the size they were filed under. */
  function Loaded(stored: seq<Stored>): seq<(int, CheckpointRecord)> {
    if stored == [] then []
    else if stored[0].record.None? then Loaded(stored[1..])
    else [(stored[0].size, stored[0].record.value)] + Loaded(stored[1..])
  }

  /** The checkpoint before the `k`-th loaded one. */
  function Previous(run: seq<(int, CheckpointRecord)>, k: nat): Option<CheckpointRecord>
    requires k <= |run|
  {
    if k == 0 then Geometry.None else Geometry.Some(run[k - 1].1)
  }

  ghost predicate SoundAt(H: Hash, log: LiveLog, trust: Trust, run: seq<(int, CheckpointRecord)>, k: nat)
    requires k < |run|
  {
    Sound(H, log, trust, Previous(run, k), run[k].0, run[k].1)
  }

  ghost predicate RunSound(H: Hash, log: LiveLog, trust: Trust, run: seq<(int, CheckpointRecord)>) {
    forall k :: 0 <= k < |run| ==> SoundAt(H, log, trust, run, k)
  }

  lemma LoadedSnoc(stored: seq<Stored>, n: nat)
    requires n < |stored|
    ensures Loaded(stored[..n + 1]) ==
            Loaded(stored[..n]) + if stored[n].record.None? then [] else [(stored[n].size, stored[n].record.value)]
  {
    if n > 0 {
      LoadedSnoc(stored[1..], n - 1);
      assert stored[..n + 1][1..] == stored[1..][..n] && stored[..n][1..] == stored[1..][..n - 1];
    } else {
      assert stored[..1][1..] == [];
    }
  }

  method CheckReceipts(trust: Trust, cp: CheckpointRecord) returns (ok: bool)
    ensures ok == ReceiptsOk(trust, cp)
    ensures ok <==> forall w :: w in cp.witnesses ==> trust.receiptOk(w)
  {
    ok := true;
    for i := 0 to |cp.witnesses|
      invariant ok <==> forall j :: 0 <= j < i ==> trust.receiptOk(cp.witnesses[j])
    {
      if !trust.receiptOk(cp.witnesses[i]) {
        ok := false;
      }
    }
  }

  /** The anchoring step; `None` is the uncaught error. */
  method CheckAnchor(H: Hash, log: LiveLog, size: int, cp: CheckpointRecord) returns (ok: Option<bool>)
    ensures ok.None? <==> Crashes(log, size)
    ensures ok.Some? ==> ok.value == Anchored(H, log, size, cp)
  {
    hide Geometry.NodeCount, ValidSize, AcceptsInclusion, BytesToHex;
    var mmrSize := Geometry.NodeCount(log.leafCount);
    if size > mmrSize {
      return Geometry.Some(true);
    }
    var witnessed := Mmr.LeafCountFromSize(size);
    if witnessed.None? {
      return Geometry.None;
    }
    var lastSeq := witnessed.value;
    if 1 <= lastSeq <= log.leafCount {
      var proof := log.inclusionProof(lastSeq, size);
      var bodyHex := BytesToHex(log.bodyDigest(lastSeq));
      var accepted := Mmr.VerifyInclusion(H, RootText(cp), size, lastSeq - 1, bodyHex, proof);
      return Geometry.Some(accepted);
    }
    return Geometry.Some(true);
  }

  /** The body of the loop: every check runs, whatever the earlier ones said. */
  method CheckOne(H: Hash, log: LiveLog, trust: Trust, prev: Option<CheckpointRecord>, size: int, cp: CheckpointRecord)
    returns (ok: Option<bool>)
    ensures ok.None? <==> Crashes(log, size)
    ensures ok.Some? ==> ok.value == Sound(H, log, trust, prev, size, cp)
    ensures ok.Some? && ok.value ==>
              trust.signatureOk(cp) && forall w :: w in cp.witnesses ==> trust.receiptOk(w)
  {
    hide Crashes, Anchored, ReceiptsOk, AcceptsConsistency;
    var allOk := true;
    if !trust.signatureOk(cp) {
      allOk := false;
    }
    if prev.Some? {
      var consistent := Mmr.VerifyConsistency(H, RootText(prev.value), prev.value.mmrSize, RootText(cp), cp.mmrSize,
                                              log.consistencyProof(prev.value.mmrSize, cp.mmrSize));
      if !consistent {
        allOk := false;
      }
    }
    var anchored := CheckAnchor(H, log, size, cp);
    if anchored.None? {
      return Geometry.None;
    }
    if !anchored.value {
      allOk := false;
    }
    var receipts := CheckReceipts(trust, cp);
    if !receipts {
      allOk := false;
    }
    return Geometry.Some(allOk);
  }

  lemma SoundAtMeans(H: Hash, log: LiveLog, trust: Trust, run: seq<(int, CheckpointRecord)>, k: nat)
    requires k < |run|
    ensures SoundAt(H, log, trust, run, k) <==> Sound(H, log, trust, Previous(run, k), run[k].0, run[k].1)
    ensures Previous(run, k + 1) == Geometry.Some(run[k].1)
  {
  }

  lemma RunSoundMeans(H: Hash, log: LiveLog, trust: Trust, run: seq<(int, CheckpointRecord)>)
    ensures RunSound(H, log, trust, run) <==> forall k :: 0 <= k < |run| ==> SoundAt(H, log, trust, run, k)
    ensures Previous(run, 0) == Geometry.None
    ensures Loaded([]) == []
  {
  }

  /** The lag report at the end raises when the last checkpoint names an
      impossible size. */
  ghost predicate LagRaises(run: seq<(int, CheckpointRecord)>) {
    run != [] && !ValidSize(run[|run| - 1].1.mmrSize)
  }

  ghost predicate SomeCrash(log: LiveLog, run: seq<(int, CheckpointRecord)>) {
    exists k :: 0 <= k < |run| && Crashes(log, run[k].0)
  }

  /** Entries appended since the checkpoint was taken. */
  ghost function LagSince(log: LiveLog, cp: CheckpointRecord): int
    requires ValidSize(cp.mmrSize)
  {
    log.leafCount - Geometry.LeavesIn(cp.mmrSize)
  }

  method ReportLag(log: LiveLog, cp: CheckpointRecord) returns (lag: Option<int>)
    ensures lag.Some? <==> ValidSize(cp.mmrSize)
    ensures lag.Some? ==> lag.value == LagSince(log, cp)
  {
    var witnessed := Mmr.LeafCountFromSize(cp.mmrSize);
    if witnessed.None? {
      return Geometry.None;
    }
    return Geometry.Some(log.leafCount - witnessed.value);
  }

  /** How the command ends. */
  ghost function ExitFor(H: Hash, log: LiveLog, trust: Trust, stored: seq<Stored>): Exit {
    if stored == [] then NothingToVerify
    else if SomeCrash(log, Loaded(stored)) || LagRaises(Loaded(stored)) then Crashed
    else if RunSound(H, log, trust, Loaded(stored)) then Clean
    else Failed
  }

  lemma ExitMeans(H: Hash, log: LiveLog, trust: Trust, stored: seq<Stored>)
    ensures var exit := ExitFor(H, log, trust, stored);
            && (exit == NothingToVerify <==> stored == [])
            && (exit == Crashed <==> SomeCrash(log, Loaded(stored)) || LagRaises(Loaded(stored)))
            && (exit == Clean ==> RunSound(H, log, trust, Loaded(stored)))
            && (exit == Failed ==> !RunSound(H, log, trust, Loaded(stored)))
  {
    hide RunSound, ValidSize, Crashes;
  }

  /** The verification loop: it goes on after a failed check, and ends clean
      exactly when every loaded checkpoint passes all its checks.  The lag is
      reported for the last loaded checkpoint. */
  method VerifyCheckpoints(H: Hash, log: LiveLog, trust: Trust, stored: seq<Stored>)
    returns (exit: Exit, lag: Option<int>)
    ensures exit == ExitFor(H, log, trust, stored)
    ensures var run := Loaded(stored);
            (exit == Clean || exit == Failed) && run != [] ==> lag == Geometry.Some(LagSince(log, run[|run| - 1].1))
  {
    hide *;
    ghost var run := Loaded(stored);
    ExitMeans(H, log, trust, stored);
    RunSoundMeans(H, log, trust, run);
    LagRaisesMeans(run);
    SomeCrashMeans(log, run);
    lag := Geometry.None;
    if |stored| == 0 {
      return NothingToVerify, Geometry.None;
    }
    var allOk := true;
    var prev: Option<CheckpointRecord> := Geometry.None;
    ghost var k := 0;
    assert stored[..0] == [];
    for n := 0 to |stored|
      invariant k == |Loaded(stored[..n])| <= |run|
      invariant prev == Previous(run, k)
      invariant forall j :: 0 <= j < k ==> !Crashes(log, run[j].0)
      invariant allOk <==> forall j :: 0 <= j < k ==> SoundAt(H, log, trust, run, j)
    {
      LoadedSnoc(stored, n);
      LoadedPrefix(stored, n + 1);
      if stored[n].record.Some? {
        var size, cp := stored[n].size, stored[n].record.value;
        assert run[k] == Loaded(stored[..n + 1])[k] == (size, cp);
        SoundAtMeans(H, log, trust, run, k);
        var ok := CheckOne(H, log, trust, prev, size, cp);
        if ok.None? {
          return Crashed, Geometry.None;
        }
        if !ok.value {
          allOk := false;
        }
        prev := Geometry.Some(cp);
        k := k + 1;
      }
    }
    assert stored[..|stored|] == stored;
    PreviousLast(run);
    if prev.Some? {
      lag := ReportLag(log, prev.value);
      if lag.None? {
        return Crashed, lag;
      }
    }
    exit := if allOk then Clean else Failed;
  }

  lemma LagRaisesMeans(run: seq<(int, CheckpointRecord)>)
    ensures LagRaises(run) <==> run != [] && !ValidSize(run[|run| - 1].1.mmrSize)
  {
    hide ValidSize;
  }

  lemma SomeCrashMeans(log: LiveLog, run: seq<(int, CheckpointRecord)>)
    ensures SomeCrash(log, run) <==> exists k :: 0 <= k < |run| && Crashes(log, run[k].0)
    ensures SomeCrash(log, run) ==> run != []
    ensures Loaded([]) == []
  {
    hide Crashes;
  }

  lemma PreviousLast(run: seq<(int, CheckpointRecord)>)
    ensures Previous(run, |run|) == if run == [] then Geometry.None else Geometry.Some(run[|run| - 1].1)
  {
  }

  lemma LoadedPrefix(stored: seq<Stored>, n: nat)
    requires n <= |stored|
    ensures |Loaded(stored[..n])| <= |Loaded(stored)|
    ensures Loaded(stored[..n]) == Loaded(stored)[..|Loaded(stored[..n])|]
    decreases |stored| - n
  {
    if n == |stored| {
      assert stored[..n] == stored;
    } else {
      LoadedPrefix(stored, n + 1);
      LoadedSnoc(stored, n);
    }
  }

  // ------------------------------------------- signatures and receipts

  /** What is loaded: the entries of the directory that hold a record. */
  lemma {:induction false} LoadedExact(stored: seq<Stored>, size: int, cp: CheckpointRecord)
    ensures (size, cp) in Loaded(stored) <==> Stored(size, Geometry.Some(cp)) in stored
    decreases |stored|
  {
    if stored != [] {
      LoadedExact(stored[1..], size, cp);
      assert stored == [stored[0]] + stored[1..];
    }
  }

  /** Keys and receipts under which everything holds. */
  ghost predicate Lenient(trust: Trust) {
    (forall cp {:trigger trust.signatureOk(cp)} :: trust.signatureOk(cp)) &&
    (forall w {:trigger trust.receiptOk(w)} :: trust.receiptOk(w))
  }

  /** The signature of every stored checkpoint holds, and each of its receipts. */
  ghost predicate AllVouched(trust: Trust, stored: seq<Stored>) {
    forall e :: e in stored && e.record.Some? ==>
      trust.signatureOk(e.record.value) && forall w :: w in e.record.value.witnesses ==> trust.receiptOk(w)
  }

  lemma SoundSplits(H: Hash, log: LiveLog, trust: Trust, lenient: Trust, prev: Option<CheckpointRecord>, size: int,
                    cp: CheckpointRecord)
    requires Lenient(lenient)
    ensures Sound(H, log, trust, prev, size, cp) <==>
            && Sound(H, log, lenient, prev, size, cp)
            && trust.signatureOk(cp) && forall w :: w in cp.witnesses ==> trust.receiptOk(w)
  {
    hide Anchored, ConsistentWith;
  }

  lemma RunSoundSplits(H: Hash, log: LiveLog, trust: Trust, lenient: Trust, stored: seq<Stored>)
    requires Lenient(lenient)
    ensures RunSound(H, log, trust, Loaded(stored)) <==>
            RunSound(H, log, lenient, Loaded(stored)) && AllVouched(trust, stored)
  {
    var run := Loaded(stored);
    forall k | 0 <= k < |run|
      ensures SoundAt(H, log, trust, run, k) <==>
              && SoundAt(H, log, lenient, run, k)
              && trust.signatureOk(run[k].1) && forall w :: w in run[k].1.witnesses ==> trust.receiptOk(w)
      ensures Stored(run[k].0, Geometry.Some(run[k].1)) in stored
    {
      SoundSplits(H, log, trust, lenient, Previous(run, k), run[k].0, run[k].1);
      LoadedExact(stored, run[k].0, run[k].1);
    }
    hide SoundAt, Loaded;
    RunSoundMeans(H, log, trust, run);
    RunSoundMeans(H, log, lenient, run);
    if RunSound(H, log, trust, run) {
      forall e | e in stored && e.record.Some?
        ensures trust.signatureOk(e.record.value)
        ensures forall w :: w in e.record.value.witnesses ==> trust.receiptOk(w)
      {
        LoadedExact(stored, e.size, e.record.value);
        var k :| 0 <= k < |run| && run[k] == (e.size, e.record.value);
      }
    }
  }

  /** Signatures and receipts, exactly: whatever the log, one signature or one
      receipt that does not hold, at any stored checkpoint, keeps the command from
      ending clean; and when all of them hold they are no reason to fail. */
  lemma VouchedExact(H: Hash, log: LiveLog, trust: Trust, lenient: Trust, stored: seq<Stored>)
    requires Lenient(lenient)
    ensures ExitFor(H, log, trust, stored) == Clean <==>
            && ExitFor(H, log, lenient, stored) == Clean
            && forall e :: e in stored && e.record.Some? ==>
                 trust.signatureOk(e.record.value) && forall w :: w in e.record.value.witnesses ==> trust.receiptOk(w)
    ensures ExitFor(H, log, trust, stored) in {Crashed, NothingToVerify} ==>
              ExitFor(H, log, lenient, stored) == ExitFor(H, log, trust, stored)
  {
    hide RunSound, SomeCrash, LagRaises, Loaded;
    RunSoundSplits(H, log, trust, lenient, stored);
  }

  /** The error that nothing catches, exactly: a checkpoint that loads is filed
      under a size that the log reaches and that is no node count below the cap, or
      the last one that loads names such a size. */
  lemma CrashExact(H: Hash, log: LiveLog, trust: Trust, stored: seq<Stored>)
    ensures ExitFor(H, log, trust, stored) == Crashed <==>
            || (exists e :: e in stored && e.record.Some? && e.size <= Geometry.NodeCount(log.leafCount) &&
                            !ValidSize(e.size))
            || (Loaded(stored) != [] && !ValidSize(Loaded(stored)[|Loaded(stored)| - 1].1.mmrSize))
  {
    var run := Loaded(stored);
    hide ValidSize, Geometry.NodeCount, RunSound, Loaded;
    if e :| e in stored && e.record.Some? && e.size <= Geometry.NodeCount(log.leafCount) && !ValidSize(e.size) {
      LoadedExact(stored, e.size, e.record.value);
      var k :| 0 <= k < |run| && run[k] == (e.size, e.record.value);
      assert Crashes(log, run[k].0);
    }
    forall k | 0 <= k < |run| && Crashes(log, run[k].0)
      ensures exists e :: e in stored && e.record.Some? && e.size <= Geometry.NodeCount(log.leafCount) &&
                          !ValidSize(e.size)
    {
      LoadedExact(stored, run[k].0, run[k].1);
      var e := Stored(run[k].0, Geometry.Some(run[k].1));
      assert e in stored;
    }
    NoneStored();
  }

  lemma NoneStored()
    ensures Loaded([]) == []
  {
  }

  // ------------------------------------------------- safety of whole runs

  /** The consistency proof checked at loaded checkpoint `k` against the one before. */
  ghost predicate Bridged(H: Hash, log: LiveLog, run: seq<(int, CheckpointRecord)>, k: nat)
    requires 0 < k < |run|
  {
    ConsistentWith(H, log, run[k - 1].1, run[k].1)
  }

  ghost function BridgeInputs(H: Hash, log: LiveLog, run: seq<(int, CheckpointRecord)>, k: nat): set<Bytes>
    requires 0 < k < |run| && Bridged(H, log, run, k)
  {
    var a, b := run[k - 1].1, run[k].1;
    AcceptedConsistencyInputs(H, RootText(a), a.mmrSize, RootText(b), b.mmrSize,
                              log.consistencyProof(a.mmrSize, b.mmrSize))
  }

  lemma RunBridged(H: Hash, log: LiveLog, trust: Trust, run: seq<(int, CheckpointRecord)>, k: nat)
    requires RunSound(H, log, trust, run) && 0 < k < |run|
    ensures Bridged(H, log, run, k)
  {
    assert SoundAt(H, log, trust, run, k);
  }

  /** Everything hashed by the consistency checks after `j`, up to `k`. */
  ghost function BridgesInputs(H: Hash, log: LiveLog, trust: Trust, run: seq<(int, CheckpointRecord)>, j: nat,
                               k: nat): set<Bytes>
    requires RunSound(H, log, trust, run) && j <= k < |run|
    decreases k - j
  {
    if j == k then {}
    else
      RunBridged(H, log, trust, run, k);
      BridgesInputs(H, log, trust, run, j, k - 1) + BridgeInputs(H, log, run, k)
  }

  /** `p` proves `body` at leaf `i` under checkpoint `cp`. */
  ghost predicate ProvedUnder(H: Hash, cp: CheckpointRecord, i: nat, body: Digest, p: Inclusion) {
    ParseDigest(RootText(cp)).Some? && Includes(H, ParseDigest(RootText(cp)).value, cp.mmrSize, i, body, p)
  }

  /** Everything hashed by that proof. */
  ghost function ProofInputs(H: Hash, cp: CheckpointRecord, i: nat, body: Digest, p: Inclusion): set<Bytes>
    requires ProvedUnder(H, cp, i, body, p)
  {
    InclusionInputs(H, cp.mmrSize, i, body, p)
  }

  lemma ProvedSize(H: Hash, cp: CheckpointRecord, i: nat, body: Digest, p: Inclusion)
    requires ProvedUnder(H, cp, i, body, p)
    ensures cp.mmrSize >= 0
  {
  }

  lemma CarryOne(H: Hash, log: LiveLog, run: seq<(int, CheckpointRecord)>, k: nat, i: nat, body: Digest, p: Inclusion)
    returns (q: Inclusion)
    requires 0 < k < |run| && Bridged(H, log, run, k)
    requires ProvedUnder(H, run[k - 1].1, i, body, p)
    ensures var known := ProofInputs(H, run[k - 1].1, i, body, p) + BridgeInputs(H, log, run, k);
            || CollisionIn(H, known)
            || (ProvedUnder(H, run[k].1, i, body, q) && ProofInputs(H, run[k].1, i, body, q) <= known)
  {
    var cpA, cpB := run[k - 1].1, run[k].1;
    var c := DecodeConsistency(log.consistencyProof(cpA.mmrSize, cpB.mmrSize)).value;
    var rootA, rootB := ParseDigest(RootText(cpA)).value, ParseDigest(RootText(cpB)).value;
    Transport(H, rootA, cpA.mmrSize, rootB, cpB.mmrSize, i, body, p, c);
    q := Lifted(cpA.mmrSize, cpB.mmrSize, i, p, c);
  }

  /** A leaf proved under one checkpoint of a clean run is carried to every later
      checkpoint by the consistency proofs in between. */
  lemma {:induction false} Carried(H: Hash, log: LiveLog, trust: Trust, run: seq<(int, CheckpointRecord)>,
                                   j: nat, k: nat, i: nat, body: Digest, p: Inclusion)
    returns (q: Inclusion)
    requires RunSound(H, log, trust, run) && j <= k < |run|
    requires ProvedUnder(H, run[j].1, i, body, p)
    ensures var known := ProofInputs(H, run[j].1, i, body, p) + BridgesInputs(H, log, trust, run, j, k);
            || CollisionIn(H, known)
            || (ProvedUnder(H, run[k].1, i, body, q) && ProofInputs(H, run[k].1, i, body, q) <= known)
    decreases k - j
  {
    hide RunSound, Bridged, BridgeInputs, ProvedUnder, ProofInputs;
    if j == k {
      q := p;
    } else {
      var known := ProofInputs(H, run[j].1, i, body, p) + BridgesInputs(H, log, trust, run, j, k);
      RunBridged(H, log, trust, run, k);
      q := Carried(H, log, trust, run, j, k - 1, i, body, p);
      CollisionMonotone(H, ProofInputs(H, run[j].1, i, body, p) + BridgesInputs(H, log, trust, run, j, k - 1), known);
      if ProvedUnder(H, run[k - 1].1, i, body, q)
         && ProofInputs(H, run[k - 1].1, i, body, q)
            <= ProofInputs(H, run[j].1, i, body, p) + BridgesInputs(H, log, trust, run, j, k - 1) {
        var q' := CarryOne(H, log, run, k, i, body, q);
        CollisionMonotone(H, ProofInputs(H, run[k - 1].1, i, body, q) + BridgeInputs(H, log, run, k), known);
        q := q';
      }
    }
  }

  /** Whole-run safety: when a run ends clean, a leaf proved under any checkpoint
      has the same body digest as under every later one, or the byte strings
      hashed by the two proofs and by the consistency checks between them
      contain a collision.  Nothing is assumed of the log or of its proofs. */
  lemma RunSafety(H: Hash, log: LiveLog, trust: Trust, run: seq<(int, CheckpointRecord)>, j: nat, k: nat, i: nat,
                  body: Digest, p: Inclusion, body': Digest, p': Inclusion)
    requires RunSound(H, log, trust, run) && j <= k < |run|
    requires ProvedUnder(H, run[j].1, i, body, p) && ProvedUnder(H, run[k].1, i, body', p')
    ensures || body == body'
            || CollisionIn(H, ProofInputs(H, run[j].1, i, body, p) + BridgesInputs(H, log, trust, run, j, k)
                              + ProofInputs(H, run[k].1, i, body', p'))
  {
    ProvedSize(H, run[k].1, i, body', p');
    hide RunSound, BridgesInputs, InclusionInputs, Includes;
    var known := ProofInputs(H, run[j].1, i, body, p) + BridgesInputs(H, log, trust, run, j, k);
    var all := known + ProofInputs(H, run[k].1, i, body', p');
    var q := Carried(H, log, trust, run, j, k, i, body, p);
    CollisionMonotone(H, known, all);
    if ProvedUnder(H, run[k].1, i, body, q) && ProofInputs(H, run[k].1, i, body, q) <= known {
      InclusionBinding(H, ParseDigest(RootText(run[k].1)).value, run[k].1.mmrSize, i, body, q, body', p');
      CollisionMonotone(H, ProofInputs(H, run[k].1, i, body, q) + ProofInputs(H, run[k].1, i, body', p'), all);
    }
  }

  // -------------------------------------------------- against an honest log

  /** The log at hand holds `leaves` and hands out the proofs read off its range. */
  ghost predicate Honest(H: Hash, log: LiveLog, leaves: seq<Digest>) {
    && FitsCap(leaves)
    && log.leafCount == |leaves|
    && (forall seqNo {:trigger log.bodyDigest(seqNo)} :: 1 <= seqNo <= |leaves| ==>
          log.bodyDigest(seqNo) == leaves[seqNo - 1])
    && (forall i: nat, m: nat :: i < m <= |leaves| ==>
          log.inclusionProof(i + 1, SizeAt(leaves, m)) ==
          EncodeInclusion(SizeAt(leaves, m), i, HonestInclusion(H, leaves, m, i)))
    && (forall l: nat, m: nat :: l <= m <= |leaves| ==>
          log.consistencyProof(SizeAt(leaves, l), SizeAt(leaves, m)) ==
          EncodeConsistency(SizeAt(leaves, l), SizeAt(leaves, m), HonestConsistency(H, leaves, l, m)))
  }

  /** Checkpoints as they are emitted: filed under their own size, in order of
      size.  The log may have been longer then, or empty. */
  ghost predicate WellFiled(run: seq<(int, CheckpointRecord)>) {
    && (forall k :: 0 <= k < |run| ==> Filed(run[k]))
    && (forall j, k :: 0 <= j <= k < |run| ==> run[j].0 <= run[k].0)
  }

  ghost predicate Filed(entry: (int, CheckpointRecord)) {
    entry.0 == entry.1.mmrSize && exists m: nat :: Geometry.NodeCount(m) == entry.0
  }

  /** The log at hand is as long as the checkpoint says it was. */
  ghost predicate Covered(leaves: seq<Digest>, entry: (int, CheckpointRecord)) {
    entry.0 <= Geometry.NodeCount(|leaves|)
  }

  /** Number of leaves the log had when the checkpoint was taken. */
  ghost function LeavesAt(leaves: seq<Digest>, entry: (int, CheckpointRecord)): (m: nat)
    requires FitsCap(leaves) && Filed(entry) && Covered(leaves, entry)
    ensures m <= |leaves| && entry.0 == entry.1.mmrSize == SizeAt(leaves, m)
  {
    var m: nat :| Geometry.NodeCount(m) == entry.0;
    Geometry.NodeCountIncreasing(|leaves|, m);
    m
  }

  /** The checkpoint root is the root the log at hand had at that size. */
  ghost predicate Genuine(H: Hash, leaves: seq<Digest>, entry: (int, CheckpointRecord))
    requires FitsCap(leaves) && Filed(entry) && Covered(leaves, entry)
  {
    ParseDigest(RootText(entry.1)) == Geometry.Some(RootAt(H, leaves, LeavesAt(leaves, entry)))
  }

  // ------------------------------------------------------------------- lag

  /** The lag counts the entries appended after the checkpoint; it is zero exactly
      when the checkpoint covers the whole log, and negative exactly when the
      checkpoint is larger than the log. */
  lemma LagCounts(log: LiveLog, cp: CheckpointRecord)
    requires ValidSize(cp.mmrSize)
    ensures log.leafCount - LagSince(log, cp) >= 0
    ensures Geometry.NodeCount(log.leafCount - LagSince(log, cp)) == cp.mmrSize
    ensures LagSince(log, cp) == 0 <==> cp.mmrSize == Geometry.NodeCount(log.leafCount)
    ensures LagSince(log, cp) < 0 <==> cp.mmrSize > Geometry.NodeCount(log.leafCount)
  {
    LagMeans(log, cp);
    Geometry.PeaksDecide(cp.mmrSize);
    hide *;
    var m := Geometry.LeavesIn(cp.mmrSize);
    Geometry.NodeCountIncreasing(log.leafCount, m);
  }

  lemma LagMeans(log: LiveLog, cp: CheckpointRecord)
    requires ValidSize(cp.mmrSize)
    ensures LagSince(log, cp) == log.leafCount - Geometry.LeavesIn(cp.mmrSize)
    ensures Geometry.NodeCount(Geometry.LeavesIn(cp.mmrSize)) == cp.mmrSize
  {
    Geometry.PeaksDecide(cp.mmrSize);
  }

  // ------------------------------------------- what the command lets through

  /** A directory in which nothing loads is not the empty directory: the command
      ends clean. */
  lemma NothingLoaded(H: Hash, log: LiveLog, trust: Trust, stored: seq<Stored>)
    requires stored != [] && Loaded(stored) == []
    ensures ExitFor(H, log, trust, stored) == Clean
  {
  }

  /** Truncation passes: with one stored checkpoint that is larger than the log at
      hand, whatever its root, the command ends clean and reports a negative lag. */
  lemma TruncationPasses(H: Hash, log: LiveLog, trust: Trust, cp: CheckpointRecord)
    requires ValidSize(cp.mmrSize) && cp.mmrSize > Geometry.NodeCount(log.leafCount)
    requires trust.signatureOk(cp) && ReceiptsOk(trust, cp)
    ensures ExitFor(H, log, trust, [Stored(cp.mmrSize, Geometry.Some(cp))]) == Clean
    ensures LagSince(log, cp) < 0
  {
    var stored := [Stored(cp.mmrSize, Geometry.Some(cp))];
    assert stored[1..] == [] && Loaded(stored[1..]) == [];
    LagCounts(log, cp);
    hide ValidSize, Geometry.NodeCount, LagSince, ReceiptsOk;
    assert Loaded(stored) == [(cp.mmrSize, cp)];
  }

  /** A concrete case: the log has lost its only entry, and the checkpoint root is
      not even a digest. */
  lemma TruncationExample(H: Hash, log: LiveLog)
    requires log.leafCount == 0
    ensures var cp := CheckpointRecord(1, "", "", "", []);
            && ExitFor(H, log, Trust(_ => true, _ => true), [Stored(1, Geometry.Some(cp))]) == Clean
            && ValidSize(cp.mmrSize) && LagSince(log, cp) < 0
  {
    var cp := CheckpointRecord(1, "", "", "", []);
    OneLeafSize();
    hide ValidSize, LagSince, ExitFor, Geometry.NodeCount;
    TruncationPasses(H, log, Trust(_ => true, _ => true), cp);
  }

  /** A checkpoint of the empty log is not looked at either: alone, it ends clean
      whatever its root. */
  lemma EmptyCheckpointPasses(H: Hash, log: LiveLog, trust: Trust, cp: CheckpointRecord)
    requires cp.mmrSize == 0 && trust.signatureOk(cp) && ReceiptsOk(trust, cp)
    ensures ExitFor(H, log, trust, [Stored(0, Geometry.Some(cp))]) == Clean
  {
    var stored := [Stored(0, Geometry.Some(cp))];
    assert stored[1..] == [] && Loaded(stored[1..]) == [];
    EmptySize();
    hide ValidSize, Geometry.NodeCount, Geometry.LeavesIn, ReceiptsOk, AcceptsInclusion;
    assert Loaded(stored) == [(0, cp)];
  }

  lemma EmptySize()
    ensures ValidSize(0) && Geometry.LeavesIn(0) == 0
  {
    Geometry.PeaksFromZero(0, 1);
  }

  lemma OneLeafSize()
    ensures ValidSize(1) && Geometry.NodeCount(0) == 0
  {
    Geometry.PeaksOfNodeCount(1);
    assert Geometry.NodeCount(1) == 1;
    hide Geometry.PeaksOf;
  }

  lemma HonestTip(H: Hash, log: LiveLog, leaves: seq<Digest>, m: nat)
    requires Honest(H, log, leaves) && 1 <= m <= |leaves|
    ensures log.leafCount == |leaves| && log.bodyDigest(m) == leaves[m - 1]
    ensures log.inclusionProof(m, SizeAt(leaves, m)) ==
            EncodeInclusion(SizeAt(leaves, m), m - 1, HonestInclusion(H, leaves, m, m - 1))
  {
    hide SizeAt, EncodeInclusion, HonestInclusion, EncodeConsistency, HonestConsistency;
    var i: nat := m - 1;
    assert log.inclusionProof(i + 1, SizeAt(leaves, m)) ==
           EncodeInclusion(SizeAt(leaves, m), i, HonestInclusion(H, leaves, m, i));
  }

  lemma AnchoredMeans(H: Hash, log: LiveLog, size: int, cp: CheckpointRecord, lastSeq: nat)
    requires ValidSize(size) && size <= Geometry.NodeCount(log.leafCount)
    requires lastSeq == Geometry.LeavesIn(size) && 1 <= lastSeq <= log.leafCount
    ensures !Crashes(log, size)
    ensures Anchored(H, log, size, cp) <==>
            AcceptsInclusion(H, RootText(cp), size, lastSeq - 1, BytesToHex(log.bodyDigest(lastSeq)),
                             log.inclusionProof(lastSeq, size))
  {
    hide AcceptsInclusion, ValidSize, BytesToHex, Geometry.LeavesIn, Geometry.NodeCount;
  }

  lemma AnchoredByTip(H: Hash, log: LiveLog, leaves: seq<Digest>, cp: CheckpointRecord, m: nat)
    requires FitsCap(leaves) && 1 <= m <= |leaves|
    requires log.leafCount == |leaves| && log.bodyDigest(m) == leaves[m - 1]
    requires log.inclusionProof(m, SizeAt(leaves, m)) ==
             EncodeInclusion(SizeAt(leaves, m), m - 1, HonestInclusion(H, leaves, m, m - 1))
    ensures !Crashes(log, SizeAt(leaves, m))
    ensures Anchored(H, log, SizeAt(leaves, m), cp) <==>
            ParseDigest(RootText(cp)) == Geometry.Some(RootAt(H, leaves, m))
  {
    hide *;
    ParseHexDigest(leaves[m - 1]);
    AnchoredMeans(H, log, SizeAt(leaves, m), cp, m);
    HonestInclusionAccepted(H, leaves, m, m - 1, RootText(cp), BytesToHex(leaves[m - 1]));
  }

  /** Against an honest log the anchoring step never raises, and passes exactly
      for genuine roots; where the log is too short, or was empty, it looks at
      nothing. */
  lemma AnchoredGenuine(H: Hash, log: LiveLog, leaves: seq<Digest>, entry: (int, CheckpointRecord))
    requires Honest(H, log, leaves) && Filed(entry)
    ensures !Crashes(log, entry.0)
    ensures Anchored(H, log, entry.0, entry.1) <==>
            (Covered(leaves, entry) && entry.0 > 0 ==> Genuine(H, leaves, entry))
  {
    HonestCount(H, log, leaves);
    if !Covered(leaves, entry) {
      hide Honest, Filed, Geometry.NodeCount, ValidSize, AcceptsInclusion;
    } else if entry.0 == 0 {
      EmptySize();
      hide Honest, Filed, Geometry.NodeCount, Geometry.LeavesIn, ValidSize, AcceptsInclusion;
    } else {
      var m := LeavesAt(leaves, entry);
      Geometry.NodeCountIncreasing(0, m);
      HonestTip(H, log, leaves, m);
      hide Anchored, Crashes, Honest, Filed, Covered, LeavesAt, Geometry.NodeCount;
      AnchoredByTip(H, log, leaves, entry.1, m);
    }
  }

  lemma HonestCount(H: Hash, log: LiveLog, leaves: seq<Digest>)
    requires Honest(H, log, leaves)
    ensures FitsCap(leaves) && log.leafCount == |leaves|
  {
    hide SizeAt, EncodeInclusion, HonestInclusion, EncodeConsistency, HonestConsistency, FitsCap;
  }

  lemma HonestBridge(H: Hash, log: LiveLog, leaves: seq<Digest>, l: nat, m: nat)
    requires Honest(H, log, leaves) && l <= m <= |leaves|
    ensures log.consistencyProof(SizeAt(leaves, l), SizeAt(leaves, m)) ==
            EncodeConsistency(SizeAt(leaves, l), SizeAt(leaves, m), HonestConsistency(H, leaves, l, m))
  {
    hide SizeAt, EncodeInclusion, HonestInclusion, EncodeConsistency, HonestConsistency, FitsCap;
  }

  /** Between two checkpoints that the log reaches, the consistency check passes
      exactly when both roots are genuine. */
  lemma GenuineConsistent(H: Hash, log: LiveLog, leaves: seq<Digest>, a: (int, CheckpointRecord),
                          b: (int, CheckpointRecord))
    requires Honest(H, log, leaves) && Filed(a) && Filed(b) && a.0 <= b.0
    requires Covered(leaves, a) && Covered(leaves, b)
    ensures ConsistentWith(H, log, a.1, b.1) <==> Genuine(H, leaves, a) && Genuine(H, leaves, b)
  {
    HonestCount(H, log, leaves);
    var l, m := LeavesAt(leaves, a), LeavesAt(leaves, b);
    Geometry.NodeCountIncreasing(m, l);
    HonestBridge(H, log, leaves, l, m);
    hide Honest, Filed, Covered, LeavesAt, Geometry.NodeCount, RootAt, EncodeConsistency, HonestConsistency,
         AcceptsConsistency, ParseDigest, RootText;
    HonestConsistencyAccepted(H, leaves, l, m, RootText(a.1), RootText(b.1));
  }

  /** The checks that do not look at the log. */
  predicate Trusted(trust: Trust, cp: CheckpointRecord) {
    trust.signatureOk(cp) && ReceiptsOk(trust, cp)
  }

  /** What the log has to say to loaded checkpoint `k`.  Where the log reaches it:
      its root is genuine, and so is the one before; only a checkpoint of the empty
      log that comes first is not looked at.  Where the log is shorter: nothing, or
      a consistency proof from the checkpoint before. */
  ghost predicate Upheld(H: Hash, log: LiveLog, leaves: seq<Digest>, run: seq<(int, CheckpointRecord)>, k: nat)
    requires FitsCap(leaves) && WellFiled(run) && k < |run|
  {
    if Covered(leaves, run[k]) then
      && (run[k].0 > 0 || k > 0 ==> Genuine(H, leaves, run[k]))
      && (k > 0 ==> Genuine(H, leaves, run[k - 1]))
    else k == 0 || ConsistentWith(H, log, run[k - 1].1, run[k].1)
  }

  lemma SoundAtUpheld(H: Hash, log: LiveLog, trust: Trust, leaves: seq<Digest>, run: seq<(int, CheckpointRecord)>,
                      k: nat)
    requires Honest(H, log, leaves) && WellFiled(run) && k < |run|
    ensures FitsCap(leaves)
    ensures SoundAt(H, log, trust, run, k) <==> Trusted(trust, run[k].1) && Upheld(H, log, leaves, run, k)
  {
    HonestCount(H, log, leaves);
    AnchoredGenuine(H, log, leaves, run[k]);
    if k > 0 && Covered(leaves, run[k]) {
      GenuineConsistent(H, log, leaves, run[k - 1], run[k]);
    }
    hide Honest, Genuine, Anchored, ConsistentWith, ReceiptsOk, Filed, FitsCap;
  }

  /** The checks of a run, exactly, against an honest log, however long it was when
      the checkpoints were taken. */
  lemma SoundMeansGenuine(H: Hash, log: LiveLog, trust: Trust, leaves: seq<Digest>, run: seq<(int, CheckpointRecord)>)
    requires Honest(H, log, leaves) && WellFiled(run)
    ensures FitsCap(leaves) && !SomeCrash(log, run)
    ensures RunSound(H, log, trust, run) <==>
            forall k :: 0 <= k < |run| ==> Trusted(trust, run[k].1) && Upheld(H, log, leaves, run, k)
  {
    HonestCount(H, log, leaves);
    forall k | 0 <= k < |run|
      ensures SoundAt(H, log, trust, run, k) <==> Trusted(trust, run[k].1) && Upheld(H, log, leaves, run, k)
      ensures !Crashes(log, run[k].0)
    {
      SoundAtUpheld(H, log, trust, leaves, run, k);
      AnchoredGenuine(H, log, leaves, run[k]);
    }
    hide SoundAt, Trusted, Upheld, Honest, WellFiled, FitsCap, Crashes;
    SomeCrashMeans(log, run);
  }

  /** Where the run is well filed and the log honest, nothing but the lag report
      can raise. */
  lemma CleanMeans(H: Hash, log: LiveLog, trust: Trust, stored: seq<Stored>)
    requires !SomeCrash(log, Loaded(stored))
    ensures ExitFor(H, log, trust, stored) == Clean <==>
            stored != [] && !LagRaises(Loaded(stored)) && RunSound(H, log, trust, Loaded(stored))
  {
    hide RunSound, LagRaises, SomeCrash;
  }

  /** What a clean exit establishes, exactly.  Against an honest log, however long
      it was when the checkpoints were taken, the command ends clean if and only if
      there is a stored checkpoint, signatures and receipts hold, the log upholds
      every checkpoint that loads, and the last of them does not name a size beyond
      the cap. */
  lemma CleanMeansGenuine(H: Hash, log: LiveLog, trust: Trust, leaves: seq<Digest>, stored: seq<Stored>)
    requires Honest(H, log, leaves) && WellFiled(Loaded(stored))
    ensures FitsCap(leaves)
    ensures var run := Loaded(stored);
            ExitFor(H, log, trust, stored) == Clean <==>
            && stored != []
            && (run != [] ==> ValidSize(run[|run| - 1].1.mmrSize))
            && forall k :: 0 <= k < |run| ==> Trusted(trust, run[k].1) && Upheld(H, log, leaves, run, k)
  {
    var run := Loaded(stored);
    SoundMeansGenuine(H, log, trust, leaves, run);
    hide *;
    LagRaisesMeans(run);
    CleanMeans(H, log, trust, stored);
  }

  /** The log hands out no consistency proof to a size that it does not have. */
  ghost predicate OnlyOwnProofs(log: LiveLog) {
    forall a, b :: b > Geometry.NodeCount(log.leafCount) ==> DecodeConsistency(log.consistencyProof(a, b)).None?
  }

  ghost predicate AllGenuine(H: Hash, leaves: seq<Digest>, run: seq<(int, CheckpointRecord)>)
    requires FitsCap(leaves) && WellFiled(run)
  {
    forall k :: 0 <= k < |run| ==> Covered(leaves, run[k]) && Genuine(H, leaves, run[k])
  }

  /** A single checkpoint that the anchoring step does not look at. */
  ghost predicate Unanchored(leaves: seq<Digest>, run: seq<(int, CheckpointRecord)>) {
    |run| == 1 && (run[0].0 == 0 || (!Covered(leaves, run[0]) && ValidSize(run[0].1.mmrSize)))
  }

  /** Rollback detection, exactly.  With a log that proves nothing beyond its own
      size, the command ends clean if and only if signatures and receipts hold and
      either the log reaches every checkpoint that loads and every root is genuine,
      or there is only one and anchoring does not look at it: its log was empty, or
      was longer than the log is now. */
  lemma RollbackDetected(H: Hash, log: LiveLog, trust: Trust, leaves: seq<Digest>, stored: seq<Stored>)
    requires Honest(H, log, leaves) && WellFiled(Loaded(stored)) && OnlyOwnProofs(log)
    ensures FitsCap(leaves)
    ensures var run := Loaded(stored);
            ExitFor(H, log, trust, stored) == Clean <==>
            && stored != []
            && (forall k :: 0 <= k < |run| ==> Trusted(trust, run[k].1))
            && (Unanchored(leaves, run) || AllGenuine(H, leaves, run))
  {
    var run := Loaded(stored);
    HonestCount(H, log, leaves);
    CleanMeansGenuine(H, log, trust, leaves, stored);
    hide Honest, ExitFor, Loaded;
    UpheldMeansGenuine(H, log, leaves, run);
  }

  ghost predicate AllUpheld(H: Hash, log: LiveLog, leaves: seq<Digest>, run: seq<(int, CheckpointRecord)>)
    requires FitsCap(leaves) && WellFiled(run)
  {
    forall k :: 0 <= k < |run| ==> Upheld(H, log, leaves, run, k)
  }

  lemma UpheldMeansGenuine(H: Hash, log: LiveLog, leaves: seq<Digest>, run: seq<(int, CheckpointRecord)>)
    requires FitsCap(leaves) && log.leafCount == |leaves| && WellFiled(run) && OnlyOwnProofs(log)
    ensures (run != [] ==> ValidSize(run[|run| - 1].1.mmrSize)) && AllUpheld(H, log, leaves, run) <==>
            Unanchored(leaves, run) || AllGenuine(H, leaves, run)
  {
    hide Genuine, Filed, ConsistentWith, FitsCap, OnlyOwnProofs, ValidSize, Geometry.NodeCount, Covered;
    if |run| == 1 {
      OneUpheld(H, log, leaves, run);
    } else if |run| > 1 {
      ManyUpheld(H, log, leaves, run);
    }
  }

  lemma OneUpheld(H: Hash, log: LiveLog, leaves: seq<Digest>, run: seq<(int, CheckpointRecord)>)
    requires FitsCap(leaves) && WellFiled(run) && |run| == 1
    ensures ValidSize(run[0].1.mmrSize) && AllUpheld(H, log, leaves, run) <==>
            Unanchored(leaves, run) || AllGenuine(H, leaves, run)
  {
    SingleMeans(H, log, leaves, run);
    if Covered(leaves, run[0]) {
      CoveredValid(leaves, run[0]);
    }
    hide Genuine, FitsCap, ValidSize, Geometry.NodeCount, AllUpheld, AllGenuine, ConsistentWith, Filed;
    assert run[0].0 == 0 ==> Covered(leaves, run[0]);
    hide Covered;
  }

  lemma SingleMeans(H: Hash, log: LiveLog, leaves: seq<Digest>, run: seq<(int, CheckpointRecord)>)
    requires FitsCap(leaves) && WellFiled(run) && |run| == 1
    ensures AllUpheld(H, log, leaves, run) <==> Upheld(H, log, leaves, run, 0)
    ensures AllGenuine(H, leaves, run) <==> Covered(leaves, run[0]) && Genuine(H, leaves, run[0])
  {
    hide Genuine, FitsCap, ValidSize, Geometry.NodeCount, Covered, ConsistentWith, Filed, Upheld;
  }

  lemma ManyUpheld(H: Hash, log: LiveLog, leaves: seq<Digest>, run: seq<(int, CheckpointRecord)>)
    requires FitsCap(leaves) && log.leafCount == |leaves| && WellFiled(run) && OnlyOwnProofs(log) && |run| > 1
    ensures ValidSize(run[|run| - 1].1.mmrSize) && AllUpheld(H, log, leaves, run) <==> AllGenuine(H, leaves, run)
  {
    hide *;
    if AllGenuine(H, leaves, run) {
      GenuineUpheld(H, log, leaves, run);
    }
    if AllUpheld(H, log, leaves, run) {
      UpheldGenuine(H, log, leaves, run);
    }
  }

  lemma GenuineUpheld(H: Hash, log: LiveLog, leaves: seq<Digest>, run: seq<(int, CheckpointRecord)>)
    requires FitsCap(leaves) && WellFiled(run) && AllGenuine(H, leaves, run) && run != []
    ensures ValidSize(run[|run| - 1].1.mmrSize) && AllUpheld(H, log, leaves, run)
  {
    CoveredValid(leaves, run[|run| - 1]);
    hide Genuine, FitsCap, ValidSize, Geometry.NodeCount, Covered, ConsistentWith;
  }

  lemma UpheldGenuine(H: Hash, log: LiveLog, leaves: seq<Digest>, run: seq<(int, CheckpointRecord)>)
    requires FitsCap(leaves) && log.leafCount == |leaves| && WellFiled(run) && OnlyOwnProofs(log) && |run| > 1
    requires AllUpheld(H, log, leaves, run)
    ensures AllGenuine(H, leaves, run)
  {
    hide Genuine, FitsCap, ValidSize, Geometry.NodeCount, ConsistentWith, OnlyOwnProofs;
    forall k | 0 <= k < |run| ensures Covered(leaves, run[k]) && Genuine(H, leaves, run[k]) {
      var j := if k == 0 then 1 else k;
      assert Upheld(H, log, leaves, run, j);
      if !Covered(leaves, run[j]) {
        NoBridgeBeyond(H, log, leaves, run[j - 1], run[j]);
      }
      assert run[k].0 <= run[j].0;
    }
  }

  lemma CoveredValid(leaves: seq<Digest>, entry: (int, CheckpointRecord))
    requires FitsCap(leaves) && Filed(entry) && Covered(leaves, entry)
    ensures ValidSize(entry.1.mmrSize)
  {
    var m := LeavesAt(leaves, entry);
    hide ValidSize, FitsCap, Geometry.NodeCount;
  }

  lemma NoBridgeBeyond(H: Hash, log: LiveLog, leaves: seq<Digest>, a: (int, CheckpointRecord),
                       b: (int, CheckpointRecord))
    requires OnlyOwnProofs(log) && log.leafCount == |leaves| && Filed(b) && !Covered(leaves, b)
    ensures !ConsistentWith(H, log, a.1, b.1)
  {
    hide DecodeConsistency, Geometry.NodeCount, Extends, ParseDigest, RootText;
  }

  /** A checkpoint root taken of an earlier log that still passes against an
      honest log means that nothing witnessed then has been rewritten since. */
  lemma NothingRewritten(H: Hash, leaves: seq<Digest>, entry: (int, CheckpointRecord), olds: seq<Digest>)
    requires FitsCap(leaves) && Filed(entry) && Covered(leaves, entry) && Genuine(H, leaves, entry)
    requires FitsCap(olds) && Geometry.NodeCount(|olds|) == entry.0
    requires ParseDigest(RootText(entry.1)) == Geometry.Some(RootAt(H, olds, |olds|))
    ensures |olds| <= |leaves| && FitsCap(leaves[..|olds|])
    ensures || olds == leaves[..|olds|]
            || CollisionIn(H, TreeInputs(H, olds, |olds|) + TreeInputs(H, leaves[..|olds|], |olds|))
  {
    var m := LeavesAt(leaves, entry);
    Geometry.NodeCountIncreasing(m, |olds|);
    PrefixRoot(H, leaves, m);
    RootCommits(H, olds, leaves[..m]);
  }
}

/** `capsule bundle`: the closure of a selection under chain parents, and the
    gaps the viewer finds in it. */
module Bundle {
  import opened Geometry
  import opened Hashing

  /** What a walk over the ledger reads of a stored record. */
  datatype Record = Record(id: string, seqNo: int, parent: Option<string>, relation: Option<string>)

  type Fetch = string -> Option<Record>

  /** The parent a record cites; an empty id counts as none. */
  predicate Cites(r: Record, p: string) {
    r.parent == Some(p) && p != []
  }

  /** Lookup by full id in a finite ledger. */
  ghost predicate FullIds(fetch: Fetch, ledger: set<string>) {
    forall k {:trigger fetch(k)} :: fetch(k).Some? ==> k in ledger && fetch(k).value.id == k
  }

  ghost predicate Stored(fetch: Fetch, r: Record) {
    fetch(r.id) == Some(r)
  }

  // --------------------------------------------------------------- closure

  ghost predicate Parent(fetch: Fetch, child: string, p: string) {
    fetch(child).Some? && Cites(fetch(child).value, p) && fetch(p).Some?
  }

  /** Closed under the parents that are present in the ledger. */
  ghost predicate Closed(fetch: Fetch, s: set<string>) {
    forall child, p :: child in s && Parent(fetch, child, p) ==> p in s
  }

  ghost function IdsOf(rs: seq<Record>): set<string> {
    set r | r in rs :: r.id
  }

  /** The ids in every closed set that contains the selection. */
  ghost predicate Least(fetch: Fetch, matched: seq<Record>, ids: set<string>) {
    && IdsOf(matched) <= ids
    && Closed(fetch, ids)
    && forall s :: IdsOf(matched) <= s && Closed(fetch, s) ==> ids <= s
  }

  /** A parent that a member cites and that the ledger does not hold. */
  ghost predicate Absent(fetch: Fetch, ids: set<string>, p: string) {
    fetch(p).None? && exists child :: child in ids && fetch(child).Some? && Cites(fetch(child).value, p)
  }

  // ---------------------------------------------------------------- sorting

  function InsertBySeq(r: Record, rs: seq<Record>): seq<Record> {
    if rs == [] || r.seqNo <= rs[0].seqNo then [r] + rs else [rs[0]] + InsertBySeq(r, rs[1..])
  }

  function SortBySeq(rs: seq<Record>): seq<Record> {
    if rs == [] then [] else InsertBySeq(rs[0], SortBySeq(rs[1..]))
  }

  ghost predicate InSeqOrder(rs: seq<Record>) {
    forall i, j :: 0 <= i < j < |rs| ==> rs[i].seqNo <= rs[j].seqNo
  }

  ghost predicate DistinctIds(rs: seq<Record>) {
    forall i, j :: 0 <= i < j < |rs| ==> rs[i].id != rs[j].id
  }

  lemma OrderCons(r: Record, rs: seq<Record>)
    requires InSeqOrder(rs) && DistinctIds(rs)
    requires forall x :: x in rs ==> r.seqNo <= x.seqNo && r.id != x.id
    ensures InSeqOrder([r] + rs) && DistinctIds([r] + rs)
  {
    assert forall i :: 0 <= i < |rs| ==> rs[i] in rs;
  }

  lemma OrderHead(rs: seq<Record>)
    requires rs != [] && InSeqOrder(rs) && DistinctIds(rs)
    ensures InSeqOrder(rs[1..]) && DistinctIds(rs[1..])
    ensures forall x :: x in rs[1..] ==> rs[0].seqNo <= x.seqNo && rs[0].id != x.id
    ensures forall x :: x in rs <==> x == rs[0] || x in rs[1..]
  {
    assert rs == [rs[0]] + rs[1..];
  }

  lemma {:induction false} InsertBySeqMeans(r: Record, rs: seq<Record>)
    requires InSeqOrder(rs) && DistinctIds(rs) && forall x :: x in rs ==> x.id != r.id
    ensures var s := InsertBySeq(r, rs);
            InSeqOrder(s) && DistinctIds(s) && forall x :: x in s <==> x == r || x in rs
    decreases |rs|
  {
    hide InSeqOrder, DistinctIds;
    if rs == [] || r.seqNo <= rs[0].seqNo {
      if rs != [] {
        OrderHead(rs);
      }
      OrderCons(r, rs);
    } else {
      OrderHead(rs);
      InsertBySeqMeans(r, rs[1..]);
      OrderCons(rs[0], InsertBySeq(r, rs[1..]));
    }
  }

  lemma {:induction false} SortBySeqMeans(rs: seq<Record>)
    requires DistinctIds(rs)
    ensures var s := SortBySeq(rs);
            InSeqOrder(s) && DistinctIds(s) && forall x :: x in s <==> x in rs
    decreases |rs|
  {
    if rs != [] {
      SortBySeqMeans(rs[1..]);
      assert rs == [rs[0]] + rs[1..];
      InsertBySeqMeans(rs[0], SortBySeq(rs[1..]));
    }
  }

  // --------------------------------------------------------------- worklist

  /** What the loop knows: the dictionary of collected records, in insertion
      order, holds stored records only and nothing beyond the least closed set. */
  ghost predicate Collected(fetch: Fetch, matched: seq<Record>, byId: map<string, Record>, order: seq<Record>) {
    && DistinctIds(order)
    && byId.Keys == IdsOf(order)
    && (forall r :: r in order ==> Stored(fetch, r))
    && IdsOf(matched) <= byId.Keys
    && (forall s :: IdsOf(matched) <= s && Closed(fetch, s) ==> byId.Keys <= s)
  }

  /** The parent of a collected record has been dealt with. */
  ghost predicate Settled(r: Record, ids: set<string>, missing: set<string>) {
    forall p :: Cites(r, p) ==> p in ids || p in missing
  }

  ghost predicate Missed(fetch: Fetch, ids: set<string>, missing: set<string>) {
    forall p :: p in missing ==> Absent(fetch, ids, p)
  }

  lemma OrderSnoc(order: seq<Record>, r: Record)
    requires DistinctIds(order) && r.id !in IdsOf(order)
    ensures DistinctIds(order + [r]) && IdsOf(order + [r]) == IdsOf(order) + {r.id}
  {
    forall i | 0 <= i < |order| ensures order[i].id != r.id {
      assert order[i] in order;
    }
    assert r in order + [r];
  }

  lemma CollectParent(fetch: Fetch, matched: seq<Record>, byId: map<string, Record>, order: seq<Record>,
                      rec: Record, p: string, parent: Record)
    requires Collected(fetch, matched, byId, order)
    requires rec in order && Cites(rec, p) && fetch(p) == Some(parent) && parent.id == p && p !in byId
    ensures Collected(fetch, matched, byId[p := parent], order + [parent])
  {
    OrderSnoc(order, parent);
    assert Stored(fetch, rec) && rec.id in byId.Keys;
    forall s | IdsOf(matched) <= s && Closed(fetch, s)
      ensures byId[p := parent].Keys <= s
    {
      assert Parent(fetch, rec.id, p);
    }
  }

  lemma MissParent(fetch: Fetch, ids: set<string>, missing: set<string>, rec: Record, p: string)
    requires Missed(fetch, ids, missing) && Stored(fetch, rec) && rec.id in ids && Cites(rec, p) && fetch(p).None?
    ensures Missed(fetch, ids, missing + {p})
  {
  }

  lemma MissedGrows(fetch: Fetch, ids: set<string>, more: set<string>, missing: set<string>)
    requires Missed(fetch, ids, missing) && ids <= more
    ensures Missed(fetch, more, missing)
  {
    forall p | p in missing ensures Absent(fetch, more, p) {
      assert Absent(fetch, ids, p);
    }
  }

  /** The dictionary built from the selection; a repeated id keeps its place. */
  method StartFrom(fetch: Fetch, matched: seq<Record>) returns (byId: map<string, Record>, order: seq<Record>)
    requires forall r :: r in matched ==> Stored(fetch, r)
    ensures Collected(fetch, matched, byId, order)
    ensures forall r :: r in matched <==> r in order
  {
    byId, order := map[], [];
    for i := 0 to |matched|
      invariant DistinctIds(order) && byId.Keys == IdsOf(order)
      invariant forall r :: r in order <==> r in matched[..i]
    {
      var r := matched[i];
      assert matched[..i + 1] == matched[..i] + [r];
      if r.id !in byId {
        OrderSnoc(order, r);
        order := order + [r];
      } else {
        var q :| q in order && q.id == r.id;
        assert Stored(fetch, q) && Stored(fetch, r);
      }
      byId := byId[r.id := r];
    }
    assert matched[..|matched|] == matched;
    assert IdsOf(order) == IdsOf(matched);
  }

  /** The loop invariant: every collected record is settled or still to be looked at. */
  ghost predicate Working(fetch: Fetch, ledger: set<string>, matched: seq<Record>, byId: map<string, Record>,
                          order: seq<Record>, frontier: seq<Record>, missing: set<string>) {
    && Collected(fetch, matched, byId, order)
    && byId.Keys <= ledger
    && (forall r :: r in frontier ==> r in order)
    && (forall r :: r in order ==> r in frontier || Settled(r, byId.Keys, missing))
    && Missed(fetch, byId.Keys, missing)
  }

  lemma WorkingSettled(fetch: Fetch, ledger: set<string>, matched: seq<Record>, byId: map<string, Record>,
                       order: seq<Record>, frontier: seq<Record>, missing: set<string>, rec: Record)
    requires Working(fetch, ledger, matched, byId, order, frontier + [rec], missing)
    requires Settled(rec, byId.Keys, missing)
    ensures Working(fetch, ledger, matched, byId, order, frontier, missing)
  {
    hide Collected, Settled, Missed;
    forall r | r in frontier ensures r in order {
      assert r in frontier + [rec];
    }
  }

  lemma WorkingMissing(fetch: Fetch, ledger: set<string>, matched: seq<Record>, byId: map<string, Record>,
                       order: seq<Record>, frontier: seq<Record>, missing: set<string>, rec: Record, p: string)
    requires Working(fetch, ledger, matched, byId, order, frontier + [rec], missing)
    requires Cites(rec, p) && fetch(p).None?
    ensures Working(fetch, ledger, matched, byId, order, frontier, missing + {p})
  {
    assert rec in frontier + [rec];
    assert Stored(fetch, rec) && rec.id in byId.Keys;
    MissParent(fetch, byId.Keys, missing, rec, p);
    SettledGrows(order, byId.Keys, byId.Keys, missing, missing + {p});
    SettledNow(rec, byId.Keys, missing + {p});
    hide Collected, Settled, Missed;
    assert Working(fetch, ledger, matched, byId, order, frontier + [rec], missing + {p});
    WorkingSettled(fetch, ledger, matched, byId, order, frontier, missing + {p}, rec);
  }

  lemma LargerLedger(fetch: Fetch, ledger: set<string>, byId: map<string, Record>, p: string, parent: Record)
    requires FullIds(fetch, ledger) && byId.Keys <= ledger && fetch(p) == Some(parent) && p !in byId
    ensures parent.id == p
    ensures var larger := byId[p := parent];
            byId.Keys <= larger.Keys <= ledger && |ledger - larger.Keys| < |ledger - byId.Keys|
  {
    FullId(fetch, ledger, p);
    hide FullIds;
    var larger := byId[p := parent];
    KeysAfterUpdate(byId, p, parent);
    Shrinks(ledger, byId.Keys, larger.Keys, p);
  }

  lemma KeysAfterUpdate<K, V>(m: map<K, V>, k: K, v: V)
    ensures m[k := v].Keys == m.Keys + {k}
  {
  }

  lemma FullId(fetch: Fetch, ledger: set<string>, p: string)
    requires FullIds(fetch, ledger) && fetch(p).Some?
    ensures p in ledger && fetch(p).value.id == p
  {
  }

  lemma WorkingParent(fetch: Fetch, ledger: set<string>, matched: seq<Record>, byId: map<string, Record>,
                      order: seq<Record>, frontier: seq<Record>, missing: set<string>, rec: Record, p: string,
                           parent: Record)
    requires FullIds(fetch, ledger) && Working(fetch, ledger, matched, byId, order, frontier + [rec], missing)
    requires Cites(rec, p) && fetch(p) == Some(parent) && p !in byId
    ensures parent.id == p && |ledger - byId[p := parent].Keys| < |ledger - byId.Keys|
    ensures Working(fetch, ledger, matched, byId[p := parent], order + [parent], frontier + [parent], missing)
  {
    hide Collected, Settled, Missed, FullIds;
    assert rec in frontier + [rec];
    LargerLedger(fetch, ledger, byId, p, parent);
    hide Working;
    var larger := byId[p := parent];
    CollectParent(fetch, matched, byId, order, rec, p, parent);
    MissedGrows(fetch, byId.Keys, larger.Keys, missing);
    SettledGrows(order, byId.Keys, larger.Keys, missing, missing);
    SettledCited(rec, p, larger.Keys, missing);
    WorkingGrown(fetch, ledger, matched, byId, larger, order, frontier, missing, rec, parent);
  }

  lemma SettledCited(r: Record, p: string, ids: set<string>, missing: set<string>)
    requires Cites(r, p) && p in ids
    ensures Settled(r, ids, missing)
  {
  }

  lemma WorkingGrown(fetch: Fetch, ledger: set<string>, matched: seq<Record>, byId: map<string, Record>,
                     byId': map<string, Record>, order: seq<Record>, frontier: seq<Record>, missing: set<string>,
                     rec: Record, parent: Record)
    requires Working(fetch, ledger, matched, byId, order, frontier + [rec], missing)
    requires Collected(fetch, matched, byId', order + [parent]) && byId'.Keys <= ledger
    requires Missed(fetch, byId'.Keys, missing) && Settled(rec, byId'.Keys, missing)
    requires forall r :: r in order && Settled(r, byId.Keys, missing) ==> Settled(r, byId'.Keys, missing)
    ensures Working(fetch, ledger, matched, byId', order + [parent], frontier + [parent], missing)
  {
    hide Collected, Settled, Missed;
    forall r | r in order + [parent] ensures r in frontier + [parent] || Settled(r, byId'.Keys, missing) {
      if r in order && r !in frontier && r != rec {
        assert r !in frontier + [rec];
      }
    }
    forall r | r in frontier + [parent] ensures r in order + [parent] {
      assert r in frontier ==> r in frontier + [rec];
    }
  }

  lemma WorkStarts(fetch: Fetch, ledger: set<string>, matched: seq<Record>, byId: map<string, Record>,
                   order: seq<Record>)
    requires Collected(fetch, matched, byId, order) && byId.Keys <= ledger
    requires forall r :: r in matched <==> r in order
    ensures Working(fetch, ledger, matched, byId, order, matched, {})
  {
    StartsUnmissed(fetch, byId.Keys);
    hide Collected, Settled, Missed;
  }

  /** Bundle closure: on every ledger, cyclic ones included, the worklist
      terminates and returns, in order of sequence number and without repeats,
      exactly the least set that contains the selection and is closed under
      parents present in the ledger; `missing` is exactly the set of absent
      parents that members cite. */
  method CollectWithParents(fetch: Fetch, ghost ledger: set<string>, matched: seq<Record>)
    returns (records: seq<Record>, missing: set<string>)
    requires FullIds(fetch, ledger)
    requires forall r :: r in matched ==> Stored(fetch, r)
    ensures InSeqOrder(records) && DistinctIds(records)
    ensures forall r :: r in records ==> Stored(fetch, r)
    ensures Least(fetch, matched, IdsOf(records))
    ensures forall p :: p in missing <==> Absent(fetch, IdsOf(records), p)
    ensures forall p :: p in missing <==> p != "" && fetch(p).None? && exists r :: r in records && r.parent == Some(p)
  {
    var byId, order := StartFrom(fetch, matched);
    var frontier := matched;
    missing := {};
    hide *;
    KeysInLedger(fetch, ledger, matched, byId, order);
    WorkStarts(fetch, ledger, matched, byId, order);
    while frontier != []
      invariant Working(fetch, ledger, matched, byId, order, frontier, missing)
      decreases |ledger - byId.Keys|, |frontier|
    {
      var n := |frontier| - 1;
      var rec, rest := frontier[n], frontier[..n];
      LastSplit(frontier);
      frontier := rest;
      if rec.parent.None? || rec.parent.value == [] || rec.parent.value in byId || rec.parent.value in missing {
        SettledNow(rec, byId.Keys, missing);
        WorkingSettled(fetch, ledger, matched, byId, order, rest, missing, rec);
        continue;
      }
      var p := rec.parent.value;
      CitesNow(rec, p);
      var parent := fetch(p);
      if parent.None? {
        WorkingMissing(fetch, ledger, matched, byId, order, rest, missing, rec, p);
        missing := missing + {p};
        continue;
      }
      WorkingParent(fetch, ledger, matched, byId, order, rest, missing, rec, p, parent.value);
      byId := byId[parent.value.id := parent.value];
      order := order + [parent.value];
      frontier := frontier + [parent.value];
    }
    records := SortBySeq(order);
    WorkDone(fetch, ledger, matched, byId, order, frontier, missing);
    Finish(fetch, matched, byId, order, missing, records);
    AbsentMeans(fetch, records);
  }

  lemma AbsentMeans(fetch: Fetch, records: seq<Record>)
    requires forall r :: r in records ==> Stored(fetch, r)
    ensures forall p :: Absent(fetch, IdsOf(records), p) <==>
                        p != "" && fetch(p).None? && exists r :: r in records && r.parent == Some(p)
  {
    forall p
      ensures Absent(fetch, IdsOf(records), p) <==>
              p != "" && fetch(p).None? && exists r :: r in records && r.parent == Some(p)
    {
      if r :| r in records && r.parent == Some(p) && p != "" {
        assert Stored(fetch, r) && r.id in IdsOf(records) && Cites(r, p);
      }
    }
  }

  lemma LastSplit<T>(s: seq<T>)
    requires s != []
    ensures s == s[..|s| - 1] + [s[|s| - 1]]
  {
  }

  lemma CitesNow(rec: Record, p: string)
    requires rec.parent == Some(p) && p != []
    ensures Cites(rec, p)
  {
  }

  lemma WorkDone(fetch: Fetch, ledger: set<string>, matched: seq<Record>, byId: map<string, Record>,
                 order: seq<Record>, frontier: seq<Record>, missing: set<string>)
    requires Working(fetch, ledger, matched, byId, order, frontier, missing) && frontier == []
    ensures Collected(fetch, matched, byId, order)
    ensures forall r :: r in order ==> Settled(r, byId.Keys, missing)
    ensures Missed(fetch, byId.Keys, missing)
  {
    hide Collected, Settled, Missed;
  }

  lemma KeysInLedger(fetch: Fetch, ledger: set<string>, matched: seq<Record>, byId: map<string, Record>,
                     order: seq<Record>)
    requires FullIds(fetch, ledger) && Collected(fetch, matched, byId, order)
    ensures byId.Keys <= ledger
  {
    forall k | k in byId.Keys ensures k in ledger {
      var r :| r in order && r.id == k;
      assert fetch(r.id).Some?;
    }
  }

  lemma StartsUnmissed(fetch: Fetch, ids: set<string>)
    ensures Missed(fetch, ids, {})
  {
  }

  lemma SettledNow(r: Record, ids: set<string>, missing: set<string>)
    requires r.parent.None? || r.parent.value == [] || r.parent.value in ids || r.parent.value in missing
    ensures Settled(r, ids, missing)
  {
  }

  lemma SettledGrows(order: seq<Record>, ids: set<string>, ids': set<string>, missing: set<string>,
                     missing': set<string>)
    requires ids <= ids' && missing <= missing'
    ensures forall r :: r in order && Settled(r, ids, missing) ==> Settled(r, ids', missing')
  {
  }

  lemma Shrinks<T>(all: set<T>, small: set<T>, large: set<T>, p: T)
    requires large == small + {p} && p in all && p !in small
    ensures small <= large && |all - large| < |all - small|
    ensures small <= all ==> large <= all
  {
    assert all - large == (all - small) - {p};
  }

  lemma Finish(fetch: Fetch, matched: seq<Record>, byId: map<string, Record>, order: seq<Record>, missing: set<string>,
               records: seq<Record>)
    requires Collected(fetch, matched, byId, order) && records == SortBySeq(order)
    requires forall r :: r in order ==> Settled(r, byId.Keys, missing)
    requires Missed(fetch, byId.Keys, missing)
    ensures InSeqOrder(records) && DistinctIds(records)
    ensures forall r :: r in records ==> Stored(fetch, r)
    ensures Least(fetch, matched, IdsOf(records))
    ensures forall p :: p in missing <==> Absent(fetch, IdsOf(records), p)
  {
    SortBySeqMeans(order);
    assert IdsOf(records) == IdsOf(order) == byId.Keys;
    forall child, p | child in byId.Keys && fetch(child).Some? && Cites(fetch(child).value, p)
      ensures p in byId.Keys || p in missing
    {
      var r :| r in order && r.id == child;
      assert Stored(fetch, r) && Settled(r, byId.Keys, missing);
    }
    forall p | p in missing ensures Absent(fetch, byId.Keys, p) {
    }
    forall child, p | child in byId.Keys && Parent(fetch, child, p) ensures p in byId.Keys {
      assert p in missing ==> Absent(fetch, byId.Keys, p);
    }
  }

  // ------------------------------------------------------------------- gaps

  datatype Gap = Gap(beforeIdx: int, afterIdx: int, missingParent: string)

  /** The parent the viewer reads: the empty text stands for none. */
  function ParentOf(r: Record): string {
    if r.parent.Some? then r.parent.value else []
  }

  ghost predicate GapAt(caps: seq<Record>, i: nat)
    requires i < |caps|
  {
    IsH64(ParentOf(caps[i])) && !exists c :: c in caps && IsH64(c.id) && c.id == ParentOf(caps[i])
  }

  function GapOf(caps: seq<Record>, i: nat): Gap
    requires i < |caps|
  {
    Gap(i - 1, i, ParentOf(caps[i]))
  }

  /** The gaps before index `n`, one for each record that has one, in order. */
  ghost function GapsBefore(caps: seq<Record>, n: nat): seq<Gap>
    requires n <= |caps|
  {
    if n < 2 then []
    else GapsBefore(caps, n - 1) + if GapAt(caps, n - 1) then [GapOf(caps, n - 1)] else []
  }

  /** What the viewer reports, read off the records: a gap after every record but
      the first whose parent is a capsule id that no record of the bundle has. */
  ghost predicate Reported(caps: seq<Record>, g: Gap) {
    && 1 <= g.afterIdx < |caps| && g.beforeIdx == g.afterIdx - 1
    && caps[g.afterIdx].parent == Some(g.missingParent) && IsH64(g.missingParent)
    && forall c :: c in caps ==> c.id != g.missingParent
  }

  lemma GapsReported(caps: seq<Record>)
    ensures forall g :: g in GapsBefore(caps, |caps|) <==> Reported(caps, g)
  {
    GapsExact(caps, |caps|);
    hide GapsBefore, GapAt, Reported, GapOf;
    forall g ensures g in GapsBefore(caps, |caps|) <==> Reported(caps, g) {
      if Reported(caps, g) {
        ReportedIndex(caps, g);
        GapMeans(caps, g.afterIdx);
        assert GapOf(caps, g.afterIdx) in GapsBefore(caps, |caps|);
      } else if g in GapsBefore(caps, |caps|) {
        GapMeans(caps, g.afterIdx);
      }
    }
  }

  lemma ReportedIndex(caps: seq<Record>, g: Gap)
    requires Reported(caps, g)
    ensures 1 <= g.afterIdx < |caps|
  {
    hide IsH64;
  }

  lemma GapMeans(caps: seq<Record>, i: nat)
    requires 1 <= i < |caps|
    ensures GapAt(caps, i) <==> Reported(caps, GapOf(caps, i))
    ensures forall g :: Reported(caps, g) && g.afterIdx == i ==> g == GapOf(caps, i)
  {
    if caps[i].parent.None? {
      assert !IsH64(ParentOf(caps[i]));
    }
    hide IsH64;
  }

  method FindChainGaps(caps: seq<Record>) returns (gaps: seq<Gap>)
    ensures gaps == GapsBefore(caps, |caps|)
    ensures forall g :: g in gaps <==> Reported(caps, g)
  {
    GapsReported(caps);
    hide IsH64, Reported;
    var ids: set<string> := {};
    for i := 0 to |caps|
      invariant forall k :: k in ids <==> exists j :: 0 <= j < i && IsH64(caps[j].id) && caps[j].id == k
    {
      if IsH64(caps[i].id) {
        ids := ids + {caps[i].id};
      }
    }
    gaps := [];
    var i := 1;
    while i < |caps|
      invariant 1 <= i && (i <= |caps| || caps == [])
      invariant gaps == if caps == [] then [] else GapsBefore(caps, i)
    {
      var parent := ParentOf(caps[i]);
      if IsH64(parent) && parent !in ids {
        gaps := gaps + [Gap(i - 1, i, parent)];
      }
      i := i + 1;
    }
  }

  ghost predicate GapsAscend(gaps: seq<Gap>) {
    forall j, k :: 0 <= j < k < |gaps| ==> gaps[j].afterIdx < gaps[k].afterIdx
  }

  /** Exactly the records before `n` that have a gap, each once, in order. */
  ghost predicate AllGaps(caps: seq<Record>, n: nat, gaps: seq<Gap>)
    requires n <= |caps|
  {
    && (forall g :: g in gaps ==> 1 <= g.afterIdx < n && GapAt(caps, g.afterIdx) && g == GapOf(caps, g.afterIdx))
    && (forall i :: 1 <= i < n && GapAt(caps, i) ==> GapOf(caps, i) in gaps)
    && GapsAscend(gaps)
  }

  lemma AllGapsStep(caps: seq<Record>, n: nat, gaps: seq<Gap>)
    requires 1 <= n < |caps| && AllGaps(caps, n, gaps)
    ensures AllGaps(caps, n + 1, gaps + if GapAt(caps, n) then [GapOf(caps, n)] else [])
  {
    hide GapAt, ParentOf;
    assert forall j :: 0 <= j < |gaps| ==> gaps[j] in gaps;
    if GapAt(caps, n) {
      assert GapOf(caps, n) in gaps + [GapOf(caps, n)];
    }
  }

  /** Read off the list: exactly the records after the first whose parent is not
      among the records, each once, in increasing order. */
  lemma {:induction false} GapsExact(caps: seq<Record>, n: nat)
    requires n <= |caps|
    ensures AllGaps(caps, n, GapsBefore(caps, n))
    decreases n
  {
    hide GapAt, ParentOf;
    if n >= 2 {
      GapsExact(caps, n - 1);
      hide AllGaps;
      AllGapsStep(caps, n - 1, GapsBefore(caps, n - 1));
    }
  }

  /** In a collected bundle the viewer's gaps are the ledger's: from the second
      record on, a gap is reported exactly where the cited parent is absent from
      the ledger itself. */
  lemma BundleGapsAreReal(fetch: Fetch, ledger: set<string>, matched: seq<Record>, records: seq<Record>, i: nat)
    requires FullIds(fetch, ledger) && Least(fetch, matched, IdsOf(records))
    requires forall r :: r in records ==> Stored(fetch, r)
    requires i < |records| && IsH64(ParentOf(records[i]))
    ensures GapAt(records, i) <==> Absent(fetch, IdsOf(records), ParentOf(records[i]))
  {
    hide IsH64;
    var r, p := records[i], ParentOf(records[i]);
    NonEmptyH64(p);
    assert r in records && Cites(r, p);
    if fetch(p).Some? {
      assert Parent(fetch, r.id, p);
      assert p in IdsOf(records);
      var c :| c in records && c.id == p;
      assert IsH64(c.id);
    } else {
      forall c | c in records ensures c.id != p {
        assert Stored(fetch, c);
      }
    }
  }

  lemma NonEmptyH64(t: string)
    requires IsH64(t)
    ensures t != []
  {
  }
}

/** `capsule blame`: the walk from a record back along its chain of parents. */
module Blame {
  import opened Geometry
  import opened Bundle

  datatype Kind = EpochOpen | Standalone | Truncated | Cycle | MissingParent
  datatype Terminal = Terminal(kind: Kind, detail: Option<string>)

  /** Why the walk ends after `hops`, in the order in which the code decides, or
      `None` when it goes on. */
  ghost function Ends(fetch: Fetch, hops: seq<Record>, maxDepth: Option<int>): Option<Terminal>
    requires hops != []
  {
    var current := hops[|hops| - 1];
    if current.relation == Some("epoch_opens") then Some(Terminal(EpochOpen, current.parent))
    else if current.parent.None? || current.parent.value == "" then Some(Terminal(Standalone, None))
    else if maxDepth.Some? && |hops| >= maxDepth.value then Some(Terminal(Truncated, current.parent))
    else if exists h :: h in hops && h.id == current.parent.value then Some(Terminal(Cycle, current.parent))
    else if fetch(current.parent.value).None? then Some(Terminal(MissingParent, current.parent))
    else None
  }

  /** Each hop is the record that the hop before it cites. */
  ghost predicate Chain(fetch: Fetch, hops: seq<Record>) {
    forall k :: 0 <= k < |hops| - 1 ==>
      hops[k].parent.Some? && fetch(hops[k].parent.value) == Some(hops[k + 1])
  }

  /** The walk has no reason to end before its last hop. */
  ghost predicate GoesOn(fetch: Fetch, hops: seq<Record>, maxDepth: Option<int>) {
    forall k :: 1 <= k < |hops| ==> Ends(fetch, hops[..k], maxDepth) == None
  }

  /** `hops` with `terminal` is the walk from `record`. */
  ghost predicate Walk(fetch: Fetch, record: Record, maxDepth: Option<int>, hops: seq<Record>, terminal: Terminal) {
    && hops != [] && hops[0] == record
    && Chain(fetch, hops)
    && GoesOn(fetch, hops, maxDepth)
    && Ends(fetch, hops, maxDepth) == Some(terminal)
  }

  ghost predicate Visited(hops: seq<Record>, visited: set<string>) {
    forall k :: k in visited <==> exists h :: h in hops && h.id == k
  }

  lemma WalkStep(fetch: Fetch, hops: seq<Record>, maxDepth: Option<int>, parent: Record)
    requires hops != [] && Chain(fetch, hops) && GoesOn(fetch, hops, maxDepth)
    requires Ends(fetch, hops, maxDepth) == None
    requires hops[|hops| - 1].parent.Some? && fetch(hops[|hops| - 1].parent.value) == Some(parent)
    ensures Chain(fetch, hops + [parent]) && GoesOn(fetch, hops + [parent], maxDepth)
  {
    hide Ends;
    var more := hops + [parent];
    forall k | 1 <= k < |more| ensures Ends(fetch, more[..k], maxDepth) == None {
      if k < |hops| {
        assert more[..k] == hops[..k];
      } else {
        assert more[..k] == hops;
      }
    }
  }

  lemma VisitedStep(hops: seq<Record>, visited: set<string>, parent: Record)
    requires Visited(hops, visited)
    ensures Visited(hops + [parent], visited + {parent.id})
  {
    assert parent in hops + [parent];
    forall h ensures h in hops + [parent] <==> h in hops || h == parent {
    }
  }

  /** What the loop keeps: the hops are a walk so far, without repetition, and
      `visited` is the set of their identifiers. */
  ghost predicate SoFar(fetch: Fetch, ledger: set<string>, hops: seq<Record>, visited: set<string>,
                        maxDepth: Option<int>)
  {
    && Chain(fetch, hops) && GoesOn(fetch, hops, maxDepth) && DistinctIds(hops)
    && Visited(hops, visited) && visited <= ledger
  }

  lemma VisitedIds(fetch: Fetch, ledger: set<string>, hops: seq<Record>, visited: set<string>, maxDepth: Option<int>)
    requires SoFar(fetch, ledger, hops, visited, maxDepth)
    ensures forall k :: k in visited <==> exists h :: h in hops && h.id == k
  {
  }

  lemma NextHop(fetch: Fetch, ledger: set<string>, hops: seq<Record>, visited: set<string>, maxDepth: Option<int>,
                parent: Record)
    requires FullIds(fetch, ledger) && hops != [] && SoFar(fetch, ledger, hops, visited, maxDepth)
    requires Ends(fetch, hops, maxDepth) == None
    requires hops[|hops| - 1].parent.Some? && fetch(hops[|hops| - 1].parent.value) == Some(parent)
    ensures SoFar(fetch, ledger, hops + [parent], visited + {parent.id}, maxDepth)
    ensures |ledger - (visited + {parent.id})| < |ledger - visited|
  {
    var parentId := hops[|hops| - 1].parent.value;
    FullId(fetch, ledger, parentId);
    assert parent.id !in visited;
    hide Chain, GoesOn, FullIds, DistinctIds, Visited, Ends;
    WalkStep(fetch, hops, maxDepth, parent);
    FreshHop(hops, visited, parent);
    VisitedStep(hops, visited, parent);
    Shrinks(ledger, visited, visited + {parent.id}, parent.id);
  }

  /** The walk terminates on every parent graph, cyclic ones included, and is the
      walk that `Walk` describes; its hops are distinct. */
  method BlameWalk(fetch: Fetch, ghost ledger: set<string>, record: Record, maxDepth: Option<int>)
    returns (hops: seq<Record>, terminal: Terminal)
    requires FullIds(fetch, ledger) && Stored(fetch, record)
    ensures Walk(fetch, record, maxDepth, hops, terminal)
    ensures DistinctIds(hops)
    ensures terminal.detail == if terminal.kind.Standalone? then None else hops[|hops| - 1].parent
  {
    hops := [record];
    var visited := {record.id};
    var current := record;
    terminal := Terminal(Standalone, None);
    VisitedOne(record);
    while true
      invariant hops != [] && hops[0] == record && current == hops[|hops| - 1]
      invariant SoFar(fetch, ledger, hops, visited, maxDepth)
      decreases |ledger - visited|
    {
      hide SoFar, FullIds, Stored, Chain, GoesOn, DistinctIds, Visited;
      VisitedIds(fetch, ledger, hops, visited, maxDepth);
      var parentId, relation := current.parent, current.relation;
      if relation == Some("epoch_opens") {
        terminal := Terminal(EpochOpen, parentId);
        break;
      }
      if parentId.None? || parentId.value == "" {
        terminal := Terminal(Standalone, None);
        break;
      }
      if maxDepth.Some? && |hops| >= maxDepth.value {
        terminal := Terminal(Truncated, parentId);
        break;
      }
      if parentId.value in visited {
        terminal := Terminal(Cycle, parentId);
        break;
      }
      var parent := fetch(parentId.value);
      if parent.None? {
        terminal := Terminal(MissingParent, parentId);
        break;
      }
      NextHop(fetch, ledger, hops, visited, maxDepth, parent.value);
      hops := hops + [parent.value];
      visited := visited + {parent.value.id};
      current := parent.value;
    }
  }

  lemma VisitedOne(record: Record)
    ensures Visited([record], {record.id}) && DistinctIds([record])
  {
    assert record in [record];
  }

  lemma FreshHop(hops: seq<Record>, visited: set<string>, parent: Record)
    requires Visited(hops, visited) && parent.id !in visited && DistinctIds(hops)
    ensures DistinctIds(hops + [parent])
  {
    forall i | 0 <= i < |hops| ensures hops[i].id != parent.id {
      assert hops[i] in hops;
    }
  }

  /** Two chains from the same record agree as far as both go. */
  lemma {:induction false} SamePrefix(fetch: Fetch, record: Record, xs: seq<Record>, ys: seq<Record>, n: nat)
    requires xs != [] && ys != [] && xs[0] == record && ys[0] == record
    requires Chain(fetch, xs) && Chain(fetch, ys) && n <= |xs| && n <= |ys|
    ensures xs[..n] == ys[..n]
    decreases n
  {
    if n > 1 {
      SamePrefix(fetch, record, xs, ys, n - 1);
      assert xs[n - 2] == xs[..n - 1][n - 2] == ys[..n - 1][n - 2] == ys[n - 2];
      assert xs[..n] == xs[..n - 1] + [xs[n - 1]] && ys[..n] == ys[..n - 1] + [ys[n - 1]];
    }
  }

  /** A walk does not go past a point where another one ended. */
  lemma NotLonger(fetch: Fetch, xs: seq<Record>, ys: seq<Record>, maxDepth: Option<int>)
    requires xs != [] && Ends(fetch, xs, maxDepth).Some? && GoesOn(fetch, ys, maxDepth)
    requires |xs| <= |ys| ==> ys[..|xs|] == xs
    ensures |ys| <= |xs|
  {
  }

  /** There is only one walk: hops and terminal are determined by the ledger, the
      record and the depth. */
  lemma WalkUnique(fetch: Fetch, record: Record, maxDepth: Option<int>,
                   xs: seq<Record>, t: Terminal, ys: seq<Record>, u: Terminal)
    requires Walk(fetch, record, maxDepth, xs, t) && Walk(fetch, record, maxDepth, ys, u)
    ensures xs == ys && t == u
  {
    hide Ends, Chain;
    var n := if |xs| <= |ys| then |xs| else |ys|;
    SamePrefix(fetch, record, xs, ys, n);
    assert xs[..|xs|] == xs && ys[..|ys|] == ys;
    NotLonger(fetch, xs, ys, maxDepth);
    NotLonger(fetch, ys, xs, maxDepth);
  }

  /** A bound only ever adds a reason to end: below it the reasons are those of
      the unbounded walk, and at it the walk ends. */
  lemma EndsBounded(fetch: Fetch, hops: seq<Record>, d: int)
    requires hops != []
    ensures |hops| < d ==> Ends(fetch, hops, Some(d)) == Ends(fetch, hops, None)
    ensures |hops| >= d ==> Ends(fetch, hops, Some(d)).Some?
    ensures |hops| >= d ==>
              var unbounded := Ends(fetch, hops, None);
              Ends(fetch, hops, Some(d)) ==
              if unbounded.Some? && (unbounded.value.kind.EpochOpen? || unbounded.value.kind.Standalone?) then unbounded
              else Some(Terminal(Truncated, hops[|hops| - 1].parent))
  {
  }

  /** Depth limit: with `--max-depth d` the hops are the first `max(1, d)` hops of
      the unlimited walk.  The walk is reported truncated exactly when the
      unlimited one has reached that many hops without being at a root or an
      epoch boundary; otherwise the terminal is the same. */
  lemma DepthLimit(fetch: Fetch, record: Record, d: int, xs: seq<Record>, t: Terminal, ys: seq<Record>, u: Terminal)
    requires Walk(fetch, record, None, xs, t) && Walk(fetch, record, Some(d), ys, u)
    ensures var n := if d < 1 then 1 else d;
            && ys == (if |xs| <= n then xs else xs[..n])
            && (u.kind.Truncated? <==> |xs| > n || (|xs| == n && !t.kind.EpochOpen? && !t.kind.Standalone?))
            && (!u.kind.Truncated? ==> u == t)
  {
    hide Ends, Chain;
    var n := if d < 1 then 1 else d;
    var k := if |xs| <= |ys| then |xs| else |ys|;
    SamePrefix(fetch, record, xs, ys, k);
    assert xs[..|xs|] == xs && ys[..|ys|] == ys;
    EndsBounded(fetch, xs, d);
    EndsBounded(fetch, ys, d);
    NeverTruncated(fetch, xs);
    if |ys| < |xs| {
      assert Ends(fetch, xs[..|ys|], None) == None;
    } else if |xs| < |ys| {
      assert Ends(fetch, ys[..|xs|], Some(d)) == None;
    }
    if |ys| > n {
      assert Ends(fetch, ys[..n], Some(d)) == None;
      EndsBounded(fetch, ys[..n], d);
    }
  }

  lemma NeverTruncated(fetch: Fetch, hops: seq<Record>)
    requires hops != []
    ensures Ends(fetch, hops, None).Some? ==> !Ends(fetch, hops, None).value.kind.Truncated?
  {
  }

  // ------------------------------------------------------ the parent orbit

  /** The record a record cites as its parent, if the ledger holds it. */
  function ParentRecord(fetch: Fetch, r: Record): Option<Record> {
    if r.parent.None? || r.parent.value == "" then None else fetch(r.parent.value)
  }

  /** The `n`-th record on the way back from `record`. */
  function Orbit(fetch: Fetch, record: Record, n: nat): Option<Record> {
    if n == 0 then Some(record)
    else
      match Orbit(fetch, record, n - 1)
      case None => None
      case Some(r) => ParentRecord(fetch, r)
  }

  ghost predicate EpochAt(fetch: Fetch, record: Record, n: nat) {
    Orbit(fetch, record, n).Some? && Orbit(fetch, record, n).value.relation == Some("epoch_opens")
  }

  /** The way back ends at its `n`-th record, which cites no parent. */
  ghost predicate AloneAt(fetch: Fetch, record: Record, n: nat) {
    var r := Orbit(fetch, record, n);
    r.Some? && (r.value.parent.None? || r.value.parent.value == "")
  }

  /** The way back ends at its `n`-th record, whose parent the ledger lacks. */
  ghost predicate MissingAt(fetch: Fetch, record: Record, n: nat) {
    var r := Orbit(fetch, record, n);
    r.Some? && r.value.parent.Some? && r.value.parent.value != "" && fetch(r.value.parent.value).None?
  }

  ghost predicate OpensEpoch(fetch: Fetch, record: Record) {
    exists n: nat :: EpochAt(fetch, record, n)
  }

  ghost predicate EndsAlone(fetch: Fetch, record: Record) {
    exists n: nat :: AloneAt(fetch, record, n)
  }

  ghost predicate EndsMissing(fetch: Fetch, record: Record) {
    exists n: nat :: MissingAt(fetch, record, n)
  }

  ghost predicate Endless(fetch: Fetch, record: Record) {
    forall n: nat :: Orbit(fetch, record, n).Some?
  }

  lemma {:induction false} OrbitOver(fetch: Fetch, record: Record, m: nat, n: nat)
    requires m <= n && Orbit(fetch, record, m).None?
    ensures Orbit(fetch, record, n).None?
    decreases n
  {
    if m < n {
      OrbitOver(fetch, record, m, n - 1);
    }
  }

  /** The way back ends in one way at most. */
  lemma OneEnd(fetch: Fetch, record: Record)
    ensures !(EndsAlone(fetch, record) && EndsMissing(fetch, record))
    ensures Endless(fetch, record) ==> !EndsAlone(fetch, record) && !EndsMissing(fetch, record)
  {
    forall n: nat | AloneAt(fetch, record, n) || MissingAt(fetch, record, n)
      ensures Orbit(fetch, record, n + 1).None?
    {
    }
    forall m: nat, n: nat | AloneAt(fetch, record, m) && MissingAt(fetch, record, n)
      ensures false
    {
      OrbitLast(fetch, record, m, n);
    }
  }

  lemma OrbitLast(fetch: Fetch, record: Record, m: nat, n: nat)
    requires Orbit(fetch, record, m).Some? && Orbit(fetch, record, m + 1).None?
    requires Orbit(fetch, record, n).Some? && Orbit(fetch, record, n + 1).None?
    ensures m == n
  {
    if m < n {
      OrbitOver(fetch, record, m + 1, n);
    } else if n < m {
      OrbitOver(fetch, record, n + 1, m);
    }
  }

  /** The hops of a walk are the orbit, and none but the last opens an epoch. */
  lemma {:induction false} HopsAreOrbit(fetch: Fetch, record: Record, hops: seq<Record>, k: nat)
    requires hops != [] && hops[0] == record && Chain(fetch, hops) && GoesOn(fetch, hops, None) && k < |hops|
    ensures Orbit(fetch, record, k) == Some(hops[k])
    ensures k + 1 < |hops| ==> hops[k].relation != Some("epoch_opens")
    decreases k
  {
    if k > 0 {
      HopsAreOrbit(fetch, record, hops, k - 1);
      assert Ends(fetch, hops[..k], None) == None;
      assert hops[..k][k - 1] == hops[k - 1];
    }
    if k + 1 < |hops| {
      assert Ends(fetch, hops[..k + 1], None) == None;
      assert hops[..k + 1][k] == hops[k];
    }
  }

  lemma OrbitStep(fetch: Fetch, record: Record, n: nat)
    requires Orbit(fetch, record, n).Some?
    ensures Orbit(fetch, record, n + 1) == ParentRecord(fetch, Orbit(fetch, record, n).value)
  {
  }

  /** An orbit that comes back to one of its records stays among them. */
  lemma {:induction false} OrbitStays(fetch: Fetch, record: Record, hops: seq<Record>, i: nat, n: nat)
    requires i < |hops| && forall k :: 0 <= k < |hops| ==> Orbit(fetch, record, k) == Some(hops[k])
    requires Orbit(fetch, record, |hops|) == Some(hops[i])
    ensures Orbit(fetch, record, n).Some? && Orbit(fetch, record, n).value in hops
    decreases n
  {
    hide Orbit, ParentRecord;
    if n < |hops| {
      assert Orbit(fetch, record, n) == Some(hops[n]);
    } else if n > |hops| {
      OrbitStays(fetch, record, hops, i, n - 1);
      OrbitStep(fetch, record, n - 1);
      var j :| 0 <= j < |hops| && hops[j] == Orbit(fetch, record, n - 1).value;
      OrbitStep(fetch, record, j);
      if j + 1 < |hops| {
        assert Orbit(fetch, record, j + 1) == Some(hops[j + 1]);
      }
    }
  }

  lemma {:induction false} HopsStored(fetch: Fetch, ledger: set<string>, record: Record, hops: seq<Record>, k: nat)
    requires FullIds(fetch, ledger) && Stored(fetch, record)
    requires hops != [] && hops[0] == record && Chain(fetch, hops) && k < |hops|
    ensures fetch(hops[k].id) == Some(hops[k])
    decreases k
  {
    if k > 0 {
      assert fetch(hops[k - 1].parent.value) == Some(hops[k]);
    }
  }

  /** Where the walk comes back to, the orbit goes round for ever. */
  lemma CycleEndless(fetch: Fetch, ledger: set<string>, record: Record, hops: seq<Record>, t: Terminal)
    requires FullIds(fetch, ledger) && Stored(fetch, record)
    requires Walk(fetch, record, None, hops, t) && t.kind.Cycle?
    ensures Endless(fetch, record) && !OpensEpoch(fetch, record)
  {
    var last := hops[|hops| - 1];
    var h :| h in hops && h.id == last.parent.value;
    var i :| 0 <= i < |hops| && hops[i] == h;
    HopsStored(fetch, ledger, record, hops, i);
    forall k | 0 <= k < |hops|
      ensures Orbit(fetch, record, k) == Some(hops[k]) && hops[k].relation != Some("epoch_opens")
    {
      HopsAreOrbit(fetch, record, hops, k);
    }
    assert Orbit(fetch, record, |hops|) == Some(hops[i]);
    forall n: nat
      ensures Orbit(fetch, record, n).Some? && !EpochAt(fetch, record, n)
    {
      OrbitStays(fetch, record, hops, i, n);
    }
  }

  /** Where the walk finds no further record, the orbit ends. */
  lemma EndOfOrbit(fetch: Fetch, record: Record, hops: seq<Record>, t: Terminal)
    requires Walk(fetch, record, None, hops, t) && (t.kind.Standalone? || t.kind.MissingParent?)
    ensures !OpensEpoch(fetch, record)
    ensures t.kind.Standalone? ==> EndsAlone(fetch, record)
    ensures t.kind.MissingParent? ==> EndsMissing(fetch, record)
  {
    var last: nat := |hops| - 1;
    HopsAreOrbit(fetch, record, hops, last);
    assert t.kind.Standalone? ==> AloneAt(fetch, record, last);
    assert t.kind.MissingParent? ==> MissingAt(fetch, record, last);
    assert Orbit(fetch, record, last + 1).None?;
    forall n: nat ensures !EpochAt(fetch, record, n) {
      if n < |hops| {
        HopsAreOrbit(fetch, record, hops, n);
      } else {
        OrbitOver(fetch, record, last + 1, n);
      }
    }
  }

  /** What each terminal of the unlimited walk says of the orbit of parents, which
      is defined without the walk: the walk ends in a cycle exactly when the orbit
      never ends, and so on, unless a record on it opens an epoch. */
  lemma TerminalExact(fetch: Fetch, ledger: set<string>, record: Record, hops: seq<Record>, t: Terminal)
    requires FullIds(fetch, ledger) && Stored(fetch, record) && Walk(fetch, record, None, hops, t)
    ensures t.kind.EpochOpen? <==> OpensEpoch(fetch, record)
    ensures t.kind.Cycle? <==> !OpensEpoch(fetch, record) && Endless(fetch, record)
    ensures t.kind.Standalone? <==> !OpensEpoch(fetch, record) && EndsAlone(fetch, record)
    ensures t.kind.MissingParent? <==> !OpensEpoch(fetch, record) && EndsMissing(fetch, record)
  {
    OneEnd(fetch, record);
    NeverTruncated(fetch, hops);
    if t.kind.Cycle? {
      CycleEndless(fetch, ledger, record, hops, t);
    } else if t.kind.Standalone? || t.kind.MissingParent? {
      EndOfOrbit(fetch, record, hops, t);
    } else {
      HopsAreOrbit(fetch, record, hops, |hops| - 1);
      assert EpochAt(fetch, record, |hops| - 1);
    }
    hide Orbit, Walk, EndsAlone, EndsMissing, Endless, OpensEpoch;
  }

  // ------------------------------------------- the bundle, by the same orbit

  /** Some selected record has the record with this id on its way back. */
  ghost predicate OnTheWay(fetch: Fetch, matched: seq<Record>, id: string) {
    exists m, n: nat :: m in matched && Orbit(fetch, m, n) == fetch(id)
  }

  lemma {:induction false} OrbitStored(fetch: Fetch, ledger: set<string>, m: Record, n: nat)
    requires FullIds(fetch, ledger) && Stored(fetch, m) && Orbit(fetch, m, n).Some?
    ensures Stored(fetch, Orbit(fetch, m, n).value)
    decreases n
  {
    if n > 0 {
      OrbitStored(fetch, ledger, m, n - 1);
    }
  }

  lemma {:induction false} OrbitCollected(fetch: Fetch, ledger: set<string>, matched: seq<Record>, ids: set<string>,
                                          m: Record, n: nat)
    requires FullIds(fetch, ledger) && Closed(fetch, ids) && IdsOf(matched) <= ids
    requires m in matched && Stored(fetch, m) && Orbit(fetch, m, n).Some?
    ensures Orbit(fetch, m, n).value.id in ids
    decreases n
  {
    if n == 0 {
      assert m.id in IdsOf(matched);
    } else {
      OrbitCollected(fetch, ledger, matched, ids, m, n - 1);
      OrbitStored(fetch, ledger, m, n - 1);
      var r := Orbit(fetch, m, n - 1).value;
      assert Parent(fetch, r.id, r.parent.value);
    }
  }

  lemma WaysClosed(fetch: Fetch, ledger: set<string>, matched: seq<Record>) returns (ways: set<string>)
    requires FullIds(fetch, ledger) && forall r :: r in matched ==> Stored(fetch, r)
    ensures IdsOf(matched) <= ways && Closed(fetch, ways)
    ensures forall k :: k in ways ==> fetch(k).Some? && OnTheWay(fetch, matched, k)
  {
    ways := set k | k in ledger && fetch(k).Some? && OnTheWay(fetch, matched, k);
    forall m | m in matched ensures m.id in ways {
      assert Stored(fetch, m) && fetch(m.id).Some? && Orbit(fetch, m, 0) == fetch(m.id);
    }
    forall child, p | child in ways && Parent(fetch, child, p) ensures p in ways {
      var m, n: nat :| m in matched && Orbit(fetch, m, n) == fetch(child);
      OrbitStep(fetch, m, n);
      assert Orbit(fetch, m, n + 1) == fetch(p);
    }
  }

  /** What a bundle holds, said without closed sets: a record is in it exactly when
      it is on the way back from a selected one. */
  lemma BundleIsOrbits(fetch: Fetch, ledger: set<string>, matched: seq<Record>, records: seq<Record>, r: Record)
    requires FullIds(fetch, ledger) && Least(fetch, matched, IdsOf(records))
    requires forall m :: m in matched ==> Stored(fetch, m)
    requires forall q :: q in records ==> Stored(fetch, q)
    ensures r in records <==> exists m, n: nat :: m in matched && Orbit(fetch, m, n) == Some(r)
  {
    hide FullIds, Orbit;
    if r in records {
      var ways := WaysClosed(fetch, ledger, matched);
      assert r.id in IdsOf(records) && Stored(fetch, r);
      assert OnTheWay(fetch, matched, r.id);
    }
    if m, n: nat :| m in matched && Orbit(fetch, m, n) == Some(r) {
      OrbitStored(fetch, ledger, m, n);
      OrbitCollected(fetch, ledger, matched, IdsOf(records), m, n);
      var q :| q in records && q.id == r.id;
      assert Stored(fetch, q) && Stored(fetch, r);
    }
  }
}

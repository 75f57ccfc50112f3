/** The viewer's notes on records that are altered or that cite altered ones. */
module Annotate {
  import opened Geometry
  import opened Hashing
  import opened CapsuleId

  /** A bundled record as the viewer reads it: an absent id or parent is empty. */
  datatype Cap = Cap(id: string, parent: string)

  datatype Note = DigestMismatch | CitesAltered | Verifies

  /** The record stored under an id: the last one wins. */
  function ById(caps: seq<Cap>): map<string, Cap> {
    if caps == [] then map[]
    else
      var rest := ById(caps[..|caps| - 1]);
      var c := caps[|caps| - 1];
      if IsH64(c.id) then rest[c.id := c] else rest
  }

  /** Record `j` is the last one with this id. */
  ghost predicate LastWith(caps: seq<Cap>, id: string, j: nat) {
    j < |caps| && caps[j].id == id && forall k :: j < k < |caps| ==> caps[k].id != id
  }

  lemma ByIdSnoc(rest: seq<Cap>, c: Cap)
    ensures ById(rest + [c]) == if IsH64(c.id) then ById(rest)[c.id := c] else ById(rest)
  {
    hide IsH64;
    assert (rest + [c])[..|rest|] == rest;
  }

  lemma LastSnoc(rest: seq<Cap>, c: Cap, id: string, j: nat)
    ensures LastWith(rest + [c], id, j) <==> if c.id == id then j == |rest| else LastWith(rest, id, j)
  {
    var caps := rest + [c];
    assert caps[|rest|] == c;
    assert forall k :: 0 <= k < |rest| ==> caps[k] == rest[k];
  }

  /** What the table holds: the ids of 64 hex digits that some record has, each with
      the last record that has it. */
  lemma {:induction false} ByIdExact(caps: seq<Cap>, id: string)
    ensures id in ById(caps) <==> IsH64(id) && exists j :: 0 <= j < |caps| && caps[j].id == id
    ensures forall j: nat :: LastWith(caps, id, j) && IsH64(id) ==> id in ById(caps) && ById(caps)[id] == caps[j]
    decreases |caps|
  {
    hide IsH64, ById;
    if caps == [] {
      NoTable(caps);
    } else {
      var n := |caps| - 1;
      var rest, c := caps[..n], caps[n];
      assert caps == rest + [c];
      ByIdExact(rest, id);
      ByIdSnoc(rest, c);
      if exists k :: 0 <= k < |caps| && caps[k].id == id && k != n {
        var k :| 0 <= k < n && caps[k].id == id;
        assert rest[k].id == id;
      }
      forall j: nat | LastWith(caps, id, j) && IsH64(id)
        ensures id in ById(caps) && ById(caps)[id] == caps[j]
      {
        LastSnoc(rest, c, id, j);
      }
    }
  }

  lemma NoTable(caps: seq<Cap>)
    requires caps == []
    ensures ById(caps) == map[]
  {
  }

  lemma LastExists(caps: seq<Cap>, id: string) returns (j: nat)
    requires exists k :: 0 <= k < |caps| && caps[k].id == id
    ensures LastWith(caps, id, j)
    decreases |caps|
  {
    j := |caps| - 1;
    if caps[j].id != id {
      var rest := caps[..j];
      var k :| 0 <= k < |caps| && caps[k].id == id;
      assert rest[k].id == id;
      j := LastExists(rest, id);
      assert caps[j] == rest[j];
      forall i | j < i < |caps| ensures caps[i].id != id {
        if i < |rest| {
          assert caps[i] == rest[i];
        }
      }
    }
  }

  /** The parent named by a record, when it is a capsule id. */
  function NamedParent(c: Cap): Option<string> {
    if IsH64(c.parent) then Some(c.parent) else None
  }

  /** The id reached after `n >= 1` parent links, every record on the way but the
      last one being in the bundle. */
  function Ancestor(byId: map<string, Cap>, cap: Cap, n: nat): Option<string>
    requires n >= 1
  {
    if n == 1 then NamedParent(cap)
    else
      match Ancestor(byId, cap, n - 1)
      case None => None
      case Some(p) => if p in byId then NamedParent(byId[p]) else None
  }

  ghost predicate Reaches(byId: map<string, Cap>, cap: Cap, altered: set<string>) {
    exists n: nat :: n >= 1 && ReachesAt(byId, cap, altered, n)
  }

  ghost predicate ReachesAt(byId: map<string, Cap>, cap: Cap, altered: set<string>, n: nat)
    requires n >= 1
  {
    Ancestor(byId, cap, n).Some? && Ancestor(byId, cap, n).value in altered
  }

  /** The ids passed in the first `k` links. */
  ghost predicate SeenAfter(byId: map<string, Cap>, cap: Cap, seen: set<string>, k: nat) {
    && (forall n: nat :: 1 <= n <= k ==> Ancestor(byId, cap, n).Some? && Ancestor(byId, cap, n).value in seen)
    && (forall p :: p in seen ==> exists n: nat :: 1 <= n <= k && Ancestor(byId, cap, n) == Some(p))
  }

  /** Once the walk ends or repeats an id, nothing new is reached. */
  lemma {:induction false} NothingNew(byId: map<string, Cap>, cap: Cap, seen: set<string>, k: nat, n: nat)
    requires SeenAfter(byId, cap, seen, k) && n >= 1
    requires Ancestor(byId, cap, k + 1).None? || Ancestor(byId, cap, k + 1).value in seen
    ensures Ancestor(byId, cap, n).None? || Ancestor(byId, cap, n).value in seen
    decreases n
  {
    hide SeenAfter;
    if n <= k {
      SeenAt(byId, cap, seen, k, n);
    } else if n > k + 1 {
      NothingNew(byId, cap, seen, k, n - 1);
      if Ancestor(byId, cap, n - 1).Some? {
        var m := FirstSeen(byId, cap, seen, k, Ancestor(byId, cap, n - 1).value);
        if m + 1 <= k {
          SeenAt(byId, cap, seen, k, m + 1);
        }
        assert Ancestor(byId, cap, n) == Ancestor(byId, cap, m + 1);
      }
    }
  }

  lemma SeenAt(byId: map<string, Cap>, cap: Cap, seen: set<string>, k: nat, n: nat)
    requires SeenAfter(byId, cap, seen, k) && 1 <= n <= k
    ensures Ancestor(byId, cap, n).Some? && Ancestor(byId, cap, n).value in seen
  {
  }

  lemma FirstSeen(byId: map<string, Cap>, cap: Cap, seen: set<string>, k: nat, p: string) returns (n: nat)
    requires SeenAfter(byId, cap, seen, k) && p in seen
    ensures 1 <= n <= k && Ancestor(byId, cap, n) == Some(p)
  {
    n :| 1 <= n <= k && Ancestor(byId, cap, n) == Some(p);
  }

  lemma SeenMore(byId: map<string, Cap>, cap: Cap, seen: set<string>, k: nat, p: string)
    requires SeenAfter(byId, cap, seen, k) && Ancestor(byId, cap, k + 1) == Some(p)
    ensures SeenAfter(byId, cap, seen + {p}, k + 1)
  {
    forall q | q in seen + {p} ensures exists n: nat :: 1 <= n <= k + 1 && Ancestor(byId, cap, n) == Some(q) {
      if q in seen {
        var n := FirstSeen(byId, cap, seen, k, q);
        assert 1 <= n <= k + 1 && Ancestor(byId, cap, n) == Some(q);
      }
    }
  }

  lemma NotReached(byId: map<string, Cap>, cap: Cap, altered: set<string>, seen: set<string>, k: nat)
    requires SeenAfter(byId, cap, seen, k) && seen !! altered
    requires Ancestor(byId, cap, k + 1).None? || Ancestor(byId, cap, k + 1).value in seen
    ensures !Reaches(byId, cap, altered)
  {
    hide SeenAfter, Ancestor;
    forall n: nat | n >= 1 ensures !ReachesAt(byId, cap, altered, n) {
      NothingNew(byId, cap, seen, k, n);
    }
  }

  /** The seen-set walk terminates on cycles and decides reachability. */
  method CitesAlteredRecord(byId: map<string, Cap>, altered: set<string>, cap: Cap) returns (cites: bool)
    ensures cites <==> Reaches(byId, cap, altered)
  {
    var seen: set<string> := {};
    var cur := cap;
    ghost var k: nat := 0;
    hide SeenAfter, Reaches, ReachesAt, IsH64;
    NothingSeen(byId, cap);
    while true
      invariant SeenAfter(byId, cap, seen, k) && seen !! altered
      invariant Ancestor(byId, cap, k + 1) == NamedParent(cur)
      decreases byId.Keys - seen
    {
      var parent := cur.parent;
      if !IsH64(parent) || parent in seen {
        NotReached(byId, cap, altered, seen, k);
        return false;
      }
      if parent in altered {
        ReachedNow(byId, cap, altered, k + 1);
        return true;
      }
      SeenMore(byId, cap, seen, k, parent);
      NextAncestor(byId, cap, k + 1);
      seen := seen + {parent};
      k := k + 1;
      if parent !in byId {
        NotReached(byId, cap, altered, seen, k);
        return false;
      }
      cur := byId[parent];
    }
  }

  lemma NothingSeen(byId: map<string, Cap>, cap: Cap)
    ensures SeenAfter(byId, cap, {}, 0)
    ensures Ancestor(byId, cap, 1) == NamedParent(cap)
  {
  }

  lemma ReachedNow(byId: map<string, Cap>, cap: Cap, altered: set<string>, n: nat)
    requires n >= 1 && Ancestor(byId, cap, n).Some? && Ancestor(byId, cap, n).value in altered
    ensures Reaches(byId, cap, altered)
  {
    assert ReachesAt(byId, cap, altered, n);
  }

  lemma NextAncestor(byId: map<string, Cap>, cap: Cap, n: nat)
    requires n >= 1 && Ancestor(byId, cap, n).Some?
    ensures var p := Ancestor(byId, cap, n).value;
            Ancestor(byId, cap, n + 1) == if p in byId then NamedParent(byId[p]) else None
  {
  }

  /** Indices of records, from `i` on: each record cites an id, and the next one is
      the last that has it. */
  ghost predicate Linked(caps: seq<Cap>, i: nat, js: seq<nat>) {
    && js != [] && js[0] == i
    && (forall t :: 0 <= t < |js| ==> js[t] < |caps|)
    && (forall t :: 0 <= t < |js| - 1 ==>
          IsH64(caps[js[t]].parent) && LastWith(caps, caps[js[t]].parent, js[t + 1]))
  }

  /** Such a chain that ends with a record citing an altered id. */
  ghost predicate ChainToAltered(caps: seq<Cap>, altered: set<string>, i: nat, js: seq<nat>) {
    && Linked(caps, i, js)
    && IsH64(caps[js[|js| - 1]].parent) && caps[js[|js| - 1]].parent in altered
  }

  lemma {:induction false} ChainFromAncestor(caps: seq<Cap>, i: nat, n: nat) returns (js: seq<nat>)
    requires i < |caps| && n >= 1 && Ancestor(ById(caps), caps[i], n).Some?
    ensures |js| == n && Linked(caps, i, js)
    ensures NamedParent(caps[js[n - 1]]) == Ancestor(ById(caps), caps[i], n)
    decreases n
  {
    hide IsH64, ById;
    if n == 1 {
      js := [i];
    } else {
      js := ChainFromAncestor(caps, i, n - 1);
      var p := Ancestor(ById(caps), caps[i], n - 1).value;
      ByIdExact(caps, p);
      var j := LastExists(caps, p);
      js := js + [j];
    }
  }

  lemma {:induction false} AncestorFromChain(caps: seq<Cap>, i: nat, js: seq<nat>, t: nat)
    requires Linked(caps, i, js) && t < |js|
    ensures Ancestor(ById(caps), caps[i], t + 1) == NamedParent(caps[js[t]])
    decreases t
  {
    hide IsH64, ById;
    if t > 0 {
      AncestorFromChain(caps, i, js, t - 1);
      ByIdExact(caps, caps[js[t - 1]].parent);
    }
  }

  /** Reachability through the table is a chain of citations in the list. */
  lemma ReachesMeansChain(caps: seq<Cap>, altered: set<string>, i: nat)
    requires i < |caps|
    ensures Reaches(ById(caps), caps[i], altered) <==> exists js :: ChainToAltered(caps, altered, i, js)
  {
    hide IsH64, ById, Ancestor;
    if Reaches(ById(caps), caps[i], altered) {
      var n: nat :| n >= 1 && ReachesAt(ById(caps), caps[i], altered, n);
      var js := ChainFromAncestor(caps, i, n);
      assert ChainToAltered(caps, altered, i, js);
    }
    forall js | ChainToAltered(caps, altered, i, js) ensures Reaches(ById(caps), caps[i], altered) {
      AncestorFromChain(caps, i, js, |js| - 1);
      assert ReachesAt(ById(caps), caps[i], altered, |js|);
    }
  }

  /** Ids of records whose content failed its check. */
  ghost predicate Failed(caps: seq<Cap>, failed: seq<bool>, id: string)
    requires |failed| == |caps|
  {
    IsH64(id) && exists i :: 0 <= i < |caps| && caps[i].id == id && failed[i]
  }

  /** The table of altered ids is a plain object too, so an id that every object
      inherits is found in it. */
  predicate FoundInTable(altered: set<string>, id: string) {
    id in altered || id in INHERITED
  }

  /** What each record is annotated with. */
  ghost predicate Annotated(caps: seq<Cap>, altered: set<string>, c: Cap, note: Note) {
    note == if FoundInTable(altered, c.id) then DigestMismatch
            else if Reaches(ById(caps), c, altered) then CitesAltered
            else Verifies
  }

  /** `failed[i]` says that the integrity check of record `i` came out negative.
      A record is noted as citing an altered one exactly when it is not altered
      itself and an altered id is reachable from it along parent links through
      records of the bundle. */
  method AnnotateRecords(caps: seq<Cap>, failed: seq<bool>) returns (notes: seq<Note>, altered: set<string>)
    requires |failed| == |caps|
    ensures |notes| == |caps|
    ensures forall id :: id in altered <==> Failed(caps, failed, id)
    ensures forall id :: id in altered <==> IsH64(id) && exists j :: 0 <= j < |caps| && caps[j].id == id && failed[j]
    ensures forall i :: 0 <= i < |caps| ==> Annotated(caps, altered, caps[i], notes[i])
    ensures forall i :: 0 <= i < |caps| ==>
              (notes[i] == CitesAltered <==>
               !FoundInTable(altered, caps[i].id) && exists js :: ChainToAltered(caps, altered, i, js))
  {
    hide IsH64, ById, Reaches, ChainToAltered;
    altered := {};
    for i := 0 to |caps|
      invariant forall id :: id in altered <==> IsH64(id) && exists j :: 0 <= j < i && caps[j].id == id && failed[j]
    {
      if IsH64(caps[i].id) && failed[i] {
        altered := altered + {caps[i].id};
      }
    }
    var byId := IndexById(caps);
    notes := [];
    for i := 0 to |caps|
      invariant |notes| == i
      invariant forall j :: 0 <= j < i ==> Annotated(caps, altered, caps[j], notes[j])
    {
      var note := DigestMismatch;
      if !FoundInTable(altered, caps[i].id) {
        var cites := CitesAlteredRecord(byId, altered, caps[i]);
        note := if cites then CitesAltered else Verifies;
      }
      notes := notes + [note];
    }
    forall i | 0 <= i < |caps|
      ensures Reaches(ById(caps), caps[i], altered) <==> exists js :: ChainToAltered(caps, altered, i, js)
    {
      ReachesMeansChain(caps, altered, i);
    }
  }

  method IndexById(caps: seq<Cap>) returns (byId: map<string, Cap>)
    ensures byId == ById(caps)
    ensures forall id :: id in byId <==> IsH64(id) && exists j :: 0 <= j < |caps| && caps[j].id == id
    ensures forall id, j: nat :: IsH64(id) && LastWith(caps, id, j) ==> id in byId && byId[id] == caps[j]
  {
    hide IsH64;
    byId := map[];
    for i := 0 to |caps|
      invariant byId == ById(caps[..i])
    {
      assert caps[..i + 1][..i] == caps[..i];
      if IsH64(caps[i].id) {
        byId := byId[caps[i].id := caps[i]];
      }
    }
    assert caps[..|caps|] == caps;
    forall id
      ensures id in ById(caps) <==> IsH64(id) && exists j :: 0 <= j < |caps| && caps[j].id == id
      ensures forall j: nat :: LastWith(caps, id, j) && IsH64(id) ==> id in ById(caps) && ById(caps)[id] == caps[j]
    {
      ByIdExact(caps, id);
    }
  }

  /** The table lookup finds exactly the failed records, except for the ids that
      every object inherits: those it always finds. */
  lemma TableExact(caps: seq<Cap>, failed: seq<bool>, altered: set<string>, id: string)
    requires |failed| == |caps| && forall k :: k in altered <==> Failed(caps, failed, k)
    ensures (FoundInTable(altered, id) <==> Failed(caps, failed, id)) <==> id !in INHERITED
    ensures IsH64(id) ==> id !in INHERITED
  {
    if id in INHERITED {
      ShortNames(id);
    }
    hide IsH64;
  }

  /** A concrete case: a single record with the id "constructor", of which nothing
      failed, is noted as altered. */
  lemma ConstructorAltered(altered: set<string>, note: Note)
    requires forall k :: k in altered <==> Failed([Cap("constructor", "")], [false], k)
    ensures !Failed([Cap("constructor", "")], [false], "constructor")
    ensures Annotated([Cap("constructor", "")], altered, Cap("constructor", ""), note) <==> note == DigestMismatch
  {
    ShortNames("constructor");
    hide IsH64, Reaches, ById;
  }

  lemma ShortNames(id: string)
    requires id in INHERITED
    ensures |id| < 64 && !IsH64(id)
  {
  }
}

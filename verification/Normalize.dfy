/** The normaliser: what it removes, and that removing is all it does. */
module Normalize {
  import opened Geometry
  import opened Json
  import opened Canonical

  /** Assigning to this key on a fresh object sets its prototype and creates no
      member. */
  const PROTO := Units("__proto__")

  /** A normalised value that its enclosing object leaves out. */
  predicate Vanishes(v: Json) {
    v == Null || v == Arr([]) || v == Obj([])
  }

  function Normalized(v: Json): Json
    decreases v, 1
  {
    match v
    case Arr(items) => Arr(NormalizedItems(items))
    case Obj(members) => Obj(NormalizedMembers(members))
    case _ => v
  }

  function NormalizedItems(items: seq<Json>): (r: seq<Json>)
    ensures |r| == |items|
    decreases items, 0
  {
    if items == [] then [] else [Normalized(items[0])] + NormalizedItems(items[1..])
  }

  function NormalizedMembers(ms: Members): (r: Members)
    ensures |r| <= |ms|
    decreases ms, 0
  {
    if ms == [] then []
    else
      var nv := Normalized(ms[0].value);
      var rest := NormalizedMembers(ms[1..]);
      if Vanishes(nv) || ms[0].key == PROTO then rest else [Entry(ms[0].key, nv)] + rest
  }

  lemma NormalizedItemsSnoc(items: seq<Json>, n: nat)
    requires n < |items|
    ensures NormalizedItems(items[..n + 1]) == NormalizedItems(items[..n]) + [Normalized(items[n])]
    decreases n
  {
    if n == 0 {
      assert items[..1] == [items[0]] && items[..1][1..] == [];
    } else {
      NormalizedItemsSnoc(items[1..], n - 1);
      assert items[..n + 1][1..] == items[1..][..n] && items[..n][1..] == items[1..][..n - 1];
    }
  }

  lemma NormalizedMembersCons(m: Entry<Json>, rest: Members)
    ensures NormalizedMembers([m] + rest) ==
            (if Vanishes(Normalized(m.value)) || m.key == PROTO then [] else [Entry(m.key, Normalized(m.value))])
            + NormalizedMembers(rest)
  {
    assert ([m] + rest)[1..] == rest;
  }

  lemma {:induction false} NormalizedMembersAppend(ms: Members, ns: Members)
    ensures NormalizedMembers(ms + ns) == NormalizedMembers(ms) + NormalizedMembers(ns)
    decreases |ms|
  {
    hide Vanishes, Normalized;
    if ms == [] {
      assert ms + ns == ns;
    } else {
      NormalizedMembersAppend(ms[1..], ns);
      NormalizedMembersCons(ms[0], ms[1..]);
      NormalizedMembersCons(ms[0], ms[1..] + ns);
      assert ms == [ms[0]] + ms[1..];
      assert ms + ns == [ms[0]] + (ms[1..] + ns);
      hide NormalizedMembers;
    }
  }

  lemma NormalizedMembersSnoc(ms: Members, n: nat)
    requires n < |ms|
    ensures var nv := Normalized(ms[n].value);
            NormalizedMembers(ms[..n + 1]) ==
            NormalizedMembers(ms[..n]) + if Vanishes(nv) || ms[n].key == PROTO then [] else [Entry(ms[n].key, nv)]
  {
    hide Vanishes, Normalized;
    var none: Members := [];
    assert ms[..n + 1] == ms[..n] + [ms[n]] && [ms[n]] + none == [ms[n]];
    NormalizedMembersAppend(ms[..n], [ms[n]]);
    NormalizedMembersCons(ms[n], none);
  }

  /** The recursion over a value, filling a fresh object or array per level. */
  method NormalizeValue(v: Json) returns (nv: Json)
    ensures nv == Normalized(v)
    decreases v
  {
    match v
    case Arr(items) =>
      var mapped := [];
      for i := 0 to |items|
        invariant mapped == NormalizedItems(items[..i])
      {
        NormalizedItemsSnoc(items, i);
        hide Normalized, NormalizedItems;
        var item := NormalizeValue(items[i]);
        mapped := mapped + [item];
      }
      assert items[..|items|] == items;
      return Arr(mapped);
    case Obj(members) =>
      var out := [];
      for i := 0 to |members|
        invariant out == NormalizedMembers(members[..i])
      {
        NormalizedMembersSnoc(members, i);
        hide Normalized, NormalizedMembers;
        var value := NormalizeValue(members[i].value);
        if value != Null && value != Arr([]) && value != Obj([]) && members[i].key != PROTO {
          out := out + [Entry(members[i].key, value)];
        }
      }
      assert members[..|members|] == members;
      return Obj(out);
    case _ =>
      return v;
  }

  // ---------------------------------------------------------------- padding

  /** Null, an empty array, or an object in which every member can be ignored. */
  ghost predicate Hollow(v: Json)
    decreases v, 1
  {
    match v
    case Null => true
    case Arr(items) => items == []
    case Obj(members) => AllIgnorable(members)
    case _ => false
  }

  ghost predicate AllIgnorable(ms: Members)
    decreases ms, 0
  {
    ms == [] || ((ms[0].key == PROTO || Hollow(ms[0].value)) && AllIgnorable(ms[1..]))
  }

  /** `b` is `a` with ignorable members added inside any of its objects. */
  ghost predicate Padded(a: Json, b: Json)
    decreases b, 1
  {
    match (a, b)
    case (Arr(xs), Arr(ys)) => PaddedItems(xs, ys)
    case (Obj(ms), Obj(ns)) => PaddedMembers(ms, ns)
    case _ => a == b
  }

  ghost predicate PaddedItems(xs: seq<Json>, ys: seq<Json>)
    decreases ys, 0
  {
    if ys == [] then xs == []
    else xs != [] && Padded(xs[0], ys[0]) && PaddedItems(xs[1..], ys[1..])
  }

  ghost predicate PaddedMembers(ms: Members, ns: Members)
    decreases ns, 0
  {
    if ns == [] then ms == []
    else
      || (ms != [] && ms[0].key == ns[0].key && Padded(ms[0].value, ns[0].value) && PaddedMembers(ms[1..], ns[1..]))
      || ((ns[0].key == PROTO || Hollow(ns[0].value)) && PaddedMembers(ms, ns[1..]))
  }

  /** The hollow values are exactly those that vanish once normalised. */
  lemma {:induction false} HollowVanishes(v: Json)
    ensures Hollow(v) <==> Vanishes(Normalized(v))
    decreases v, 1
  {
    match v
    case Obj(members) => IgnorableVanish(members);
    case _ =>
  }

  lemma {:induction false} IgnorableVanish(ms: Members)
    ensures AllIgnorable(ms) <==> NormalizedMembers(ms) == []
    decreases ms, 0
  {
    if ms != [] {
      HollowVanishes(ms[0].value);
      IgnorableVanish(ms[1..]);
    }
  }

  /** Padding is invisible to the normaliser. */
  lemma {:induction false} PaddingInvisible(a: Json, b: Json)
    requires Padded(a, b)
    ensures Normalized(a) == Normalized(b)
    decreases b, 1
  {
    match (a, b)
    case (Arr(xs), Arr(ys)) => PaddedItemsInvisible(xs, ys);
    case (Obj(ms), Obj(ns)) => PaddedMembersInvisible(ms, ns);
    case _ =>
  }

  lemma {:induction false} PaddedItemsInvisible(xs: seq<Json>, ys: seq<Json>)
    requires PaddedItems(xs, ys)
    ensures NormalizedItems(xs) == NormalizedItems(ys)
    decreases ys, 0
  {
    if ys != [] {
      PaddingInvisible(xs[0], ys[0]);
      PaddedItemsInvisible(xs[1..], ys[1..]);
    }
  }

  lemma {:induction false} PaddedMembersInvisible(ms: Members, ns: Members)
    requires PaddedMembers(ms, ns)
    ensures NormalizedMembers(ms) == NormalizedMembers(ns)
    decreases ns, 0
  {
    if ns != [] {
      if ms != [] && ms[0].key == ns[0].key && Padded(ms[0].value, ns[0].value) && PaddedMembers(ms[1..], ns[1..]) {
        PaddingInvisible(ms[0].value, ns[0].value);
        PaddedMembersInvisible(ms[1..], ns[1..]);
      } else {
        HollowVanishes(ns[0].value);
        PaddedMembersInvisible(ms, ns[1..]);
      }
    }
  }

  /** A value is its normal form with padding added. */
  lemma {:induction false} NormalFormPadded(v: Json)
    ensures Padded(Normalized(v), v)
    decreases v, 1
  {
    match v
    case Arr(items) => NormalItemsPadded(items);
    case Obj(members) => NormalMembersPadded(members);
    case _ =>
  }

  lemma {:induction false} NormalItemsPadded(items: seq<Json>)
    ensures PaddedItems(NormalizedItems(items), items)
    decreases items, 0
  {
    if items != [] {
      NormalFormPadded(items[0]);
      NormalItemsPadded(items[1..]);
      assert NormalizedItems(items)[1..] == NormalizedItems(items[1..]);
    }
  }

  lemma {:induction false} NormalMembersPadded(ms: Members)
    ensures PaddedMembers(NormalizedMembers(ms), ms)
    decreases ms, 0
  {
    if ms != [] {
      NormalFormPadded(ms[0].value);
      NormalMembersPadded(ms[1..]);
      HollowVanishes(ms[0].value);
      var r := NormalizedMembers(ms);
      if !(Vanishes(Normalized(ms[0].value)) || ms[0].key == PROTO) {
        assert r[1..] == NormalizedMembers(ms[1..]);
      }
    }
  }

  /** Normalising twice changes nothing more. */
  lemma NormalizedIdempotent(v: Json)
    ensures Normalized(Normalized(v)) == Normalized(v)
  {
    NormalFormPadded(v);
    PaddingInvisible(Normalized(v), v);
  }

  /** Both values are `core` with ignorable members added. */
  ghost predicate CommonCore(core: Json, a: Json, b: Json) {
    Padded(core, a) && Padded(core, b)
  }

  /** Two values normalise alike exactly when both are paddings of one value. */
  lemma NormalizeExact(a: Json, b: Json)
    ensures Normalized(a) == Normalized(b) <==> exists core :: CommonCore(core, a, b)
  {
    NormalFormPadded(a);
    NormalFormPadded(b);
    if Normalized(a) == Normalized(b) {
      assert CommonCore(Normalized(a), a, b);
    }
    if exists core :: CommonCore(core, a, b) {
      var core :| CommonCore(core, a, b);
      PaddingInvisible(core, a);
      PaddingInvisible(core, b);
    }
  }

  // ----------------------------------------------------- what is preserved

  lemma {:induction false} NormalizedKey(ms: Members, i: nat) returns (j: nat)
    requires i < |NormalizedMembers(ms)|
    ensures j < |ms| && ms[j].key == NormalizedMembers(ms)[i].key
    decreases ms
  {
    var r := NormalizedMembers(ms);
    if r == NormalizedMembers(ms[1..]) {
      var k := NormalizedKey(ms[1..], i);
      j := k + 1;
    } else if i == 0 {
      j := 0;
    } else {
      var k := NormalizedKey(ms[1..], i - 1);
      j := k + 1;
    }
  }

  lemma {:induction false} NormalizedDistinct(ms: Members)
    requires DistinctKeys(ms)
    ensures DistinctKeys(NormalizedMembers(ms))
    decreases ms
  {
    if ms != [] {
      NormalizedDistinct(ms[1..]);
      var rest := NormalizedMembers(ms[1..]);
      forall i | 0 <= i < |rest| ensures rest[i].key != ms[0].key {
        var j := NormalizedKey(ms[1..], i);
      }
    }
  }

  lemma {:induction false} NormalizedWellFormed(v: Json)
    requires WellFormed(v)
    ensures WellFormed(Normalized(v))
    decreases v, 1
  {
    match v
    case Arr(items) => NormalizedItemsWellFormed(items);
    case Obj(members) =>
      NormalizedDistinct(members);
      NormalizedMembersWellFormed(members);
    case _ =>
  }

  lemma {:induction false} NormalizedItemsWellFormed(items: seq<Json>)
    requires WellFormedItems(items)
    ensures WellFormedItems(NormalizedItems(items))
    decreases items, 0
  {
    if items != [] {
      NormalizedWellFormed(items[0]);
      NormalizedItemsWellFormed(items[1..]);
      assert NormalizedItems(items)[1..] == NormalizedItems(items[1..]);
    }
  }

  lemma {:induction false} NormalizedMembersWellFormed(ms: Members)
    requires WellFormedMembers(ms)
    ensures WellFormedMembers(NormalizedMembers(ms))
    decreases ms, 0
  {
    if ms != [] {
      NormalizedWellFormed(ms[0].value);
      NormalizedMembersWellFormed(ms[1..]);
      var e := Entry(ms[0].key, Normalized(ms[0].value));
      assert ([e] + NormalizedMembers(ms[1..]))[1..] == NormalizedMembers(ms[1..]);
    }
  }

  /** `e` is what is left of `m`. */
  predicate Yields(m: Entry<Json>, e: Entry<Json>) {
    m.key != PROTO && !Vanishes(Normalized(m.value)) && e == Entry(m.key, Canon(Normalized(m.value)))
  }

  /** The normalised, ordered members, as a set, depend only on the set of
      members. */
  lemma {:induction false} NormalSet(ms: Members, e: Entry<Json>)
    ensures e in SetOf(CanonMembers(NormalizedMembers(ms))) <==> exists m :: m in ms && Yields(m, e)
    decreases ms
  {
    if ms != [] {
      NormalSet(ms[1..], e);
      NormalSetCons(ms, e);
      hide Yields, SetOf, CanonMembers, NormalizedMembers;
      assert ms == [ms[0]] + ms[1..];
    }
  }

  lemma NormalSetCons(ms: Members, e: Entry<Json>)
    requires ms != []
    ensures e in SetOf(CanonMembers(NormalizedMembers(ms))) <==>
            Yields(ms[0], e) || e in SetOf(CanonMembers(NormalizedMembers(ms[1..])))
  {
    hide Normalized, Canon, Vanishes;
    var head := Entry(ms[0].key, Normalized(ms[0].value));
    var rest := NormalizedMembers(ms[1..]);
    if !(Vanishes(Normalized(ms[0].value)) || ms[0].key == PROTO) {
      assert ([head] + rest)[1..] == rest;
      assert CanonMembers([head] + rest) == [Entry(head.key, Canon(head.value))] + CanonMembers(rest);
    }
  }

  /** Each member of `ms` has a counterpart in `ns` that normalises to the same
      value up to key order. */
  ghost predicate Covers(ms: Members, ns: Members) {
    forall m :: m in ms ==> CoveredBy(m, ns)
  }

  ghost predicate CoveredBy(m: Entry<Json>, ns: Members) {
    exists n :: n in ns && n.key == m.key && Canon(Normalized(n.value)) == Canon(Normalized(m.value))
  }

  lemma {:induction false} VanishesInOrder(v: Json)
    ensures Vanishes(Canon(v)) <==> Vanishes(v)
  {
    match v
    case Obj(members) => assert |Canon(v).members| == |members|;
    case Arr(items) => assert |Canon(v).items| == |items|;
    case _ =>
  }

  lemma YieldsSame(m: Entry<Json>, n: Entry<Json>, e: Entry<Json>)
    requires n.key == m.key && Canon(Normalized(n.value)) == Canon(Normalized(m.value))
    ensures Yields(m, e) <==> Yields(n, e)
  {
    VanishesInOrder(Normalized(m.value));
    VanishesInOrder(Normalized(n.value));
    hide Normalized, Canon, Vanishes;
  }

  lemma CoversSubset(ms: Members, ns: Members)
    requires Covers(ms, ns)
    ensures SetOf(CanonMembers(NormalizedMembers(ms))) <= SetOf(CanonMembers(NormalizedMembers(ns)))
  {
    hide NormalizedMembers, CanonMembers, Normalized, Canon, Yields, SetOf;
    forall e | e in SetOf(CanonMembers(NormalizedMembers(ms)))
      ensures e in SetOf(CanonMembers(NormalizedMembers(ns)))
    {
      NormalSet(ms, e);
      NormalSet(ns, e);
      var m :| m in ms && Yields(m, e);
      assert CoveredBy(m, ns);
      var n :| n in ns && n.key == m.key && Canon(Normalized(n.value)) == Canon(Normalized(m.value));
      YieldsSame(m, n, e);
    }
  }

  lemma CoversSameCanon(ms: Members, ns: Members)
    requires DistinctKeys(ms) && DistinctKeys(ns) && Covers(ms, ns) && Covers(ns, ms)
    ensures Canon(Normalized(Obj(ms))) == Canon(Normalized(Obj(ns)))
  {
    NormalizedDistinct(ms);
    NormalizedDistinct(ns);
    CoversSubset(ms, ns);
    CoversSubset(ns, ms);
    SortEqual(CanonMembers(NormalizedMembers(ms)), CanonMembers(NormalizedMembers(ns)));
  }

  /** Reordering the members of one object changes nothing that is printed. */
  lemma SameMembersSameCanon(ms: Members, ns: Members)
    requires DistinctKeys(ms) && DistinctKeys(ns) && SetOf(ms) == SetOf(ns)
    ensures Canon(Normalized(Obj(ms))) == Canon(Normalized(Obj(ns)))
  {
    hide Normalized, Canon;
    forall m | m in ms ensures CoveredBy(m, ns) {
      assert m in SetOf(ns);
    }
    forall n | n in ns ensures CoveredBy(n, ms) {
      assert n in SetOf(ms);
    }
    CoversSameCanon(ms, ns);
  }

  // ------------------------------------------- key order, at every depth

  lemma {:induction false} SameMembersMeans(ms: Members, ns: Members)
    ensures SameMembers(ms, ns) <==>
            forall i :: 0 <= i < |ms| ==> exists n :: n in ns && n.key == ms[i].key && SameValue(ms[i].value, n.value)
    decreases |ms|
  {
    if ms != [] {
      SameMembersMeans(ms[1..], ns);
      hide SameValue;
      assert ms == [ms[0]] + ms[1..];
      assert forall i :: 0 < i < |ms| ==> ms[i] == ms[1..][i - 1];
    }
  }

  lemma SameValueSymmetric(a: Json, b: Json)
    requires WellFormed(a) && WellFormed(b)
    ensures SameValue(a, b) <==> SameValue(b, a)
  {
    CanonMeansSame(a, b);
    CanonMeansSame(b, a);
  }

  /** Members that are equal up to key order normalise alike. */
  ghost predicate Agree(ms: Members, ns: Members) {
    forall i, j :: 0 <= i < |ms| && 0 <= j < |ns| && SameValue(ms[i].value, ns[j].value) ==>
      Canon(Normalized(ms[i].value)) == Canon(Normalized(ns[j].value))
  }

  lemma AgreeCovers(ms: Members, ns: Members)
    requires WellFormed(Obj(ms)) && WellFormed(Obj(ns)) && SameValue(Obj(ms), Obj(ns)) && Agree(ms, ns)
    ensures Covers(ms, ns) && Covers(ns, ms)
  {
    SameValueSymmetric(Obj(ms), Obj(ns));
    SameMembersMeans(ms, ns);
    SameMembersMeans(ns, ms);
    forall i | 0 <= i < |ms| ensures CoveredBy(ms[i], ns) {
      AgreeOne(ms, ns, i);
    }
    forall j | 0 <= j < |ns| ensures CoveredBy(ns[j], ms) {
      AgreeOther(ms, ns, j);
    }
  }

  lemma AgreeOne(ms: Members, ns: Members, i: nat)
    requires Agree(ms, ns) && i < |ms|
    requires exists n :: n in ns && n.key == ms[i].key && SameValue(ms[i].value, n.value)
    ensures CoveredBy(ms[i], ns)
  {
    hide SameValue, Normalized, Canon;
    var n :| n in ns && n.key == ms[i].key && SameValue(ms[i].value, n.value);
    var j :| 0 <= j < |ns| && ns[j] == n;
  }

  lemma AgreeOther(ms: Members, ns: Members, j: nat)
    requires Agree(ms, ns) && j < |ns| && WellFormedMembers(ms) && WellFormedMembers(ns)
    requires exists m :: m in ms && m.key == ns[j].key && SameValue(ns[j].value, m.value)
    ensures CoveredBy(ns[j], ms)
  {
    hide SameValue, Normalized, Canon;
    var m :| m in ms && m.key == ns[j].key && SameValue(ns[j].value, m.value);
    var i :| 0 <= i < |ms| && ms[i] == m;
    WellFormedAt(ms, i);
    WellFormedAt(ns, j);
    SameValueSymmetric(ms[i].value, ns[j].value);
  }

  /** Reordering the members of any objects inside a value, at any depth, changes
      nothing that is printed. */
  lemma {:induction false} SameValueSameCanon(a: Json, b: Json)
    requires WellFormed(a) && WellFormed(b) && SameValue(a, b)
    ensures Canon(Normalized(a)) == Canon(Normalized(b))
    decreases a, 1
  {
    match (a, b)
    case (Arr(xs), Arr(ys)) =>
      SameItemsSameCanon(xs, ys);
    case (Obj(ms), Obj(ns)) =>
      SameMembersAgree(ms, ns);
      AgreeCovers(ms, ns);
      CoversSameCanon(ms, ns);
    case _ =>
  }

  lemma {:induction false} SameItemsSameCanon(xs: seq<Json>, ys: seq<Json>)
    requires WellFormedItems(xs) && WellFormedItems(ys) && SameItems(xs, ys)
    ensures CanonItems(NormalizedItems(xs)) == CanonItems(NormalizedItems(ys))
    decreases xs, 0
  {
    if xs != [] {
      SameValueSameCanon(xs[0], ys[0]);
      SameItemsSameCanon(xs[1..], ys[1..]);
      assert NormalizedItems(xs)[1..] == NormalizedItems(xs[1..]);
      assert NormalizedItems(ys)[1..] == NormalizedItems(ys[1..]);
    }
  }

  lemma {:induction false} SameMembersAgree(ms: Members, ns: Members)
    requires WellFormedMembers(ms) && WellFormedMembers(ns)
    ensures Agree(ms, ns)
    decreases ms, 0
  {
    forall i, j | 0 <= i < |ms| && 0 <= j < |ns| && SameValue(ms[i].value, ns[j].value)
      ensures Canon(Normalized(ms[i].value)) == Canon(Normalized(ns[j].value))
    {
      WellFormedAt(ms, i);
      WellFormedAt(ns, j);
      SameValueSameCanon(ms[i].value, ns[j].value);
    }
  }

  // ------------------------------------------------- the content of a value

  /** Both values are paddings of values that are equal up to key order. */
  ghost predicate SameContent(a: Json, b: Json) {
    exists c, d :: ContentCores(c, d, a, b)
  }

  ghost predicate ContentCores(c: Json, d: Json, a: Json, b: Json) {
    WellFormed(c) && WellFormed(d) && Padded(c, a) && Padded(d, b) && SameValue(c, d)
  }

  /** Key order and padding, at any depth, are all that the normal form in key
      order forgets. */
  lemma ContentExact(a: Json, b: Json)
    requires WellFormed(a) && WellFormed(b)
    ensures SameValue(Normalized(a), Normalized(b)) <==> SameContent(a, b)
  {
    NormalizedWellFormed(a);
    NormalizedWellFormed(b);
    NormalFormPadded(a);
    NormalFormPadded(b);
    CanonMeansSame(Normalized(a), Normalized(b));
    hide Normalized, Canon, Padded, SameValue, WellFormed;
    if SameValue(Normalized(a), Normalized(b)) {
      assert ContentCores(Normalized(a), Normalized(b), a, b);
    }
    if SameContent(a, b) {
      var c, d :| ContentCores(c, d, a, b);
      PaddingInvisible(c, a);
      PaddingInvisible(d, b);
      SameValueSameCanon(c, d);
    }
  }
}

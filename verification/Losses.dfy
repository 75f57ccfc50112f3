/** What the normaliser is documented to drop, what it drops besides, and when the
    two come to the same. */
module Losses {
  import opened Canonical
  import opened Geometry
  import opened Json
  import opened Normalize

  /** The documented normaliser: members that hold null, an empty array or an empty
      object go, and nothing else. */
  function Documented(v: Json): Json
    decreases v, 1
  {
    match v
    case Arr(items) => Arr(DocumentedItems(items))
    case Obj(members) => Obj(DocumentedMembers(members))
    case _ => v
  }

  function DocumentedItems(items: seq<Json>): (r: seq<Json>)
    ensures |r| == |items|
    decreases items, 0
  {
    if items == [] then [] else [Documented(items[0])] + DocumentedItems(items[1..])
  }

  function DocumentedMembers(ms: Members): (r: Members)
    ensures |r| <= |ms|
    decreases ms, 0
  {
    if ms == [] then []
    else
      var dv := Documented(ms[0].value);
      var rest := DocumentedMembers(ms[1..]);
      if Vanishes(dv) then rest else [Entry(ms[0].key, dv)] + rest
  }

  /** Null, an empty array, or an object with nothing but such members. */
  ghost predicate Empty(v: Json)
    decreases v, 1
  {
    match v
    case Null => true
    case Arr(items) => items == []
    case Obj(members) => AllEmpty(members)
    case _ => false
  }

  ghost predicate AllEmpty(ms: Members)
    decreases ms, 0
  {
    ms == [] || (Empty(ms[0].value) && AllEmpty(ms[1..]))
  }

  /** What the documented normaliser drops. */
  lemma {:induction false} EmptyVanishes(v: Json)
    ensures Empty(v) <==> Vanishes(Documented(v))
    decreases v, 1
  {
    match v
    case Obj(members) => AllEmptyVanish(members);
    case _ =>
  }

  lemma {:induction false} AllEmptyVanish(ms: Members)
    ensures AllEmpty(ms) <==> DocumentedMembers(ms) == []
    decreases ms, 0
  {
    if ms != [] {
      EmptyVanishes(ms[0].value);
      AllEmptyVanish(ms[1..]);
    }
  }

  /** Every member of every object inside is empty, or is not called `__proto__`
      and keeps its own content. */
  ghost predicate Keeps(v: Json)
    decreases v, 1
  {
    match v
    case Arr(items) => KeepsItems(items)
    case Obj(members) => KeepsMembers(members)
    case _ => true
  }

  ghost predicate KeepsItems(items: seq<Json>)
    decreases items, 0
  {
    items == [] || (Keeps(items[0]) && KeepsItems(items[1..]))
  }

  ghost predicate KeepsMembers(ms: Members)
    decreases ms, 0
  {
    ms == [] ||
    ((Empty(ms[0].value) || (ms[0].key != PROTO && Keeps(ms[0].value))) && KeepsMembers(ms[1..]))
  }

  // ------------------------------------------------------------------ size

  /** Number of values inside a value, itself included. */
  function Size(v: Json): (n: nat)
    ensures n >= 1
    decreases v, 1
  {
    match v
    case Arr(items) => 1 + SizeItems(items)
    case Obj(members) => 1 + SizeMembers(members)
    case _ => 1
  }

  function SizeItems(items: seq<Json>): nat
    decreases items, 0
  {
    if items == [] then 0 else Size(items[0]) + SizeItems(items[1..])
  }

  function SizeMembers(ms: Members): nat
    decreases ms, 0
  {
    if ms == [] then 0 else Size(ms[0].value) + SizeMembers(ms[1..])
  }

  lemma SizeCons(m: Entry<Json>, rest: Members)
    ensures SizeMembers([m] + rest) == Size(m.value) + SizeMembers(rest)
    ensures PrintableMembers([m] + rest) <==> Printable(m.value) && PrintableMembers(rest)
  {
    assert ([m] + rest)[1..] == rest;
  }

  lemma {:induction false} InsertSize(m: Entry<Json>, ms: Members)
    ensures SizeMembers(Insert(m, ms)) == Size(m.value) + SizeMembers(ms)
    decreases |ms|
  {
    hide Size, Printable;
    if ms != [] && !KeyLess(m.key, ms[0].key) {
      InsertSize(m, ms[1..]);
      SizeCons(ms[0], Insert(m, ms[1..]));
    } else {
      SizeCons(m, ms);
    }
  }

  lemma {:induction false} SortSize(ms: Members)
    ensures SizeMembers(Sort(ms)) == SizeMembers(ms)
    decreases |ms|
  {
    if ms != [] {
      SortSize(ms[1..]);
      InsertSize(ms[0], Sort(ms[1..]));
    }
  }

  /** Putting keys in order loses nothing. */
  lemma {:induction false} CanonSize(v: Json)
    ensures Size(Canon(v)) == Size(v)
    decreases v, 1
  {
    match v
    case Arr(items) =>
      CanonItemsSize(items);
    case Obj(members) =>
      CanonMembersSize(members);
      SortSize(CanonMembers(members));
    case _ =>
  }

  lemma {:induction false} CanonItemsSize(items: seq<Json>)
    ensures SizeItems(CanonItems(items)) == SizeItems(items)
    decreases items, 0
  {
    if items != [] {
      CanonSize(items[0]);
      CanonItemsSize(items[1..]);
      assert CanonItems(items)[1..] == CanonItems(items[1..]);
    }
  }

  lemma {:induction false} CanonMembersSize(ms: Members)
    ensures SizeMembers(CanonMembers(ms)) == SizeMembers(ms)
    decreases ms, 0
  {
    if ms != [] {
      CanonSize(ms[0].value);
      CanonMembersSize(ms[1..]);
      assert CanonMembers(ms)[1..] == CanonMembers(ms[1..]);
    }
  }

  // ---------------------------------------------------------------- losses

  /** `n` is what is left of `d`: no larger, and equal when it is as large. */
  ghost predicate Inside(n: Json, d: Json) {
    && Size(n) <= Size(d)
    && (Size(n) == Size(d) ==> n == d)
    && (Vanishes(d) ==> Vanishes(n))
    && (Printable(d) ==> Printable(n))
  }

  ghost predicate InsideMembers(ns: Members, ds: Members) {
    && SizeMembers(ns) <= SizeMembers(ds)
    && (SizeMembers(ns) == SizeMembers(ds) ==> ns == ds)
    && (ds == [] ==> ns == [])
    && (PrintableMembers(ds) ==> PrintableMembers(ns))
  }

  ghost predicate InsideItems(ns: seq<Json>, ds: seq<Json>) {
    && |ns| == |ds|
    && SizeItems(ns) <= SizeItems(ds)
    && (SizeItems(ns) == SizeItems(ds) ==> ns == ds)
    && (PrintableItems(ds) ==> PrintableItems(ns))
  }

  lemma InsideObject(ns: Members, ds: Members)
    requires InsideMembers(ns, ds)
    ensures Inside(Obj(ns), Obj(ds))
  {
  }

  lemma InsideArray(ns: seq<Json>, ds: seq<Json>)
    requires InsideItems(ns, ds)
    ensures Inside(Arr(ns), Arr(ds))
  {
  }

  lemma InsideNone()
    ensures InsideMembers([], []) && InsideItems([], [])
  {
  }

  /** A member that only the documented form has. */
  lemma InsideLost(ns: Members, d: Entry<Json>, ds: Members)
    requires InsideMembers(ns, ds)
    ensures InsideMembers(ns, [d] + ds) && ns != [d] + ds
  {
    SizeCons(d, ds);
    hide Size, SizeMembers, Printable;
  }

  /** A member that both forms have. */
  lemma InsideKept(n: Entry<Json>, ns: Members, d: Entry<Json>, ds: Members)
    requires n.key == d.key && Inside(n.value, d.value) && InsideMembers(ns, ds)
    ensures InsideMembers([n] + ns, [d] + ds)
    ensures [n] + ns == [d] + ds <==> n.value == d.value && ns == ds
  {
    SizeCons(n, ns);
    SizeCons(d, ds);
    assert ([n] + ns)[0] == n && ([d] + ds)[0] == d && ([n] + ns)[1..] == ns && ([d] + ds)[1..] == ds;
    hide Size, SizeMembers, Printable, PrintableMembers, Vanishes;
  }

  lemma InsideItem(n: Json, ns: seq<Json>, d: Json, ds: seq<Json>)
    requires Inside(n, d) && InsideItems(ns, ds)
    ensures InsideItems([n] + ns, [d] + ds)
    ensures [n] + ns == [d] + ds <==> n == d && ns == ds
  {
    assert ([n] + ns)[0] == n && ([d] + ds)[0] == d && ([n] + ns)[1..] == ns && ([d] + ds)[1..] == ds;
    hide Size, Printable, Vanishes;
  }

  lemma DocumentedCons(m: Entry<Json>, rest: Members)
    ensures DocumentedMembers([m] + rest) ==
            (if Vanishes(Documented(m.value)) then [] else [Entry(m.key, Documented(m.value))])
            + DocumentedMembers(rest)
  {
    assert ([m] + rest)[1..] == rest;
  }

  lemma {:induction false} NormalInside(v: Json)
    ensures Inside(Normalized(v), Documented(v))
    ensures Normalized(v) == Documented(v) <==> Keeps(v)
    decreases v, 1
  {
    match v
    case Arr(items) =>
      NormalItemsInside(items);
      InsideArray(NormalizedItems(items), DocumentedItems(items));
    case Obj(members) =>
      NormalMembersInside(members);
      InsideObject(NormalizedMembers(members), DocumentedMembers(members));
    case _ =>
  }

  lemma {:induction false} NormalItemsInside(items: seq<Json>)
    ensures InsideItems(NormalizedItems(items), DocumentedItems(items))
    ensures NormalizedItems(items) == DocumentedItems(items) <==> KeepsItems(items)
    decreases items, 0
  {
    if items == [] {
      InsideNone();
    } else {
      NormalInside(items[0]);
      NormalItemsInside(items[1..]);
      hide Inside, InsideItems, Normalized, Documented, Keeps;
      InsideItem(Normalized(items[0]), NormalizedItems(items[1..]), Documented(items[0]), DocumentedItems(items[1..]));
    }
  }

  lemma {:induction false} NormalMembersInside(ms: Members)
    ensures InsideMembers(NormalizedMembers(ms), DocumentedMembers(ms))
    ensures NormalizedMembers(ms) == DocumentedMembers(ms) <==> KeepsMembers(ms)
    decreases ms, 0
  {
    if ms == [] {
      InsideNone();
    } else {
      NormalInside(ms[0].value);
      EmptyVanishes(ms[0].value);
      NormalMembersInside(ms[1..]);
      KeepsMembersUnfold(ms);
      hide *;
      MemberInside(ms[0], ms[1..], ms[0].key == PROTO, NormalizedMembers(ms[1..]), DocumentedMembers(ms[1..]));
      NormalizedMembersCons(ms[0], ms[1..]);
      DocumentedCons(ms[0], ms[1..]);
      assert ms == [ms[0]] + ms[1..];
    }
  }

  lemma KeepsMembersUnfold(ms: Members)
    requires ms != []
    ensures KeepsMembers(ms) <==>
            (Empty(ms[0].value) || (ms[0].key != PROTO && Keeps(ms[0].value))) && KeepsMembers(ms[1..])
  {
    hide Empty, Keeps;
  }

  /** One member and the rest: `lost` says that the code drops it by its name. */
  lemma MemberInside(m: Entry<Json>, rest: Members, lost: bool, ns: Members, ds: Members)
    requires Inside(Normalized(m.value), Documented(m.value))
    requires Normalized(m.value) == Documented(m.value) <==> Keeps(m.value)
    requires Empty(m.value) <==> Vanishes(Documented(m.value))
    requires InsideMembers(ns, ds)
    ensures var n := (if Vanishes(Normalized(m.value)) || lost then [] else [Entry(m.key, Normalized(m.value))]) + ns;
            var d := (if Vanishes(Documented(m.value)) then [] else [Entry(m.key, Documented(m.value))]) + ds;
            InsideMembers(n, d) && (n == d <==> (Empty(m.value) || (!lost && Keeps(m.value))) && ns == ds)
  {
    var nv, dv := Normalized(m.value), Documented(m.value);
    InsideVanishes(nv, dv);
    hide *;
    var none: Members := [];
    assert none + ns == ns && none + ds == ds;
    if !Vanishes(dv) {
      if Vanishes(nv) || lost {
        InsideLost(ns, Entry(m.key, dv), ds);
      } else {
        InsideKept(Entry(m.key, nv), ns, Entry(m.key, dv), ds);
      }
    }
  }

  lemma InsideVanishes(n: Json, d: Json)
    requires Inside(n, d)
    ensures Vanishes(d) ==> Vanishes(n)
  {
    hide Size, Vanishes, Printable;
  }

  /** The code does what is documented exactly for the values without a member
      `__proto__` that holds anything. */
  lemma KeepsExact(v: Json)
    ensures Normalized(v) == Documented(v) <==> Keeps(v)
  {
    NormalInside(v);
  }

  /** For such values, the normal form in key order is the documented one. */
  lemma ContentDocumented(a: Json, b: Json)
    requires WellFormed(a) && WellFormed(b) && Keeps(a) && Keeps(b)
    ensures SameValue(Documented(a), Documented(b)) <==> SameContent(a, b)
  {
    KeepsExact(a);
    KeepsExact(b);
    ContentExact(a, b);
  }
}

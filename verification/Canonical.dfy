/** Canonical text is unambiguous: it determines the value up to the order of
    object keys, and does not depend on that order. */
module Canonical {
  import opened Geometry
  import opened Json
  import opened Reader

  // --------------------------------------------- equality up to key order

  /** Equality up to the order of object members. */
  ghost predicate SameValue(a: Json, b: Json)
    decreases a, 1
  {
    match (a, b)
    case (Arr(xs), Arr(ys)) => SameItems(xs, ys)
    case (Obj(ms), Obj(ns)) => |ms| == |ns| && SameMembers(ms, ns)
    case _ => a == b
  }

  ghost predicate SameItems(xs: seq<Json>, ys: seq<Json>)
    decreases xs, 0
  {
    if xs == [] then ys == []
    else ys != [] && SameValue(xs[0], ys[0]) && SameItems(xs[1..], ys[1..])
  }

  /** Each member of `ms` has a counterpart in `ns`. */
  ghost predicate SameMembers(ms: Members, ns: Members)
    decreases ms, 0
  {
    ms == [] ||
    ((exists n :: n in ns && n.key == ms[0].key && SameValue(ms[0].value, n.value)) && SameMembers(ms[1..], ns))
  }

  // ---------------------------------------------------------- normal order

  /** The value with the members of every object in key order. */
  function Canon(v: Json): Json
    decreases v, 1
  {
    match v
    case Arr(items) => Arr(CanonItems(items))
    case Obj(members) => Obj(Sort(CanonMembers(members)))
    case _ => v
  }

  function CanonItems(items: seq<Json>): (r: seq<Json>)
    ensures |r| == |items|
    decreases items, 0
  {
    if items == [] then [] else [Canon(items[0])] + CanonItems(items[1..])
  }

  function CanonMembers(ms: Members): (r: Members)
    ensures |r| == |ms|
    ensures forall i :: 0 <= i < |ms| ==> r[i].key == ms[i].key
    decreases ms, 0
  {
    if ms == [] then [] else [Entry(ms[0].key, Canon(ms[0].value))] + CanonMembers(ms[1..])
  }

  lemma {:induction false} CanonMembersAt(ms: Members, i: nat)
    requires i < |ms|
    ensures CanonMembers(ms)[i] == Entry(ms[i].key, Canon(ms[i].value))
    decreases i
  {
    hide Canon;
    if i > 0 {
      CanonMembersAt(ms[1..], i - 1);
    }
  }

  lemma WellFormedAt(ms: Members, i: nat)
    requires i < |ms| && WellFormedMembers(ms)
    ensures WellFormed(ms[i].value)
  {
    if i > 0 {
      WellFormedAt(ms[1..], i - 1);
    }
  }

  /** Two values have the same canonical order exactly when they are equal up to
      the order of object members. */
  lemma {:induction false} CanonMeansSame(a: Json, b: Json)
    requires WellFormed(a) && WellFormed(b)
    ensures Canon(a) == Canon(b) <==> SameValue(a, b)
    decreases a, 1
  {
    match (a, b)
    case (Arr(xs), Arr(ys)) =>
      CanonItemsMeanSame(xs, ys);
    case (Obj(ms), Obj(ns)) =>
      SortEqual(CanonMembers(ms), CanonMembers(ns));
      CanonMembersMeanSame(ms, ns);
      if |ms| == |ns| {
        CanonSubsetEqual(ms, ns);
      } else {
        assert |Sort(CanonMembers(ms))| != |Sort(CanonMembers(ns))|;
      }
    case _ =>
  }

  lemma {:induction false} CanonItemsMeanSame(xs: seq<Json>, ys: seq<Json>)
    requires WellFormedItems(xs) && WellFormedItems(ys)
    ensures CanonItems(xs) == CanonItems(ys) <==> SameItems(xs, ys)
    decreases xs, 0
  {
    if xs != [] && ys != [] {
      CanonMeansSame(xs[0], ys[0]);
      CanonItemsMeanSame(xs[1..], ys[1..]);
      assert CanonItems(xs)[0] == Canon(xs[0]) && CanonItems(xs)[1..] == CanonItems(xs[1..]);
      assert CanonItems(ys)[0] == Canon(ys[0]) && CanonItems(ys)[1..] == CanonItems(ys[1..]);
    }
  }

  lemma {:induction false} CanonMembersMeanSame(ms: Members, ns: Members)
    requires WellFormedMembers(ms) && WellFormedMembers(ns)
    ensures SetOf(CanonMembers(ms)) <= SetOf(CanonMembers(ns)) <==> SameMembers(ms, ns)
    decreases ms, 0
  {
    if ms != [] {
      var e := Entry(ms[0].key, Canon(ms[0].value));
      assert CanonMembers(ms) == [e] + CanonMembers(ms[1..]);
      assert SetOf(CanonMembers(ms)) == {e} + SetOf(CanonMembers(ms[1..]));
      CanonMembersMeanSame(ms[1..], ns);
      forall i | 0 <= i < |ns|
        ensures CanonMembers(ns)[i] == e <==> ns[i].key == ms[0].key && SameValue(ms[0].value, ns[i].value)
      {
        WellFormedAt(ns, i);
        CanonMembersAt(ns, i);
        CanonMeansSame(ms[0].value, ns[i].value);
      }
      Counterpart(ms[0], ns, e);
    }
  }

  lemma Counterpart(m: Entry<Json>, ns: Members, e: Entry<Json>)
    requires forall i :: 0 <= i < |ns| ==>
               (CanonMembers(ns)[i] == e <==> ns[i].key == m.key && SameValue(m.value, ns[i].value))
    ensures e in SetOf(CanonMembers(ns)) <==> exists n :: n in ns && n.key == m.key && SameValue(m.value, n.value)
  {
    hide SameValue, CanonMembers;
    if e in SetOf(CanonMembers(ns)) {
      var i :| 0 <= i < |CanonMembers(ns)| && CanonMembers(ns)[i] == e;
      assert ns[i] in ns;
    }
    if exists n :: n in ns && n.key == m.key && SameValue(m.value, n.value) {
      var n :| n in ns && n.key == m.key && SameValue(m.value, n.value);
      var i :| 0 <= i < |ns| && ns[i] == n;
      assert CanonMembers(ns)[i] in CanonMembers(ns);
    }
  }

  lemma {:induction false} SetOfSize<T>(es: seq<Entry<T>>)
    requires DistinctKeys(es)
    ensures |SetOf(es)| == |es|
    decreases |es|
  {
    if es != [] {
      SetOfSize(es[1..]);
      assert es == [es[0]] + es[1..];
      assert SetOf(es) == {es[0]} + SetOf(es[1..]);
      assert es[0] !in SetOf(es[1..]);
    }
  }

  lemma SubsetOfSameSize<T>(small: set<T>, large: set<T>)
    requires small <= large && |small| == |large|
    ensures small == large
  {
    assert large == small + (large - small);
  }

  lemma CanonSubsetEqual(ms: Members, ns: Members)
    requires DistinctKeys(ms) && DistinctKeys(ns) && |ms| == |ns|
    ensures SetOf(CanonMembers(ms)) <= SetOf(CanonMembers(ns)) <==> SetOf(CanonMembers(ms)) == SetOf(CanonMembers(ns))
  {
    SetOfSize(CanonMembers(ms));
    SetOfSize(CanonMembers(ns));
    if SetOf(CanonMembers(ms)) <= SetOf(CanonMembers(ns)) {
      SubsetOfSameSize(SetOf(CanonMembers(ms)), SetOf(CanonMembers(ns)));
    }
  }

  // ------------------------------------------------------- canonical order

  /** The members of every object are in key order. */
  ghost predicate InKeyOrder(v: Json)
    decreases v, 1
  {
    match v
    case Arr(items) => ItemsInKeyOrder(items)
    case Obj(members) => Sorted(members) && MembersInKeyOrder(members)
    case _ => true
  }

  ghost predicate ItemsInKeyOrder(items: seq<Json>)
    decreases items, 0
  {
    items == [] || (InKeyOrder(items[0]) && ItemsInKeyOrder(items[1..]))
  }

  ghost predicate MembersInKeyOrder(ms: Members)
    decreases ms, 0
  {
    ms == [] || (InKeyOrder(ms[0].value) && MembersInKeyOrder(ms[1..]))
  }

  lemma {:induction false} InsertFront<T>(e: Entry<T>, es: seq<Entry<T>>)
    requires Sorted([e] + es)
    ensures Insert(e, es) == [e] + es
  {
    if es != [] {
      assert ([e] + es)[0] == e && ([e] + es)[1] == es[0];
    }
  }

  lemma {:induction false} SortSorted<T>(es: seq<Entry<T>>)
    requires Sorted(es)
    ensures Sort(es) == es
    decreases |es|
  {
    if es != [] {
      SortSorted(es[1..]);
      assert es == [es[0]] + es[1..];
      InsertFront(es[0], es[1..]);
    }
  }

  lemma SortedDistinct<T>(es: seq<Entry<T>>)
    requires Sorted(es)
    ensures DistinctKeys(es)
  {
    forall i, j | 0 <= i < j < |es| ensures es[i].key != es[j].key {
      KeyOrder(es[i].key, es[j].key, es[i].key);
    }
  }

  /** A value in key order is its own canonical form. */
  lemma {:induction false} OrderedIsCanon(v: Json)
    requires InKeyOrder(v)
    ensures WellFormed(v) && Canon(v) == v
    decreases v, 1
  {
    match v
    case Arr(items) =>
      OrderedItemsAreCanon(items);
    case Obj(members) =>
      OrderedMembersAreCanon(members);
      SortedDistinct(members);
      SortSorted(members);
    case _ =>
  }

  lemma {:induction false} OrderedItemsAreCanon(items: seq<Json>)
    requires ItemsInKeyOrder(items)
    ensures WellFormedItems(items) && CanonItems(items) == items
    decreases items, 0
  {
    if items != [] {
      OrderedIsCanon(items[0]);
      OrderedItemsAreCanon(items[1..]);
      assert items == [items[0]] + items[1..];
    }
  }

  lemma {:induction false} OrderedMembersAreCanon(ms: Members)
    requires MembersInKeyOrder(ms)
    ensures WellFormedMembers(ms) && CanonMembers(ms) == ms
    decreases ms, 0
  {
    if ms != [] {
      OrderedIsCanon(ms[0].value);
      OrderedMembersAreCanon(ms[1..]);
      assert ms == [ms[0]] + ms[1..];
    }
  }

  lemma {:induction false} InsertInKeyOrder(m: Entry<Json>, ms: Members)
    requires InKeyOrder(m.value) && MembersInKeyOrder(ms)
    ensures MembersInKeyOrder(Insert(m, ms))
    decreases |ms|
  {
    hide InKeyOrder;
    if ms != [] && !KeyLess(m.key, ms[0].key) {
      InsertInKeyOrder(m, ms[1..]);
      assert Insert(m, ms)[1..] == Insert(m, ms[1..]);
    } else {
      assert Insert(m, ms)[1..] == ms;
    }
  }

  lemma {:induction false} SortInKeyOrder(ms: Members)
    requires MembersInKeyOrder(ms)
    ensures MembersInKeyOrder(Sort(ms))
    decreases |ms|
  {
    if ms != [] {
      SortInKeyOrder(ms[1..]);
      InsertInKeyOrder(ms[0], Sort(ms[1..]));
    }
  }

  lemma {:induction false} CanonInKeyOrder(v: Json)
    requires WellFormed(v)
    ensures InKeyOrder(Canon(v))
    decreases v, 1
  {
    match v
    case Arr(items) =>
      CanonItemsInKeyOrder(items);
    case Obj(members) =>
      CanonMembersInKeyOrder(members);
      SortSorts(CanonMembers(members));
      SortInKeyOrder(CanonMembers(members));
    case _ =>
  }

  lemma {:induction false} CanonItemsInKeyOrder(items: seq<Json>)
    requires WellFormedItems(items)
    ensures ItemsInKeyOrder(CanonItems(items))
    decreases items, 0
  {
    if items != [] {
      CanonInKeyOrder(items[0]);
      CanonItemsInKeyOrder(items[1..]);
      assert CanonItems(items)[1..] == CanonItems(items[1..]);
    }
  }

  lemma {:induction false} CanonMembersInKeyOrder(ms: Members)
    requires WellFormedMembers(ms)
    ensures MembersInKeyOrder(CanonMembers(ms))
    decreases ms, 0
  {
    if ms != [] {
      CanonInKeyOrder(ms[0].value);
      CanonMembersInKeyOrder(ms[1..]);
      assert CanonMembers(ms)[1..] == CanonMembers(ms[1..]);
    }
  }

  /** The canonical form is the one value in key order that equals the given one
      up to key order. */
  lemma CanonExact(v: Json, w: Json)
    requires WellFormed(v)
    ensures w == Canon(v) <==> InKeyOrder(w) && SameValue(v, w)
  {
    CanonInKeyOrder(v);
    OrderedIsCanon(Canon(v));
    CanonMeansSame(v, Canon(v));
    if InKeyOrder(w) {
      OrderedIsCanon(w);
      CanonMeansSame(v, w);
    }
  }

  // ------------------------------------------------------ printing in order

  /** Text of a value with members in the order given; every number printed as
      the integer below it. */
  function Raw(v: Json): Text
    decreases v, 1
  {
    match v
    case Null => NULL_TEXT
    case Bool(b) => if b then TRUE_TEXT else FALSE_TEXT
    case Str(s) => JcsString(s)
    case Num(r) => Decimal(r.Floor)
    case Arr(items) => [OPEN_ARRAY] + Join(RawItems(items)) + [CLOSE_ARRAY]
    case Obj(members) => [OPEN_OBJECT] + Join(MemberTexts(RawMembers(members))) + [CLOSE_OBJECT]
  }

  function RawItems(items: seq<Json>): (ts: seq<Text>)
    ensures |ts| == |items|
    decreases items, 0
  {
    if items == [] then [] else [Raw(items[0])] + RawItems(items[1..])
  }

  function RawMembers(ms: Members): (es: seq<Entry<Text>>)
    ensures |es| == |ms|
    decreases ms, 0
  {
    if ms == [] then [] else [Entry(ms[0].key, Raw(ms[0].value))] + RawMembers(ms[1..])
  }

  /** Every number is a safe integer. */
  predicate Printable(v: Json)
    decreases v, 1
  {
    match v
    case Num(r) => SafeInteger(r)
    case Arr(items) => PrintableItems(items)
    case Obj(members) => PrintableMembers(members)
    case _ => true
  }

  predicate PrintableItems(items: seq<Json>)
    decreases items, 0
  {
    items == [] || (Printable(items[0]) && PrintableItems(items[1..]))
  }

  predicate PrintableMembers(ms: Members)
    decreases ms, 0
  {
    ms == [] || (Printable(ms[0].value) && PrintableMembers(ms[1..]))
  }

  lemma {:induction false} InsertRaw(m: Entry<Json>, ms: Members)
    ensures RawMembers(Insert(m, ms)) == Insert(Entry(m.key, Raw(m.value)), RawMembers(ms))
    decreases |ms|
  {
    if ms != [] && !KeyLess(m.key, ms[0].key) {
      InsertRaw(m, ms[1..]);
      assert Insert(m, ms)[1..] == Insert(m, ms[1..]);
      assert RawMembers(ms)[1..] == RawMembers(ms[1..]);
    } else {
      assert Insert(m, ms)[1..] == ms;
    }
  }

  lemma {:induction false} SortRaw(ms: Members)
    ensures RawMembers(Sort(ms)) == Sort(RawMembers(ms))
    decreases |ms|
  {
    if ms != [] {
      SortRaw(ms[1..]);
      InsertRaw(ms[0], Sort(ms[1..]));
      assert RawMembers(ms)[1..] == RawMembers(ms[1..]);
    }
  }

  /** The printer prints exactly the printable values, in canonical order. */
  lemma {:induction false} PrintsCanon(v: Json)
    ensures JcsValue(v) == if Printable(v) then Some(Raw(Canon(v))) else None
    decreases v, 1
  {
    match v
    case Arr(items) =>
      PrintsCanonItems(items);
    case Obj(members) =>
      PrintsCanonMembers(members);
      SortRaw(CanonMembers(members));
    case _ =>
  }

  lemma {:induction false} PrintsCanonItems(items: seq<Json>)
    ensures JcsItems(items) == if PrintableItems(items) then Some(RawItems(CanonItems(items))) else None
    decreases items, 0
  {
    if items != [] {
      PrintsCanon(items[0]);
      PrintsCanonItems(items[1..]);
      assert CanonItems(items)[1..] == CanonItems(items[1..]);
    }
  }

  lemma {:induction false} PrintsCanonMembers(ms: Members)
    ensures JcsMembers(ms) == if PrintableMembers(ms) then Some(RawMembers(CanonMembers(ms))) else None
    decreases ms, 0
  {
    if ms != [] {
      PrintsCanon(ms[0].value);
      PrintsCanonMembers(ms[1..]);
      assert CanonMembers(ms)[1..] == CanonMembers(ms[1..]);
    }
  }

  // --------------------------------------------------------- reading back

  lemma RawHead(v: Json)
    ensures Raw(v) != [] && Raw(v)[0] != CLOSE_ARRAY && Raw(v)[0] != CLOSE_OBJECT
  {
    if v.Num? {
      DigitsAreDigits(if v.r.Floor < 0 then -v.r.Floor else v.r.Floor);
    }
  }

  /** What follows the first element of a printed list. */
  ghost function After(rest: seq<Text>, close: CodeUnit, x: Text): Text {
    if rest == [] then [close] + x else [COMMA] + (Join(rest) + [close] + x)
  }

  lemma JoinFirst(ts: seq<Text>, close: CodeUnit, x: Text)
    requires ts != []
    ensures Join(ts) + [close] + x == ts[0] + After(ts[1..], close, x)
  {
  }

  lemma AfterStops(rest: seq<Text>, close: CodeUnit, x: Text)
    requires close == CLOSE_ARRAY || close == CLOSE_OBJECT
    ensures Stops(After(rest, close, x)) && After(rest, close, x) != []
    ensures rest == [] ==> After(rest, close, x)[0] == close && After(rest, close, x)[1..] == x
    ensures rest != [] ==> After(rest, close, x)[0] == COMMA && After(rest, close, x)[1..] == Join(rest) + [close] + x
  {
  }

  lemma MemberTextsUnfold(ms: Members)
    requires ms != []
    ensures var ts := MemberTexts(RawMembers(ms));
            && |ts| == |ms|
            && ts[0] == JcsString(ms[0].key) + [COLON] + Raw(ms[0].value)
            && ts[1..] == MemberTexts(RawMembers(ms[1..]))
  {
    assert RawMembers(ms)[1..] == RawMembers(ms[1..]);
  }

  /** Round trip: a printed value, followed by a separator, reads back as that
      value and leaves what follows. */
  lemma {:induction false} RawReads(v: Json, x: Text)
    requires Printable(v) && Stops(x)
    ensures ReadValue(Raw(v) + x) == Some((v, x))
    decreases v, 1
  {
    match v
    case Str(s) =>
      StringReadsValue(s, x);
    case Num(r) =>
      NumberReadsValue(r, x);
    case Arr(items) =>
      if items == [] {
        EmptyArrayReads(x);
      } else {
        ItemsRead(items, x);
        ArrayReads(items, x);
      }
    case Obj(members) =>
      if members == [] {
        EmptyObjectReads(x);
      } else {
        MembersRead(members, x);
        ObjectReads(members, x);
      }
    case _ =>
      WordReads(v, x);
  }

  lemma StringReadsValue(s: Text, x: Text)
    ensures ReadValue(JcsString(s) + x) == Some((Str(s), x))
  {
    StringReads(s, x);
    hide EscapeAll, ReadString;
    var t := JcsString(s) + x;
    assert t == [QUOTE] + (EscapeAll(s) + [QUOTE] + x);
    assert t[1..] == EscapeAll(s) + [QUOTE] + x;
  }

  lemma NumberReadsValue(r: real, x: Text)
    requires SafeInteger(r) && Stops(x)
    ensures ReadValue(Decimal(r.Floor) + x) == Some((Num(r), x))
  {
    IntegerReads(r.Floor, x);
    DigitsAreDigits(if r.Floor < 0 then -r.Floor else r.Floor);
    hide Digits, ReadInteger;
    var t := Decimal(r.Floor) + x;
    assert t[0] == Decimal(r.Floor)[0];
    assert t[0] == MINUS || IsDigit(t[0]);
  }

  lemma WordReads(v: Json, x: Text)
    requires v.Null? || v.Bool?
    ensures ReadValue(Raw(v) + x) == Some((v, x))
  {
    var t := Raw(v) + x;
    assert t[0] == Raw(v)[0] && t[|Raw(v)|..] == x;
    assert Raw(v) <= t;
  }

  lemma EmptyArrayReads(x: Text)
    ensures ReadValue(Raw(Arr([])) + x) == Some((Arr([]), x))
  {
    assert RawItems([]) == [] && Raw(Arr([])) == [OPEN_ARRAY, CLOSE_ARRAY];
    assert (Raw(Arr([])) + x)[2..] == x;
  }

  lemma EmptyObjectReads(x: Text)
    ensures ReadValue(Raw(Obj([])) + x) == Some((Obj([]), x))
  {
    assert RawMembers([]) == [] && MemberTexts([]) == [] && Raw(Obj([])) == [OPEN_OBJECT, CLOSE_OBJECT];
    assert (Raw(Obj([])) + x)[2..] == x;
  }

  lemma BracketReads(inside: Text, items: seq<Json>, x: Text)
    requires inside != [] && inside[0] != CLOSE_ARRAY && ReadItems(inside) == Some((items, x))
    ensures ReadValue([OPEN_ARRAY] + inside) == Some((Arr(items), x))
  {
    hide ReadItems;
    assert ([OPEN_ARRAY] + inside)[1..] == inside;
  }

  lemma BraceReads(inside: Text, ms: Members, x: Text)
    requires inside != [] && inside[0] != CLOSE_OBJECT && ReadMembers(inside) == Some((ms, x))
    ensures ReadValue([OPEN_OBJECT] + inside) == Some((Obj(ms), x))
  {
    hide ReadMembers;
    assert ([OPEN_OBJECT] + inside)[1..] == inside;
  }

  /** A printed list starts with its first element. */
  lemma JoinHead(ts: seq<Text>, close: CodeUnit, x: Text)
    requires ts != [] && ts[0] != []
    ensures var inside := Join(ts) + [close] + x;
            inside != [] && inside[0] == ts[0][0]
  {
    JoinFirst(ts, close, x);
    hide Join, After;
  }

  lemma Regroup(open: CodeUnit, s: Text, close: CodeUnit, x: Text)
    ensures [open] + s + [close] + x == [open] + (s + [close] + x)
  {
  }

  lemma ArrayReads(items: seq<Json>, x: Text)
    requires items != []
    requires ReadItems(Join(RawItems(items)) + [CLOSE_ARRAY] + x) == Some((items, x))
    ensures ReadValue(Raw(Arr(items)) + x) == Some((Arr(items), x))
  {
    var ts := RawItems(items);
    assert ts[0] == Raw(items[0]);
    assert Raw(Arr(items)) == [OPEN_ARRAY] + Join(ts) + [CLOSE_ARRAY];
    hide *;
    RawHead(items[0]);
    JoinHead(ts, CLOSE_ARRAY, x);
    Regroup(OPEN_ARRAY, Join(ts), CLOSE_ARRAY, x);
    BracketReads(Join(ts) + [CLOSE_ARRAY] + x, items, x);
  }

  lemma ObjectReads(ms: Members, x: Text)
    requires ms != []
    requires ReadMembers(Join(MemberTexts(RawMembers(ms))) + [CLOSE_OBJECT] + x) == Some((ms, x))
    ensures ReadValue(Raw(Obj(ms)) + x) == Some((Obj(ms), x))
  {
    var ts := MemberTexts(RawMembers(ms));
    MemberTextsUnfold(ms);
    assert ts[0] != [] && ts[0][0] == QUOTE;
    assert Raw(Obj(ms)) == [OPEN_OBJECT] + Join(ts) + [CLOSE_OBJECT];
    hide *;
    JoinHead(ts, CLOSE_OBJECT, x);
    Regroup(OPEN_OBJECT, Join(ts), CLOSE_OBJECT, x);
    BraceReads(Join(ts) + [CLOSE_OBJECT] + x, ms, x);
  }

  lemma {:induction false} ItemsRead(items: seq<Json>, x: Text)
    requires items != [] && PrintableItems(items)
    ensures ReadItems(Join(RawItems(items)) + [CLOSE_ARRAY] + x) == Some((items, x))
    decreases items, 0
  {
    var rest := RawItems(items[1..]);
    var after := After(rest, CLOSE_ARRAY, x);
    assert RawItems(items) == [Raw(items[0])] + rest;
    JoinFirst(RawItems(items), CLOSE_ARRAY, x);
    AfterStops(rest, CLOSE_ARRAY, x);
    RawReads(items[0], after);
    if items[1..] != [] {
      ItemsRead(items[1..], x);
    }
    hide *;
    ItemsAfterReads(items, rest, x);
    ItemReads(items[0], after);
  }

  lemma ItemReads(v: Json, after: Text)
    requires ReadValue(Raw(v) + after) == Some((v, after))
    ensures ReadItems(Raw(v) + after) == ItemsAfter(v, after)
  {
    hide ReadValue, Raw, ItemsAfter;
  }

  lemma ItemsAfterReads(items: seq<Json>, rest: seq<Text>, x: Text)
    requires items != [] && |rest| == |items| - 1
    requires var after := After(rest, CLOSE_ARRAY, x);
             && after != []
             && (rest == [] ==> after[0] == CLOSE_ARRAY && after[1..] == x)
             && (rest != [] ==> after[0] == COMMA && ReadItems(after[1..]) == Some((items[1..], x)))
    ensures ItemsAfter(items[0], After(rest, CLOSE_ARRAY, x)) == Some((items, x))
  {
    hide After, ReadItems;
    if rest == [] {
      assert items == [items[0]];
    } else {
      assert items == [items[0]] + items[1..];
    }
  }

  lemma {:induction false} MembersRead(ms: Members, x: Text)
    requires ms != [] && PrintableMembers(ms)
    ensures ReadMembers(Join(MemberTexts(RawMembers(ms))) + [CLOSE_OBJECT] + x) == Some((ms, x))
    decreases ms, 0
  {
    var ts := MemberTexts(RawMembers(ms));
    var after := After(ts[1..], CLOSE_OBJECT, x);
    MemberTextsUnfold(ms);
    JoinFirst(ts, CLOSE_OBJECT, x);
    AfterStops(ts[1..], CLOSE_OBJECT, x);
    RawReads(ms[0].value, after);
    if ms[1..] != [] {
      MembersRead(ms[1..], x);
    }
    hide *;
    MemberReads(ms[0], after);
    MembersAfterReads(ms, ts[1..], x);
  }

  lemma MemberReads(m: Entry<Json>, after: Text)
    requires ReadValue(Raw(m.value) + after) == Some((m.value, after))
    ensures ReadMembers(JcsString(m.key) + [COLON] + Raw(m.value) + after) == MembersAfter(m, after)
  {
    var tail := [COLON] + (Raw(m.value) + after);
    StringReads(m.key, tail);
    hide EscapeAll, ReadString, ReadValue, Raw, MembersAfter;
    var t := JcsString(m.key) + [COLON] + Raw(m.value) + after;
    assert t == [QUOTE] + (EscapeAll(m.key) + [QUOTE] + tail);
    assert t[1..] == EscapeAll(m.key) + [QUOTE] + tail;
    assert tail[1..] == Raw(m.value) + after;
  }

  lemma MembersAfterReads(ms: Members, rest: seq<Text>, x: Text)
    requires ms != [] && |rest| == |ms| - 1
    requires var after := After(rest, CLOSE_OBJECT, x);
             && after != []
             && (rest == [] ==> after[0] == CLOSE_OBJECT && after[1..] == x)
             && (rest != [] ==> after[0] == COMMA && ReadMembers(after[1..]) == Some((ms[1..], x)))
    ensures MembersAfter(ms[0], After(rest, CLOSE_OBJECT, x)) == Some((ms, x))
  {
    hide After, ReadMembers;
    if rest == [] {
      assert ms == [ms[0]];
    } else {
      assert ms == [ms[0]] + ms[1..];
    }
  }

  /** So a printed value followed by a separator determines the value and what
      follows it. */
  lemma RawPrefix(a: Json, b: Json, x: Text, y: Text)
    requires Printable(a) && Printable(b) && Stops(x) && Stops(y)
    requires Raw(a) + x == Raw(b) + y
    ensures a == b && x == y
  {
    RawReads(a, x);
    RawReads(b, y);
  }

  lemma {:induction false} CanonPrintable(v: Json)
    ensures Printable(Canon(v)) <==> Printable(v)
    decreases v, 1
  {
    match v
    case Arr(items) => CanonPrintableItems(items);
    case Obj(members) =>
      CanonPrintableMembers(members);
      SortPrintable(CanonMembers(members));
    case _ =>
  }

  lemma {:induction false} CanonPrintableItems(items: seq<Json>)
    ensures PrintableItems(CanonItems(items)) <==> PrintableItems(items)
    decreases items, 0
  {
    if items != [] {
      CanonPrintable(items[0]);
      CanonPrintableItems(items[1..]);
      assert CanonItems(items)[1..] == CanonItems(items[1..]);
    }
  }

  lemma {:induction false} CanonPrintableMembers(ms: Members)
    ensures PrintableMembers(CanonMembers(ms)) <==> PrintableMembers(ms)
    decreases ms, 0
  {
    if ms != [] {
      CanonPrintable(ms[0].value);
      CanonPrintableMembers(ms[1..]);
      assert CanonMembers(ms)[1..] == CanonMembers(ms[1..]);
    }
  }

  lemma {:induction false} InsertPrintable(m: Entry<Json>, ms: Members)
    ensures PrintableMembers(Insert(m, ms)) <==> Printable(m.value) && PrintableMembers(ms)
    decreases |ms|
  {
    if ms != [] && !KeyLess(m.key, ms[0].key) {
      InsertPrintable(m, ms[1..]);
      assert Insert(m, ms)[1..] == Insert(m, ms[1..]);
    } else {
      assert Insert(m, ms)[1..] == ms;
    }
  }

  lemma {:induction false} SortPrintable(ms: Members)
    ensures PrintableMembers(Sort(ms)) <==> PrintableMembers(ms)
    decreases |ms|
  {
    if ms != [] {
      SortPrintable(ms[1..]);
      InsertPrintable(ms[0], Sort(ms[1..]));
    }
  }

  /** The printed text is JSON: read back, it is the value that was printed, up
      to key order, with the members of every object in key order. */
  lemma TextReadsBack(v: Json)
    requires WellFormed(v) && JcsValue(v).Some?
    ensures var r := ReadValue(JcsValue(v).value);
            r.Some? && r.value.1 == [] && InKeyOrder(r.value.0) && SameValue(v, r.value.0)
  {
    PrintsCanon(v);
    CanonPrintable(v);
    CanonExact(v, Canon(v));
    RawReads(Canon(v), []);
    assert Raw(Canon(v)) + [] == Raw(Canon(v));
  }

  /** Canonical text is unambiguous and independent of key order: two values
      that print have the same text exactly when they are equal up to the order
      of object members. */
  lemma TextMeansSame(a: Json, b: Json)
    requires WellFormed(a) && WellFormed(b)
    requires JcsValue(a).Some? && JcsValue(b).Some?
    ensures JcsValue(a) == JcsValue(b) <==> SameValue(a, b)
  {
    PrintsCanon(a);
    PrintsCanon(b);
    CanonPrintable(a);
    CanonPrintable(b);
    CanonMeansSame(a, b);
    if JcsValue(a) == JcsValue(b) {
      assert Raw(Canon(a)) + [] == Raw(Canon(b)) + [];
      RawPrefix(Canon(a), Canon(b), [], []);
    }
  }
}

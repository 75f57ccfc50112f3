/** JSON values, their canonical text and the order of object keys
    (RFC 8785, sections 3.2.2.2, 3.2.2.3 and 3.2.3). */
module Json {
  import opened Geometry

  /** Strings are sequences of UTF-16 code units, lone surrogates included. */
  type CodeUnit = x: int | 0 <= x < 0x1_0000
  type Text = seq<CodeUnit>

  datatype Entry<+T> = Entry(key: Text, value: T)

  /** A parsed JSON value.  An object lists its members in the order in which
      its keys are enumerated; a number is the real it denotes. */
  datatype Json =
    | Null
    | Bool(b: bool)
    | Num(r: real)
    | Str(s: Text)
    | Arr(items: seq<Json>)
    | Obj(members: seq<Entry<Json>>)

  type Members = seq<Entry<Json>>

  /** The code units of an ASCII name. */
  function Units(s: string): (t: Text)
    ensures |t| == |s|
  {
    seq(|s|, i requires 0 <= i < |s| => s[i] as int % 0x1_0000)
  }

  ghost predicate DistinctKeys<T>(es: seq<Entry<T>>) {
    forall i, j :: 0 <= i < j < |es| ==> es[i].key != es[j].key
  }

  /** No object has two members with the same key. */
  ghost predicate WellFormed(v: Json)
    decreases v, 1
  {
    match v
    case Arr(items) => WellFormedItems(items)
    case Obj(members) => DistinctKeys(members) && WellFormedMembers(members)
    case _ => true
  }

  ghost predicate WellFormedItems(items: seq<Json>)
    decreases items, 0
  {
    items == [] || (WellFormed(items[0]) && WellFormedItems(items[1..]))
  }

  ghost predicate WellFormedMembers(ms: Members)
    decreases ms, 0
  {
    ms == [] || (WellFormed(ms[0].value) && WellFormedMembers(ms[1..]))
  }

  // ------------------------------------------------------------- key order

  /** Comparison by code units. */
  predicate KeyLess(a: Text, b: Text) {
    if b == [] then false
    else if a == [] then true
    else a[0] < b[0] || (a[0] == b[0] && KeyLess(a[1..], b[1..]))
  }

  lemma KeyOrder(a: Text, b: Text, c: Text)
    ensures !KeyLess(a, a)
    ensures KeyLess(a, b) && KeyLess(b, c) ==> KeyLess(a, c)
    ensures KeyLess(a, b) || a == b || KeyLess(b, a)
  {
    if a != [] && b != [] {
      KeyOrder(a[1..], b[1..], if c == [] then [] else c[1..]);
      assert a == [a[0]] + a[1..] && b == [b[0]] + b[1..];
    } else if a != [] {
      KeyOrder(a[1..], [], []);
    }
  }

  /** `a` and `b` agree up to `i`, where `a` ends or has the smaller unit. */
  ghost predicate LessAt(a: Text, b: Text, i: nat) {
    i <= |a| && i < |b| && a[..i] == b[..i] && (i == |a| || a[i] < b[i])
  }

  lemma LessAtTail(a: Text, b: Text, i: nat)
    requires a != [] && b != [] && a[0] == b[0]
    ensures i > 0 ==> (LessAt(a, b, i) <==> LessAt(a[1..], b[1..], i - 1))
    ensures !LessAt(a, b, 0)
  {
    if i > 0 && i <= |a| && i < |b| {
      assert a[..i] == [a[0]] + a[1..][..i - 1] && b[..i] == [b[0]] + b[1..][..i - 1];
      assert a[..i][1..] == a[1..][..i - 1] && b[..i][1..] == b[1..][..i - 1];
    }
  }

  /** Key order is the order by the first code unit that differs, a prefix being
      smaller. */
  lemma {:induction false} KeyLessMeans(a: Text, b: Text)
    ensures KeyLess(a, b) <==> exists i: nat :: LessAt(a, b, i)
    decreases |a|
  {
    if a == [] || b == [] {
      assert b != [] ==> LessAt(a, b, 0);
    } else if a[0] == b[0] {
      KeyLessMeans(a[1..], b[1..]);
      if KeyLess(a, b) {
        var i: nat :| LessAt(a[1..], b[1..], i);
        LessAtTail(a, b, i + 1);
        assert LessAt(a, b, i + 1);
      }
      forall i: nat | LessAt(a, b, i) ensures KeyLess(a, b) {
        LessAtTail(a, b, i);
        assert LessAt(a[1..], b[1..], i - 1);
      }
    } else {
      if a[0] < b[0] {
        assert LessAt(a, b, 0);
      }
      forall i: nat | LessAt(a, b, i) ensures a[0] < b[0] {
        if i > 0 {
          assert a[..i][0] == b[..i][0];
        }
      }
    }
  }

  function Insert<T>(e: Entry<T>, es: seq<Entry<T>>): (r: seq<Entry<T>>)
    ensures |r| == |es| + 1
  {
    if es == [] || KeyLess(e.key, es[0].key) then [e] + es
    else [es[0]] + Insert(e, es[1..])
  }

  /** Members in the order of their keys. */
  function Sort<T>(es: seq<Entry<T>>): (r: seq<Entry<T>>)
    ensures |r| == |es|
  {
    if es == [] then [] else Insert(es[0], Sort(es[1..]))
  }

  ghost predicate Sorted<T>(es: seq<Entry<T>>) {
    forall i, j :: 0 <= i < j < |es| ==> KeyLess(es[i].key, es[j].key)
  }

  ghost function SetOf<T>(es: seq<Entry<T>>): set<Entry<T>> {
    set e | e in es
  }

  lemma {:induction false} InsertSorts<T>(e: Entry<T>, es: seq<Entry<T>>)
    requires Sorted(es) && forall x :: x in es ==> x.key != e.key
    ensures Sorted(Insert(e, es)) && SetOf(Insert(e, es)) == SetOf(es) + {e}
    decreases |es|
  {
    if es == [] {
    } else if KeyLess(e.key, es[0].key) {
      forall j | 0 <= j < |es| ensures KeyLess(e.key, es[j].key) {
        KeyOrder(e.key, es[0].key, es[j].key);
      }
    } else {
      KeyOrder(e.key, es[0].key, e.key);
      InsertSorts(e, es[1..]);
      var r := Insert(e, es[1..]);
      assert SetOf(es) == {es[0]} + SetOf(es[1..]);
      forall j | 0 <= j < |r| ensures KeyLess(es[0].key, r[j].key) {
        assert r[j] in SetOf(r);
      }
      assert SetOf([es[0]] + r) == {es[0]} + SetOf(r);
    }
  }

  lemma {:induction false} SortSorts<T>(es: seq<Entry<T>>)
    requires DistinctKeys(es)
    ensures Sorted(Sort(es)) && SetOf(Sort(es)) == SetOf(es)
    decreases |es|
  {
    if es != [] {
      SortSorts(es[1..]);
      forall x | x in Sort(es[1..]) ensures x.key != es[0].key {
        assert x in SetOf(es[1..]);
      }
      InsertSorts(es[0], Sort(es[1..]));
      assert SetOf(es) == {es[0]} + SetOf(es[1..]);
    }
  }

  lemma EmptySetOf<T>(es: seq<Entry<T>>)
    ensures SetOf(es) == {} <==> es == []
  {
    if es != [] {
      assert es[0] in SetOf(es);
    }
  }

  /** A sorted list is determined by its elements. */
  lemma {:induction false} SortedUnique<T>(xs: seq<Entry<T>>, ys: seq<Entry<T>>)
    requires Sorted(xs) && Sorted(ys) && SetOf(xs) == SetOf(ys)
    ensures xs == ys
    decreases |xs|
  {
    EmptySetOf(xs);
    EmptySetOf(ys);
    if xs != [] {
      assert xs[0] in SetOf(xs);
      assert ys[0] in SetOf(ys);
      SameHead(xs, ys);
      TailSet(xs);
      TailSet(ys);
      SortedUnique(xs[1..], ys[1..]);
      assert xs == [xs[0]] + xs[1..] && ys == [ys[0]] + ys[1..];
    }
  }

  lemma SameHead<T>(xs: seq<Entry<T>>, ys: seq<Entry<T>>)
    requires Sorted(xs) && Sorted(ys) && xs != [] && ys != []
    requires xs[0] in ys && ys[0] in xs
    ensures xs[0] == ys[0]
  {
    var i :| 0 <= i < |ys| && ys[i] == xs[0];
    var j :| 0 <= j < |xs| && xs[j] == ys[0];
    if i > 0 && j > 0 {
      KeyOrder(xs[0].key, ys[0].key, xs[0].key);
    }
  }

  lemma TailSet<T>(xs: seq<Entry<T>>)
    requires Sorted(xs) && xs != []
    ensures SetOf(xs[1..]) == SetOf(xs) - {xs[0]}
  {
    forall x | x in xs[1..] ensures x != xs[0] {
      KeyOrder(x.key, x.key, x.key);
    }
    assert xs == [xs[0]] + xs[1..];
  }

  /** Sorting two lists with distinct keys gives the same result exactly when
      they have the same entries. */
  lemma SortEqual<T>(xs: seq<Entry<T>>, ys: seq<Entry<T>>)
    requires DistinctKeys(xs) && DistinctKeys(ys)
    ensures Sort(xs) == Sort(ys) <==> SetOf(xs) == SetOf(ys)
  {
    SortSorts(xs);
    SortSorts(ys);
    if SetOf(xs) == SetOf(ys) {
      SortedUnique(Sort(xs), Sort(ys));
    }
  }

  // ------------------------------------------------------------- printing

  const QUOTE: CodeUnit := 0x22
  const BACKSLASH: CodeUnit := 0x5C
  const COMMA: CodeUnit := 0x2C
  const COLON: CodeUnit := 0x3A
  const MINUS: CodeUnit := 0x2D
  const OPEN_ARRAY: CodeUnit := 0x5B
  const CLOSE_ARRAY: CodeUnit := 0x5D
  const OPEN_OBJECT: CodeUnit := 0x7B
  const CLOSE_OBJECT: CodeUnit := 0x7D
  const NULL_TEXT: Text := [0x6E, 0x75, 0x6C, 0x6C]
  const TRUE_TEXT: Text := [0x74, 0x72, 0x75, 0x65]
  const FALSE_TEXT: Text := [0x66, 0x61, 0x6C, 0x73, 0x65]
  const MAX_SAFE_INTEGER: int := 0x1F_FFFF_FFFF_FFFF

  function HexUnit(v: nat): CodeUnit
    requires v < 16
  {
    if v < 10 then 0x30 + v else 0x61 + (v - 10)
  }

  /** What one code unit of a string is printed as. */
  function Escape(u: CodeUnit): Text {
    if u == QUOTE then [BACKSLASH, QUOTE]
    else if u == BACKSLASH then [BACKSLASH, BACKSLASH]
    else if u == 0x08 then [BACKSLASH, 0x62]
    else if u == 0x09 then [BACKSLASH, 0x74]
    else if u == 0x0A then [BACKSLASH, 0x6E]
    else if u == 0x0C then [BACKSLASH, 0x66]
    else if u == 0x0D then [BACKSLASH, 0x72]
    else if u < 0x20 then [BACKSLASH, 0x75, 0x30, 0x30, HexUnit(u / 16), HexUnit(u % 16)]
    else [u]
  }

  /** The exact form of an escape: a backslash before a quote or a backslash, the
      five short escapes, and otherwise four lower-case hex digits below 0x20.
      Nothing else is escaped. */
  lemma EscapeForm(u: CodeUnit)
    ensures u == '"' as int ==> Escape(u) == Units("\\\"")
    ensures u == '\\' as int ==> Escape(u) == Units("\\\\")
    ensures u == 8 ==> Escape(u) == Units("\\b")
    ensures u == '\t' as int ==> Escape(u) == Units("\\t")
    ensures u == '\n' as int ==> Escape(u) == Units("\\n")
    ensures u == 12 ==> Escape(u) == Units("\\f")
    ensures u == '\r' as int ==> Escape(u) == Units("\\r")
    ensures u < 0x20 && u !in {8, 9, 10, 12, 13} ==>
              var hex := "0123456789abcdef";
              Escape(u) == Units("\\u00" + [hex[u / 16], hex[u % 16]])
    ensures u >= 0x20 && u != 0x22 && u != 0x5C ==> Escape(u) == [u]
  {
  }

  /** What every printed token is, for the values without parts; which numbers are
      printed. */
  lemma AtomForm(b: bool, r: real, s: Text)
    ensures JcsValue(Null) == Some(Units("null"))
    ensures JcsValue(Bool(b)) == Some(if b then Units("true") else Units("false"))
    ensures JcsValue(Num(r)).Some? <==> r == r.Floor as real && -9007199254740991.0 <= r <= 9007199254740991.0
    ensures JcsValue(Str(s)) == Some(Units("\"") + EscapeAll(s) + Units("\""))
    ensures JcsValue(Arr([])) == Some(Units("[]")) && JcsValue(Obj([])) == Some(Units("{}"))
  {
    assert Units("null") == [0x6E, 0x75, 0x6C, 0x6C] == JcsValue(Null).value;
    assert Units("true") == [0x74, 0x72, 0x75, 0x65];
    assert Units("false") == [0x66, 0x61, 0x6C, 0x73, 0x65];
    assert Units("\"") == [0x22] && Units("[]") == [0x5B, 0x5D] && Units("{}") == [0x7B, 0x7D];
    var none: seq<Json>, es: seq<Entry<Json>> := [], [];
    var empty: Text := [];
    assert JcsItems(none) == Some([]) && Join([]) == empty;
    assert JcsMembers(es) == Some([]) && Join(MemberTexts(Sort([]))) == empty;
    assert [OPEN_ARRAY] + empty + [CLOSE_ARRAY] == [0x5B, 0x5D];
    assert [OPEN_OBJECT] + empty + [CLOSE_OBJECT] == [0x7B, 0x7D];
  }

  function EscapeAll(s: Text): Text {
    if s == [] then [] else Escape(s[0]) + EscapeAll(s[1..])
  }

  function JcsString(s: Text): Text {
    [QUOTE] + EscapeAll(s) + [QUOTE]
  }

  function Digits(n: nat): Text {
    if n < 10 then [0x30 + n] else Digits(n / 10) + [0x30 + n % 10]
  }

  function Decimal(n: int): Text {
    if n < 0 then [MINUS] + Digits(-n) else Digits(n)
  }

  function Join(ts: seq<Text>): Text {
    if ts == [] then []
    else if |ts| == 1 then ts[0]
    else ts[0] + [COMMA] + Join(ts[1..])
  }

  function MemberTexts(es: seq<Entry<Text>>): (ts: seq<Text>)
    ensures |ts| == |es|
  {
    if es == [] then [] else [JcsString(es[0].key) + [COLON] + es[0].value] + MemberTexts(es[1..])
  }

  predicate SafeInteger(r: real) {
    r.Floor as real == r && -MAX_SAFE_INTEGER <= r.Floor <= MAX_SAFE_INTEGER
  }

  /** Canonical text of a value; `None` when a number is not a safe integer. */
  function JcsValue(v: Json): Option<Text>
    decreases v, 1
  {
    match v
    case Null => Some(NULL_TEXT)
    case Bool(b) => Some(if b then TRUE_TEXT else FALSE_TEXT)
    case Str(s) => Some(JcsString(s))
    case Num(r) =>
      if r.Floor as real != r then None
      else if r.Floor > MAX_SAFE_INTEGER || r.Floor < -MAX_SAFE_INTEGER then None
      else Some(Decimal(r.Floor))
    case Arr(items) =>
      (match JcsItems(items)
       case None => None
       case Some(ts) => Some([OPEN_ARRAY] + Join(ts) + [CLOSE_ARRAY]))
    case Obj(members) =>
      (match JcsMembers(members)
       case None => None
       case Some(es) => Some([OPEN_OBJECT] + Join(MemberTexts(Sort(es))) + [CLOSE_OBJECT]))
  }

  function JcsItems(items: seq<Json>): Option<seq<Text>>
    decreases items, 0
  {
    if items == [] then Some([])
    else
      match (JcsValue(items[0]), JcsItems(items[1..]))
      case (Some(t), Some(ts)) => Some([t] + ts)
      case _ => None
  }

  function JcsMembers(ms: Members): Option<seq<Entry<Text>>>
    decreases ms, 0
  {
    if ms == [] then Some([])
    else
      match (JcsValue(ms[0].value), JcsMembers(ms[1..]))
      case (Some(t), Some(es)) => Some([Entry(ms[0].key, t)] + es)
      case _ => None
  }

  /** The string printer walks over code points: a surrogate pair is taken as one
      character and copied. */
  predicate PairAt(s: Text, i: nat)
    requires i < |s|
  {
    0xD800 <= s[i] < 0xDC00 && i + 1 < |s| && 0xDC00 <= s[i + 1] < 0xE000
  }

  /** The body of the loop: the text of the code point at `i` and its width. */
  method PrintCodePoint(s: Text, i: nat) returns (piece: Text, width: nat)
    requires i < |s|
    ensures 1 <= width <= |s| - i
    ensures EscapeAll(s[i..]) == piece + EscapeAll(s[i + width..])
  {
    EscapeSplit(s, i);
    var u := s[i];
    piece, width := [u], 1;
    if PairAt(s, i) {
      EscapeSplit(s, i + 1);
      piece, width := [u, s[i + 1]], 2;
    }
    else if u == QUOTE { piece := [BACKSLASH, QUOTE]; }
    else if u == BACKSLASH { piece := [BACKSLASH, BACKSLASH]; }
    else if u == 0x08 { piece := [BACKSLASH, 0x62]; }
    else if u == 0x09 { piece := [BACKSLASH, 0x74]; }
    else if u == 0x0A { piece := [BACKSLASH, 0x6E]; }
    else if u == 0x0C { piece := [BACKSLASH, 0x66]; }
    else if u == 0x0D { piece := [BACKSLASH, 0x72]; }
    else if u < 0x20 { piece := [BACKSLASH, 0x75, 0x30, 0x30, HexUnit(u / 16), HexUnit(u % 16)]; }
  }

  method PrintString(s: Text) returns (out: Text)
    ensures out == JcsString(s)
  {
    hide EscapeAll;
    out := [QUOTE];
    var i := 0;
    assert s[0..] == s;
    while i < |s|
      invariant i <= |s|
      invariant out + EscapeAll(s[i..]) == [QUOTE] + EscapeAll(s)
    {
      var piece, width := PrintCodePoint(s, i);
      out := out + piece;
      i := i + width;
    }
    EscapeNothing(s[i..]);
    out := out + [QUOTE];
  }

  lemma EscapeNothing(s: Text)
    requires s == []
    ensures EscapeAll(s) == []
  {
  }

  lemma EscapeSplit(s: Text, i: nat)
    requires i < |s|
    ensures EscapeAll(s[i..]) == Escape(s[i]) + EscapeAll(s[i + 1..])
  {
    assert s[i..][1..] == s[i + 1..];
  }
}

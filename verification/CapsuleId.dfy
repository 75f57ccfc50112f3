/** The content address of a capsule: which bytes are hashed, what two capsules
    with the same bytes have in common. */
module CapsuleId {
  import opened Geometry
  import opened Hashing
  import opened Json
  import opened Reader
  import opened Canonical
  import opened Normalize
  import opened Losses

  // ------------------------------------------------------------------ UTF-8

  predicate HighSurrogate(u: CodeUnit) { 0xD800 <= u < 0xDC00 }
  predicate LowSurrogate(u: CodeUnit) { 0xDC00 <= u < 0xE000 }
  const REPLACEMENT: CodeUnit := 0xFFFD

  /** UTF-8 of one code unit that is not half of a pair. */
  function EncodeUnit(u: CodeUnit): Bytes {
    if u < 0x80 then [u]
    else if u < 0x800 then [0xC0 + u / 64, 0x80 + u % 64]
    else [0xE0 + u / 4096, 0x80 + u / 64 % 64, 0x80 + u % 64]
  }

  /** UTF-8 of a surrogate pair. */
  function EncodePair(high: CodeUnit, low: CodeUnit): Bytes
    requires HighSurrogate(high) && LowSurrogate(low)
  {
    var h, l := high - 0xD800 + 64, low - 0xDC00;
    [0xF0 + h / 256, 0x80 + h / 4 % 64, 0x80 + h % 4 * 16 + l / 64, 0x80 + l % 64]
  }

  /** Text encoder: a lone surrogate is written as the replacement character. */
  function Utf8(t: Text): Bytes {
    if t == [] then []
    else if PairAt(t, 0) then EncodePair(t[0], t[1]) + Utf8(t[2..])
    else if HighSurrogate(t[0]) || LowSurrogate(t[0]) then EncodeUnit(REPLACEMENT) + Utf8(t[1..])
    else EncodeUnit(t[0]) + Utf8(t[1..])
  }

  /** The text with every lone surrogate replaced. */
  function Repaired(t: Text): (r: Text)
    ensures |r| == |t|
  {
    if t == [] then []
    else if PairAt(t, 0) then [t[0], t[1]] + Repaired(t[2..])
    else if HighSurrogate(t[0]) || LowSurrogate(t[0]) then [REPLACEMENT] + Repaired(t[1..])
    else [t[0]] + Repaired(t[1..])
  }

  /** Surrogates occur only in pairs. */
  predicate PairedText(t: Text) {
    if t == [] then true
    else if PairAt(t, 0) then PairedText(t[2..])
    else !HighSurrogate(t[0]) && !LowSurrogate(t[0]) && PairedText(t[1..])
  }

  lemma PairedIsRepaired(t: Text)
    ensures PairedText(t) <==> Repaired(t) == t
  {
    if t != [] {
      if PairAt(t, 0) {
        assert t == [t[0], t[1]] + t[2..];
      } else {
        assert t == [t[0]] + t[1..];
      }
    }
  }

  /** The bytes of a unit as RFC 3629 (sections 3 and 4) has them: lead byte and
      continuation bytes in their ranges, shortest form, and the number they spell. */
  lemma UnitBytes(u: CodeUnit)
    requires !HighSurrogate(u) && !LowSurrogate(u)
    ensures var b := EncodeUnit(u);
            if u < 0x80 then b == [u]
            else if u < 0x800 then
              && |b| == 2 && 0xC2 <= b[0] <= 0xDF && 0x80 <= b[1] <= 0xBF
              && (b[0] as int - 0xC0) * 0x40 + (b[1] as int - 0x80) == u
            else
              && |b| == 3 && 0xE0 <= b[0] <= 0xEF && 0x80 <= b[1] <= 0xBF && 0x80 <= b[2] <= 0xBF
              && (b[0] == 0xE0 ==> b[1] >= 0xA0) && (b[0] == 0xED ==> b[1] <= 0x9F)
              && (b[0] as int - 0xE0) * 0x1000 + (b[1] as int - 0x80) * 0x40 + (b[2] as int - 0x80) == u
    ensures EncodeUnit(REPLACEMENT) == [0xEF, 0xBF, 0xBD]
  {
    Split64(u);
  }

  /** And those of a surrogate pair: four bytes that spell its code point. */
  lemma PairBytes(high: CodeUnit, low: CodeUnit)
    requires HighSurrogate(high) && LowSurrogate(low)
    ensures var b := EncodePair(high, low);
            && |b| == 4 && 0xF0 <= b[0] <= 0xF4
            && 0x80 <= b[1] <= 0xBF && 0x80 <= b[2] <= 0xBF && 0x80 <= b[3] <= 0xBF
            && (b[0] == 0xF0 ==> b[1] >= 0x90) && (b[0] == 0xF4 ==> b[1] <= 0x8F)
            && (b[0] as int - 0xF0) * 0x4_0000 + (b[1] as int - 0x80) * 0x1000 + (b[2] as int - 0x80) * 0x40
               + (b[3] as int - 0x80) == 0x1_0000 + (high - 0xD800) * 0x400 + (low - 0xDC00)
  {
    var h, l := high - 0xD800 + 64, low - 0xDC00;
    SplitHigh(h);
    Split64(l);
  }

  function UnitOf(n: int): CodeUnit {
    if 0 <= n < 0x1_0000 then n else REPLACEMENT
  }

  /** The bits a continuation byte carries. */
  function Low(b: byte): int {
    b - 0x80
  }

  /** What a decoder reads at the front of `bs`: the units and the byte count. */
  function DecodeFront(bs: Bytes): (Text, nat)
    requires bs != []
  {
    var lead: int := bs[0];
    if lead < 0x80 || |bs| < 2 then ([bs[0]], 1)
    else if lead < 0xE0 || |bs| < 3 then ([UnitOf((lead - 0xC0) * 64 + Low(bs[1]))], 2)
    else if lead < 0xF0 || |bs| < 4 then ([UnitOf((lead - 0xE0) * 4096 + Low(bs[1]) * 64 + Low(bs[2]))], 3)
    else
      var h := (lead - 0xF0) * 256 + Low(bs[1]) * 4 + Low(bs[2]) / 16 - 64;
      ([UnitOf(0xD800 + h), UnitOf(0xDC00 + Low(bs[2]) % 16 * 64 + Low(bs[3]))], 4)
  }

  function Decode(bs: Bytes): Text
    decreases |bs|
  {
    if bs == [] then []
    else
      var (units, n) := DecodeFront(bs);
      units + Decode(bs[n..])
  }

  lemma Split64(n: nat)
    ensures n == n / 64 * 64 + n % 64 && n / 4096 * 64 + n / 64 % 64 == n / 64
  {
    assert n / 64 / 64 == n / 4096;
  }

  lemma DecodeUnit(u: CodeUnit, rest: Bytes)
    ensures DecodeFront(EncodeUnit(u) + rest) == ([u], |EncodeUnit(u)|)
    ensures (EncodeUnit(u) + rest)[|EncodeUnit(u)|..] == rest
  {
    Split64(u);
  }

  lemma SplitHigh(h: nat)
    ensures h / 256 * 256 + h / 4 % 64 * 4 + h % 4 == h
  {
    assert h / 4 / 64 == h / 256;
  }

  lemma DecodePair(high: CodeUnit, low: CodeUnit, rest: Bytes)
    requires HighSurrogate(high) && LowSurrogate(low)
    ensures DecodeFront(EncodePair(high, low) + rest) == ([high, low], 4)
    ensures (EncodePair(high, low) + rest)[4..] == rest
  {
    var h, l := high - 0xD800 + 64, low - 0xDC00;
    SplitHigh(h);
    Split64(l);
    FromPair(h / 256, h / 4 % 64, h % 4, l / 64, l % 64, rest);
  }

  lemma FromPair(a: nat, b: nat, c: nat, d: nat, e: nat, rest: Bytes)
    requires a < 8 && b < 64 && c < 4 && d < 16 && e < 64
    requires 64 <= a * 256 + b * 4 + c < 1024 + 64
    ensures var bs: Bytes := [0xF0 + a, 0x80 + b, 0x80 + c * 16 + d, 0x80 + e] + rest;
            DecodeFront(bs) == ([0xD800 + a * 256 + b * 4 + c - 64, 0xDC00 + d * 64 + e], 4)
  {
    assert (c * 16 + d) / 16 == c && (c * 16 + d) % 16 == d;
  }

  /** Decoding undoes encoding, up to the repair of lone surrogates. */
  lemma {:induction false} DecodeEncode(t: Text)
    ensures Decode(Utf8(t)) == Repaired(t)
    decreases |t|
  {
    if t != [] {
      if PairAt(t, 0) {
        DecodeEncode(t[2..]);
        DecodePair(t[0], t[1], Utf8(t[2..]));
      } else {
        DecodeEncode(t[1..]);
        DecodeUnit(if HighSurrogate(t[0]) || LowSurrogate(t[0]) then REPLACEMENT else t[0], Utf8(t[1..]));
      }
    }
  }

  lemma RepairedPairing(t: Text)
    requires t != []
    ensures PairAt(t, 0) ==> Repaired(t)[0] == t[0] && Repaired(t)[1] == t[1] && Repaired(t)[2..] == Repaired(t[2..])
    ensures !PairAt(t, 0) ==>
              Repaired(t)[1..] == Repaired(t[1..]) && !HighSurrogate(Repaired(t)[0]) && !LowSurrogate(Repaired(t)[0])
  {
  }

  lemma {:induction false} EncodeRepaired(t: Text)
    ensures Utf8(Repaired(t)) == Utf8(t)
    decreases |t|
  {
    if t != [] {
      RepairedPairing(t);
      EncodeRepaired(if PairAt(t, 0) then t[2..] else t[1..]);
    }
  }

  /** Two texts have the same bytes exactly when they agree after repair. */
  lemma BytesMeanRepaired(s: Text, t: Text)
    ensures Utf8(s) == Utf8(t) <==> Repaired(s) == Repaired(t)
  {
    DecodeEncode(s);
    DecodeEncode(t);
    EncodeRepaired(s);
    EncodeRepaired(t);
  }

  // ------------------------------------------------------- paired printing

  lemma {:induction false} PairedConcat(s: Text, t: Text)
    requires PairedText(s) && PairedText(t)
    ensures PairedText(s + t)
    decreases |s|
  {
    if s == [] {
      assert s + t == t;
    } else if PairAt(s, 0) {
      assert (s + t)[2..] == s[2..] + t;
      PairedConcat(s[2..], t);
    } else {
      assert (s + t)[1..] == s[1..] + t;
      PairedConcat(s[1..], t);
    }
  }

  /** Below the surrogates, every text is paired. */
  lemma {:induction false} PlainPaired(t: Text)
    requires forall i :: 0 <= i < |t| ==> t[i] < 0xD800
    ensures PairedText(t)
    decreases |t|
  {
    if t != [] {
      PlainPaired(t[1..]);
    }
  }

  lemma EscapeCons(u: CodeUnit, rest: Text)
    ensures EscapeAll([u] + rest) == Escape(u) + EscapeAll(rest)
  {
    hide Escape;
    assert ([u] + rest)[1..] == rest;
  }

  lemma SurrogatePlain(u: CodeUnit)
    requires HighSurrogate(u) || LowSurrogate(u)
    ensures Escape(u) == [u]
  {
  }

  lemma EscapePairCons(high: CodeUnit, low: CodeUnit, rest: Text)
    requires HighSurrogate(high) && LowSurrogate(low)
    ensures EscapeAll([high, low] + rest) == [high, low] + EscapeAll(rest)
  {
    hide EscapeAll, Escape;
    assert [high, low] + rest == [high] + ([low] + rest);
    EscapeCons(high, [low] + rest);
    EscapeCons(low, rest);
    SurrogatePlain(high);
    SurrogatePlain(low);
  }

  lemma PairedCons(high: CodeUnit, low: CodeUnit, rest: Text)
    requires HighSurrogate(high) && LowSurrogate(low) && PairedText(rest)
    ensures PairedText([high, low] + rest)
  {
    assert ([high, low] + rest)[2..] == rest;
  }

  lemma {:induction false} EscapedPaired(s: Text)
    requires PairedText(s)
    ensures PairedText(EscapeAll(s))
    decreases |s|
  {
    hide Escape;
    if s != [] {
      if PairAt(s, 0) {
        EscapedPaired(s[2..]);
        EscapePairCons(s[0], s[1], s[2..]);
        assert s == [s[0], s[1]] + s[2..];
        PairedCons(s[0], s[1], EscapeAll(s[2..]));
      } else {
        EscapedPaired(s[1..]);
        EscapePaired(s[0]);
        PairedConcat(Escape(s[0]), EscapeAll(s[1..]));
      }
    }
  }

  lemma EscapePaired(u: CodeUnit)
    requires !HighSurrogate(u) && !LowSurrogate(u)
    ensures PairedText(Escape(u))
  {
    if |Escape(u)| > 1 {
      PlainPaired(Escape(u));
    }
  }

  lemma JcsStringPaired(s: Text)
    requires PairedText(s)
    ensures PairedText(JcsString(s))
  {
    EscapedPaired(s);
    PlainPaired([QUOTE]);
    PairedConcat([QUOTE], EscapeAll(s));
    PairedConcat([QUOTE] + EscapeAll(s), [QUOTE]);
  }

  /** Every string and every key in the value has its surrogates in pairs. */
  predicate PairedStrings(v: Json)
    decreases v, 1
  {
    match v
    case Str(s) => PairedText(s)
    case Arr(items) => PairedItems(items)
    case Obj(members) => PairedMembers(members)
    case _ => true
  }

  predicate PairedItems(items: seq<Json>)
    decreases items, 0
  {
    items == [] || (PairedStrings(items[0]) && PairedItems(items[1..]))
  }

  predicate PairedMembers(ms: Members)
    decreases ms, 0
  {
    ms == [] || (PairedText(ms[0].key) && PairedStrings(ms[0].value) && PairedMembers(ms[1..]))
  }

  lemma {:induction false} RawPaired(v: Json)
    requires PairedStrings(v)
    ensures PairedText(Raw(v))
    decreases v, 1
  {
    match v
    case Str(s) => JcsStringPaired(s);
    case Num(r) => DecimalPaired(r.Floor);
    case Arr(items) =>
      RawItemsPaired(items);
      JoinPaired(RawItems(items));
      PlainPaired([OPEN_ARRAY]);
      PlainPaired([CLOSE_ARRAY]);
      PairedConcat([OPEN_ARRAY], Join(RawItems(items)));
      PairedConcat([OPEN_ARRAY] + Join(RawItems(items)), [CLOSE_ARRAY]);
    case Obj(members) =>
      var ts := MemberTexts(RawMembers(members));
      RawMembersPaired(members);
      JoinPaired(ts);
      PlainPaired([OPEN_OBJECT]);
      PlainPaired([CLOSE_OBJECT]);
      PairedConcat([OPEN_OBJECT], Join(ts));
      PairedConcat([OPEN_OBJECT] + Join(ts), [CLOSE_OBJECT]);
    case _ => PlainPaired(Raw(v));
  }

  lemma DecimalPaired(n: int)
    ensures PairedText(Decimal(n))
  {
    DigitsAreDigits(if n < 0 then -n else n);
    assert forall i :: 0 <= i < |Decimal(n)| ==> Decimal(n)[i] < 0xD800;
    PlainPaired(Decimal(n));
  }

  ghost predicate AllPaired(ts: seq<Text>) {
    forall i :: 0 <= i < |ts| ==> PairedText(ts[i])
  }

  lemma {:induction false} JoinPaired(ts: seq<Text>)
    requires AllPaired(ts)
    ensures PairedText(Join(ts))
    decreases |ts|
  {
    if |ts| > 1 {
      assert AllPaired(ts[1..]) by {
        forall i | 0 <= i < |ts[1..]| ensures PairedText(ts[1..][i]) {
          assert ts[1..][i] == ts[i + 1];
        }
      }
      JoinPaired(ts[1..]);
      PlainPaired([COMMA]);
      PairedConcat(ts[0], [COMMA]);
      PairedConcat(ts[0] + [COMMA], Join(ts[1..]));
    }
  }

  lemma {:induction false} RawItemsPaired(items: seq<Json>)
    requires PairedItems(items)
    ensures AllPaired(RawItems(items))
    decreases items, 0
  {
    if items != [] {
      RawPaired(items[0]);
      RawItemsPaired(items[1..]);
    }
  }

  lemma {:induction false} RawMembersPaired(ms: Members)
    requires PairedMembers(ms)
    ensures AllPaired(MemberTexts(RawMembers(ms)))
    decreases ms, 0
  {
    if ms != [] {
      RawPaired(ms[0].value);
      RawMembersPaired(ms[1..]);
      MemberTextsUnfold(ms);
      JcsStringPaired(ms[0].key);
      PlainPaired([COLON]);
      PairedConcat(JcsString(ms[0].key), [COLON]);
      PairedConcat(JcsString(ms[0].key) + [COLON], Raw(ms[0].value));
      var ts := MemberTexts(RawMembers(ms));
      forall i | 0 <= i < |ts| ensures PairedText(ts[i]) {
        assert i > 0 ==> ts[i] == ts[1..][i - 1];
      }
    }
  }

  lemma {:induction false} CanonPaired(v: Json)
    requires PairedStrings(v)
    ensures PairedStrings(Canon(v))
    decreases v, 1
  {
    match v
    case Arr(items) => CanonItemsPaired(items);
    case Obj(members) =>
      CanonMembersPaired(members);
      SortPaired(CanonMembers(members));
    case _ =>
  }

  lemma {:induction false} CanonItemsPaired(items: seq<Json>)
    requires PairedItems(items)
    ensures PairedItems(CanonItems(items))
    decreases items, 0
  {
    if items != [] {
      CanonPaired(items[0]);
      CanonItemsPaired(items[1..]);
      assert CanonItems(items)[1..] == CanonItems(items[1..]);
    }
  }

  lemma {:induction false} CanonMembersPaired(ms: Members)
    requires PairedMembers(ms)
    ensures PairedMembers(CanonMembers(ms))
    decreases ms, 0
  {
    if ms != [] {
      CanonPaired(ms[0].value);
      CanonMembersPaired(ms[1..]);
      assert CanonMembers(ms)[1..] == CanonMembers(ms[1..]);
    }
  }

  lemma {:induction false} InsertPaired(m: Entry<Json>, ms: Members)
    requires PairedText(m.key) && PairedStrings(m.value) && PairedMembers(ms)
    ensures PairedMembers(Insert(m, ms))
    decreases |ms|
  {
    if ms != [] && !KeyLess(m.key, ms[0].key) {
      InsertPaired(m, ms[1..]);
      assert Insert(m, ms)[1..] == Insert(m, ms[1..]);
    } else {
      assert Insert(m, ms)[1..] == ms;
    }
  }

  lemma {:induction false} SortPaired(ms: Members)
    requires PairedMembers(ms)
    ensures PairedMembers(Sort(ms))
    decreases |ms|
  {
    if ms != [] {
      SortPaired(ms[1..]);
      InsertPaired(ms[0], Sort(ms[1..]));
    }
  }

  lemma {:induction false} NormalizedPaired(v: Json)
    requires PairedStrings(v)
    ensures PairedStrings(Normalized(v))
    decreases v, 1
  {
    match v
    case Arr(items) => NormalizedItemsPaired(items);
    case Obj(members) => NormalizedMembersPaired(members);
    case _ =>
  }

  lemma {:induction false} NormalizedItemsPaired(items: seq<Json>)
    requires PairedItems(items)
    ensures PairedItems(NormalizedItems(items))
    decreases items, 0
  {
    if items != [] {
      NormalizedPaired(items[0]);
      NormalizedItemsPaired(items[1..]);
      assert NormalizedItems(items)[1..] == NormalizedItems(items[1..]);
    }
  }

  lemma {:induction false} NormalizedMembersPaired(ms: Members)
    requires PairedMembers(ms)
    ensures PairedMembers(NormalizedMembers(ms))
    decreases ms, 0
  {
    if ms != [] {
      NormalizedPaired(ms[0].value);
      NormalizedMembersPaired(ms[1..]);
      var e := Entry(ms[0].key, Normalized(ms[0].value));
      assert ([e] + NormalizedMembers(ms[1..]))[1..] == NormalizedMembers(ms[1..]);
    }
  }

  // --------------------------------------------------------- content address

  const CAPSULE_ID := Units("capsule_id")
  const CHAIN := Units("chain")

  /** The two chain-linkage keys that the content address is meant to leave out. */
  predicate Linkage(k: Text) {
    k == CAPSULE_ID || k == CHAIN
  }

  /** Names every JavaScript object inherits.  A table that is a plain object
      finds something under each of them. */
  const INHERITED: set<string> := {
    "constructor", "hasOwnProperty", "isPrototypeOf", "propertyIsEnumerable", "toLocaleString", "toString", "valueOf",
    "__proto__", "__defineGetter__", "__defineSetter__", "__lookupGetter__", "__lookupSetter__"}

  predicate Inherited(k: Text) {
    exists name :: name in INHERITED && k == Units(name)
  }

  function Without(ms: Members, drop: Text -> bool): (r: Members)
    ensures |r| <= |ms|
  {
    if ms == [] then []
    else if drop(ms[0].key) then Without(ms[1..], drop)
    else [ms[0]] + Without(ms[1..], drop)
  }

  /** The members that the code hashes. */
  function Addressed(ms: Members): Members {
    Without(ms, k => Linkage(k) || Inherited(k))
  }

  /** The members that the content address is documented to cover. */
  function Declared(ms: Members): Members {
    Without(ms, k => Linkage(k))
  }

  function CapsuleText(ms: Members): Option<Text> {
    JcsValue(Normalized(Obj(Addressed(ms))))
  }

  /** The bytes hashed for the capsule id; `None` where the code throws. */
  function Preimage(capsule: Json): Option<Bytes> {
    if !capsule.Obj? then None
    else
      match CapsuleText(capsule.members)
      case None => None
      case Some(t) => Some(Utf8(t))
  }

  function ComputeCapsuleId(H: Hash, capsule: Json): Option<string> {
    match Preimage(capsule)
    case None => None
    case Some(bs) => Some(BytesToHex(H(bs)))
  }

  lemma {:induction false} WithoutSnoc(ms: Members, n: nat, drop: Text -> bool)
    requires n < |ms|
    ensures Without(ms[..n + 1], drop) == Without(ms[..n], drop) + if drop(ms[n].key) then [] else [ms[n]]
    decreases n
  {
    if n == 0 {
      assert ms[..1] == [ms[0]] && ms[..1][1..] == [] && ms[..0] == [];
    } else {
      WithoutSnoc(ms[1..], n - 1, drop);
      assert ms[..n + 1][1..] == ms[1..][..n] && ms[..n][1..] == ms[1..][..n - 1];
    }
  }

  lemma AddressedSnoc(ms: Members, n: nat)
    requires n < |ms|
    ensures Addressed(ms[..n + 1]) ==
            Addressed(ms[..n]) + if Linkage(ms[n].key) || Inherited(ms[n].key) then [] else [ms[n]]
  {
    hide Linkage, Inherited;
    WithoutSnoc(ms, n, k => Linkage(k) || Inherited(k));
  }

  lemma AddressedNone()
    ensures Addressed([]) == []
  {
  }

  /** Looking a key up in the linkage table, a plain object. */
  predicate FoundInLinkageTable(k: Text) {
    Linkage(k) || Inherited(k)
  }

  /** `None` where the code throws. */
  method ComputeId(H: Hash, capsule: Json) returns (id: Option<string>)
    ensures id == ComputeCapsuleId(H, capsule)
  {
    if !capsule.Obj? {
      return None;
    }
    var ms := capsule.members;
    hide *;
    AddressedNone();
    var canonical := [];
    assert ms[..0] == [];
    for i := 0 to |ms|
      invariant canonical == Addressed(ms[..i])
    {
      AddressedSnoc(ms, i);
      FoundMeans(ms[i].key);
      if !FoundInLinkageTable(ms[i].key) {
        canonical := canonical + [ms[i]];
      }
    }
    assert ms[..|ms|] == ms;
    var normal := NormalizeValue(Obj(canonical));
    var jcs := JcsValue(normal);
    IdFromText(H, capsule);
    if jcs.None? {
      return None;
    }
    return Some(BytesToHex(H(Utf8(jcs.value))));
  }

  lemma FoundMeans(k: Text)
    ensures FoundInLinkageTable(k) <==> Linkage(k) || Inherited(k)
  {
  }

  lemma IdFromText(H: Hash, capsule: Json)
    requires capsule.Obj?
    ensures var t := JcsValue(Normalized(Obj(Addressed(capsule.members))));
            ComputeCapsuleId(H, capsule) == if t.None? then None else Some(BytesToHex(H(Utf8(t.value))))
  {
  }

  lemma {:induction false} WithoutShape(ms: Members, drop: Text -> bool)
    ensures WellFormedMembers(ms) ==> WellFormedMembers(Without(ms, drop))
    ensures PairedMembers(ms) ==> PairedMembers(Without(ms, drop))
    decreases |ms|
  {
    hide WellFormed, PairedStrings, PairedText;
    if ms != [] {
      WithoutShape(ms[1..], drop);
      var rest := Without(ms[1..], drop);
      assert ([ms[0]] + rest)[1..] == rest;
    }
  }

  lemma {:induction false} WithoutMembers(ms: Members, drop: Text -> bool)
    ensures forall m :: m in Without(ms, drop) <==> m in ms && !drop(m.key)
    ensures DistinctKeys(ms) ==> DistinctKeys(Without(ms, drop))
    decreases |ms|
  {
    if ms != [] {
      WithoutMembers(ms[1..], drop);
      assert ms == [ms[0]] + ms[1..];
      var rest := Without(ms[1..], drop);
      if DistinctKeys(ms) {
        forall i | 0 <= i < |rest| ensures rest[i].key != ms[0].key {
          assert rest[i] in ms[1..];
        }
      }
    }
  }

  lemma WithoutSet(ms: Members, drop: Text -> bool)
    ensures forall m :: m in Without(ms, drop) <==> m in ms && !drop(m.key)
    ensures DistinctKeys(ms) ==> DistinctKeys(Without(ms, drop))
    ensures WellFormedMembers(ms) ==> WellFormedMembers(Without(ms, drop))
    ensures PairedMembers(ms) ==> PairedMembers(Without(ms, drop))
  {
    WithoutMembers(ms, drop);
    WithoutShape(ms, drop);
    hide *;
  }

  /** What is hashed has its surrogates in pairs; members that are left out may
      hold anything. */
  predicate PairedContent(ms: Members) {
    PairedStrings(Normalized(Obj(Addressed(ms))))
  }

  lemma PairedMembersContent(ms: Members)
    requires PairedMembers(Addressed(ms))
    ensures PairedContent(ms)
  {
    NormalizedPaired(Obj(Addressed(ms)));
  }

  lemma TextPaired(ms: Members)
    requires PairedContent(ms) && CapsuleText(ms).Some?
    ensures PairedText(CapsuleText(ms).value)
  {
    var content := Normalized(Obj(Addressed(ms)));
    CanonPaired(content);
    RawPaired(Canon(content));
    PrintsCanon(content);
  }

  lemma AddressedWellFormed(ms: Members)
    requires WellFormed(Obj(ms))
    ensures WellFormed(Obj(Addressed(ms))) && WellFormed(Normalized(Obj(Addressed(ms))))
  {
    WithoutSet(ms, k => Linkage(k) || Inherited(k));
    NormalizedWellFormed(Obj(Addressed(ms)));
  }

  /** Two texts agree exactly when the hashed content is equal up to key order. */
  lemma CapsuleTextMeansSame(ms: Members, ns: Members)
    requires WellFormed(Obj(ms)) && WellFormed(Obj(ns)) && CapsuleText(ms).Some? && CapsuleText(ns).Some?
    ensures CapsuleText(ms) == CapsuleText(ns) <==>
            SameValue(Normalized(Obj(Addressed(ms))), Normalized(Obj(Addressed(ns))))
  {
    AddressedWellFormed(ms);
    AddressedWellFormed(ns);
    TextMeansSame(Normalized(Obj(Addressed(ms))), Normalized(Obj(Addressed(ns))));
  }

  /** What the content address covers: two capsules whose hashed content has its
      surrogates in pairs hash the same bytes exactly when their normalised
      addressed members are equal up to the order of object keys. */
  lemma PreimageMeansSame(ms: Members, ns: Members)
    requires WellFormed(Obj(ms)) && WellFormed(Obj(ns)) && PairedContent(ms) && PairedContent(ns)
    requires Preimage(Obj(ms)).Some? && Preimage(Obj(ns)).Some?
    ensures Preimage(Obj(ms)) == Preimage(Obj(ns)) <==>
            SameValue(Normalized(Obj(Addressed(ms))), Normalized(Obj(Addressed(ns))))
  {
    TextPaired(ms);
    TextPaired(ns);
    PairedIsRepaired(CapsuleText(ms).value);
    PairedIsRepaired(CapsuleText(ns).value);
    BytesMeanRepaired(CapsuleText(ms).value, CapsuleText(ns).value);
    CapsuleTextMeansSame(ms, ns);
  }

  /** The same said of the members as written: the hashed bytes agree exactly when
      the addressed members are equal up to key order and up to ignorable members,
      at every depth. */
  lemma PreimageMeansContent(ms: Members, ns: Members)
    requires WellFormed(Obj(ms)) && WellFormed(Obj(ns)) && PairedContent(ms) && PairedContent(ns)
    requires Preimage(Obj(ms)).Some? && Preimage(Obj(ns)).Some?
    ensures Preimage(Obj(ms)) == Preimage(Obj(ns)) <==> SameContent(Obj(Addressed(ms)), Obj(Addressed(ns)))
  {
    hide SameContent, SameValue, Normalized, WellFormed, PairedContent, Preimage, Addressed;
    AddressedWellFormed(ms);
    AddressedWellFormed(ns);
    PreimageMeansSame(ms, ns);
    ContentExact(Obj(Addressed(ms)), Obj(Addressed(ns)));
  }

  /** For any two capsules, surrogates paired or not: the hashed bytes confuse
      different content exactly when the two texts differ, but only in what is
      replaced for lone surrogates. */
  lemma PreimageConfuses(ms: Members, ns: Members)
    requires WellFormed(Obj(ms)) && WellFormed(Obj(ns))
    requires Preimage(Obj(ms)).Some? && Preimage(Obj(ns)).Some?
    ensures (&& Preimage(Obj(ms)) == Preimage(Obj(ns))
             && !SameValue(Normalized(Obj(Addressed(ms))), Normalized(Obj(Addressed(ns))))) <==>
            (&& CapsuleText(ms) != CapsuleText(ns)
             && Repaired(CapsuleText(ms).value) == Repaired(CapsuleText(ns).value))
  {
    PreimageExact(ms, ns);
    CapsuleTextMeansSame(ms, ns);
  }

  /** Equal capsule ids mean equal content, or the two preimages collide. */
  lemma IdBindsContent(H: Hash, ms: Members, ns: Members)
    requires WellFormed(Obj(ms)) && WellFormed(Obj(ns)) && PairedContent(ms) && PairedContent(ns)
    requires Preimage(Obj(ms)).Some? && Preimage(Obj(ns)).Some?
    requires ComputeCapsuleId(H, Obj(ms)) == ComputeCapsuleId(H, Obj(ns))
    ensures || SameValue(Normalized(Obj(Addressed(ms))), Normalized(Obj(Addressed(ns))))
            || CollisionIn(H, {Preimage(Obj(ms)).value, Preimage(Obj(ns)).value})
  {
    var x, y := Preimage(Obj(ms)).value, Preimage(Obj(ns)).value;
    HexRoundTrip(H(x));
    HexRoundTrip(H(y));
    PreimageMeansSame(ms, ns);
    CollisionFound(H, x, y, {x, y});
  }

  // --------------------------------------------------------- invariance

  lemma {:induction false} WithoutPadded(ms: Members, ns: Members, drop: Text -> bool)
    requires PaddedMembers(ms, ns)
    ensures PaddedMembers(Without(ms, drop), Without(ns, drop))
    decreases |ns|
  {
    if ns != [] {
      hide Padded, Hollow;
      if ms != [] && ms[0].key == ns[0].key && Padded(ms[0].value, ns[0].value) && PaddedMembers(ms[1..], ns[1..]) {
        WithoutPadded(ms[1..], ns[1..], drop);
        PaddedKept(ms[0], Without(ms[1..], drop), ns[0], Without(ns[1..], drop));
      } else {
        WithoutPadded(ms, ns[1..], drop);
        PaddedMore(Without(ms, drop), ns[0], Without(ns[1..], drop));
      }
    }
  }

  lemma PaddedKept(m: Entry<Json>, ms: Members, n: Entry<Json>, ns: Members)
    requires m.key == n.key && Padded(m.value, n.value) && PaddedMembers(ms, ns)
    ensures PaddedMembers([m] + ms, [n] + ns)
  {
    hide Padded, Hollow;
    assert ([m] + ms)[1..] == ms && ([n] + ns)[1..] == ns;
  }

  lemma PaddedMore(ms: Members, n: Entry<Json>, ns: Members)
    requires (n.key == PROTO || Hollow(n.value)) && PaddedMembers(ms, ns)
    ensures PaddedMembers(ms, [n] + ns)
  {
    hide Padded, Hollow;
    assert ([n] + ns)[1..] == ns;
  }

  lemma PaddedPreimage(ms: Members, ns: Members)
    requires PaddedMembers(ms, ns)
    ensures Preimage(Obj(ms)) == Preimage(Obj(ns))
  {
    WithoutPadded(ms, ns, k => Linkage(k) || Inherited(k));
    hide PaddedMembers, Linkage, Inherited, Without, NormalizedMembers;
    PaddedMembersInvisible(Addressed(ms), Addressed(ns));
  }

  lemma WithoutCovers(ms: Members, ns: Members, drop: Text -> bool)
    requires Covers(ms, ns)
    ensures Covers(Without(ms, drop), Without(ns, drop))
  {
    WithoutSet(ms, drop);
    WithoutSet(ns, drop);
    hide Normalized, Canon, Without;
    forall m | m in Without(ms, drop) ensures CoveredBy(m, Without(ns, drop)) {
      assert CoveredBy(m, ns);
      var n :| n in ns && n.key == m.key && Canon(Normalized(n.value)) == Canon(Normalized(m.value));
      assert n in Without(ns, drop);
    }
  }

  lemma ReorderedPreimage(ms: Members, ns: Members)
    requires WellFormed(Obj(ms)) && WellFormed(Obj(ns)) && SameValue(Obj(ms), Obj(ns))
    ensures Preimage(Obj(ms)) == Preimage(Obj(ns))
  {
    SameMembersAgree(ms, ns);
    AgreeCovers(ms, ns);
    WithoutCovers(ms, ns, k => Linkage(k) || Inherited(k));
    WithoutCovers(ns, ms, k => Linkage(k) || Inherited(k));
    WithoutSet(ms, k => Linkage(k) || Inherited(k));
    WithoutSet(ns, k => Linkage(k) || Inherited(k));
    hide Covers, SameValue, Normalized, Canon;
    CoversSameCanon(Addressed(ms), Addressed(ns));
    SameCanonSamePreimage(ms, ns);
  }

  lemma SameCanonSamePreimage(ms: Members, ns: Members)
    requires Canon(Normalized(Obj(Addressed(ms)))) == Canon(Normalized(Obj(Addressed(ns))))
    ensures Preimage(Obj(ms)) == Preimage(Obj(ns))
  {
    var a, b := Normalized(Obj(Addressed(ms))), Normalized(Obj(Addressed(ns)));
    PrintsCanon(a);
    PrintsCanon(b);
    CanonPrintable(a);
    CanonPrintable(b);
  }

  /** Invariance: neither the hashed bytes nor the id change when the members of
      any objects inside the capsule are permuted, or ignorable members are added
      or removed, at any depth. */
  lemma PreimageInvariant(H: Hash, a: Json, b: Json)
    requires SameContent(a, b)
    ensures Preimage(a) == Preimage(b) && ComputeCapsuleId(H, a) == ComputeCapsuleId(H, b)
  {
    var c, d :| ContentCores(c, d, a, b);
    if a.Obj? {
      PaddedPreimage(c.members, a.members);
      PaddedPreimage(d.members, b.members);
      hide Padded, Preimage;
      ReorderedPreimage(c.members, d.members);
    }
  }

  lemma {:induction false} PaddedSelf(v: Json)
    ensures Padded(v, v)
    decreases v, 1
  {
    match v
    case Arr(items) => PaddedItemsSelf(items);
    case Obj(members) => PaddedMembersSelf(members);
    case _ =>
  }

  lemma {:induction false} PaddedItemsSelf(items: seq<Json>)
    ensures PaddedItems(items, items)
    decreases items, 0
  {
    if items != [] {
      PaddedSelf(items[0]);
      PaddedItemsSelf(items[1..]);
    }
  }

  lemma {:induction false} PaddedMembersSelf(ms: Members)
    ensures PaddedMembers(ms, ms)
    decreases ms, 0
  {
    if ms != [] {
      PaddedSelf(ms[0].value);
      PaddedMembersSelf(ms[1..]);
    }
  }

  /** In particular for a permutation alone and for padding alone. */
  lemma InvariantCases(H: Hash, a: Json, b: Json)
    requires WellFormed(a) && WellFormed(b) && (SameValue(a, b) || Padded(a, b))
    ensures SameContent(a, b)
    ensures Preimage(a) == Preimage(b) && ComputeCapsuleId(H, a) == ComputeCapsuleId(H, b)
  {
    PaddedSelf(a);
    PaddedSelf(b);
    CanonMeansSame(a, a);
    hide Padded, SameValue, WellFormed, Canon;
    if SameValue(a, b) {
      assert ContentCores(a, b, a, b);
    } else {
      assert ContentCores(a, a, a, b);
    }
    PreimageInvariant(H, a, b);
  }

  /** For any two capsules whatsoever, the bytes agree exactly when the canonical
      texts agree after lone surrogates are replaced. */
  lemma PreimageExact(ms: Members, ns: Members)
    requires Preimage(Obj(ms)).Some? && Preimage(Obj(ns)).Some?
    ensures Preimage(Obj(ms)) == Preimage(Obj(ns)) <==>
            Repaired(CapsuleText(ms).value) == Repaired(CapsuleText(ns).value)
  {
    BytesMeanRepaired(CapsuleText(ms).value, CapsuleText(ns).value);
  }

  lemma {:induction false} UntouchedIsPaired(t: Text)
    requires REPLACEMENT !in Repaired(t)
    ensures PairedText(t)
    decreases |t|
  {
    if t != [] {
      RepairedPairing(t);
      var r := Repaired(t);
      if PairAt(t, 0) {
        assert r[2..] == Repaired(t[2..]) && forall u :: u in r[2..] ==> u in r;
        UntouchedIsPaired(t[2..]);
      } else {
        assert r[1..] == Repaired(t[1..]) && forall u :: u in r[1..] ==> u in r;
        assert r[0] in r;
        UntouchedIsPaired(t[1..]);
      }
    }
  }

  /** A capsule whose text has its surrogates in pairs and no replacement character
      is bound by its bytes, whatever the other capsule holds. */
  lemma CleanTextBinds(ms: Members, ns: Members)
    requires WellFormed(Obj(ms)) && WellFormed(Obj(ns))
    requires Preimage(Obj(ms)).Some? && Preimage(Obj(ns)) == Preimage(Obj(ms))
    requires PairedText(CapsuleText(ms).value) && REPLACEMENT !in CapsuleText(ms).value
    ensures SameValue(Normalized(Obj(Addressed(ms))), Normalized(Obj(Addressed(ns))))
  {
    PreimageExact(ms, ns);
    PairedIsRepaired(CapsuleText(ms).value);
    UntouchedIsPaired(CapsuleText(ns).value);
    PairedIsRepaired(CapsuleText(ns).value);
    hide Repaired, PairedText, SameValue;
    CapsuleTextMeansSame(ms, ns);
  }

  lemma RepairedPlain(u: CodeUnit, rest: Text)
    requires u < 0xD800
    ensures Repaired([u] + rest) == [u] + Repaired(rest)
  {
    assert ([u] + rest)[1..] == rest;
  }

  lemma {:induction false} RepairedFront(front: Text, t: Text)
    requires forall i :: 0 <= i < |front| ==> front[i] < 0xD800
    ensures Repaired(front + t) == front + Repaired(t)
    decreases |front|
  {
    hide *;
    if front == [] {
      assert front + t == t;
    } else {
      var u, rest := front[0], front[1..];
      assert front == [u] + rest;
      RepairedFront(rest, t);
      RepairedPlain(u, rest + t);
      assert [u] + rest + t == [u] + (rest + t);
    }
  }

  /** A capsule with one string member under the empty key. */
  function OneString(u: CodeUnit): Members {
    [Entry([], Str([u]))]
  }

  lemma OneStringAddressed(u: CodeUnit)
    ensures Addressed(OneString(u)) == OneString(u)
    ensures NormalizedMembers(OneString(u)) == OneString(u)
  {
    var ms := OneString(u);
    assert ms[1..] == [];
    assert !Linkage([]) && !Inherited([]) && [] != PROTO;
    assert Without(ms[1..], k => Linkage(k) || Inherited(k)) == [];
    assert NormalizedMembers(ms[1..]) == [];
  }

  lemma OneStringText(u: CodeUnit)
    requires u > 0x5D
    ensures CapsuleText(OneString(u)) ==
            Some([OPEN_OBJECT, QUOTE, QUOTE, COLON, QUOTE] + [u, QUOTE, CLOSE_OBJECT])
  {
    var ms := OneString(u);
    OneStringAddressed(u);
    PlainString(u);
    var es: seq<Entry<Text>> := [Entry([], JcsString([u]))];
    assert ms[1..] == [] && es[1..] == [];
    hide Linkage, Inherited, Escape;
    assert JcsMembers(ms[1..]) == Some([]);
    assert JcsValue(ms[0].value) == Some(JcsString([u]));
    assert [es[0]] + [] == es;
    assert JcsMembers(ms) == Some(es);
    assert Sort(es) == es by {
      assert Sort(es[1..]) == [];
    }
    var t := JcsString([]) + [COLON] + JcsString([u]);
    assert MemberTexts(es) == [t] by {
      assert MemberTexts(es[1..]) == [];
    }
    assert JcsString([]) == [QUOTE, QUOTE];
    assert Join([t]) == t;
    assert t == [QUOTE, QUOTE, COLON, QUOTE] + [u, QUOTE];
    assert Normalized(Obj(ms)) == Obj(ms);
    assert JcsValue(Obj(ms)) == Some([OPEN_OBJECT] + t + [CLOSE_OBJECT]);
    assert CapsuleText(ms) == JcsValue(Obj(ms));
    assert [OPEN_OBJECT] + t + [CLOSE_OBJECT] ==
           [OPEN_OBJECT, QUOTE, QUOTE, COLON, QUOTE] + [u, QUOTE, CLOSE_OBJECT];
  }

  lemma PlainString(u: CodeUnit)
    requires u > 0x5D
    ensures JcsString([u]) == [QUOTE, u, QUOTE]
  {
    assert [u][1..] == [];
    assert EscapeAll([u]) == Escape(u) + EscapeAll([]);
  }

  /** Outside paired text the bytes do not determine the content: a lone
      surrogate is encoded like the replacement character. */
  lemma LoneSurrogateCollides()
    ensures var ms, ns := OneString(0xD800), OneString(REPLACEMENT);
            && Preimage(Obj(ms)).Some? && Preimage(Obj(ns)).Some? && Preimage(Obj(ms)) == Preimage(Obj(ns))
            && !SameValue(Normalized(Obj(Addressed(ms))), Normalized(Obj(Addressed(ns))))
  {
    OneStringText(0xD800);
    OneStringText(REPLACEMENT);
    OneStringRepaired(0xD800);
    OneStringRepaired(REPLACEMENT);
    hide CapsuleText, Repaired, Addressed;
    PreimageExact(OneString(0xD800), OneString(REPLACEMENT));
    DifferentStrings(0xD800, REPLACEMENT);
  }

  lemma OneStringRepaired(u: CodeUnit)
    requires u == 0xD800 || u == REPLACEMENT
    ensures Repaired([OPEN_OBJECT, QUOTE, QUOTE, COLON, QUOTE] + [u, QUOTE, CLOSE_OBJECT]) ==
            [OPEN_OBJECT, QUOTE, QUOTE, COLON, QUOTE] + [REPLACEMENT, QUOTE, CLOSE_OBJECT]
  {
    var front, t := [OPEN_OBJECT, QUOTE, QUOTE, COLON, QUOTE], [u, QUOTE, CLOSE_OBJECT];
    assert forall i :: 0 <= i < |front| ==> front[i] < 0xD800;
    hide Repaired;
    RepairedFront(front, t);
    RepairedTail(u);
  }

  lemma RepairedTail(u: CodeUnit)
    requires u == 0xD800 || u == REPLACEMENT
    ensures Repaired([u, QUOTE, CLOSE_OBJECT]) == [REPLACEMENT, QUOTE, CLOSE_OBJECT]
  {
    var t := [u, QUOTE, CLOSE_OBJECT];
    assert t[1..] == [QUOTE, CLOSE_OBJECT];
    RepairedFront(t[1..], []);
    assert t[1..] + [] == t[1..];
    assert !PairAt(t, 0);
  }

  lemma DifferentStrings(u: CodeUnit, w: CodeUnit)
    requires u != w
    ensures !SameValue(Normalized(Obj(Addressed(OneString(u)))), Normalized(Obj(Addressed(OneString(w)))))
  {
    OneStringAddressed(u);
    OneStringAddressed(w);
    var ms, ns := OneString(u), OneString(w);
    assert Str([u]) != Str([w]) by {
      assert [u][0] != [w][0];
    }
    assert forall n :: n in ns ==> n == ns[0];
    assert !SameMembers(ms, ns);
  }

  // --------------------------------------------- members lost to the lookup

  lemma WithoutUnfold(m: Entry<Json>, rest: Members, drop: Text -> bool)
    ensures Without([m] + rest, drop) == (if drop(m.key) then [] else [m]) + Without(rest, drop)
  {
    assert ([m] + rest)[1..] == rest;
  }

  lemma KeptUnfold(m: Entry<Json>, rest: Members)
    ensures Declared([m] + rest) == if Linkage(m.key) then Declared(rest) else [m] + Declared(rest)
    ensures Addressed([m] + rest) ==
            if Linkage(m.key) || Inherited(m.key) then Addressed(rest) else [m] + Addressed(rest)
  {
    hide Linkage, Inherited;
    WithoutUnfold(m, rest, k => Linkage(k) || Inherited(k));
    WithoutUnfold(m, rest, k => Linkage(k));
  }

  /** The content that the address is documented to cover, and its text. */
  function DeclaredContent(ms: Members): Json {
    Documented(Obj(Declared(ms)))
  }

  function DeclaredText(ms: Members): Option<Text> {
    JcsValue(DeclaredContent(ms))
  }

  /** Every member outside chain linkage is empty, or has no inherited name and
      keeps its own content. */
  ghost predicate KeepsContent(ms: Members) {
    KeepsDeclared(Declared(ms))
  }

  ghost predicate KeepsDeclared(ms: Members) {
    forall m :: m in ms ==> KeptAsDeclared(m)
  }

  ghost predicate KeptAsDeclared(m: Entry<Json>) {
    Empty(m.value) || (!Inherited(m.key) && Keeps(m.value))
  }

  lemma KeepsDeclaredCons(m: Entry<Json>, rest: Members)
    ensures KeepsDeclared([m] + rest) <==> KeptAsDeclared(m) && KeepsDeclared(rest)
  {
    hide KeptAsDeclared;
    assert m in [m] + rest;
  }

  lemma ProtoInherited()
    ensures Inherited(PROTO)
  {
    assert "__proto__" in INHERITED;
  }

  /** The hashed members are what is left of the documented ones. */
  lemma {:induction false} AddressedInside(ms: Members)
    ensures InsideMembers(NormalizedMembers(Addressed(ms)), DocumentedMembers(Declared(ms)))
    ensures NormalizedMembers(Addressed(ms)) == DocumentedMembers(Declared(ms)) <==> KeepsContent(ms)
    decreases |ms|
  {
    if ms == [] {
      InsideNone();
    } else {
      var m, rest := ms[0], ms[1..];
      assert ms == [m] + rest;
      AddressedInside(rest);
      KeptUnfold(m, rest);
      hide *;
      KeepsContentMeans(ms);
      KeepsContentMeans(rest);
      if !Linkage(m.key) {
        AddressedStep(m, rest, Addressed(ms), Declared(ms));
      }
    }
  }

  lemma KeepsContentMeans(ms: Members)
    ensures KeepsContent(ms) <==> KeepsDeclared(Declared(ms))
  {
    hide KeepsDeclared;
  }

  lemma AddressedStep(m: Entry<Json>, rest: Members, addressed: Members, declared: Members)
    requires declared == [m] + Declared(rest)
    requires addressed == if Inherited(m.key) then Addressed(rest) else [m] + Addressed(rest)
    requires InsideMembers(NormalizedMembers(Addressed(rest)), DocumentedMembers(Declared(rest)))
    requires NormalizedMembers(Addressed(rest)) == DocumentedMembers(Declared(rest)) <==> KeepsDeclared(Declared(rest))
    ensures InsideMembers(NormalizedMembers(addressed), DocumentedMembers(declared))
    ensures NormalizedMembers(addressed) == DocumentedMembers(declared) <==> KeepsDeclared(declared)
  {
    hide *;
    var ns, ds := NormalizedMembers(Addressed(rest)), DocumentedMembers(Declared(rest));
    NormalInside(m.value);
    EmptyVanishes(m.value);
    ProtoInherited();
    MemberInside(m, rest, Inherited(m.key), ns, ds);
    NormalizedMembersCons(m, Addressed(rest));
    DocumentedCons(m, Declared(rest));
    KeepsDeclaredCons(m, Declared(rest));
    KeptMeans(m);
    var none: Members := [];
    assert none + ns == ns;
  }

  lemma KeptMeans(m: Entry<Json>)
    ensures KeptAsDeclared(m) <==> Empty(m.value) || (!Inherited(m.key) && Keeps(m.value))
  {
    hide Empty, Inherited, Keeps;
  }

  lemma ContentInside(ms: Members)
    ensures Inside(Normalized(Obj(Addressed(ms))), DeclaredContent(ms))
    ensures Normalized(Obj(Addressed(ms))) == DeclaredContent(ms) <==> KeepsContent(ms)
  {
    AddressedInside(ms);
    InsideObject(NormalizedMembers(Addressed(ms)), DocumentedMembers(Declared(ms)));
    hide Inside, InsideMembers, NormalizedMembers, DocumentedMembers, KeepsContent, Addressed, Declared;
  }

  /** The code hashes the documented content, for every capsule whatsoever, exactly
      when every member outside chain linkage that holds anything has no inherited
      name and holds no `__proto__` member that does; or when the code throws, as
      then the documented content has no text either. */
  lemma AddressesDeclared(ms: Members)
    ensures CapsuleText(ms) == DeclaredText(ms) <==> CapsuleText(ms).None? || KeepsContent(ms)
  {
    ContentInside(ms);
    var n, d := Normalized(Obj(Addressed(ms))), DeclaredContent(ms);
    assert CapsuleText(ms) == JcsValue(n) && DeclaredText(ms) == JcsValue(d);
    hide Normalized, Addressed, DeclaredContent, KeepsContent, CapsuleText, DeclaredText;
    SameTextInside(n, d);
  }

  lemma SameTextInside(n: Json, d: Json)
    requires Inside(n, d)
    ensures JcsValue(d).Some? ==> JcsValue(n).Some?
    ensures JcsValue(n) == JcsValue(d) && JcsValue(n).Some? ==> n == d
  {
    PrintsCanon(n);
    PrintsCanon(d);
    CanonPrintable(n);
    CanonPrintable(d);
    CanonSize(n);
    CanonSize(d);
    hide JcsValue, Raw, Canon, Size, Printable, Vanishes;
    if JcsValue(n) == JcsValue(d) && JcsValue(n).Some? {
      assert Raw(Canon(n)) + [] == Raw(Canon(d)) + [];
      RawPrefix(Canon(n), Canon(d), [], []);
    }
  }

  /** What the address is documented for: two capsules that the code hashes as
      documented have the same bytes exactly when their documented content is equal
      up to key order. */
  lemma PreimageMeansDocumented(ms: Members, ns: Members)
    requires WellFormed(Obj(ms)) && WellFormed(Obj(ns)) && PairedContent(ms) && PairedContent(ns)
    requires Preimage(Obj(ms)).Some? && Preimage(Obj(ns)).Some?
    requires KeepsContent(ms) && KeepsContent(ns)
    ensures Preimage(Obj(ms)) == Preimage(Obj(ns)) <==> SameValue(DeclaredContent(ms), DeclaredContent(ns))
  {
    ContentInside(ms);
    ContentInside(ns);
    hide Normalized, Addressed, DeclaredContent, KeepsContent, Preimage, PairedContent, SameValue, Inside;
    PreimageMeansSame(ms, ns);
  }

  lemma EmptyText()
    ensures JcsValue(Normalized(Obj([]))).Some?
  {
  }

  /** Two capsules that differ only in a member called "constructor" have the
      same content address. */
  lemma ConstructorIgnored(v: Json, w: Json)
    ensures Preimage(Obj([Entry(Units("constructor"), v)])) == Preimage(Obj([Entry(Units("constructor"), w)]))
    ensures Preimage(Obj([Entry(Units("constructor"), v)])).Some?
  {
    var m, n: Entry<Json> := Entry(Units("constructor"), v), Entry(Units("constructor"), w);
    WithoutUnfold(m, [], k => Linkage(k) || Inherited(k));
    WithoutUnfold(n, [], k => Linkage(k) || Inherited(k));
    assert [m] + [] == [m] && [n] + [] == [n];
    EmptyText();
  }

  lemma ProtoNotLinkage()
    ensures !Linkage(PROTO) && Inherited(PROTO)
  {
    ProtoInherited();
  }

  /** A concrete case: the only member is `__proto__`, with the value true.  The
      code hashes the empty object instead. */
  lemma ProtoIgnored()
    ensures var ms := [Entry(PROTO, Bool(true))];
            && CapsuleText(ms).Some? && CapsuleText(ms) == CapsuleText([])
            && CapsuleText(ms) != DeclaredText(ms)
  {
    var m: Entry<Json> := Entry(PROTO, Bool(true));
    var none: Members := [];
    assert [m] + none == [m];
    ProtoNotLinkage();
    KeptUnfold(m, none);
    EmptyText();
    AddressedNone();
    AddressesDeclared([m]);
    KeepsDeclaredCons(m, Declared(none));
    KeptMeans(m);
    hide Linkage, Inherited, Addressed, DeclaredText;
  }

  const X := Units("x")
  const K := Units("k")

  /** `{"k": {"x": true}}`, with further members inside. */
  function Nested(more: Members): Members {
    [Entry(K, Obj([Entry(X, Bool(true))] + more))]
  }

  lemma PlainNames()
    ensures !Linkage(K)
  {
    assert |K| == 1 && |CAPSULE_ID| == 10 && |CHAIN| == 5;
  }

  /** Another, one level down: a nested `__proto__` member is ignored, whatever it
      holds, although the documented content of the two capsules differs. */
  lemma NestedProtoIgnored(v: Json)
    ensures Preimage(Obj(Nested([Entry(PROTO, v)]))) == Preimage(Obj(Nested([])))
    ensures !Empty(v) ==> !SameValue(DeclaredContent(Nested([Entry(PROTO, v)])), DeclaredContent(Nested([])))
  {
    var p: Entry<Json> := Entry(PROTO, v);
    NestedPadded(p);
    PaddedPreimage(Nested([]), Nested([p]));
    if !Empty(v) {
      NestedDocumented(v);
    }
  }

  lemma NestedPadded(p: Entry<Json>)
    requires p.key == PROTO
    ensures PaddedMembers(Nested([]), Nested([p]))
  {
    var x, none: Members := [Entry(X, Bool(true))], [];
    assert PaddedMembers(none, none);
    PaddedMore(none, p, none);
    PaddedKept(x[0], none, x[0], [p]);
    assert x + none == x && [x[0]] + none == x && [x[0]] + [p] == x + [p] && [p] + none == [p];
    var m, n := Entry(K, Obj(x + none)), Entry(K, Obj(x + [p]));
    PaddedKept(m, none, n, none);
    assert [m] + none == [m] && [n] + none == [n];
  }

  lemma NestedDocumented(v: Json)
    requires !Empty(v)
    ensures !SameValue(DeclaredContent(Nested([Entry(PROTO, v)])), DeclaredContent(Nested([])))
  {
    var p: Entry<Json> := Entry(PROTO, v);
    var none: Members := [];
    NestedContent([p]);
    NestedContent(none);
    EmptyVanishes(v);
    DocumentedCons(p, none);
    assert [p] + none == [p];
    var ds, es := DocumentedMembers([p]), DocumentedMembers(none);
    assert |ds| == 1 && es == [];
    NestedDiffer(ds, es);
  }

  lemma NestedContent(more: Members)
    ensures DeclaredContent(Nested(more)) == Obj(Nested(DocumentedMembers(more)))
  {
    var none: Members := [];
    var x: Entry<Json> := Entry(X, Bool(true));
    var m: Entry<Json> := Entry(K, Obj([x] + more));
    PlainNames();
    KeptUnfold(m, none);
    DocumentedCons(x, more);
    DocumentedCons(m, none);
    assert [m] + none == [m];
    assert Declared(none) == [] && DocumentedMembers(none) == [];
    assert Documented(x.value) == x.value && !Vanishes(x.value);
    assert [x] + DocumentedMembers(more) != [];
    hide Declared, Linkage, Inherited, DocumentedMembers;
    assert Documented(m.value) == Obj([x] + DocumentedMembers(more));
    assert [Entry(K, Documented(m.value))] + none == [Entry(K, Documented(m.value))];
  }

  lemma NestedDiffer(ds: Members, es: Members)
    requires |ds| != |es|
    ensures !SameValue(Obj(Nested(ds)), Obj(Nested(es)))
  {
    var x: Members := [Entry(X, Bool(true))];
    assert |x + ds| != |x + es|;
    assert !SameValue(Obj(x + ds), Obj(x + es));
    assert Nested(es) == [Entry(K, Obj(x + es))];
  }
}

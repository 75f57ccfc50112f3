/** The base64url fragment of a permalink (RFC 4648, section 5). */
module Fragment {
  import opened Geometry
  import opened Hashing

  // --------------------------------------------------------------- alphabet

  type Symbol = v: int | 0 <= v < 64

  function Letter(v: Symbol): char {
    if v < 26 then (0x41 + v as int) as char
    else if v < 52 then (0x61 + v as int - 26) as char
    else if v < 62 then (0x30 + v as int - 52) as char
    else if v == 62 then '+' else '/'
  }

  function UrlLetter(v: Symbol): char {
    if v == 62 then '-' else if v == 63 then '_' else Letter(v)
  }

  function Value(c: char): Option<Symbol> {
    if 'A' <= c <= 'Z' then Some((c - 'A') as int)
    else if 'a' <= c <= 'z' then Some((c - 'a') as int + 26)
    else if '0' <= c <= '9' then Some((c - '0') as int + 52)
    else if c == '+' then Some(62)
    else if c == '/' then Some(63)
    else None
  }

  lemma LetterValue(v: Symbol)
    ensures Value(Letter(v)) == Some(v)
    ensures Letter(v) != '=' && UrlLetter(v) != '=' && !Space(Letter(v))
    ensures UrlLetter(v) == if Letter(v) == '+' then '-' else if Letter(v) == '/' then '_' else Letter(v)
    ensures Letter(v) == if UrlLetter(v) == '-' then '+' else if UrlLetter(v) == '_' then '/' else UrlLetter(v)
  {
  }

  // --------------------------------------------------------------- encoding

  /** The six-bit groups of the bytes. */
  function Symbols(bs: Bytes): (vs: seq<Symbol>)
  {
    if bs == [] then []
    else if |bs| == 1 then [bs[0] / 4, bs[0] % 4 * 16]
    else if |bs| == 2 then [bs[0] / 4, bs[0] % 4 * 16 + bs[1] / 16, bs[1] % 16 * 4]
    else Group(bs[0], bs[1], bs[2]) + Symbols(bs[3..])
  }

  function Group(a: byte, b: byte, c: byte): (vs: seq<Symbol>)
    ensures |vs| == 4
  {
    [a / 4, a % 4 * 16 + b / 16, b % 16 * 4 + c / 64, c % 64]
  }

  function Spell(letter: Symbol -> char, vs: seq<Symbol>): (s: string)
    ensures |s| == |vs|
  {
    if vs == [] then "" else [letter(vs[0])] + Spell(letter, vs[1..])
  }

  function Equals(n: nat): (s: string)
    ensures |s| == n
  {
    if n == 0 then "" else ['='] + Equals(n - 1)
  }

  /** Padding that brings a length to a multiple of four. */
  function PadFor(n: nat): (k: nat)
    ensures (n + k) % 4 == 0
  {
    if n % 4 == 0 then 0 else 4 - n % 4
  }

  /** Standard padded encoding, over either alphabet. */
  function Encode(letter: Symbol -> char, bs: Bytes): string {
    Spell(letter, Symbols(bs)) + Equals(PadFor(|Symbols(bs)|))
  }

  function StripEquals(s: string): string {
    if s != "" && s[|s| - 1] == '=' then StripEquals(s[..|s| - 1]) else s
  }

  function MapPlus(s: string): string {
    if s == "" then "" else [if s[0] == '+' then '-' else if s[0] == '/' then '_' else s[0]] + MapPlus(s[1..])
  }

  function MapMinus(s: string): (r: string)
    ensures |r| == |s|
  {
    if s == "" then "" else [if s[0] == '-' then '+' else if s[0] == '_' then '/' else s[0]] + MapMinus(s[1..])
  }

  /** The producer: URL-safe encoding with its padding stripped. */
  function ProducerFragment(bs: Bytes): string {
    StripEquals(Encode(UrlLetter, bs))
  }

  /** The viewer: standard encoding, letters replaced, padding stripped. */
  function ViewerFragment(bs: Bytes): string {
    StripEquals(MapPlus(Encode(Letter, bs)))
  }

  // --------------------------------------------------------------- decoding

  predicate Space(c: char) {
    c == ' ' || c == '\t' || c == '\n' || c == '\r' || c == (12 as char)
  }

  function DropSpaces(s: string): (r: string)
    ensures |r| <= |s|
  {
    if s == "" then "" else if Space(s[0]) then DropSpaces(s[1..]) else [s[0]] + DropSpaces(s[1..])
  }

  /** At most two pads, and only where they complete a group. */
  function DropPads(s: string): string {
    if |s| > 0 && |s| % 4 == 0 && s[|s| - 1] == '=' then
      if s[|s| - 2] == '=' then s[..|s| - 2] else s[..|s| - 1]
    else s
  }

  function Values(s: string): (r: Option<seq<Symbol>>)
    ensures r.Some? ==> |r.value| == |s|
  {
    if s == "" then Some([])
    else
      match (Value(s[0]), Values(s[1..]))
      case (Some(v), Some(vs)) => Some([v] + vs)
      case _ => None
  }

  function First(a: int, b: int): byte
    requires 0 <= a < 64 && 0 <= b < 64
  {
    a * 4 + b / 16
  }

  function Second(b: int, c: int): byte
    requires 0 <= b < 64 && 0 <= c < 64
  {
    b % 16 * 16 + c / 4
  }

  function Third(c: int, d: int): byte
    requires 0 <= c < 64 && 0 <= d < 64
  {
    c % 4 * 64 + d
  }

  /** Bytes of a group sequence; spare bits of a last, short group are dropped. */
  function FromSymbols(vs: seq<Symbol>): Bytes
    requires |vs| % 4 != 1
  {
    if vs == [] then []
    else if |vs| == 2 then [First(vs[0], vs[1])]
    else if |vs| == 3 then [First(vs[0], vs[1]), Second(vs[1], vs[2])]
    else [First(vs[0], vs[1]), Second(vs[1], vs[2]), Third(vs[2], vs[3])] + FromSymbols(vs[4..])
  }

  /** `atob`: `None` where it throws. */
  function Atob(s: string): Option<Bytes> {
    var t := DropPads(DropSpaces(s));
    if |t| % 4 == 1 then None
    else
      match Values(t)
      case None => None
      case Some(vs) => Some(FromSymbols(vs))
  }

  /** What the viewer decodes a fragment to. */
  function DecodeFragment(hash: string): Option<Bytes> {
    var std := MapMinus(hash);
    Atob(if |std| % 4 != 0 then std + Equals(4 - |std| % 4) else std)
  }

  // ------------------------------------------------------------- round trip

  lemma SymbolsLength(bs: Bytes)
    ensures |bs| < 3 ==> |Symbols(bs)| == if bs == [] then 0 else |bs| + 1
    ensures |bs| >= 3 ==> |Symbols(bs)| == 4 + |Symbols(bs[3..])|
  {
    hide Group;
  }

  lemma CountStep(m: nat, n: nat)
    requires n % 4 == if m % 3 == 0 then 0 else m % 3 + 1
    ensures (n + 4) % 4 == if (m + 3) % 3 == 0 then 0 else (m + 3) % 3 + 1
  {
  }

  lemma {:induction false} SymbolCount(bs: Bytes)
    ensures |Symbols(bs)| % 4 == (if |bs| % 3 == 0 then 0 else |bs| % 3 + 1)
    ensures |Symbols(bs)| % 4 != 1
    decreases |bs|
  {
    hide *;
    SymbolsLength(bs);
    if |bs| >= 3 {
      SymbolCount(bs[3..]);
      CountStep(|bs[3..]|, |Symbols(bs[3..])|);
    }
  }

  lemma GroupBytes(a: byte, b: byte, c: byte)
    ensures var g := Group(a, b, c);
            First(g[0], g[1]) == a && Second(g[1], g[2]) == b && Third(g[2], g[3]) == c
  {
  }

  lemma {:induction false} FromSymbolsInverse(bs: Bytes)
    ensures |Symbols(bs)| % 4 != 1 && FromSymbols(Symbols(bs)) == bs
    decreases |bs|
  {
    SymbolCount(bs);
    if |bs| >= 3 {
      FromSymbolsInverse(bs[3..]);
      GroupBytes(bs[0], bs[1], bs[2]);
      hide First, Second, Third, Group;
      var vs := Symbols(bs);
      assert vs == Group(bs[0], bs[1], bs[2]) + Symbols(bs[3..]);
      assert vs[4..] == Symbols(bs[3..]);
      assert bs == [bs[0], bs[1], bs[2]] + bs[3..];
    } else if |bs| == 2 {
      assert bs == [bs[0], bs[1]];
    } else if |bs| == 1 {
      assert bs == [bs[0]];
    }
  }

  lemma {:induction false} StripEqualsExact(s: string, n: nat)
    requires s == "" || s[|s| - 1] != '='
    ensures StripEquals(s + Equals(n)) == s
    decreases n
  {
    EqualsSnoc(n);
    if n == 0 {
      assert s + Equals(0) == s;
    } else {
      StripEqualsExact(s, n - 1);
      EqualsSnoc(n - 1);
      assert Equals(n)[..n - 1] == Equals(n - 1);
      var t := s + Equals(n);
      assert t[..|t| - 1] == s + Equals(n - 1);
      assert t[|t| - 1] == '=';
    }
  }

  lemma EqualsSnoc(n: nat)
    ensures forall i :: 0 <= i < n ==> Equals(n)[i] == '='
  {
  }

  lemma SpellAt(letter: Symbol -> char, vs: seq<Symbol>, i: nat)
    requires i < |vs|
    ensures Spell(letter, vs)[i] == letter(vs[i])
  {
    if i > 0 {
      SpellAt(letter, vs[1..], i - 1);
    }
  }

  lemma SpellEnd(letter: Symbol -> char, vs: seq<Symbol>)
    requires forall v :: letter(v) != '='
    ensures vs == [] || Spell(letter, vs)[|vs| - 1] != '='
  {
    if vs != [] {
      SpellAt(letter, vs, |vs| - 1);
    }
  }

  lemma LettersPlain()
    ensures forall v :: Letter(v) != '='
    ensures forall v :: UrlLetter(v) != '='
  {
    forall v ensures Letter(v) != '=' && UrlLetter(v) != '=' {
      LetterValue(v);
    }
  }

  lemma {:induction false} MapPlusAppend(s: string, t: string)
    ensures MapPlus(s + t) == MapPlus(s) + MapPlus(t)
    decreases |s|
  {
    if s == "" {
      assert s + t == t;
    } else {
      MapPlusAppend(s[1..], t);
      assert (s + t)[1..] == s[1..] + t;
    }
  }

  lemma {:induction false} MapPlusSpell(vs: seq<Symbol>)
    ensures MapPlus(Spell(Letter, vs)) == Spell(UrlLetter, vs)
    decreases |vs|
  {
    if vs != [] {
      LetterValue(vs[0]);
      MapPlusSpell(vs[1..]);
    }
  }

  lemma {:induction false} MapPlusEquals(n: nat)
    ensures MapPlus(Equals(n)) == Equals(n)
    decreases n
  {
    if n > 0 {
      MapPlusEquals(n - 1);
      assert Equals(n)[1..] == Equals(n - 1);
    }
  }

  lemma {:induction false} MapMinusSpell(vs: seq<Symbol>)
    ensures MapMinus(Spell(UrlLetter, vs)) == Spell(Letter, vs)
    decreases |vs|
  {
    if vs != [] {
      LetterValue(vs[0]);
      MapMinusSpell(vs[1..]);
    }
  }

  lemma {:induction false} SpellValues(vs: seq<Symbol>)
    ensures Values(Spell(Letter, vs)) == Some(vs)
    decreases |vs|
  {
    if vs != [] {
      LetterValue(vs[0]);
      SpellValues(vs[1..]);
      assert vs == [vs[0]] + vs[1..];
    }
  }

  lemma {:induction false} NoSpaces(vs: seq<Symbol>, n: nat)
    ensures DropSpaces(Spell(Letter, vs) + Equals(n)) == Spell(Letter, vs) + Equals(n)
    decreases |vs|
  {
    var s := Spell(Letter, vs) + Equals(n);
    if vs == [] {
      assert s == Equals(n);
      NoSpacesEquals(n);
    } else {
      LetterValue(vs[0]);
      NoSpaces(vs[1..], n);
      assert s[1..] == Spell(Letter, vs[1..]) + Equals(n);
    }
  }

  lemma {:induction false} NoSpacesEquals(n: nat)
    ensures DropSpaces(Equals(n)) == Equals(n)
    decreases n
  {
    if n > 0 {
      NoSpacesEquals(n - 1);
      assert Equals(n)[1..] == Equals(n - 1);
    }
  }

  lemma PadsDropped(s: string)
    requires |s| % 4 != 1 && (s == "" || s[|s| - 1] != '=')
    ensures DropPads(s + Equals(PadFor(|s|))) == s
  {
    var n := PadFor(|s|);
    var t := s + Equals(n);
    EqualsSnoc(n);
    if n == 2 {
      assert t[|t| - 1] == Equals(2)[1] && t[|t| - 2] == Equals(2)[0];
    } else if n == 1 {
      assert t[|t| - 1] == Equals(1)[0] && t[|t| - 2] == s[|s| - 1];
    }
  }

  /** Producer and viewer write the same fragment for the same bytes: the URL-safe
      letters of the groups, nothing else. */
  lemma FragmentsAgree(bs: Bytes)
    ensures ProducerFragment(bs) == ViewerFragment(bs) == Spell(UrlLetter, Symbols(bs))
  {
    var vs := Symbols(bs);
    LettersPlain();
    SpellEnd(UrlLetter, vs);
    MapPlusSpell(vs);
    MapPlusEquals(PadFor(|vs|));
    MapPlusAppend(Spell(Letter, vs), Equals(PadFor(|vs|)));
    StripEqualsExact(Spell(UrlLetter, vs), PadFor(|vs|));
  }

  /** The alphabet of RFC 4648, section 5: capitals, small letters, digits, and two
      more. */
  lemma Alphabet(v: Symbol)
    ensures v < 26 ==> UrlLetter(v) - 'A' == v as char && UrlLetter(v) <= 'Z'
    ensures 26 <= v < 52 ==> UrlLetter(v) - 'a' == (v - 26) as char && UrlLetter(v) <= 'z'
    ensures 52 <= v < 62 ==> UrlLetter(v) - '0' == (v - 52) as char && UrlLetter(v) <= '9'
    ensures v >= 62 ==> UrlLetter(v) == if v == 62 then '-' else '_'
  {
  }

  /** A digit string read past its end gives zeros. */
  function DigitAt(ds: seq<int>, i: nat): int {
    if i < |ds| then ds[i] else 0
  }

  /** The number that four base-64 digits spell, and that three bytes do. */
  function Sextets(vs: seq<int>, i: nat): int {
    ((DigitAt(vs, i) * 64 + DigitAt(vs, i + 1)) * 64 + DigitAt(vs, i + 2)) * 64 + DigitAt(vs, i + 3)
  }

  function Octets(bs: seq<int>, i: nat): int {
    (DigitAt(bs, i) * 256 + DigitAt(bs, i + 1)) * 256 + DigitAt(bs, i + 2)
  }

  lemma SextetsTail(vs: seq<int>, i: nat)
    requires |vs| >= 4
    ensures Sextets(vs, i + 4) == Sextets(vs[4..], i)
  {
    assert forall j: nat :: DigitAt(vs, j + 4) == DigitAt(vs[4..], j);
    hide DigitAt;
  }

  lemma OctetsTail(bs: seq<int>, i: nat)
    requires |bs| >= 3
    ensures Octets(bs, i + 3) == Octets(bs[3..], i)
  {
    assert forall j: nat :: DigitAt(bs, j + 3) == DigitAt(bs[3..], j);
    hide DigitAt;
  }

  /** The bits are kept in order: any three bytes and the four digits they give
      spell the same number, the most significant first; what is missing at the end
      counts as zero. */
  lemma {:induction false} SymbolsValue(bs: Bytes, k: nat)
    requires 3 * k < |bs|
    ensures Sextets(Symbols(bs), 4 * k) == Octets(bs, 3 * k)
    decreases |bs|
  {
    hide *;
    if k == 0 {
      FirstValue(bs);
    } else {
      SymbolsValue(bs[3..], k - 1);
      TailSymbols(bs);
      SextetsTail(Symbols(bs), 4 * (k - 1));
      OctetsTail(bs, 3 * (k - 1));
    }
  }

  lemma TailSymbols(bs: Bytes)
    requires |bs| >= 3
    ensures |Symbols(bs)| >= 4 && Symbols(bs)[4..] == Symbols(bs[3..])
  {
    hide Group;
  }

  lemma FirstValue(bs: Bytes)
    requires bs != []
    ensures Sextets(Symbols(bs), 0) == Octets(bs, 0)
  {
    if |bs| >= 3 {
      GroupValue(bs[0], bs[1], bs[2]);
      hide Group;
    }
  }

  lemma GroupValue(a: byte, b: byte, c: byte)
    ensures var g := Group(a, b, c);
            ((g[0] as int * 64 + g[1]) * 64 + g[2]) * 64 + g[3] == (a as int * 256 + b) * 256 + c
  {
  }

  /** The bits of a last, short group that no byte uses. */
  predicate SpareBitsClear(vs: seq<Symbol>)
    requires |vs| % 4 != 1
  {
    (|vs| % 4 == 2 ==> vs[|vs| - 1] % 16 == 0) && (|vs| % 4 == 3 ==> vs[|vs| - 1] % 4 == 0)
  }

  lemma {:induction false} SymbolsInverse(vs: seq<Symbol>)
    requires |vs| % 4 != 1
    ensures Symbols(FromSymbols(vs)) == vs <==> SpareBitsClear(vs)
    decreases |vs|
  {
    if |vs| >= 4 {
      hide Symbols, FromSymbols, SpareBitsClear;
      SymbolsInverse(vs[4..]);
      GroupInverse(vs);
    } else {
      ShortInverse(vs);
    }
  }

  /** The parts of two groups, read back from the byte they share. */
  lemma SharedByte(a: nat, b: nat)
    requires a < 64 && b < 64
    ensures First(a, b) / 4 == a && First(a, b) % 4 == b / 16
    ensures Second(a, b) / 16 == a % 16 && Second(a, b) % 16 == b / 4
  {
  }

  lemma TwoInverse(a: Symbol, b: Symbol)
    ensures Symbols([First(a, b)]) == [a, b / 16 * 16]
  {
    SharedByte(a, b);
    hide First;
  }

  lemma ThreeInverse(a: Symbol, b: Symbol, c: Symbol)
    ensures Symbols([First(a, b), Second(b, c)]) == [a, b, c / 4 * 4]
  {
    SharedByte(a, b);
    SharedByte(b, c);
    TwoSymbols(First(a, b), Second(b, c));
    hide *;
  }

  lemma TwoSymbols(x: byte, y: byte)
    ensures Symbols([x, y]) == [x / 4, x % 4 * 16 + y / 16, y % 16 * 4]
  {
  }

  lemma ShortInverse(vs: seq<Symbol>)
    requires |vs| < 4 && |vs| != 1
    ensures Symbols(FromSymbols(vs)) == vs <==> SpareBitsClear(vs)
  {
    hide Symbols, First, Second, Third;
    if |vs| == 3 {
      var a, b, c := vs[0], vs[1], vs[2];
      assert vs == [a, b, c];
      ThreeInverse(a, b, c);
      assert [a, b, c / 4 * 4] == vs <==> c % 4 == 0;
    } else if |vs| == 2 {
      var a, b := vs[0], vs[1];
      assert vs == [a, b];
      TwoInverse(a, b);
      assert [a, b / 16 * 16] == vs <==> b % 16 == 0;
    } else {
      NoSymbols();
    }
  }

  lemma NoSymbols()
    ensures Symbols([]) == [] && FromSymbols([]) == []
  {
  }

  /** Three bytes written from the parts of four groups give the groups back. */
  lemma GroupOfParts(a: nat, b1: nat, b0: nat, c1: nat, c0: nat, d: nat)
    requires a < 64 && b1 < 4 && b0 < 16 && c1 < 16 && c0 < 4 && d < 64
    ensures Group(a * 4 + b1, b0 * 16 + c1, c0 * 64 + d) == [a, b1 * 16 + b0, c1 * 4 + c0, d]
  {
    assert (a * 4 + b1) / 4 == a && (a * 4 + b1) % 4 == b1;
    assert (b0 * 16 + c1) / 16 == b0 && (b0 * 16 + c1) % 16 == c1;
    assert (c0 * 64 + d) / 64 == c0 && (c0 * 64 + d) % 64 == d;
  }

  lemma GroupOfBytes(a: Symbol, b: Symbol, c: Symbol, d: Symbol)
    ensures Group(First(a, b), Second(b, c), Third(c, d)) == [a, b, c, d]
  {
    var b1, b0, c1, c0 := b / 16, b % 16, c / 4, c % 4;
    assert b1 * 16 + b0 == b && c1 * 4 + c0 == c;
    assert First(a, b) == a * 4 + b1 && Second(b, c) == b0 * 16 + c1 && Third(c, d) == c0 * 64 + d;
    hide *;
    GroupOfParts(a, b1, b0, c1, c0, d);
  }

  lemma FromSymbolsUnfold(vs: seq<Symbol>)
    requires |vs| >= 4 && |vs| % 4 != 1
    ensures FromSymbols(vs) ==
            [First(vs[0], vs[1]), Second(vs[1], vs[2]), Third(vs[2], vs[3])] + FromSymbols(vs[4..])
  {
    hide First, Second, Third;
  }

  lemma SymbolsUnfold(a: byte, b: byte, c: byte, rest: Bytes)
    ensures Symbols([a, b, c] + rest) == Group(a, b, c) + Symbols(rest)
  {
    hide Group;
    assert ([a, b, c] + rest)[3..] == rest;
  }

  lemma SpareBitsTail(vs: seq<Symbol>)
    requires |vs| >= 4 && |vs| % 4 != 1
    ensures SpareBitsClear(vs) <==> SpareBitsClear(vs[4..])
  {
    var rest := vs[4..];
    assert |rest| % 4 == |vs| % 4;
    assert rest != [] ==> rest[|rest| - 1] == vs[|vs| - 1];
  }

  lemma GroupInverse(vs: seq<Symbol>)
    requires |vs| >= 4 && |vs| % 4 != 1
    ensures Symbols(FromSymbols(vs)) == vs <==> Symbols(FromSymbols(vs[4..])) == vs[4..]
    ensures SpareBitsClear(vs) <==> SpareBitsClear(vs[4..])
  {
    hide *;
    SpareBitsTail(vs);
    var rest := vs[4..];
    GroupThrough(vs, rest);
    SameFour(vs, Symbols(FromSymbols(rest)));
  }

  lemma GroupThrough(vs: seq<Symbol>, rest: seq<Symbol>)
    requires |vs| >= 4 && |vs| % 4 != 1 && |rest| % 4 != 1 && rest == vs[4..]
    ensures Symbols(FromSymbols(vs)) == [vs[0], vs[1], vs[2], vs[3]] + Symbols(FromSymbols(rest))
  {
    FromSymbolsUnfold(vs);
    var a, b, c := First(vs[0], vs[1]), Second(vs[1], vs[2]), Third(vs[2], vs[3]);
    var bs := FromSymbols(rest);
    hide *;
    SymbolsUnfold(a, b, c, bs);
    GroupOfBytes(vs[0], vs[1], vs[2], vs[3]);
  }

  lemma SameFour(vs: seq<Symbol>, ws: seq<Symbol>)
    requires |vs| >= 4
    ensures [vs[0], vs[1], vs[2], vs[3]] + ws == vs <==> ws == vs[4..]
  {
    var whole := [vs[0], vs[1], vs[2], vs[3]] + ws;
    assert whole[4..] == ws;
    if ws == vs[4..] {
      assert whole == vs;
    }
  }

  /** What `atob` makes of padded letters. */
  lemma AtobSpelled(vs: seq<Symbol>)
    requires |vs| % 4 != 1
    ensures Atob(Spell(Letter, vs) + Equals(PadFor(|vs|))) == Some(FromSymbols(vs))
  {
    LettersPlain();
    SpellEnd(Letter, vs);
    NoSpaces(vs, PadFor(|vs|));
    PadsDropped(Spell(Letter, vs));
    SpellValues(vs);
  }

  /** An unpadded fragment is padded by its length and decoded. */
  lemma DecodeSpelled(vs: seq<Symbol>)
    requires |vs| % 4 != 1
    ensures DecodeFragment(Spell(UrlLetter, vs)) == Some(FromSymbols(vs))
  {
    MapMinusSpell(vs);
    AtobSpelled(vs);
    hide Atob, Spell, MapMinus, FromSymbols;
    assert Spell(Letter, vs) + Equals(0) == Spell(Letter, vs);
  }

  /** Round trip: for every byte string, the viewer decodes the fragment back to
      it; its length is never one more than a multiple of four. */
  lemma FragmentRoundTrip(bs: Bytes)
    ensures DecodeFragment(ProducerFragment(bs)) == Some(bs)
    ensures |ProducerFragment(bs)| % 4 != 1
  {
    hide DecodeFragment;
    FragmentsAgree(bs);
    FromSymbolsInverse(bs);
    DecodeSpelled(Symbols(bs));
  }

  lemma SpellInjective(vs: seq<Symbol>, ws: seq<Symbol>)
    requires Spell(UrlLetter, vs) == Spell(UrlLetter, ws)
    ensures vs == ws
  {
    MapMinusSpell(vs);
    MapMinusSpell(ws);
    SpellValues(vs);
    SpellValues(ws);
  }

  /** Decoding is not injective on fragments: an unpadded fragment is the encoding
      of what it decodes to exactly when its spare bits are clear. */
  lemma FragmentCanonical(vs: seq<Symbol>)
    requires |vs| % 4 != 1
    ensures DecodeFragment(Spell(UrlLetter, vs)) == Some(FromSymbols(vs))
    ensures ProducerFragment(FromSymbols(vs)) == Spell(UrlLetter, vs) <==> SpareBitsClear(vs)
  {
    hide DecodeFragment, ProducerFragment, FromSymbols, Symbols, Spell;
    DecodeSpelled(vs);
    FragmentsAgree(FromSymbols(vs));
    SymbolsInverse(vs);
    if Spell(UrlLetter, Symbols(FromSymbols(vs))) == Spell(UrlLetter, vs) {
      SpellInjective(Symbols(FromSymbols(vs)), vs);
    }
  }

  // -------------------------------------------------- what `atob` lets through

  lemma {:induction false} DropSpacesAppend(s: string, t: string)
    ensures DropSpaces(s + t) == DropSpaces(s) + DropSpaces(t)
    decreases |s|
  {
    if s == "" {
      assert s + t == t;
    } else {
      assert (s + t)[1..] == s[1..] + t;
      DropSpacesAppend(s[1..], t);
    }
  }

  /** White space anywhere makes no difference. */
  lemma AtobIgnoresSpaces(s: string, c: char, t: string)
    requires c in {' ', '\t', '\n', 12 as char, '\r'}
    ensures Atob(s + [c] + t) == Atob(s + t)
  {
    DropSpacesAppend(s + [c], t);
    DropSpacesAppend(s, [c]);
    DropSpacesAppend(s, t);
    var blank := [c];
    assert DropSpaces(blank) == DropSpaces(blank[1..]) == "";
    var kept := DropSpaces(s);
    assert kept + "" == kept;
    hide DropSpaces, DropPads, Values, FromSymbols;
    assert DropSpaces(s + [c] + t) == DropSpaces(s + t);
  }

  lemma {:induction false} ValuesExact(s: string)
    ensures Values(s).Some? <==> forall i :: 0 <= i < |s| ==> Value(s[i]).Some?
    decreases |s|
  {
    if s != "" {
      ValuesExact(s[1..]);
      hide Value;
      if Values(s).None? && Value(s[0]).Some? {
        var i :| 0 <= i < |s[1..]| && Value(s[1..][i]).None?;
        assert s[i + 1] == s[1..][i];
      }
    }
  }

  lemma {:induction false} Unspaced(s: string)
    requires forall i :: 0 <= i < |s| ==> !Space(s[i])
    ensures DropSpaces(s) == s
    decreases |s|
  {
    if s != "" {
      hide Space;
      Unspaced(s[1..]);
    }
  }

  /** Text without white space and padding is decoded exactly when it has letters of
      the alphabet only and not one more than a multiple of four of them. */
  lemma AtobExact(s: string)
    requires forall i :: 0 <= i < |s| ==> !Space(s[i]) && s[i] != '='
    ensures Atob(s).Some? <==>
            && |s| % 4 != 1
            && forall i :: 0 <= i < |s| ==>
                 'A' <= s[i] <= 'Z' || 'a' <= s[i] <= 'z' || '0' <= s[i] <= '9' || s[i] == '+' || s[i] == '/'
  {
    Unspaced(s);
    ValuesExact(s);
    assert DropPads(s) == s;
  }

  // --------------------------------------------------------------- the codec

  /** A string whose characters are byte values, as `atob` gives and `btoa` takes. */
  type BinaryString = s: string | forall i :: 0 <= i < |s| ==> (s[i] as int) < 256 witness ""

  function CodeOf(c: char): byte
    requires (c as int) < 256
  {
    c as int
  }

  function BytesOf(bin: BinaryString): (bs: Bytes)
    ensures |bs| == |bin|
  {
    seq(|bin|, i requires 0 <= i < |bin| => CodeOf(bin[i]))
  }

  function BinaryOf(bs: Bytes): (bin: BinaryString)
    ensures |bin| == |bs|
  {
    seq(|bs|, i requires 0 <= i < |bs| => bs[i] as char)
  }

  lemma BinaryInverse(bs: Bytes)
    ensures BytesOf(BinaryOf(bs)) == bs
  {
  }

  /** The loop that turns the decoded binary string into bytes. */
  method BytesOfBinary(bin: BinaryString) returns (bytes: array<byte>)
    ensures fresh(bytes) && bytes[..] == BytesOf(bin)
  {
    bytes := new byte[|bin|](_ => 0);
    for i := 0 to |bin|
      invariant forall j :: 0 <= j < i ==> bytes[j] == CodeOf(bin[j])
    {
      bytes[i] := bin[i] as int;
    }
  }

  /** The loop that turns bytes into a binary string before encoding. */
  method BinaryOfBytes(bytes: Bytes) returns (bin: BinaryString)
    ensures bin == BinaryOf(bytes)
  {
    var s := "";
    for i := 0 to |bytes|
      invariant |s| == i
      invariant forall j :: 0 <= j < i ==> s[j] == bytes[j] as char
    {
      s := s + [bytes[i] as char];
    }
    bin := s;
  }

  /** `atob` on binary strings. */
  function AtobBinary(s: string): Option<BinaryString> {
    match Atob(s)
    case None => None
    case Some(bs) => Some(BinaryOf(bs))
  }

  /** `btoa`: the padded standard encoding of the character codes. */
  function Btoa(bin: BinaryString): string {
    Encode(Letter, BytesOf(bin))
  }

  /** `decodeFragment` up to the bytes it parses; `None` where `atob` throws. */
  method DecodeBytes(hash: string) returns (r: Option<Bytes>)
    ensures r == DecodeFragment(hash)
  {
    hide Atob, MapMinus;
    var std := MapMinus(hash);
    var pad := |std| % 4;
    if pad != 0 {
      std := std + Equals(4 - pad);
    }
    var bin := AtobBinary(std);
    if bin.None? {
      return None;
    }
    var bytes := BytesOfBinary(bin.value);
    BinaryInverse(Atob(std).value);
    return Some(bytes[..]);
  }

  /** `encodeFragment` from the bytes on: the viewer decodes what it writes back to
      the same bytes, and it is what the producer writes. */
  method EncodeBytes(bytes: Bytes) returns (fragment: string)
    ensures fragment == ViewerFragment(bytes) == ProducerFragment(bytes)
    ensures DecodeFragment(fragment) == Some(bytes)
  {
    var bin := BinaryOfBytes(bytes);
    fragment := StripEquals(MapPlus(Btoa(bin)));
    BinaryInverse(bytes);
    FragmentsAgree(bytes);
    FragmentRoundTrip(bytes);
  }
}

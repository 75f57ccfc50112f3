/** A reader for JSON text without white space and fractions (RFC 8259, sections
    3 to 7), written independently of the printer, as the measure of what a
    printed text means. */
module Reader {
  import opened Geometry
  import opened Json

  // -------------------------------------------------------------- strings

  function HexUnitValue(u: CodeUnit): (v: Option<nat>)
    ensures v.Some? ==> v.value < 16
  {
    if 0x30 <= u <= 0x39 then Some(u - 0x30)
    else if 0x41 <= u <= 0x46 then Some(u - 0x41 + 10)
    else if 0x61 <= u <= 0x66 then Some(u - 0x61 + 10)
    else None
  }

  /** The unit that an escape stands for and its length after the backslash. */
  function ReadEscape(t: Text): (r: Option<(CodeUnit, nat)>)
    ensures r.Some? ==> 1 <= r.value.1 <= |t|
  {
    if t == [] then None
    else if t[0] == 0x22 || t[0] == 0x5C || t[0] == 0x2F then Some((t[0], 1))
    else if t[0] == 0x62 then Some((0x08, 1))
    else if t[0] == 0x66 then Some((0x0C, 1))
    else if t[0] == 0x6E then Some((0x0A, 1))
    else if t[0] == 0x72 then Some((0x0D, 1))
    else if t[0] == 0x74 then Some((0x09, 1))
    else if t[0] == 0x75 && |t| >= 5 then
      match (HexUnitValue(t[1]), HexUnitValue(t[2]), HexUnitValue(t[3]), HexUnitValue(t[4]))
      case (Some(a), Some(b), Some(c), Some(d)) => Some((a * 4096 + b * 256 + c * 16 + d, 5))
      case _ => None
    else None
  }

  /** The string that ends at the next unescaped quote, and the text after it. */
  function ReadString(t: Text): (r: Option<(Text, Text)>)
    ensures r.Some? ==> |r.value.1| < |t|
    decreases |t|
  {
    if t == [] || t[0] < 0x20 then None
    else if t[0] == 0x22 then Some(([], t[1..]))
    else if t[0] == 0x5C then
      match ReadEscape(t[1..])
      case None => None
      case Some((u, n)) => StartWith(u, ReadString(t[1 + n..]))
    else StartWith(t[0], ReadString(t[1..]))
  }

  function StartWith(u: CodeUnit, r: Option<(Text, Text)>): Option<(Text, Text)> {
    match r
    case None => None
    case Some((s, rest)) => Some(([u] + s, rest))
  }

  lemma EscapeReads(u: CodeUnit, more: Text)
    ensures ReadString(Escape(u) + more) == StartWith(u, ReadString(more))
  {
    var e := Escape(u);
    var t := e + more;
    assert t[|e|..] == more;
    if |e| == 1 {
      assert t[0] == u;
    } else {
      assert t[0] == e[0] == 0x5C;
      assert t[1..] == e[1..] + more;
      ShortEscapeReads(u, more);
      assert t[1 + (|e| - 1)..] == more;
    }
  }

  lemma ShortEscapeReads(u: CodeUnit, more: Text)
    requires |Escape(u)| > 1
    ensures ReadEscape(Escape(u)[1..] + more) == Some((u, |Escape(u)| - 1))
  {
    if |Escape(u)| == 6 {
      HexUnitReads(u / 16);
      HexUnitReads(u % 16);
    }
  }

  lemma HexUnitReads(v: nat)
    requires v < 16
    ensures HexUnitValue(HexUnit(v)) == Some(v)
  {
  }

  /** A printed string reads back. */
  lemma {:induction false} StringReads(s: Text, x: Text)
    ensures ReadString(EscapeAll(s) + [0x22] + x) == Some((s, x))
    decreases |s|
  {
    if s == [] {
      assert EscapeAll(s) + [0x22] + x == [0x22] + x;
      assert ([0x22] + x)[1..] == x;
    } else {
      hide Escape, ReadString;
      var more := EscapeAll(s[1..]) + [0x22] + x;
      StringReads(s[1..], x);
      EscapeReads(s[0], more);
      assert EscapeAll(s) + [0x22] + x == Escape(s[0]) + more;
      assert s == [s[0]] + s[1..];
    }
  }

  // -------------------------------------------------------------- numbers

  predicate IsDigit(u: CodeUnit) {
    0x30 <= u <= 0x39
  }

  /** The number that starts with `n` and goes on with the digits ahead. */
  function ReadDigits(t: Text, n: nat): (r: (nat, Text))
    ensures |r.1| <= |t|
    decreases |t|
  {
    if t != [] && IsDigit(t[0]) then ReadDigits(t[1..], 10 * n + (t[0] - 0x30)) else (n, t)
  }

  /** At least one digit, and no leading zero. */
  function ReadNatural(t: Text): (r: Option<(nat, Text)>)
    ensures r.Some? ==> |r.value.1| < |t|
  {
    if t == [] || !IsDigit(t[0]) then None
    else if t[0] == 0x30 then
      if |t| > 1 && IsDigit(t[1]) then None else Some((0, t[1..]))
    else Some(ReadDigits(t[1..], t[0] - 0x30))
  }

  function ReadInteger(t: Text): (r: Option<(int, Text)>)
    ensures r.Some? ==> |r.value.1| < |t|
  {
    if t != [] && t[0] == 0x2D then
      match ReadNatural(t[1..])
      case None => None
      case Some((n, rest)) =>
        Some((0 - n, rest))
    else
      match ReadNatural(t)
      case None => None
      case Some((n, rest)) => Some((n, rest))
  }

  /** What follows a value inside a text: nothing, or a separator. */
  predicate Stops(x: Text) {
    x == [] || x[0] == 0x2C || x[0] == 0x5D || x[0] == 0x7D
  }

  lemma DigitsAreDigits(n: nat)
    ensures |Digits(n)| > 0 && forall i :: 0 <= i < |Digits(n)| ==> IsDigit(Digits(n)[i])
  {
  }

  lemma {:induction false} NoLeadingZero(n: nat)
    requires n > 0
    ensures Digits(n) != [] && Digits(n)[0] != 0x30
    decreases n
  {
    if n >= 10 {
      NoLeadingZero(n / 10);
    }
  }

  lemma {:induction false} DigitsRead(n: nat, x: Text)
    ensures ReadDigits(Digits(n) + x, 0) == ReadDigits(x, n)
    decreases n
  {
    var d: CodeUnit := 0x30 + n % 10;
    assert ([d] + x)[1..] == x;
    if n >= 10 {
      DigitsRead(n / 10, [d] + x);
      assert Digits(n) + x == Digits(n / 10) + ([d] + x);
    }
  }

  lemma NaturalReads(n: nat, x: Text)
    requires Stops(x)
    ensures ReadNatural(Digits(n) + x) == Some((n, x))
  {
    DigitsAreDigits(n);
    var t := Digits(n) + x;
    if n == 0 {
      assert t == [0x30] + x && t[1..] == x;
    } else {
      NoLeadingZero(n);
      DigitsRead(n, x);
      assert ReadDigits(x, n) == (n, x);
      hide Digits;
      assert t[0] == Digits(n)[0];
      assert ReadDigits(t, 0) == ReadDigits(t[1..], t[0] - 0x30);
    }
  }

  /** A printed integer reads back, once a separator has to follow: "1" is a
      prefix of "12". */
  lemma IntegerReads(n: int, x: Text)
    requires Stops(x)
    ensures ReadInteger(Decimal(n) + x) == Some((n, x))
  {
    var m: nat := if n < 0 then -n else n;
    NaturalReads(m, x);
    DigitsAreDigits(m);
    hide Digits, ReadNatural;
    var t := Decimal(n) + x;
    if n < 0 {
      assert t == [0x2D] + (Digits(m) + x) && t[1..] == Digits(m) + x;
    } else {
      assert t[0] == Digits(m)[0];
    }
  }

  // --------------------------------------------------------------- values

  /** A value at the front of the text, and the text after it. */
  function ReadValue(t: Text): (r: Option<(Json, Text)>)
    ensures r.Some? ==> |r.value.1| < |t|
    decreases |t|, 0
  {
    if t == [] then None
    else if t[0] == 0x22 then
      match ReadString(t[1..])
      case None => None
      case Some((s, rest)) => Some((Str(s), rest))
    else if t[0] == 0x5B then
      if |t| > 1 && t[1] == 0x5D then Some((Arr([]), t[2..]))
      else
        match ReadItems(t[1..])
        case None => None
        case Some((items, rest)) => Some((Arr(items), rest))
    else if t[0] == 0x7B then
      if |t| > 1 && t[1] == 0x7D then Some((Obj([]), t[2..]))
      else
        match ReadMembers(t[1..])
        case None => None
        case Some((members, rest)) => Some((Obj(members), rest))
    else if [0x6E, 0x75, 0x6C, 0x6C] <= t then Some((Null, t[4..]))
    else if [0x74, 0x72, 0x75, 0x65] <= t then Some((Bool(true), t[4..]))
    else if [0x66, 0x61, 0x6C, 0x73, 0x65] <= t then Some((Bool(false), t[5..]))
    else
      match ReadInteger(t)
      case None => None
      case Some((n, rest)) => Some((Num(n as real), rest))
  }

  /** The elements up to the closing bracket. */
  function ReadItems(t: Text): (r: Option<(seq<Json>, Text)>)
    ensures r.Some? ==> |r.value.1| < |t|
    decreases |t|, 1
  {
    match ReadValue(t)
    case None => None
    case Some((v, rest)) => ItemsAfter(v, rest)
  }

  function ItemsAfter(v: Json, rest: Text): (r: Option<(seq<Json>, Text)>)
    ensures r.Some? ==> |r.value.1| < |rest|
    decreases |rest|, 2
  {
    if rest == [] then None
    else if rest[0] == 0x5D then Some(([v], rest[1..]))
    else if rest[0] == 0x2C then
      match ReadItems(rest[1..])
      case None => None
      case Some((vs, more)) => Some(([v] + vs, more))
    else None
  }

  /** The members up to the closing brace. */
  function ReadMembers(t: Text): (r: Option<(Members, Text)>)
    ensures r.Some? ==> |r.value.1| < |t|
    decreases |t|, 1
  {
    if t == [] || t[0] != 0x22 then None
    else
      match ReadString(t[1..])
      case None => None
      case Some((k, rest)) =>
        if rest == [] || rest[0] != 0x3A then None
        else
          match ReadValue(rest[1..])
          case None => None
          case Some((v, more)) => MembersAfter(Entry(k, v), more)
  }

  function MembersAfter(m: Entry<Json>, rest: Text): (r: Option<(Members, Text)>)
    ensures r.Some? ==> |r.value.1| < |rest|
    decreases |rest|, 2
  {
    if rest == [] then None
    else if rest[0] == 0x7D then Some(([m], rest[1..]))
    else if rest[0] == 0x2C then
      match ReadMembers(rest[1..])
      case None => None
      case Some((ms, more)) => Some(([m] + ms, more))
    else None
  }
}

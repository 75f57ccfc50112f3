/** Sealing an event capsule, and checking the id of a sealed one. */
module Sealing {
  import opened Geometry
  import opened Hashing
  import opened Json
  import opened Canonical
  import opened Normalize
  import opened Losses
  import opened CapsuleId

  // ------------------------------------------------------------ dictionaries

  function Lookup(ms: Members, k: Text): (v: Option<Json>)
    ensures v.Some? ==> Entry(k, v.value) in ms
    ensures v.None? <==> forall m :: m in ms ==> m.key != k
  {
    if ms == [] then None
    else if ms[0].key == k then Some(ms[0].value)
    else Lookup(ms[1..], k)
  }

  /** Dictionary assignment: overwrite in place, or append. */
  function SetItem(ms: Members, k: Text, v: Json): Members {
    if ms == [] then [Entry(k, v)]
    else if ms[0].key == k then [Entry(k, v)] + ms[1..]
    else [ms[0]] + SetItem(ms[1..], k, v)
  }

  lemma {:induction false} SetItemMeans(ms: Members, k: Text, v: Json)
    requires DistinctKeys(ms)
    ensures DistinctKeys(SetItem(ms, k, v))
    ensures forall m :: m in SetItem(ms, k, v) <==> m == Entry(k, v) || (m in ms && m.key != k)
    decreases |ms|
  {
    if ms != [] {
      assert ms == [ms[0]] + ms[1..];
      if ms[0].key != k {
        SetItemMeans(ms[1..], k, v);
        DistinctCons(ms[0], SetItem(ms[1..], k, v));
      } else {
        DistinctCons(Entry(k, v), ms[1..]);
      }
    }
  }

  lemma DistinctCons(m: Entry<Json>, rest: Members)
    requires DistinctKeys(rest) && forall x :: x in rest ==> x.key != m.key
    ensures DistinctKeys([m] + rest)
  {
    forall i | 0 <= i < |rest| ensures rest[i].key != m.key {
      assert rest[i] in rest;
    }
  }

  // ----------------------------------------------------------------- sealing

  const SPEC_VERSION := Units("spec_version")
  const FORMAT_VERSION := Units("format_version")
  const PAYLOAD := Units("asg_payload")
  const SIGNATURE := Units("asg_signature")

  predicate HeaderKey(k: Text) {
    k == SPEC_VERSION || k == FORMAT_VERSION || k == CAPSULE_ID
  }

  /** The versions, the id, and then the other members of the body in order. */
  function SealedFrom(spec: Json, format: Json, id: string, body: Members): Members {
    [Entry(SPEC_VERSION, spec), Entry(FORMAT_VERSION, format), Entry(CAPSULE_ID, Str(Units(id)))]
    + Without(body, k => HeaderKey(k))
  }

  ghost predicate Sealable(H: Hash, body: Members) {
    Lookup(body, SPEC_VERSION).Some? && Lookup(body, FORMAT_VERSION).Some? && ComputeCapsuleId(H, Obj(body)).Some?
  }

  /** A body with its versions, under a given id. */
  ghost function SealedUnder(id: string, body: Members): Members
    requires Lookup(body, SPEC_VERSION).Some? && Lookup(body, FORMAT_VERSION).Some?
  {
    SealedFrom(Lookup(body, SPEC_VERSION).value, Lookup(body, FORMAT_VERSION).value, id, body)
  }

  ghost function SealOf(H: Hash, body: Members): Members
    requires Sealable(H, body)
  {
    SealedUnder(ComputeCapsuleId(H, Obj(body)).value, body)
  }
  /** The sealed record once the first `n` members of the body were considered. */
  ghost function Filled(header: Members, body: Members, n: nat): Members
    requires n <= |body|
  {
    header + Without(body[..n], k => HeaderKey(k))
  }

  lemma FilledEnds(header: Members, body: Members)
    ensures Filled(header, body, 0) == header
    ensures Filled(header, body, |body|) == header + Without(body, k => HeaderKey(k))
  {
    assert body[..0] == [] && body[..|body|] == body;
  }

  lemma FilledStep(header: Members, body: Members, n: nat)
    requires DistinctKeys(body) && n < |body| && |header| == 3
    requires header[0].key == SPEC_VERSION && header[1].key == FORMAT_VERSION && header[2].key == CAPSULE_ID
    ensures (exists m :: m in Filled(header, body, n) && m.key == body[n].key) <==> HeaderKey(body[n].key)
    ensures Filled(header, body, n + 1) ==
            if HeaderKey(body[n].key) then Filled(header, body, n) else Filled(header, body, n) + [body[n]]
  {
    hide Without;
    WithoutSnoc(body, n, k => HeaderKey(k));
    NotYetPresent(body, n, header, Filled(header, body, n));
  }

  /** The loop that fills the sealed record key by key. */
  method Fill(header: Members, body: Members) returns (out: Members)
    requires DistinctKeys(body) && |header| == 3
    requires header[0].key == SPEC_VERSION && header[1].key == FORMAT_VERSION && header[2].key == CAPSULE_ID
    ensures out == header + Without(body, k => HeaderKey(k))
  {
    out := header;
    FilledEnds(header, body);
    for n := 0 to |body|
      invariant out == Filled(header, body, n)
    {
      FilledStep(header, body, n);
      hide Filled, HeaderKey;
      var present := Has(out, body[n].key);
      if !present {
        out := out + [body[n]];
      }
    }
  }

  /** `None` is an exception. */
  method Seal(H: Hash, body: Members) returns (sealed: Option<Members>)
    requires DistinctKeys(body)
    ensures sealed.Some? <==> Sealable(H, body)
    ensures sealed.Some? ==> sealed.value == SealOf(H, body)
  {
    hide Without, ComputeCapsuleId, Lookup;
    var id := ComputeId(H, Obj(body));
    var spec, format := Lookup(body, SPEC_VERSION), Lookup(body, FORMAT_VERSION);
    if id.None? || spec.None? || format.None? {
      return None;
    }
    var out := Fill([Entry(SPEC_VERSION, spec.value), Entry(FORMAT_VERSION, format.value),
                     Entry(CAPSULE_ID, Str(Units(id.value)))], body);
    return Some(out);
  }

  lemma NotYetPresent(body: Members, n: nat, header: Members, out: Members)
    requires DistinctKeys(body) && n < |body| && |header| == 3
    requires header[0].key == SPEC_VERSION && header[1].key == FORMAT_VERSION && header[2].key == CAPSULE_ID
    requires out == header + Without(body[..n], k => HeaderKey(k))
    ensures (exists m :: m in out && m.key == body[n].key) <==> HeaderKey(body[n].key)
  {
    WithoutSet(body[..n], k => HeaderKey(k));
    var rest := Without(body[..n], k => HeaderKey(k));
    HeaderNames(header, body[n].key);
    NotBefore(body, n);
    hide *;
    assert forall m :: m in out <==> m in header || m in rest;
    assert forall m :: m in rest ==> m in body[..n];
  }

  lemma HeaderNames(header: Members, k: Text)
    requires |header| == 3
    requires header[0].key == SPEC_VERSION && header[1].key == FORMAT_VERSION && header[2].key == CAPSULE_ID
    ensures HeaderKey(k) <==> exists m :: m in header && m.key == k
  {
    if HeaderKey(k) {
      var i := if k == SPEC_VERSION then 0 else if k == FORMAT_VERSION then 1 else 2;
      assert header[i] in header;
    }
  }

  lemma NotBefore(body: Members, n: nat)
    requires DistinctKeys(body) && n < |body|
    ensures forall m :: m in body[..n] ==> m.key != body[n].key
  {
  }

  method Has(ms: Members, k: Text) returns (found: bool)
    ensures found <==> exists m :: m in ms && m.key == k
  {
    found := false;
    for i := 0 to |ms|
      invariant found <==> exists j :: 0 <= j < i && ms[j].key == k
    {
      if ms[i].key == k {
        found := true;
      }
    }
  }

  lemma HeaderDistinct()
    ensures SPEC_VERSION != FORMAT_VERSION && SPEC_VERSION != CAPSULE_ID && FORMAT_VERSION != CAPSULE_ID
  {
  }

  /** Whatever the id: apart from the id member, the sealed record and the body
      have the same members. */
  lemma SealedUnderKeeps(id: string, body: Members)
    requires DistinctKeys(body) && Lookup(body, SPEC_VERSION).Some? && Lookup(body, FORMAT_VERSION).Some?
    ensures DistinctKeys(SealedUnder(id, body))
    ensures forall m :: m in SealedUnder(id, body) <==>
              m == Entry(CAPSULE_ID, Str(Units(id))) || (m in body && m.key != CAPSULE_ID)
  {
    var rest := Without(body, k => HeaderKey(k));
    WithoutSet(body, k => HeaderKey(k));
    HeaderDistinct();
    hide Without;
    var s := SealedUnder(id, body);
    var header := s[..3];
    assert s == header + rest;
    forall i, j | 0 <= i < j < |s| ensures s[i].key != s[j].key {
      if i >= 3 {
        assert s[i] == rest[i - 3] && s[j] == rest[j - 3];
      } else if j >= 3 {
        assert s[j] == rest[j - 3] && s[j] in rest;
      }
    }
    forall m ensures m in s <==> m == Entry(CAPSULE_ID, Str(Units(id))) || (m in body && m.key != CAPSULE_ID) {
      assert m in s <==> m in header || m in rest;
      assert m in header <==> m == s[0] || m == s[1] || m == s[2];
      OneValue(body, m, SPEC_VERSION);
      OneValue(body, m, FORMAT_VERSION);
    }
  }

  /** Sealing adds the id and changes nothing else: apart from the id member,
      the sealed record and the body have the same members. */
  lemma SealKeepsMembers(H: Hash, body: Members)
    requires DistinctKeys(body) && Sealable(H, body)
    ensures DistinctKeys(SealOf(H, body))
    ensures forall m :: m in SealOf(H, body) <==>
              m == Entry(CAPSULE_ID, Str(Units(ComputeCapsuleId(H, Obj(body)).value))) ||
              (m in body && m.key != CAPSULE_ID)
  {
    hide ComputeCapsuleId, Lookup, SealedFrom;
    SealedUnderKeeps(ComputeCapsuleId(H, Obj(body)).value, body);
  }

  /** What the sealed record looks like: the two versions of the body, its id, and
      then the members of the body under any other name, in their order.  It takes
      exactly a body that has both versions and an id. */
  lemma SealLayout(H: Hash, body: Members)
    requires DistinctKeys(body)
    ensures Sealable(H, body) <==>
            && (exists v :: Entry(Units("spec_version"), v) in body)
            && (exists v :: Entry(Units("format_version"), v) in body)
            && ComputeCapsuleId(H, Obj(body)).Some?
    ensures Sealable(H, body) ==>
              var s := SealOf(H, body);
              && |s| >= 3
              && s[0].key == Units("spec_version") && s[0] in body
              && s[1].key == Units("format_version") && s[1] in body
              && s[2] == Entry(Units("capsule_id"), Str(Units(ComputeCapsuleId(H, Obj(body)).value)))
              && s[3..] ==
                 Without(body, k => k in {Units("spec_version"), Units("format_version"), Units("capsule_id")})
  {
    hide ComputeCapsuleId, Lookup, Without;
    Presence(body, SPEC_VERSION);
    Presence(body, FORMAT_VERSION);
    if Sealable(H, body) {
      WithoutSame(body, k => HeaderKey(k),
                  k => k in {Units("spec_version"), Units("format_version"), Units("capsule_id")});
    }
  }

  lemma Presence(ms: Members, k: Text)
    ensures Lookup(ms, k).Some? <==> exists v :: Entry(k, v) in ms
    ensures Lookup(ms, k).Some? ==> Entry(k, Lookup(ms, k).value) in ms
  {
    hide Lookup;
    if v :| Entry(k, v) in ms {
      assert Entry(k, v).key == k;
    }
  }

  lemma {:induction false} WithoutSame(ms: Members, drop: Text -> bool, leave: Text -> bool)
    requires forall k :: drop(k) == leave(k)
    ensures Without(ms, drop) == Without(ms, leave)
    decreases |ms|
  {
    if ms != [] {
      WithoutSame(ms[1..], drop, leave);
    }
  }

  lemma OneValue(ms: Members, m: Entry<Json>, k: Text)
    requires DistinctKeys(ms) && Lookup(ms, k).Some?
    ensures m in ms && m.key == k <==> m == Entry(k, Lookup(ms, k).value)
  {
    hide Lookup;
    if m in ms && m.key == k {
      var i :| 0 <= i < |ms| && ms[i] == m;
      var j :| 0 <= j < |ms| && ms[j] == Entry(k, Lookup(ms, k).value);
    }
  }

  /** The id depends on nothing but the content outside chain linkage: it is the
      same for two capsules whose other members are equal up to key order and up
      to ignorable members, at every depth. */
  lemma SameAddressedSameId(H: Hash, ms: Members, ns: Members)
    requires SameContent(Obj(Declared(ms)), Obj(Declared(ns)))
    ensures ComputeCapsuleId(H, Obj(ms)) == ComputeCapsuleId(H, Obj(ns))
  {
    DeclaredPreimage(ms);
    DeclaredPreimage(ns);
    PreimageInvariant(H, Obj(Declared(ms)), Obj(Declared(ns)));
  }

  /** Dropping the linkage members first makes no difference. */
  lemma DeclaredPreimage(ms: Members)
    ensures Preimage(Obj(Declared(ms))) == Preimage(Obj(ms))
  {
    AddressedTwice(ms);
  }

  lemma {:induction false} AddressedTwice(ms: Members)
    ensures Addressed(Declared(ms)) == Addressed(ms)
    decreases |ms|
  {
    if ms != [] {
      var m, rest := ms[0], ms[1..];
      assert ms == [m] + rest;
      AddressedTwice(rest);
      KeptUnfold(m, rest);
      KeptUnfold(m, Declared(rest));
      hide Addressed, Declared, Linkage, Inherited;
    }
  }

  /** For the same members in another order, well-formed inside or not. */
  lemma SameMembersSameId(H: Hash, ms: Members, ns: Members)
    requires DistinctKeys(ms) && DistinctKeys(ns)
    requires forall m: Entry<Json> :: !Linkage(m.key) ==> (m in ms <==> m in ns)
    ensures ComputeCapsuleId(H, Obj(ms)) == ComputeCapsuleId(H, Obj(ns))
  {
    WithoutSet(ms, k => Linkage(k) || Inherited(k));
    WithoutSet(ns, k => Linkage(k) || Inherited(k));
    hide Linkage, Inherited, Without;
    assert SetOf(Addressed(ms)) == SetOf(Addressed(ns));
    SameMembersSameCanon(Addressed(ms), Addressed(ns));
    SameCanonSamePreimage(ms, ns);
  }

  // ------------------------------------------------------------ verification

  datatype Verdict = NotStated | Matches | Differs

  predicate HexUnitChar(u: CodeUnit) {
    0x30 <= u <= 0x39 || 0x41 <= u <= 0x46 || 0x61 <= u <= 0x66
  }

  predicate IsIdText(t: Text) {
    |t| == 64 && forall i :: 0 <= i < |t| ==> HexUnitChar(t[i])
  }

  /** A disclosure envelope is opened; anything else is taken as it is. */
  function Unwrap(item: Json): Json {
    if item.Obj? then
      match Lookup(item.members, Units("capsule"))
      case Some(inner) => if inner.Obj? || inner.Arr? then inner else item
      case None => item
    else item
  }

  function StatedId(c: Json): Text {
    if c.Obj? then
      match Lookup(c.members, CAPSULE_ID)
      case Some(Str(s)) => s
      case _ => []
    else []
  }

  function VerifyCapsuleId(H: Hash, item: Json): Verdict {
    CheckId(H, Unwrap(item))
  }

  /** The stated id against the recomputed one. */
  function CheckId(H: Hash, c: Json): Verdict {
    if !IsIdText(StatedId(c)) then NotStated
    else
      match ComputeCapsuleId(H, c)
      case None => Differs
      case Some(id) => if Units(id) == StatedId(c) then Matches else Differs
  }

  lemma {:induction false} HexIsIdText(bs: Bytes)
    ensures forall i :: 0 <= i < |BytesToHex(bs)| ==> HexUnitChar(Units(BytesToHex(bs))[i])
    decreases |bs|
  {
    if bs != [] {
      HexIsIdText(bs[1..]);
      var s := BytesToHex(bs);
      HexDigitUnit(bs[0] / 16);
      HexDigitUnit(bs[0] % 16);
      forall i | 0 <= i < |s| ensures HexUnitChar(Units(s)[i]) {
        if i >= 2 {
          assert s[i] == BytesToHex(bs[1..])[i - 2];
          assert Units(s)[i] == Units(BytesToHex(bs[1..]))[i - 2];
        }
      }
    }
  }

  lemma HexDigitUnit(v: nat)
    requires v < 16
    ensures HexUnitChar(HexDigit(v) as int % 0x1_0000)
  {
  }

  /** Seal and recompute agree: for every body that can be sealed, recomputing the
      id of the sealed record gives the id stored in it.  The viewer says so unless
      the record looks like a disclosure envelope; then its verdict is about the
      record inside. */
  lemma SealedVerifies(H: Hash, body: Members)
    requires DistinctKeys(body) && Sealable(H, body)
    ensures ComputeCapsuleId(H, Obj(SealOf(H, body))) == ComputeCapsuleId(H, Obj(body))
    ensures CheckId(H, Obj(SealOf(H, body))) == Matches
    ensures VerifyCapsuleId(H, Obj(SealOf(H, body))) ==
            if Unwrap(Obj(body)) == Obj(body) then Matches else CheckId(H, Unwrap(Obj(body)))
  {
    var s := SealOf(H, body);
    SealKeepsMembers(H, body);
    var id := ComputeCapsuleId(H, Obj(body)).value;
    assert !exists m :: m in body && m.key == CAPSULE_ID && !Linkage(m.key);
    SameMembersSameId(H, s, body);
    hide ComputeCapsuleId, Lookup, SealOf, Sealable;
    StatedInSeal(H, s, id);
    StillBare(s, body, id);
  }

  lemma StatedInSeal(H: Hash, s: Members, id: string)
    requires DistinctKeys(s) && Entry(CAPSULE_ID, Str(Units(id))) in s
    requires ComputeCapsuleId(H, Obj(s)) == Some(id)
    ensures StatedId(Obj(s)) == Units(id) && IsIdText(Units(id))
  {
    StatedDigest(s, H(Preimage(Obj(s)).value));
  }

  lemma StatedDigest(s: Members, d: Digest)
    requires DistinctKeys(s) && Entry(CAPSULE_ID, Str(Units(BytesToHex(d)))) in s
    ensures StatedId(Obj(s)) == Units(BytesToHex(d)) && IsIdText(Units(BytesToHex(d)))
  {
    hide BytesToHex, Units;
    assert Lookup(s, CAPSULE_ID).Some?;
    OneValue(s, Entry(CAPSULE_ID, Str(Units(BytesToHex(d)))), CAPSULE_ID);
    HexIsIdText(d);
  }

  /** Opening an envelope: a member called "capsule" that is an object or an array
      is taken instead of the record; anything else is taken as it is. */
  lemma UnwrapMeans(ms: Members, inner: Json)
    requires DistinctKeys(ms)
    ensures Entry(Units("capsule"), inner) in ms ==>
              Unwrap(Obj(ms)) == if inner.Obj? || inner.Arr? then inner else Obj(ms)
    ensures (forall m :: m in ms ==> m.key != Units("capsule")) ==> Unwrap(Obj(ms)) == Obj(ms)
    ensures !inner.Obj? ==> Unwrap(inner) == inner
  {
    if Entry(Units("capsule"), inner) in ms {
      assert Lookup(ms, Units("capsule")).Some?;
      OneValue(ms, Entry(Units("capsule"), inner), Units("capsule"));
    }
    hide Lookup;
  }

  /** The record states `s`, 64 hex digits in either case, as its capsule id. */
  ghost predicate States(ms: Members, s: Text) {
    && Entry(Units("capsule_id"), Str(s)) in ms
    && |s| == 64
    && forall i :: 0 <= i < 64 ==>
         ('0' as int <= s[i] <= '9' as int) || ('a' as int <= s[i] <= 'f' as int) || ('A' as int <= s[i] <= 'F' as int)
  }

  lemma StatesMeans(ms: Members, s: Text)
    requires DistinctKeys(ms)
    ensures States(ms, s) <==> IsIdText(StatedId(Obj(ms))) && s == StatedId(Obj(ms))
  {
    hide Lookup;
    assert States(ms, s) <==> Entry(CAPSULE_ID, Str(s)) in ms && IsIdText(s);
    if Entry(CAPSULE_ID, Str(s)) in ms {
      assert Lookup(ms, CAPSULE_ID).Some?;
      OneValue(ms, Entry(CAPSULE_ID, Str(s)), CAPSULE_ID);
    }
  }

  /** The three verdicts, exactly: nothing is judged when no id of 64 hex digits is
      stated; otherwise the answer is whether recomputing gives it, and a record
      that cannot be printed does not match. */
  lemma VerdictExact(H: Hash, ms: Members)
    requires DistinctKeys(ms)
    ensures var verdict, id := CheckId(H, Obj(ms)), ComputeCapsuleId(H, Obj(ms));
            && (verdict == NotStated <==> forall s :: !States(ms, s))
            && (verdict == Matches <==> exists s :: States(ms, s) && id.Some? && s == Units(id.value))
            && (verdict == Differs <==> exists s :: States(ms, s) && (id.None? || s != Units(id.value)))
  {
    hide ComputeCapsuleId, States, IsIdText, StatedId;
    forall s ensures States(ms, s) <==> IsIdText(StatedId(Obj(ms))) && s == StatedId(Obj(ms)) {
      StatesMeans(ms, s);
    }
    assert IsIdText(StatedId(Obj(ms))) ==> States(ms, StatedId(Obj(ms)));
  }

  /** Whatever is not an object states no id. */
  lemma NoRecordNotStated(H: Hash, c: Json)
    requires !c.Obj?
    ensures CheckId(H, c) == NotStated
  {
  }

  /** Two records that state one id, of which the first matches it: the second
      matches exactly when it can be printed and the two preimages have one hash. */
  lemma KeptId(H: Hash, ms: Members, ns: Members, s: Text)
    requires DistinctKeys(ms) && DistinctKeys(ns) && States(ms, s) && States(ns, s)
    requires CheckId(H, Obj(ms)) == Matches
    ensures Preimage(Obj(ms)).Some?
    ensures CheckId(H, Obj(ns)) ==
            if Preimage(Obj(ns)).Some? && H(Preimage(Obj(ns)).value) == H(Preimage(Obj(ms)).value) then Matches
            else Differs
  {
    StatesMeans(ms, s);
    StatesMeans(ns, s);
    hide States, StatedId, IsIdText, Preimage, BytesToHex, Units;
    if Preimage(Obj(ns)).Some? {
      SameHexSameDigest(H(Preimage(Obj(ms)).value), H(Preimage(Obj(ns)).value));
    }
  }

  /** A record altered after sealing, its id kept: where the content that is hashed
      is still the same it matches; otherwise it differs, unless the two preimages
      collide. */
  lemma AlteredDiffers(H: Hash, ms: Members, ns: Members, s: Text)
    requires WellFormed(Obj(ms)) && WellFormed(Obj(ns)) && PairedContent(ms) && PairedContent(ns)
    requires States(ms, s) && States(ns, s) && CheckId(H, Obj(ms)) == Matches
    ensures Preimage(Obj(ms)).Some?
    ensures Preimage(Obj(ns)).None? ==> CheckId(H, Obj(ns)) == Differs
    ensures Preimage(Obj(ns)).Some? ==>
              if SameContent(Obj(Addressed(ms)), Obj(Addressed(ns))) then CheckId(H, Obj(ns)) == Matches
              else CheckId(H, Obj(ns)) == Differs ||
                   CollisionIn(H, {Preimage(Obj(ms)).value, Preimage(Obj(ns)).value})
  {
    KeptId(H, ms, ns, s);
    hide States, CheckId, Preimage, SameContent, PairedContent, WellFormedMembers;
    if Preimage(Obj(ns)).Some? {
      PreimageMeansContent(ms, ns);
      CollisionPair(H, Preimage(Obj(ms)).value, Preimage(Obj(ns)).value);
    }
  }

  /** The same of a record as `seal` writes it, judged by the viewer. */
  lemma SealedThenAltered(H: Hash, body: Members, ns: Members)
    requires DistinctKeys(body) && Sealable(H, body)
    requires WellFormed(Obj(SealOf(H, body))) && PairedContent(SealOf(H, body))
    requires WellFormed(Obj(ns)) && PairedContent(ns) && Unwrap(Obj(ns)) == Obj(ns)
    requires Entry(Units("capsule_id"), Str(Units(ComputeCapsuleId(H, Obj(body)).value))) in ns
    ensures var s := SealOf(H, body);
            && Preimage(Obj(s)).Some?
            && (if Preimage(Obj(ns)).Some? && SameContent(Obj(Addressed(s)), Obj(Addressed(ns)))
                then VerifyCapsuleId(H, Obj(ns)) == Matches
                else || VerifyCapsuleId(H, Obj(ns)) == Differs
                     || (Preimage(Obj(ns)).Some? &&
                         CollisionIn(H, {Preimage(Obj(s)).value, Preimage(Obj(ns)).value})))
  {
    var s, id := SealOf(H, body), ComputeCapsuleId(H, Obj(body)).value;
    SealedVerifies(H, body);
    SealKeepsMembers(H, body);
    hide ComputeCapsuleId, Sealable, SealOf, CheckId, SameContent, PairedContent, Preimage, Unwrap, WellFormedMembers;
    StatedBySeal(H, s, id);
    StatesKept(s, ns, Units(id));
    AlteredDiffers(H, s, ns, Units(id));
  }

  lemma StatedBySeal(H: Hash, s: Members, id: string)
    requires DistinctKeys(s) && Entry(CAPSULE_ID, Str(Units(id))) in s
    requires ComputeCapsuleId(H, Obj(s)) == Some(id)
    ensures States(s, Units(id))
  {
    StatedInSeal(H, s, id);
    hide ComputeCapsuleId, States, IsIdText, StatedId;
    StatesMeans(s, Units(id));
  }

  lemma StatesKept(ms: Members, ns: Members, s: Text)
    requires States(ms, s) && Entry(Units("capsule_id"), Str(s)) in ns
    ensures States(ns, s)
  {
  }

  // --------------------------------------- a producer that does as documented

  /** The digest of the documented content. */
  function DeclaredDigest(H: Hash, body: Members): Digest
    requires DeclaredText(body).Some?
  {
    H(Utf8(DeclaredText(body).value))
  }

  /** The record of a producer that hashes the documented content. */
  ghost function DocumentedSeal(H: Hash, body: Members): Members
    requires Lookup(body, SPEC_VERSION).Some? && Lookup(body, FORMAT_VERSION).Some? && DeclaredText(body).Some?
  {
    SealedUnder(BytesToHex(DeclaredDigest(H, body)), body)
  }

  /** With such a producer the viewer recomputes the stored id exactly when the two
      texts agree once lone surrogates are replaced, or their bytes collide.  They
      do agree when the code hashes the body as documented. */
  lemma DocumentedSealVerifies(H: Hash, body: Members)
    requires DistinctKeys(body) && Lookup(body, SPEC_VERSION).Some? && Lookup(body, FORMAT_VERSION).Some?
    requires DeclaredText(body).Some?
    ensures CapsuleText(body).Some?
    ensures var hashed, declared := CapsuleText(body).value, DeclaredText(body).value;
            CheckId(H, Obj(DocumentedSeal(H, body))) == Matches <==>
            Repaired(hashed) == Repaired(declared) || CollisionIn(H, {Utf8(hashed), Utf8(declared)})
    ensures KeepsContent(body) <==> CapsuleText(body) == DeclaredText(body)
  {
    DeclaredPrintable(body);
    AddressesDeclared(body);
    var hashed, declared := CapsuleText(body).value, DeclaredText(body).value;
    var x, y := Utf8(hashed), Utf8(declared);
    var s := DocumentedSeal(H, body);
    SealedUnderKeeps(BytesToHex(H(y)), body);
    hide Lookup, SealedUnder, DeclaredText, CapsuleText, KeepsContent, DeclaredDigest, Repaired, Utf8;
    SameMembersSameId(H, s, body);
    StatedDigest(s, H(y));
    IdOfText(H, body);
    BytesMeanRepaired(hashed, declared);
    SameHexSameDigest(H(x), H(y));
    CollisionPair(H, x, y);
  }

  lemma DeclaredPrintable(body: Members)
    requires DeclaredText(body).Some?
    ensures CapsuleText(body).Some?
  {
    ContentInside(body);
    SameTextInside(Normalized(Obj(Addressed(body))), DeclaredContent(body));
  }

  lemma IdOfText(H: Hash, body: Members)
    requires CapsuleText(body).Some?
    ensures ComputeCapsuleId(H, Obj(body)) == Some(BytesToHex(H(Utf8(CapsuleText(body).value))))
  {
    hide CapsuleText, Utf8, BytesToHex;
  }

  lemma SameHexSameDigest(d: Digest, e: Digest)
    ensures Units(BytesToHex(d)) == Units(BytesToHex(e)) <==> d == e
  {
    HexRoundTrip(d);
    HexRoundTrip(e);
    hide BytesToHex, Units, HexToBytes;
    if Units(BytesToHex(d)) == Units(BytesToHex(e)) {
      HexUnitsInjective(d, e);
    }
  }

  lemma CollisionPair(H: Hash, x: Bytes, y: Bytes)
    ensures H(x) == H(y) <==> x == y || CollisionIn(H, {x, y})
  {
    if H(x) == H(y) {
      CollisionFound(H, x, y, {x, y});
    }
  }

  /** Sealing does not turn a record into an envelope, nor an envelope into a
      record, and leaves the inner record alone. */
  lemma StillBare(s: Members, body: Members, id: string)
    requires DistinctKeys(s) && DistinctKeys(body)
    requires forall m :: m in s <==> m == Entry(CAPSULE_ID, Str(Units(id))) || (m in body && m.key != CAPSULE_ID)
    ensures Unwrap(Obj(s)) == if Unwrap(Obj(body)) == Obj(body) then Obj(s) else Unwrap(Obj(body))
  {
    var k := Units("capsule");
    CapsuleKey();
    assert Lookup(s, k) == Lookup(body, k) by {
      SameLookup(s, body, k);
    }
    if Lookup(body, k).Some? {
      SelfContained(Lookup(body, k).value, body);
    }
  }

  lemma CapsuleKey()
    ensures Units("capsule") != CAPSULE_ID
  {
  }

  lemma SameLookup(ms: Members, ns: Members, k: Text)
    requires DistinctKeys(ms) && DistinctKeys(ns)
    requires forall m: Entry<Json> :: m.key == k ==> (m in ms <==> m in ns)
    ensures Lookup(ms, k) == Lookup(ns, k)
  {
    hide Lookup;
    assert Lookup(ms, k).Some? <==> Lookup(ns, k).Some?;
    if Lookup(ms, k).Some? {
      OneValue(ns, Entry(k, Lookup(ms, k).value), k);
    }
  }

  lemma SelfContained(v: Json, body: Members)
    requires Entry(Units("capsule"), v) in body
    ensures v != Obj(body)
  {
    var i :| 0 <= i < |body| && body[i] == Entry(Units("capsule"), v);
    assert body[i].value < Obj(body);
  }

  /** Two records that both match the same stated id have the same content, or
      their preimages collide. */
  lemma MatchesBindContent(H: Hash, ms: Members, ns: Members)
    requires WellFormed(Obj(ms)) && WellFormed(Obj(ns)) && PairedContent(ms) && PairedContent(ns)
    requires Unwrap(Obj(ms)) == Obj(ms) && Unwrap(Obj(ns)) == Obj(ns)
    requires VerifyCapsuleId(H, Obj(ms)) == Matches && VerifyCapsuleId(H, Obj(ns)) == Matches
    requires StatedId(Obj(ms)) == StatedId(Obj(ns))
    ensures Preimage(Obj(ms)).Some? && Preimage(Obj(ns)).Some?
    ensures || SameValue(Normalized(Obj(Addressed(ms))), Normalized(Obj(Addressed(ns))))
            || CollisionIn(H, {Preimage(Obj(ms)).value, Preimage(Obj(ns)).value})
  {
    var a, b := ComputeCapsuleId(H, Obj(ms)).value, ComputeCapsuleId(H, Obj(ns)).value;
    HexUnitsInjective(H(Preimage(Obj(ms)).value), H(Preimage(Obj(ns)).value));
    IdBindsContent(H, ms, ns);
  }

  lemma UnitsInjective(s: string, t: string)
    requires Units(s) == Units(t)
    requires forall i :: 0 <= i < |s| ==> (s[i] as int) < 0x80
    requires forall i :: 0 <= i < |t| ==> (t[i] as int) < 0x80
    ensures s == t
  {
    assert |s| == |Units(s)| && |t| == |Units(t)|;
    forall i | 0 <= i < |s| ensures s[i] == t[i] {
      assert Units(s)[i] == Units(t)[i];
      assert s[i] as int == t[i] as int;
    }
  }

  lemma HexUnitsInjective(x: Bytes, y: Bytes)
    requires Units(BytesToHex(x)) == Units(BytesToHex(y))
    ensures BytesToHex(x) == BytesToHex(y)
  {
    hide BytesToHex, Units;
    HexAscii(x);
    HexAscii(y);
    UnitsInjective(BytesToHex(x), BytesToHex(y));
  }

  lemma {:induction false} HexAscii(bs: Bytes)
    ensures forall i :: 0 <= i < |BytesToHex(bs)| ==> (BytesToHex(bs)[i] as int) < 0x80
    decreases |bs|
  {
    if bs != [] {
      HexAscii(bs[1..]);
    }
  }

  // ----------------------------------------------------------- event capsule

  datatype Signer = Signer(keyId: Text, algorithm: Text, sign: Text -> Text)

  /** `build_event_capsule` from the assembled base members on: payload, signature
      over the digest of everything before it, id, seal. */
  method BuildEventCapsule(H: Hash, jsonDigest: Members -> Text, signer: Signer, base: Members, event: Text,
                           detail: Json)
    returns (sealed: Option<Members>)
    requires DistinctKeys(base)
    ensures var payload := Obj([Entry(Units("event"), Str(event)), Entry(Units("detail"), detail)]);
            var body := Signed(jsonDigest, signer, SetItem(base, PAYLOAD, payload));
            && DistinctKeys(body)
            && (sealed.Some? <==> Sealable(H, body))
            && (sealed.Some? ==> sealed.value == SealOf(H, body))
  {
    var payload := Obj([Entry(Units("event"), Str(event)), Entry(Units("detail"), detail)]);
    SetItemMeans(base, PAYLOAD, payload);
    var body := SetItem(base, PAYLOAD, payload);
    var presig := jsonDigest(body);
    var block := Obj([Entry(Units("key_id"), Str(signer.keyId)), Entry(Units("alg"), Str(signer.algorithm)),
                      Entry(Units("sig"), Str(signer.sign(presig)))]);
    SetItemMeans(body, SIGNATURE, block);
    body := SetItem(body, SIGNATURE, block);
    sealed := Seal(H, body);
  }

  function Signed(jsonDigest: Members -> Text, signer: Signer, body: Members): Members {
    SetItem(body, SIGNATURE,
            Obj([Entry(Units("key_id"), Str(signer.keyId)), Entry(Units("alg"), Str(signer.algorithm)),
                 Entry(Units("sig"), Str(signer.sign(jsonDigest(body))))]))
  }

  /** What was signed can be read back from the sealed record: dropping the id and
      the signature leaves exactly the members that were digested. */
  lemma SignedContentRecoverable(H: Hash, jsonDigest: Members -> Text, signer: Signer, body: Members)
    requires DistinctKeys(body) && Sealable(H, Signed(jsonDigest, signer, body))
    requires Lookup(body, SIGNATURE).None? && Lookup(body, CAPSULE_ID).None?
    ensures var s := SealOf(H, Signed(jsonDigest, signer, body));
            forall m :: m in Without(s, k => k == CAPSULE_ID || k == SIGNATURE) <==> m in body
  {
    var signed := Signed(jsonDigest, signer, body);
    SetItemMeans(body, SIGNATURE,
                 Obj([Entry(Units("key_id"), Str(signer.keyId)), Entry(Units("alg"), Str(signer.algorithm)),
                      Entry(Units("sig"), Str(signer.sign(jsonDigest(body))))]));
    SealKeepsMembers(H, signed);
    WithoutSet(SealOf(H, signed), k => k == CAPSULE_ID || k == SIGNATURE);
  }

  /** The digest of a list of members does not depend on their order, as that of an
      object in canonical form does not. */
  ghost predicate OrderFree(jsonDigest: Members -> Text) {
    forall ms, ns :: DistinctKeys(ms) && DistinctKeys(ns) && SetOf(ms) == SetOf(ns) ==>
                       jsonDigest(ms) == jsonDigest(ns)
  }

  /** Signing adds one member, the signature of the digest of all the others. */
  lemma SignedMembers(jsonDigest: Members -> Text, signer: Signer, body: Members)
    requires DistinctKeys(body)
    ensures var block := Obj([Entry(Units("key_id"), Str(signer.keyId)), Entry(Units("alg"), Str(signer.algorithm)),
                              Entry(Units("sig"), Str(signer.sign(jsonDigest(body))))]);
            && DistinctKeys(Signed(jsonDigest, signer, body))
            && forall m :: m in Signed(jsonDigest, signer, body) <==>
                 m == Entry(Units("asg_signature"), block) || (m in body && m.key != Units("asg_signature"))
  {
    var block := Obj([Entry(Units("key_id"), Str(signer.keyId)), Entry(Units("alg"), Str(signer.algorithm)),
                      Entry(Units("sig"), Str(signer.sign(jsonDigest(body))))]);
    SetItemMeans(body, SIGNATURE, block);
    hide SetItem;
  }

  lemma HeaderIsNot()
    ensures SIGNATURE == Units("asg_signature") && PAYLOAD == Units("asg_payload") && CAPSULE_ID == Units("capsule_id")
    ensures SIGNATURE != CAPSULE_ID && PAYLOAD != CAPSULE_ID && PAYLOAD != SIGNATURE
  {
    assert |PAYLOAD| == 11 && |SIGNATURE| == 13 && |CAPSULE_ID| == 10;
  }

  /** What is not the id is still there after sealing. */
  lemma StillSealed(H: Hash, body: Members, m: Entry<Json>)
    requires DistinctKeys(body) && Sealable(H, body) && m in body && m.key != CAPSULE_ID
    ensures m in SealOf(H, body)
  {
    SealKeepsMembers(H, body);
    hide *;
  }

  /** The signature can be checked on the sealed record: it is the signer's
      signature of the digest of what is left without id and signature. */
  lemma SignatureCheckable(H: Hash, jsonDigest: Members -> Text, signer: Signer, body: Members)
    requires DistinctKeys(body) && Sealable(H, Signed(jsonDigest, signer, body)) && OrderFree(jsonDigest)
    requires Lookup(body, SIGNATURE).None? && Lookup(body, CAPSULE_ID).None?
    ensures var s := SealOf(H, Signed(jsonDigest, signer, body));
            var content := Without(s, k => k == Units("capsule_id") || k == Units("asg_signature"));
            Entry(Units("asg_signature"),
                  Obj([Entry(Units("key_id"), Str(signer.keyId)), Entry(Units("alg"), Str(signer.algorithm)),
                       Entry(Units("sig"), Str(signer.sign(jsonDigest(content))))])) in s
  {
    hide *;
    HeaderIsNot();
    SignedMembers(jsonDigest, signer, body);
    DigestRecovered(H, jsonDigest, signer, body);
    var block := Obj([Entry(Units("key_id"), Str(signer.keyId)), Entry(Units("alg"), Str(signer.algorithm)),
                      Entry(Units("sig"), Str(signer.sign(jsonDigest(body))))]);
    StillSealed(H, Signed(jsonDigest, signer, body), Entry(SIGNATURE, block));
  }

  lemma DigestRecovered(H: Hash, jsonDigest: Members -> Text, signer: Signer, body: Members)
    requires DistinctKeys(body) && Sealable(H, Signed(jsonDigest, signer, body)) && OrderFree(jsonDigest)
    requires Lookup(body, SIGNATURE).None? && Lookup(body, CAPSULE_ID).None?
    ensures var s := SealOf(H, Signed(jsonDigest, signer, body));
            jsonDigest(Without(s, k => k == Units("capsule_id") || k == Units("asg_signature"))) == jsonDigest(body)
  {
    hide *;
    HeaderIsNot();
    SignedMembers(jsonDigest, signer, body);
    SealKeepsMembers(H, Signed(jsonDigest, signer, body));
    SignedContentRecoverable(H, jsonDigest, signer, body);
    var s := SealOf(H, Signed(jsonDigest, signer, body));
    var content := Without(s, k => k == CAPSULE_ID || k == SIGNATURE);
    WithoutSet(s, k => k == CAPSULE_ID || k == SIGNATURE);
    WithoutSame(s, k => k == CAPSULE_ID || k == SIGNATURE,
                k => k == Units("capsule_id") || k == Units("asg_signature"));
    SameDigest(jsonDigest, content, body);
  }

  lemma SameDigest(jsonDigest: Members -> Text, ms: Members, ns: Members)
    requires OrderFree(jsonDigest) && DistinctKeys(ms) && DistinctKeys(ns) && forall m :: m in ms <==> m in ns
    ensures jsonDigest(ms) == jsonDigest(ns)
  {
    hide DistinctKeys;
    assert SetOf(ms) == SetOf(ns);
  }

  /** The event and its detail are in the sealed record, under "asg_payload". */
  lemma PayloadSealed(H: Hash, jsonDigest: Members -> Text, signer: Signer, base: Members, payload: Json)
    requires DistinctKeys(base) && Sealable(H, Signed(jsonDigest, signer, SetItem(base, PAYLOAD, payload)))
    ensures Entry(Units("asg_payload"), payload) in
            SealOf(H, Signed(jsonDigest, signer, SetItem(base, PAYLOAD, payload)))
  {
    hide *;
    var body := SetItem(base, PAYLOAD, payload);
    HeaderIsNot();
    SetItemMeans(base, PAYLOAD, payload);
    SignedMembers(jsonDigest, signer, body);
    StillSealed(H, Signed(jsonDigest, signer, body), Entry(PAYLOAD, payload));
  }
}

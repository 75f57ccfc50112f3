/** Name by name, what the content address covers and what it leaves out. */
module Coverage {
  import opened Geometry
  import opened Hashing
  import opened Json
  import opened Canonical
  import opened Normalize
  import opened Losses
  import opened CapsuleId

  /** The capsule with one more member, at place `i`. */
  function WithMember(ms: Members, i: nat, k: Text, v: Json): Members
    requires i <= |ms|
  {
    ms[..i] + [Entry(k, v)] + ms[i..]
  }

  /** The names that the table of linkage fields, a plain object, answers to: its
      own two, and those that every object inherits. */
  ghost predicate LeftOut(k: Text) {
    exists name :: k == Units(name) &&
      name in {"capsule_id", "chain", "constructor", "hasOwnProperty", "isPrototypeOf", "propertyIsEnumerable",
               "toLocaleString", "toString", "valueOf", "__proto__", "__defineGetter__", "__defineSetter__",
               "__lookupGetter__", "__lookupSetter__"}
  }

  lemma LeftOutMeans(k: Text)
    ensures LeftOut(k) <==> FoundInLinkageTable(k)
  {
    if Linkage(k) {
      assert k == Units("capsule_id") || k == Units("chain");
    }
    if Inherited(k) {
      var name :| name in INHERITED && k == Units(name);
    }
  }

  /** The two names of chain linkage, in code units. */
  lemma LinkageNames()
    ensures Units("chain") == [0x63, 0x68, 0x61, 0x69, 0x6E]
    ensures Units("capsule_id") == [0x63, 0x61, 0x70, 0x73, 0x75, 0x6C, 0x65, 0x5F, 0x69, 0x64]
    ensures LeftOut(Units("chain")) && LeftOut(Units("capsule_id"))
    ensures FoundInLinkageTable(Units("chain")) && FoundInLinkageTable(Units("capsule_id"))
  {
    assert "chain" in {"capsule_id", "chain"};
    assert LeftOut(Units("chain")) && LeftOut(Units("capsule_id")) by {
      LeftOutMeans(Units("chain"));
      LeftOutMeans(Units("capsule_id"));
    }
  }

  lemma {:induction false} WithoutAppend(ms: Members, ns: Members, drop: Text -> bool)
    ensures Without(ms + ns, drop) == Without(ms, drop) + Without(ns, drop)
    decreases |ms|
  {
    if ms == [] {
      assert ms + ns == ns;
    } else {
      assert (ms + ns)[1..] == ms[1..] + ns;
      WithoutAppend(ms[1..], ns, drop);
    }
  }

  lemma AddressedAppend(ms: Members, ns: Members)
    ensures Addressed(ms + ns) == Addressed(ms) + Addressed(ns)
  {
    WithoutAppend(ms, ns, k => Linkage(k) || Inherited(k));
    hide Linkage, Inherited, Without;
  }

  /** The members that are hashed, around the one at place `i`. */
  lemma AddressedAround(ms: Members, i: nat, k: Text, v: Json)
    requires i <= |ms|
    ensures Addressed(ms) == Addressed(ms[..i]) + Addressed(ms[i..])
    ensures Addressed(WithMember(ms, i, k, v)) ==
            Addressed(ms[..i]) + (if LeftOut(k) then [] else [Entry(k, v)]) + Addressed(ms[i..])
  {
    var m: Entry<Json> := Entry(k, v);
    var none: Members := [];
    assert ms == ms[..i] + ms[i..] && [m] + none == [m];
    AddressedNone();
    KeptUnfold(m, none);
    LeftOutMeans(k);
    FoundMeans(k);
    hide Addressed, LeftOut, Linkage, Inherited;
    AddressedAppend(ms[..i], ms[i..]);
    AddressedAppend(ms[..i] + [m], ms[i..]);
    AddressedAppend(ms[..i], [m]);
  }

  lemma AddressedDecides(H: Hash, ms: Members, ns: Members)
    requires Addressed(ms) == Addressed(ns)
    ensures Preimage(Obj(ms)) == Preimage(Obj(ns)) && ComputeCapsuleId(H, Obj(ms)) == ComputeCapsuleId(H, Obj(ns))
  {
    hide Addressed;
  }

  lemma NothingAdded(ms: Members, i: nat, k: Text, v: Json)
    requires i <= |ms| && LeftOut(k)
    ensures Addressed(WithMember(ms, i, k, v)) == Addressed(ms)
  {
    hide *;
    AddressedAround(ms, i, k, v);
    var a, b, none: Members := Addressed(ms[..i]), Addressed(ms[i..]), [];
    assert a + none + b == a + b;
  }

  /** Adding a member called "chain" or "capsule_id" anywhere, removing it, or
      putting another value in its place changes neither the hashed bytes nor the
      id; the same goes for a name that every object inherits. */
  lemma LinkageIgnored(H: Hash, ms: Members, i: nat, k: Text, v: Json, w: Json)
    requires i <= |ms| && (k == Units("chain") || k == Units("capsule_id") || LeftOut(k))
    ensures var before, after, other := Obj(ms), Obj(WithMember(ms, i, k, v)), Obj(WithMember(ms, i, k, w));
            && Preimage(after) == Preimage(before) == Preimage(other)
            && ComputeCapsuleId(H, after) == ComputeCapsuleId(H, before) == ComputeCapsuleId(H, other)
  {
    hide *;
    LinkageNames();
    NothingAdded(ms, i, k, v);
    NothingAdded(ms, i, k, w);
    AddressedDecides(H, ms, WithMember(ms, i, k, v));
    AddressedDecides(H, ms, WithMember(ms, i, k, w));
  }

  /** The members outside chain linkage are those with any other name. */
  lemma DeclaredMeans(ms: Members, m: Entry<Json>)
    ensures m in Declared(ms) <==> m in ms && m.key != Units("chain") && m.key != Units("capsule_id")
  {
    WithoutMembers(ms, k => Linkage(k));
    hide Without;
  }

  /** One member more, somewhere in the middle. */
  lemma {:induction false} InsideMore(a: Members, m: Entry<Json>, b: Members)
    ensures InsideMembers(a + b, a + [m] + b) && a + b != a + [m] + b
    decreases |a|
  {
    hide InsideMembers, Inside;
    if a == [] {
      assert a + b == b && a + [m] + b == [m] + b;
      InsideSelf(b);
      InsideLost(b, m, b);
    } else {
      var d, rest := a[0], a[1..];
      InsideMore(rest, m, b);
      assert a + b == [d] + (rest + b) && a + [m] + b == [d] + (rest + [m] + b);
      ValueInside(d.value);
      InsideKept(d, rest + b, d, rest + [m] + b);
    }
  }

  lemma InsideSelf(ms: Members)
    ensures InsideMembers(ms, ms)
  {
  }

  lemma ValueInside(v: Json)
    ensures Inside(v, v)
  {
  }

  /** A member whose name is not left out and whose value does not vanish. */
  ghost predicate Covered(k: Text, v: Json) {
    !LeftOut(k) && !Hollow(v)
  }

  lemma ProtoLeftOut()
    ensures LeftOut(PROTO)
  {
    assert PROTO == Units("__proto__");
  }

  /** The hashed members in normal form, around the one at place `i`. */
  lemma NormalAround(ms: Members, i: nat, k: Text, v: Json)
    requires i <= |ms|
    ensures var a, b := NormalizedMembers(Addressed(ms[..i])), NormalizedMembers(Addressed(ms[i..]));
            && NormalizedMembers(Addressed(ms)) == a + b
            && NormalizedMembers(Addressed(WithMember(ms, i, k, v))) ==
               if Covered(k, v) then a + [Entry(k, Normalized(v))] + b else a + b
  {
    hide *;
    AddressedAround(ms, i, k, v);
    HollowVanishes(v);
    CoveredMeans(k, v);
    ProtoLeftOut();
    var p, q := Addressed(ms[..i]), Addressed(ms[i..]);
    var m: Entry<Json> := Entry(k, v);
    NormalAroundOne(p, m, q);
    var none: Members := [];
    var a, b := NormalizedMembers(p), NormalizedMembers(q);
    assert p + none + q == p + q && a + none + b == a + b;
  }

  lemma CoveredMeans(k: Text, v: Json)
    ensures Covered(k, v) <==> !LeftOut(k) && !Hollow(v)
  {
  }

  lemma NormalAroundOne(p: Members, m: Entry<Json>, q: Members)
    ensures var a, b, nv := NormalizedMembers(p), NormalizedMembers(q), Normalized(m.value);
            && NormalizedMembers(p + q) == a + b
            && NormalizedMembers(p + [m] + q) ==
               a + (if Vanishes(nv) || m.key == PROTO then [] else [Entry(m.key, nv)]) + b
  {
    hide *;
    var none: Members := [];
    assert [m] + none == [m];
    NormalizedMembersCons(m, none);
    NormalizedMembersAppend(p, q);
    NormalizedMembersAppend(p, [m]);
    NormalizedMembersAppend(p + [m], q);
    NormalizedNothing(none);
  }

  lemma NormalizedNothing(ms: Members)
    requires ms == []
    ensures NormalizedMembers(ms) == []
  {
  }

  /** What is covered, exactly: one more member, at any place of any capsule,
      changes the canonical text if and only if its name is not left out, its value
      holds something, and the capsule had a text before. */
  lemma CoveredExact(ms: Members, i: nat, k: Text, v: Json)
    requires i <= |ms|
    ensures CapsuleText(WithMember(ms, i, k, v)) != CapsuleText(ms) <==>
            !LeftOut(k) && !Hollow(v) && CapsuleText(ms).Some?
  {
    NormalAround(ms, i, k, v);
    TextOf(ms);
    TextOf(WithMember(ms, i, k, v));
    var a, b := NormalizedMembers(Addressed(ms[..i])), NormalizedMembers(Addressed(ms[i..]));
    assert Covered(k, v) <==> !LeftOut(k) && !Hollow(v);
    hide *;
    if Covered(k, v) {
      var m := Entry(k, Normalized(v));
      InsideMore(a, m, b);
      InsideObject(a + b, a + [m] + b);
      SameTextInside(Obj(a + b), Obj(a + [m] + b));
    }
  }

  lemma TextOf(ms: Members)
    ensures CapsuleText(ms) == JcsValue(Obj(NormalizedMembers(Addressed(ms))))
  {
    hide Addressed, JcsValue;
  }
}

/** Digests, the three hash preimages of the range, peak bagging and path folding.

    SHA-256 is a parameter `H`, so every statement holds for every function from
    byte strings to 32-byte digests.  Soundness is stated as collision
    extraction over the explicit finite set of byte strings that a run hashes. */
module Hashing {
  import opened Geometry

  type byte = x: int | 0 <= x < 256
  type Bytes = seq<byte>
  type Digest = d: Bytes | |d| == 32 witness Zeros(32)
  type Hash = Bytes -> Digest

  function Zeros(n: nat): (z: Bytes)
    ensures |z| == n
  {
    if n == 0 then [] else [0] + Zeros(n - 1)
  }

  /** All-zero digest, the root of the empty range. */
  const ZERO_DIGEST: Digest := Zeros(32)

  // ---------------------------------------------------------- big endian

  function Pow256(n: nat): (p: nat)
    ensures p >= 1
  {
    if n == 0 then 1 else 256 * Pow256(n - 1)
  }

  /** The `len` low-order base-256 digits of `n`, most significant first. */
  function BigEndian(n: nat, len: nat): (bs: Bytes)
    ensures |bs| == len
  {
    if len == 0 then [] else BigEndian(n / 256, len - 1) + [n % 256]
  }

  function FromBigEndian(bs: Bytes): nat {
    if bs == [] then 0 else 256 * FromBigEndian(bs[..|bs| - 1]) + bs[|bs| - 1]
  }

  lemma {:induction false} BigEndianRoundTrip(n: nat, len: nat)
    requires n < Pow256(len)
    ensures FromBigEndian(BigEndian(n, len)) == n
    decreases len
  {
    if len > 0 {
      BigEndianRoundTrip(n / 256, len - 1);
      var bs := BigEndian(n, len);
      assert bs[..|bs| - 1] == BigEndian(n / 256, len - 1);
    }
  }

  function BeU64(n: nat): (bs: Bytes)
    ensures |bs| == 8
  {
    BigEndian(n, 8)
  }

  /** Eight bytes are enough for every position below 2^64, so the position
      committed to by an interior node can be read back. */
  lemma BeU64Injective(m: nat, n: nat)
    requires m < 0x1_0000_0000_0000_0000 && n < 0x1_0000_0000_0000_0000
    ensures FromBigEndian(BeU64(n)) == n
    ensures BeU64(m) == BeU64(n) ==> m == n
  {
    assert Pow256(8) == 0x1_0000_0000_0000_0000 by {
      assert Pow256(4) == 0x1_0000_0000;
    }
    BigEndianRoundTrip(m, 8);
    BigEndianRoundTrip(n, 8);
  }

  // ------------------------------------------------------------ preimages

  function LeafPreimage(body: Digest): (p: Bytes)
    ensures |p| == 33
  {
    [0] + body
  }

  function InteriorPreimage(left: Digest, right: Digest, position: nat): (p: Bytes)
    ensures |p| == 72
  {
    BeU64(position + 1) + left + right
  }

  function BagPreimage(right: Digest, left: Digest): (p: Bytes)
    ensures |p| == 64
  {
    right + left
  }

  /** Each preimage determines its parts. */
  lemma PreimagesInjective(a: Digest, b: Digest, p: nat, a': Digest, b': Digest, p': nat)
    ensures LeafPreimage(a) == LeafPreimage(a') ==> a == a'
    ensures BagPreimage(a, b) == BagPreimage(a', b') ==> a == a' && b == b'
    ensures InteriorPreimage(a, b, p) == InteriorPreimage(a', b', p') ==>
              a == a' && b == b' && BeU64(p + 1) == BeU64(p' + 1)
  {
    assert LeafPreimage(a)[1..] == a && LeafPreimage(a')[1..] == a';
    assert BagPreimage(a, b)[..32] == a && BagPreimage(a, b)[32..] == b;
    assert BagPreimage(a', b')[..32] == a' && BagPreimage(a', b')[32..] == b';
    assert InteriorPreimage(a, b, p)[..8] == BeU64(p + 1) && InteriorPreimage(a, b, p)[8..40] == a
        && InteriorPreimage(a, b, p)[40..] == b;
    assert InteriorPreimage(a', b', p')[..8] == BeU64(p' + 1) && InteriorPreimage(a', b', p')[8..40] == a'
        && InteriorPreimage(a', b', p')[40..] == b';
  }

  /** What is hashed, byte for byte: a leaf digest after a zero byte; two children
      after the eight bytes of the position plus one, left child first; two peaks
      with the right one first and nothing in front. */
  lemma PreimageLayout(left: Digest, right: Digest, position: nat)
    requires position < 0xFFFF_FFFF_FFFF_FFFF
    ensures LeafPreimage(left)[0] == 0 && LeafPreimage(left)[1..] == left
    ensures var x := InteriorPreimage(left, right, position);
            && (((((((x[0] as int * 256 + x[1]) * 256 + x[2]) * 256 + x[3]) * 256 + x[4]) * 256 + x[5]) * 256 + x[6])
                * 256 + x[7]) == position + 1
            && x[8..40] == left && x[40..] == right
    ensures var x := BagPreimage(right, left);
            x[..32] == right && x[32..] == left
  {
    var x := InteriorPreimage(left, right, position);
    BeU64Value(position + 1);
    assert x[..8] == BeU64(position + 1);
    assert forall k :: 0 <= k < 8 ==> x[k] == x[..8][k];
  }

  /** The most significant byte comes first. */
  lemma BeU64Value(n: nat)
    requires n < 0x1_0000_0000_0000_0000
    ensures var b := BeU64(n);
            (((((((b[0] as int * 256 + b[1]) * 256 + b[2]) * 256 + b[3]) * 256 + b[4]) * 256 + b[5]) * 256 + b[6])
             * 256 + b[7]) == n
  {
    var n1 := n / 256;
    var n2 := n1 / 256;
    var n3 := n2 / 256;
    var n4 := n3 / 256;
    var n5 := n4 / 256;
    var n6 := n5 / 256;
    var n7 := n6 / 256;
    assert BeU64(n) == [n7 % 256, n6 % 256, n5 % 256, n4 % 256, n3 % 256, n2 % 256, n1 % 256, n % 256] by {
      hide BeU64, Pow256;
      EightDigits(n, n1, n2, n3, n4, n5, n6, n7);
    }
  }

  lemma EightDigits(n: nat, n1: nat, n2: nat, n3: nat, n4: nat, n5: nat, n6: nat, n7: nat)
    requires n1 == n / 256 && n2 == n1 / 256 && n3 == n2 / 256 && n4 == n3 / 256
    requires n5 == n4 / 256 && n6 == n5 / 256 && n7 == n6 / 256
    ensures BeU64(n) == [n7 % 256, n6 % 256, n5 % 256, n4 % 256, n3 % 256, n2 % 256, n1 % 256, n % 256]
  {
    assert BigEndian(n7, 1) == [n7 % 256];
    assert BigEndian(n6, 2) == BigEndian(n7, 1) + [n6 % 256];
    assert BigEndian(n5, 3) == BigEndian(n6, 2) + [n5 % 256];
    assert BigEndian(n4, 4) == BigEndian(n5, 3) + [n4 % 256];
    assert BigEndian(n3, 5) == BigEndian(n4, 4) + [n3 % 256];
    assert BigEndian(n2, 6) == BigEndian(n3, 5) + [n2 % 256];
    assert BigEndian(n1, 7) == BigEndian(n2, 6) + [n1 % 256];
    assert BigEndian(n, 8) == BigEndian(n1, 7) + [n % 256];
  }

  /** An interior preimage determines the position it was hashed for. */
  lemma PreimagePosition(a: Digest, b: Digest, p: nat, a': Digest, b': Digest, p': nat)
    requires p < 0xFFFF_FFFF_FFFF_FFFF && p' < 0xFFFF_FFFF_FFFF_FFFF
    requires InteriorPreimage(a, b, p) == InteriorPreimage(a', b', p')
    ensures p == p'
  {
    PreimagesInjective(a, b, p, a', b', p');
    BeU64Injective(p + 1, p' + 1);
  }

  function LeafHash(H: Hash, body: Digest): Digest {
    H(LeafPreimage(body))
  }

  function InteriorHash(H: Hash, left: Digest, right: Digest, position: nat): Digest {
    H(InteriorPreimage(left, right, position))
  }

  // ------------------------------------------------------------ collisions

  /** Two different members of `inputs` have the same hash. */
  ghost predicate CollisionIn(H: Hash, inputs: set<Bytes>) {
    exists x, y :: x in inputs && y in inputs && x != y && H(x) == H(y)
  }

  lemma CollisionFound(H: Hash, x: Bytes, y: Bytes, inputs: set<Bytes>)
    requires x in inputs && y in inputs && H(x) == H(y)
    ensures x == y || CollisionIn(H, inputs)
  {
  }

  lemma CollisionMonotone(H: Hash, small: set<Bytes>, large: set<Bytes>)
    requires small <= large
    ensures CollisionIn(H, small) ==> CollisionIn(H, large)
  {
  }

  // ------------------------------------------------------------- bagging

  /** The last two peaks replaced by their joint hash. */
  function BagStep(H: Hash, ps: seq<Digest>): (qs: seq<Digest>)
    requires |ps| >= 2
    ensures |qs| == |ps| - 1
  {
    ps[..|ps| - 2] + [H(BagPreimage(ps[|ps| - 1], ps[|ps| - 2]))]
  }

  /** Root of a list of peaks, bagged right to left. */
  function Bag(H: Hash, ps: seq<Digest>): Digest
    decreases |ps|
  {
    if ps == [] then ZERO_DIGEST
    else if |ps| == 1 then ps[0]
    else Bag(H, BagStep(H, ps))
  }

  /** Everything hashed while bagging `ps`. */
  function BagInputs(H: Hash, ps: seq<Digest>): set<Bytes>
    decreases |ps|
  {
    if |ps| < 2 then {}
    else {BagPreimage(ps[|ps| - 1], ps[|ps| - 2])} + BagInputs(H, BagStep(H, ps))
  }

  /** One bagging step binds the two peaks it joins and leaves the others alone. */
  lemma BagStepBinding(H: Hash, ps: seq<Digest>, qs: seq<Digest>)
    requires |ps| == |qs| >= 2 && BagStep(H, ps) == BagStep(H, qs)
    ensures ps == qs ||
            CollisionIn(H, {BagPreimage(ps[|ps| - 1], ps[|ps| - 2]), BagPreimage(qs[|qs| - 1], qs[|qs| - 2])})
  {
    var n := |ps|;
    var x, y := BagPreimage(ps[n - 1], ps[n - 2]), BagPreimage(qs[n - 1], qs[n - 2]);
    assert BagStep(H, ps)[n - 2] == H(x) && BagStep(H, qs)[n - 2] == H(y);
    if x == y {
      PreimagesInjective(ps[n - 1], ps[n - 2], 0, qs[n - 1], qs[n - 2], 0);
      assert ps[..n - 2] == BagStep(H, ps)[..n - 2] == BagStep(H, qs)[..n - 2] == qs[..n - 2];
      assert ps == ps[..n - 2] + [ps[n - 2], ps[n - 1]];
      assert qs == qs[..n - 2] + [qs[n - 2], qs[n - 1]];
    }
  }

  /** A root binds every peak: two equally long peak lists with the same root
      are equal, or bagging them exhibits a collision. */
  lemma {:induction false} BagBinding(H: Hash, ps: seq<Digest>, qs: seq<Digest>)
    requires |ps| == |qs| && Bag(H, ps) == Bag(H, qs)
    ensures ps == qs || CollisionIn(H, BagInputs(H, ps) + BagInputs(H, qs))
    decreases |ps|
  {
    if |ps| >= 2 {
      var inputs := BagInputs(H, ps) + BagInputs(H, qs);
      BagBinding(H, BagStep(H, ps), BagStep(H, qs));
      if BagStep(H, ps) == BagStep(H, qs) {
        BagStepBinding(H, ps, qs);
        CollisionMonotone(H, {BagPreimage(ps[|ps| - 1], ps[|ps| - 2]), BagPreimage(qs[|qs| - 1], qs[|qs| - 2])},
                          inputs);
      } else {
        CollisionMonotone(H, BagInputs(H, BagStep(H, ps)) + BagInputs(H, BagStep(H, qs)), inputs);
      }
    }
  }

  /** Bagging seen from the left: the first peak is joined last. */
  lemma {:induction false} BagFromLeft(H: Hash, ps: seq<Digest>)
    requires |ps| >= 2
    ensures Bag(H, ps) == H(BagPreimage(Bag(H, ps[1..]), ps[0]))
    ensures BagInputs(H, ps) == {BagPreimage(Bag(H, ps[1..]), ps[0])} + BagInputs(H, ps[1..])
    decreases |ps|
  {
    if |ps| == 2 {
      assert ps[..0] + [H(BagPreimage(ps[1], ps[0]))] == [H(BagPreimage(ps[1], ps[0]))];
    } else {
      BagFromLeft(H, BagStep(H, ps));
      assert BagStep(H, ps)[1..] == BagStep(H, ps[1..]);
      assert ps[1..][|ps| - 2] == ps[|ps| - 1] && ps[1..][|ps| - 3] == ps[|ps| - 2];
    }
  }

  /** The root of a list of peaks, byte for byte: 32 zero bytes for none, the peak
      itself for one; otherwise the hash of 64 bytes, of which the first 32 are the
      root of all peaks but the first, and the last 32 are the first peak. */
  lemma RootLayout(H: Hash, ps: seq<Digest>)
    ensures |ps| == 0 ==> Bag(H, ps) == [0, 0, 0, 0, 0, 0, 0, 0, 0, 0, 0, 0, 0, 0, 0, 0,
                                         0, 0, 0, 0, 0, 0, 0, 0, 0, 0, 0, 0, 0, 0, 0, 0]
    ensures |ps| == 1 ==> Bag(H, ps) == ps[0]
    ensures |ps| >= 2 ==> exists x: Bytes ::
                            Bag(H, ps) == H(x) && |x| == 64 && x[..32] == Bag(H, ps[1..]) && x[32..] == ps[0]
  {
    if ps == [] {
      ZerosAreZero(32);
    } else if |ps| >= 2 {
      BagFromLeft(H, ps);
      var x := BagPreimage(Bag(H, ps[1..]), ps[0]);
      PreimageLayout(ps[0], Bag(H, ps[1..]), 0);
      hide *;
      assert Bag(H, ps) == H(x) && |x| == 64 && x[..32] == Bag(H, ps[1..]) && x[32..] == ps[0];
    }
  }

  lemma RootJoins(H: Hash, ps: seq<Digest>)
    ensures |ps| >= 2 ==> Bag(H, ps) == H(Bag(H, ps[1..]) + ps[0])
  {
    RootLayout(H, ps);
    hide *;
    if |ps| >= 2 {
      var x: Bytes :| Bag(H, ps) == H(x) && |x| == 64 && x[..32] == Bag(H, ps[1..]) && x[32..] == ps[0];
      assert x == x[..32] + x[32..];
    }
  }

  lemma ZerosAreZero(n: nat)
    ensures forall i :: 0 <= i < n ==> Zeros(n)[i] == 0
  {
  }

  // ------------------------------------------------------------- folding

  function StepPreimage(acc: Digest, s: Step, sib: Digest): Bytes {
    if s.targetIsRight then InteriorPreimage(sib, acc, s.parentPos)
    else InteriorPreimage(acc, sib, s.parentPos)
  }

  /** Hash reached by climbing `path` from `acc` with the given siblings. */
  function Fold(H: Hash, acc: Digest, path: seq<Step>, sibs: seq<Digest>): Digest
    requires |path| == |sibs|
    decreases |path|
  {
    if path == [] then acc
    else Fold(H, H(StepPreimage(acc, path[0], sibs[0])), path[1..], sibs[1..])
  }

  /** Everything hashed on the way. */
  function FoldInputs(H: Hash, acc: Digest, path: seq<Step>, sibs: seq<Digest>): set<Bytes>
    requires |path| == |sibs|
    decreases |path|
  {
    if path == [] then {}
    else
      var x := StepPreimage(acc, path[0], sibs[0]);
      {x} + FoldInputs(H, H(x), path[1..], sibs[1..])
  }

  lemma {:induction false} FoldAppend(H: Hash, acc: Digest, p: seq<Step>, q: seq<Step>, u: seq<Digest>, v: seq<Digest>)
    requires |p| == |u| && |q| == |v|
    ensures |p + q| == |u + v|
    ensures Fold(H, acc, p + q, u + v) == Fold(H, Fold(H, acc, p, u), q, v)
    ensures FoldInputs(H, acc, p + q, u + v) ==
              FoldInputs(H, acc, p, u) + FoldInputs(H, Fold(H, acc, p, u), q, v)
    decreases |p|
  {
    if p == [] {
      assert p + q == q && u + v == v;
    } else {
      assert (p + q)[1..] == p[1..] + q && (u + v)[1..] == u[1..] + v;
      FoldAppend(H, H(StepPreimage(acc, p[0], u[0])), p[1..], q, u[1..], v);
    }
  }

  /** The top of a path binds its bottom and every sibling on the way. */
  lemma {:induction false} FoldBinding(H: Hash, a: Digest, b: Digest, path: seq<Step>, u: seq<Digest>, v: seq<Digest>)
    requires |path| == |u| == |v|
    requires Fold(H, a, path, u) == Fold(H, b, path, v)
    ensures (a == b && u == v) || CollisionIn(H, FoldInputs(H, a, path, u) + FoldInputs(H, b, path, v))
    decreases |path|
  {
    if path != [] {
      var s := path[0];
      var x, y := StepPreimage(a, s, u[0]), StepPreimage(b, s, v[0]);
      FoldBinding(H, H(x), H(y), path[1..], u[1..], v[1..]);
      if H(x) == H(y) && u[1..] == v[1..] {
        if x == y {
          PreimagesInjective(a, u[0], s.parentPos, b, v[0], s.parentPos);
          PreimagesInjective(u[0], a, s.parentPos, v[0], b, s.parentPos);
          assert u == [u[0]] + u[1..] && v == [v[0]] + v[1..];
        }
      } else {
        CollisionMonotone(H, FoldInputs(H, H(x), path[1..], u[1..]) + FoldInputs(H, H(y), path[1..], v[1..]),
                          FoldInputs(H, a, path, u) + FoldInputs(H, b, path, v));
      }
    }
  }

  // ----------------------------------------------------------------- hex

  function HexValue(c: char): (v: Option<nat>)
    ensures v.Some? ==> v.value < 16
  {
    if '0' <= c <= '9' then Some((c - '0') as nat)
    else if 'a' <= c <= 'f' then Some((c - 'a') as nat + 10)
    else if 'A' <= c <= 'F' then Some((c - 'A') as nat + 10)
    else None
  }

  function HexDigit(v: nat): (c: char)
    requires v < 16
    ensures HexValue(c) == Some(v)
  {
    "0123456789abcdef"[v]
  }

  /** Bytes written by a string of hex digit pairs, in either case. */
  function HexToBytes(s: string): Option<Bytes>
    decreases |s|
  {
    if s == "" then Some([])
    else if |s| == 1 then None
    else
      match (HexValue(s[0]), HexValue(s[1]), HexToBytes(s[2..]))
      case (Some(hi), Some(lo), Some(rest)) => Some([16 * hi + lo] + rest)
      case _ => None
  }

  function BytesToHex(bs: Bytes): (s: string)
    ensures |s| == 2 * |bs|
  {
    if bs == [] then "" else [HexDigit(bs[0] / 16), HexDigit(bs[0] % 16)] + BytesToHex(bs[1..])
  }

  lemma {:induction false} HexRoundTrip(bs: Bytes)
    ensures HexToBytes(BytesToHex(bs)) == Some(bs)
    decreases |bs|
  {
    hide *;
    if bs == [] {
      HexShort("");
      assert bs == [];
    } else {
      var b, rest := bs[0], bs[1..];
      assert bs == [b] + rest;
      HexRoundTrip(rest);
      BytesToHexCons(b, rest);
      HexCons(HexDigit(b / 16), HexDigit(b % 16), BytesToHex(rest));
      assert b == 16 * (b / 16) + b % 16;
    }
  }

  /** Two digits a byte, the high half first, in lower case. */
  lemma {:induction false} HexForm(bs: Bytes, k: nat)
    requires k < |bs|
    ensures BytesToHex(bs)[2 * k] == "0123456789abcdef"[bs[k] / 16]
    ensures BytesToHex(bs)[2 * k + 1] == "0123456789abcdef"[bs[k] % 16]
    decreases k
  {
    var b, rest := bs[0], bs[1..];
    assert bs == [b] + rest;
    BytesToHexCons(b, rest);
    if k == 0 {
      hide BytesToHex;
    } else {
      HexForm(rest, k - 1);
      hide *;
      var front := [HexDigit(b / 16), HexDigit(b % 16)];
      assert (front + BytesToHex(rest))[2 * k] == BytesToHex(rest)[2 * (k - 1)];
      assert (front + BytesToHex(rest))[2 * k + 1] == BytesToHex(rest)[2 * (k - 1) + 1];
    }
  }

  function LowerCase(s: string): (r: string)
    ensures |r| == |s|
  {
    if s == "" then ""
    else [if 'A' <= s[0] <= 'F' then (s[0] - 'A') + 'a' else s[0]] + LowerCase(s[1..])
  }

  predicate AllHex(s: string) {
    forall i :: 0 <= i < |s| ==> '0' <= s[i] <= '9' || 'a' <= s[i] <= 'f' || 'A' <= s[i] <= 'F'
  }

  lemma AllHexCons(c: char, d: char, rest: string)
    ensures AllHex([c, d] + rest) <==> HexValue(c).Some? && HexValue(d).Some? && AllHex(rest)
  {
    var s := [c, d] + rest;
    assert s[0] == c && s[1] == d && s[2..] == rest;
    if AllHex(s) {
      forall i | 0 <= i < |rest| ensures '0' <= rest[i] <= '9' || 'a' <= rest[i] <= 'f' || 'A' <= rest[i] <= 'F' {
        assert rest[i] == s[i + 2];
      }
    }
  }

  lemma LowerCaseCons(c: char, d: char, rest: string)
    requires HexValue(c).Some? && HexValue(d).Some?
    ensures LowerCase([c, d] + rest) == [HexDigit(HexValue(c).value), HexDigit(HexValue(d).value)] + LowerCase(rest)
  {
    var s := [c, d] + rest;
    assert s[1..] == [d] + rest && s[1..][1..] == rest;
    LowerDigit(c);
    LowerDigit(d);
  }

  lemma LowerDigit(c: char)
    requires HexValue(c).Some?
    ensures HexDigit(HexValue(c).value) == if 'A' <= c <= 'F' then (c - 'A') + 'a' else c
  {
  }

  /** What hex text means: exactly the strings of an even number of hex digits
      decode, and upper case does not matter, as encoding back shows. */
  lemma {:induction false} HexMeans(s: string)
    ensures HexToBytes(s).Some? <==> |s| % 2 == 0 && AllHex(s)
    ensures HexToBytes(s).Some? ==> BytesToHex(HexToBytes(s).value) == LowerCase(s)
    decreases |s|
  {
    hide *;
    if |s| < 2 {
      HexShort(s);
    } else {
      var c, d, rest := s[0], s[1], s[2..];
      assert s == [c, d] + rest;
      HexMeans(rest);
      HexCons(c, d, rest);
      AllHexCons(c, d, rest);
      if HexToBytes(s).Some? {
        LowerCaseCons(c, d, rest);
        BytesToHexCons(16 * HexValue(c).value + HexValue(d).value, HexToBytes(rest).value);
      }
    }
  }

  lemma HexShort(s: string)
    requires |s| < 2
    ensures HexToBytes(s) == if s == "" then Some([]) else None
    ensures BytesToHex([]) == LowerCase("") == "" && AllHex("")
  {
  }

  lemma HexCons(c: char, d: char, rest: string)
    ensures HexToBytes([c, d] + rest) ==
            match (HexValue(c), HexValue(d), HexToBytes(rest))
            case (Some(hi), Some(lo), Some(bs)) => Some([16 * hi + lo] + bs)
            case _ => None
  {
    hide HexValue;
    assert ([c, d] + rest)[2..] == rest;
  }

  lemma BytesToHexCons(b: byte, rest: Bytes)
    ensures BytesToHex([b] + rest) == [HexDigit(b / 16), HexDigit(b % 16)] + BytesToHex(rest)
  {
    hide HexDigit;
    assert ([b] + rest)[1..] == rest;
  }

  predicate AsciiSpace(c: char) {
    c == ' ' || (9 as char) <= c <= (13 as char)
  }

  /** The command line's own reading of hex text, which skips white space between
      the bytes. */
  function FromHex(s: string): Option<Bytes>
    decreases |s|
  {
    if s == "" then Some([])
    else if AsciiSpace(s[0]) then FromHex(s[1..])
    else if |s| == 1 then None
    else
      match (HexValue(s[0]), HexValue(s[1]), FromHex(s[2..]))
      case (Some(hi), Some(lo), Some(rest)) => Some([16 * hi + lo] + rest)
      case _ => None
  }

  /** What that reading skips, and what it does not: white space before a byte, but
      not between its two digits. */
  lemma FromHexSkips(c: char, d: char, rest: string)
    ensures c in {' ', '\t', '\n', 11 as char, 12 as char, '\r'} ==> FromHex([c] + rest) == FromHex(rest)
    ensures HexValue(c).Some? && HexValue(d).Some? && FromHex(rest).Some? ==>
              FromHex([c, d] + rest) ==
              Some([16 * HexValue(c).value + HexValue(d).value] + FromHex(rest).value)
    ensures HexValue(c).Some? && HexValue(d).None? ==> FromHex([c, d] + rest).None?
  {
    assert ([c] + rest)[1..] == rest && ([c, d] + rest)[2..] == rest;
  }

  /** Both readings agree on every text that the verifiers' own accepts. */
  lemma {:induction false} FromHexAgrees(s: string)
    requires HexToBytes(s).Some?
    ensures FromHex(s) == HexToBytes(s)
    decreases |s|
  {
    if s != "" {
      FromHexAgrees(s[2..]);
    }
  }

  /** A hex string of exactly one digest. */
  function ParseDigest(s: string): Option<Digest> {
    match HexToBytes(s)
    case Some(bs) => if |bs| == 32 then Some(bs) else None
    case None => None
  }

  /** The form of a capsule id. */
  predicate IsH64(s: string) {
    |s| == 64 && forall i :: 0 <= i < |s| ==> HexValue(s[i]).Some?
  }

  /** 64 characters, each a digit or a letter from a to f in either case; that is
      the hex text of a digest. */
  lemma IsH64Means(s: string)
    ensures IsH64(s) <==>
            |s| == 64 && forall i :: 0 <= i < 64 ==> '0' <= s[i] <= '9' || 'a' <= s[i] <= 'f' || 'A' <= s[i] <= 'F'
    ensures IsH64(s) <==> ParseDigest(s).Some?
  {
    assert |s| == 64 ==> (IsH64(s) <==> AllHex(s));
    HexMeans(s);
    if HexToBytes(s).Some? {
      assert |BytesToHex(HexToBytes(s).value)| == |LowerCase(s)| == |s|;
    }
  }

  function ParseDigests(ss: seq<string>): (r: Option<seq<Digest>>)
    ensures r.Some? ==> |r.value| == |ss|
    ensures r.Some? <==> forall i :: 0 <= i < |ss| ==> ParseDigest(ss[i]).Some?
    ensures r.Some? ==> forall i :: 0 <= i < |ss| ==> ParseDigest(ss[i]) == Some(r.value[i])
  {
    if ss == [] then Some([])
    else
      match (ParseDigest(ss[0]), ParseDigests(ss[1..]))
      case (Some(d), Some(ds)) => Some([d] + ds)
      case _ => None
  }

  function HexDigests(ds: seq<Digest>): (ss: seq<string>)
    ensures |ss| == |ds|
  {
    if ds == [] then [] else [BytesToHex(ds[0])] + HexDigests(ds[1..])
  }

  lemma ParseHexDigest(d: Digest)
    ensures ParseDigest(BytesToHex(d)) == Some(d)
  {
    HexRoundTrip(d);
    hide BytesToHex, HexToBytes;
  }

  lemma ParseCons(d: Digest, ds: seq<Digest>)
    requires ParseDigests(HexDigests(ds)) == Some(ds)
    ensures ParseDigests(HexDigests([d] + ds)) == Some([d] + ds)
  {
    ParseHexDigest(d);
    hide BytesToHex, HexToBytes, ParseDigest;
    assert ([d] + ds)[1..] == ds;
    var ss := HexDigests([d] + ds);
    assert ss[0] == BytesToHex(d) && ss[1..] == HexDigests(ds);
  }

  lemma {:induction false} ParseHexDigests(ds: seq<Digest>)
    ensures ParseDigests(HexDigests(ds)) == Some(ds)
    decreases |ds|
  {
    if ds != [] {
      hide *;
      ParseHexDigests(ds[1..]);
      ParseCons(ds[0], ds[1..]);
      assert ds == [ds[0]] + ds[1..];
    }
  }
}

/** The verifier's own loops, each tied to the layout functions it computes.

    Numbers are doubles in the viewer.  The type `SafeInt` is the range in which
    every integer is represented exactly; that each number computed below stays
    in it shows that the arithmetic never rounds. */
module Mmr {
  import opened Ancestry
  import opened Proofs
  import Geometry
  import Hashing

  type SafeInt = x: int | 0 <= x <= 0x1F_FFFF_FFFF_FFFF
  type Option<T> = Geometry.Option<T>

  /** Twice this is still represented exactly. */
  const MAX_DOUBLED: SafeInt := 0xF_FFFF_FFFF_FFFF

  lemma PowerLimits()
    ensures Geometry.Pow2(50) == MAX_MMR_SIZE
    ensures Geometry.Pow2(52) == 0x10_0000_0000_0000
  {
    assert Geometry.Pow2(10) == 0x400;
    assert Geometry.Pow2(20) == 0x10_0000;
    assert Geometry.Pow2(30) == 0x4000_0000;
    assert Geometry.Pow2(40) == 0x100_0000_0000;
    assert Geometry.Pow2(50) == 0x4_0000_0000_0000;
  }

  /** `Math.pow(2, k)` where it is exact. */
  function MathPow2(k: nat): (p: SafeInt)
    requires k <= 52
    ensures p == Geometry.Pow2(k) >= 1
  {
    PowerLimits();
    Geometry.Pow2Monotone(k, 52);
    Geometry.Pow2(k)
  }

  lemma HeightLimit(h: nat)
    requires Geometry.TreeSize(h) <= MAX_MMR_SIZE
    ensures h <= 49
  {
    if h >= 50 {
      PowerLimits();
      Geometry.Pow2Monotone(51, h + 1);
    }
  }

  lemma HeightAtLimit(pos: nat)
    requires pos < MAX_MMR_SIZE
    ensures Geometry.HeightAt(pos) <= 49
  {
    Geometry.Children(pos);
    HeightLimit(Geometry.HeightAt(pos));
  }

  // ------------------------------------------------------------ arithmetic

  method Popcount(n: SafeInt) returns (c: SafeInt)
    ensures c == Geometry.Popcount(n)
  {
    var m: SafeInt := n;
    c := 0;
    Geometry.PopcountBound(n);
    while m > 0
      invariant c + Geometry.Popcount(m) == Geometry.Popcount(n)
    {
      c := c + if m % 2 == 1 then 1 else 0;
      m := m / 2;
    }
  }

  method NodeCount(leafCount: SafeInt) returns (n: SafeInt)
    requires leafCount <= MAX_DOUBLED
    ensures n == Geometry.NodeCount(leafCount)
  {
    var c := Popcount(leafCount);
    Geometry.PopcountBound(leafCount);
    var doubled: SafeInt := 2 * leafCount;
    n := doubled - c;
  }

  method HeightAt(pos: nat) returns (height: nat)
    requires pos < MAX_MMR_SIZE
    ensures height == Geometry.HeightAt(pos) && HeightEverywhere(pos, height)
  {
    HeightAtEverywhere(pos);
    hide HeightEverywhere;
    var pos1: SafeInt, h: SafeInt := pos + 1, 0;
    while MathPow2(h + 1) - 1 < pos1
      invariant h <= 50
      invariant h > 0 ==> Geometry.TreeSize(h - 1) < pos1
    {
      HeightLimit(h);
      h := h + 1;
    }
    Geometry.HeightAtIn(h, pos);
    while h > 0
      invariant 0 < pos1 <= Geometry.TreeSize(h) && h <= 50
      invariant Geometry.HeightIn(h, pos1 - 1) == Geometry.HeightAt(pos)
    {
      var size: SafeInt := MathPow2(h + 1) - 1;
      if pos1 == size {
        return h;
      }
      var leftSize: SafeInt := MathPow2(h) - 1;
      if pos1 > leftSize {
        pos1 := pos1 - leftSize;
      }
      h := h - 1;
    }
    return 0;
  }

  /** The inner loop of `Peaks`: height of the tallest perfect tree that fits. */
  method TallestFit(remaining: nat) returns (h: nat)
    requires 0 < remaining < MAX_MMR_SIZE
    ensures h == Geometry.TopHeight(remaining) && h <= 49
  {
    h := 0;
    while MathPow2(h + 2) - 1 <= remaining
      invariant h <= 49 && Geometry.TreeSize(h) <= remaining
    {
      HeightLimit(h + 1);
      h := h + 1;
    }
    Geometry.TopHeightUnique(remaining, h);
  }

  method Peaks(size: int) returns (r: Option<seq<nat>>)
    ensures r == if 0 <= size < MAX_MMR_SIZE then Geometry.PeaksOf(size) else Geometry.None
  {
    if size < 0 || size >= MAX_MMR_SIZE {
      return Geometry.None;
    }
    hide *;
    var result: seq<nat> := [];
    var remaining: SafeInt, offset: SafeInt := size, 0;
    var prevHeight: SafeInt := size + 1;  // stands for Infinity: above every height that fits
    NothingPlaced(size);
    while remaining > 0
      invariant offset + remaining == size
      invariant Geometry.PeaksOf(size) == Placed(result, offset, remaining, prevHeight)
    {
      var h := TallestFit(remaining);
      PlaceOne(result, offset, remaining, prevHeight);
      if h >= prevHeight {
        return Geometry.None;
      }
      var mSize: SafeInt := MathPow2(h + 1) - 1;
      MathPow2Tree(h);
      offset := offset + mSize;
      result := result + [offset - 1];
      remaining := remaining - mSize;
      prevHeight := h;
    }
    AllPlaced(result, offset, prevHeight);
    return Geometry.Some(result);
  }

  /** The peak list that the loop is about to reach. */
  ghost function Placed(result: seq<nat>, offset: nat, remaining: nat, prevHeight: nat): Option<seq<nat>> {
    match Geometry.PeaksFrom(offset, remaining, prevHeight)
    case None => Geometry.None
    case Some(rest) => Geometry.Some(result + rest)
  }

  lemma NothingPlaced(size: nat)
    ensures Geometry.PeaksOf(size) == Placed([], 0, size, size + 1)
  {
    assert forall t: seq<nat> :: [] + t == t;
  }

  lemma AllPlaced(result: seq<nat>, offset: nat, prevHeight: nat)
    ensures Placed(result, offset, 0, prevHeight) == Geometry.Some(result)
  {
    assert result + [] == result;
  }

  lemma PlaceOne(result: seq<nat>, offset: nat, remaining: nat, prevHeight: nat)
    requires remaining > 0
    ensures var h := Geometry.TopHeight(remaining);
            var n := Geometry.TreeSize(h);
            Placed(result, offset, remaining, prevHeight) ==
            if h >= prevHeight then Geometry.None
            else Placed(result + [offset + n - 1], offset + n, remaining - n, h)
  {
    hide Geometry.TreeSize, Geometry.TopHeight;
    var h := Geometry.TopHeight(remaining);
    var n := Geometry.TreeSize(h);
    var rest := Geometry.PeaksFrom(offset + n, remaining - n, h);
    if h < prevHeight && rest.Some? {
      assert result + ([offset + n - 1] + rest.value) == result + [offset + n - 1] + rest.value;
    }
  }

  lemma MathPow2Tree(h: nat)
    requires h <= 51
    ensures MathPow2(h + 1) - 1 == Geometry.TreeSize(h)
  {
  }

  lemma LeafSumSplit(ps: seq<nat>, i: nat)
    requires i < |ps|
    ensures Geometry.LeafSum(ps[i..]) == Geometry.Pow2(Geometry.HeightAt(ps[i])) + Geometry.LeafSum(ps[i + 1..])
  {
    assert ps[i..][1..] == ps[i + 1..];
  }

  lemma LeavesFit(f: nat)
    ensures f <= Geometry.NodeCount(f)
  {
    Geometry.PopcountBound(f);
  }

  lemma LeavesBelow(size: nat)
    requires ValidSize(size)
    ensures Geometry.LeavesIn(size) <= size
  {
    Geometry.PeaksDecide(size);
    LeavesFit(Geometry.LeavesIn(size));
  }

  method LeafCountFromSize(size: int) returns (r: Option<nat>)
    ensures r == if ValidSize(size) then Geometry.Some(Geometry.LeavesIn(size)) else Geometry.None
  {
    var pks := Peaks(size);
    if pks.None? {
      return Geometry.None;
    }
    Geometry.PeaksDecide(size);
    LeavesFit(Geometry.LeavesIn(size));
    hide HeightEverywhere, Geometry.PeaksOf, Geometry.Tiles, Geometry.HeightsDecreaseBelow;
    var total: SafeInt := 0;
    for i := 0 to |pks.value|
      invariant total + Geometry.LeafSum(pks.value[i..]) == Geometry.LeavesIn(size)
    {
      PeakBelow(size, i);
      HeightAtLimit(pks.value[i]);
      var h := HeightAt(pks.value[i]);
      LeafSumSplit(pks.value, i);
      total := total + MathPow2(h);
    }
    return Geometry.Some(total);
  }

  method LeafIndexToPos(leafIndex: SafeInt) returns (r: Option<nat>)
    requires leafIndex <= MAX_DOUBLED
    ensures r == if Geometry.NodeCount(leafIndex) < MAX_MMR_SIZE then Geometry.Some(Geometry.NodeCount(leafIndex))
                 else Geometry.None
  {
    var pos := NodeCount(leafIndex);
    if pos >= MAX_MMR_SIZE {
      return Geometry.None;
    }
    return Geometry.Some(pos);
  }

  /** What the search has left to find once it is at index `i`. */
  ghost function FoundFrom(ps: seq<nat>, pos: nat, i: nat): Option<nat>
    requires i <= |ps|
  {
    match Geometry.ContainingIndex(ps[i..], pos)
    case Some(k) => Geometry.Some(k + i)
    case None => Geometry.None
  }

  lemma FoundFromUnfold(ps: seq<nat>, pos: nat, i: nat)
    requires i < |ps|
    ensures FoundFrom(ps, pos, i) ==
            if Geometry.Contains(ps[i], pos) then Geometry.Some(i) else FoundFrom(ps, pos, i + 1)
  {
    hide Geometry.Contains;
    assert ps[i..][1..] == ps[i + 1..];
  }

  lemma FoundFromEnds(ps: seq<nat>, pos: nat)
    ensures FoundFrom(ps, pos, 0) == Geometry.ContainingIndex(ps, pos)
    ensures FoundFrom(ps, pos, |ps|) == Geometry.None
  {
    hide Geometry.Contains;
    assert ps[0..] == ps && ps[|ps|..] == [];
  }

  method FindContainingPeak(pos: nat, peakPositions: seq<nat>) returns (idx: int)
    requires forall j :: 0 <= j < |peakPositions| ==> peakPositions[j] < MAX_MMR_SIZE
    ensures idx == match Geometry.ContainingIndex(peakPositions, pos) case Some(k) => k case None => -1
  {
    FoundFromEnds(peakPositions, pos);
    hide FoundFrom, Geometry.ContainingIndex, Geometry.HeightAt;
    for i := 0 to |peakPositions|
      invariant Geometry.ContainingIndex(peakPositions, pos) == FoundFrom(peakPositions, pos, i)
    {
      FoundFromUnfold(peakPositions, pos, i);
      var peakPos: SafeInt := peakPositions[i];
      var h := HeightAt(peakPos);
      HeightAtLimit(peakPos);
      Geometry.Children(peakPos);
      var mSize: SafeInt := MathPow2(h + 1) - 1;
      var start: SafeInt := peakPos - mSize + 1;
      if start <= pos && pos <= peakPos {
        return i;
      }
    }
    return -1;
  }

  function Reverse<T>(s: seq<T>): (r: seq<T>)
    ensures |r| == |s|
  {
    if s == [] then [] else Reverse(s[1..]) + [s[0]]
  }

  /** The path below the walk, then the walk so far from the bottom up. */
  ghost function Joined(below: seq<Geometry.Step>, topDown: seq<Geometry.Step>): seq<Geometry.Step> {
    below + Reverse(topDown)
  }

  lemma ReverseAppend<T>(s: seq<T>, x: T)
    ensures Reverse(s + [x]) == [x] + Reverse(s)
  {
    if s != [] {
      assert (s + [x])[1..] == s[1..] + [x];
    }
  }

  lemma JoinedStep(below: seq<Geometry.Step>, step: Geometry.Step, topDown: seq<Geometry.Step>)
    ensures Joined(below + [step], topDown) == Joined(below, topDown + [step])
  {
    ReverseAppend(topDown, step);
  }

  lemma JoinedEnds(s: seq<Geometry.Step>)
    ensures Joined(s, []) == s && Joined([], s) == Reverse(s)
  {
  }

  lemma PathStops(r: nat, h: nat, t: nat)
    requires r + 1 >= Geometry.TreeSize(h) && (h == 0 || r == t)
    ensures Geometry.Path(r, h, t) == []
  {
  }

  method LocatePath(rootPos: nat, height: nat, targetPos: nat) returns (path: seq<Geometry.Step>)
    requires rootPos < MAX_MMR_SIZE && rootPos + 1 >= Geometry.TreeSize(height)
    ensures path == Geometry.Path(rootPos, height, targetPos)
  {
    var topDown := [];
    var curRoot: SafeInt, curHeight: nat := rootPos, height;
    HeightLimit(height);
    hide *;
    ghost var goal := Geometry.Path(rootPos, height, targetPos);
    JoinedEnds(goal);
    while curHeight > 0 && curRoot != targetPos
      invariant curHeight <= 49 && curRoot + 1 >= Geometry.TreeSize(curHeight)
      invariant goal == Joined(Geometry.Path(curRoot, curHeight, targetPos), topDown)
    {
      var parentPos := curRoot;
      Geometry.PathUnfold(curRoot, curHeight, targetPos);
      var leftSize: SafeInt := MathPow2(curHeight) - 1;
      var leftChildRoot: SafeInt := curRoot - leftSize - 1;
      var rightChildRoot: SafeInt := curRoot - 1;
      var step;
      if targetPos <= leftChildRoot {
        step := Geometry.Step(rightChildRoot, false, parentPos);
        curRoot := leftChildRoot;
      } else {
        step := Geometry.Step(leftChildRoot, true, parentPos);
        curRoot := rightChildRoot;
      }
      JoinedStep(Geometry.Path(curRoot, curHeight - 1, targetPos), step, topDown);
      topDown := topDown + [step];
      curHeight := curHeight - 1;
    }
    PathStops(curRoot, curHeight, targetPos);
    path := Reverse(topDown);
    JoinedEnds(topDown);
  }

  // --------------------------------------------------------------- hashing

  method BeU64(n: SafeInt) returns (bytes: array<Hashing.byte>)
    ensures fresh(bytes) && bytes[..] == Hashing.BeU64(n)
  {
    bytes := new Hashing.byte[8](_ => 0);
    var v: SafeInt := n;
    var i := 7;
    while i >= 0
      invariant -1 <= i <= 7
      invariant Hashing.BigEndian(n, 8) == Hashing.BigEndian(v, i + 1) + bytes[i + 1..]
    {
      assert bytes[i + 1..] == bytes[..][i + 1..];
      ghost var tail := bytes[i + 1..];
      bytes[i] := v % 256;
      assert bytes[i..] == [bytes[i]] + tail;
      v := v / 256;
      i := i - 1;
    }
  }

  /** The position committed to is one more than a position below the size cap. */
  method InteriorHash(H: Hashing.Hash, left: Hashing.Digest, right: Hashing.Digest, position: nat)
    returns (d: Hashing.Digest)
    requires position < MAX_MMR_SIZE
    ensures d == Hashing.InteriorHash(H, left, right, position)
  {
    var next: SafeInt := position + 1;
    var prefix := BeU64(next);
    d := H(prefix[..] + left + right);
  }

  method RootFromPeaks(H: Hashing.Hash, peakHashes: seq<Hashing.Digest>) returns (root: Hashing.Digest)
    ensures root == Hashing.Bag(H, peakHashes)
    ensures |peakHashes| >= 2 ==> root == H(Hashing.Bag(H, peakHashes[1..]) + peakHashes[0])
  {
    Hashing.RootJoins(H, peakHashes);
    if |peakHashes| == 0 {
      return Hashing.ZERO_DIGEST;
    }
    var hashes := peakHashes;
    while |hashes| > 1
      invariant |hashes| >= 1
      invariant Hashing.Bag(H, hashes) == Hashing.Bag(H, peakHashes)
    {
      var n := |hashes|;
      var right, left := hashes[n - 1], hashes[n - 2];
      hashes := hashes[..n - 2] + [H(Hashing.BagPreimage(right, left))];
    }
    root := hashes[0];
  }

  /** The positions hashed on the way are below the size cap. */
  predicate ParentsCapped(path: seq<Geometry.Step>) {
    forall j :: 0 <= j < |path| ==> path[j].parentPos < MAX_MMR_SIZE
  }

  /** The loop both verifiers run over a path. */
  method FoldPath(H: Hashing.Hash, start: Hashing.Digest, path: seq<Geometry.Step>, sibs: seq<Hashing.Digest>)
    returns (acc: Hashing.Digest)
    requires |path| == |sibs| && ParentsCapped(path)
    ensures acc == Hashing.Fold(H, start, path, sibs)
  {
    acc := start;
    for i := 0 to |path|
      invariant Hashing.Fold(H, start, path, sibs) == Hashing.Fold(H, acc, path[i..], sibs[i..])
    {
      assert path[i..][1..] == path[i + 1..] && sibs[i..][1..] == sibs[i + 1..];
      var step, sib := path[i], sibs[i];
      if step.targetIsRight {
        acc := InteriorHash(H, sib, acc, step.parentPos);
      } else {
        acc := InteriorHash(H, acc, sib, step.parentPos);
      }
    }
  }

  // ------------------------------------------------------------- verifiers

  lemma PeaksBelowCap(size: nat)
    requires ValidSize(size)
    ensures forall j :: 0 <= j < |PeakList(size)| ==> PeakList(size)[j] < size
  {
    forall j | 0 <= j < |PeakList(size)| ensures PeakList(size)[j] < size {
      PeakBelow(size, j);
    }
  }

  /** The mountain that holds position `pos`, and the path up to its peak. */
  method Route(ghost size: nat, pks: seq<nat>, pos: nat) returns (peakIdx: nat, path: seq<Geometry.Step>)
    requires ValidSize(size) && pks == PeakList(size) && pos < size
    ensures peakIdx == MountainOf(size, pos)
    ensures path == Geometry.PathTo(pks[peakIdx], pos) && ParentsCapped(path)
  {
    PeaksBelowCap(size);
    MountainUnique(size, pos, MountainOf(size, pos));
    Geometry.PeaksDecide(size);
    Geometry.ContainingIndexExact(pks, 0, size, pos);
    var idx := FindContainingPeak(pos, pks);
    peakIdx := idx;
    var peakPos := pks[peakIdx];
    var peakHeight := HeightAt(peakPos);
    Geometry.Children(peakPos);
    path := LocatePath(peakPos, peakHeight, pos);
    ParentsBelow(peakPos, pos);
  }

  /** Mountain, sibling path and number of peaks for leaf `i`, if there is one. */
  method LeafRoute(size: int, leafIndex: int) returns (r: Option<(nat, seq<Geometry.Step>, nat)>)
    ensures r.Some? <==> ValidSize(size) && 0 <= leafIndex < Geometry.LeavesIn(size)
    ensures r.Some? ==>
              && (LeafInRange(size, leafIndex); r.value.0 == MountainOf(size, Geometry.NodeCount(leafIndex)))
              && r.value.1 == LeafPath(size, leafIndex)
              && r.value.2 == |PeakList(size)|
              && ParentsCapped(r.value.1)
  {
    if size < 0 || size >= MAX_MMR_SIZE { return Geometry.None; }
    if leafIndex < 0 { return Geometry.None; }
    var lc := LeafCountFromSize(size);
    if lc.None? || leafIndex >= lc.value { return Geometry.None; }
    LeafInRange(size, leafIndex);
    LeavesBelow(size);
    var leafPos := LeafIndexToPos(leafIndex);
    var pks := Peaks(size);
    var peakIdx, path := Route(size, pks.value, leafPos.value);
    return Geometry.Some((peakIdx, path, |pks.value|));
  }

  /** Accepts exactly the proofs that `AcceptsInclusion` describes; an error
      thrown on the way counts as a rejection. */
  method VerifyInclusion(H: Hashing.Hash, rootHex: string, size: int, leafIndex: int, bodyDigestHex: string,
                         proof: InclusionProof) returns (ok: bool)
    ensures ok == AcceptsInclusion(H, rootHex, size, leafIndex, bodyDigestHex, proof)
    ensures ok ==> proof.v == 1 && proof.kind == "inclusion" && proof.size == size && proof.leafIndex == leafIndex
  {
    var root, bodyDigest := Hashing.ParseDigest(rootHex), Hashing.ParseDigest(bodyDigestHex);
    if root.None? || bodyDigest.None? { return false; }
    if proof.v != 1 || proof.kind != "inclusion" { return false; }
    if proof.size != size || proof.leafIndex != leafIndex { return false; }

    var route := LeafRoute(size, leafIndex);
    if route.None? { return false; }
    var (peakIdx, path, peakCount) := route.value;

    if |proof.siblings| != |path| { return false; }
    if |proof.peaksLeft| != peakIdx { return false; }
    if |proof.peaksRight| != peakCount - peakIdx - 1 { return false; }

    var siblings := Hashing.ParseDigests(proof.siblings);
    var left := Hashing.ParseDigests(proof.peaksLeft);
    var right := Hashing.ParseDigests(proof.peaksRight);
    if siblings.None? || left.None? || right.None? { return false; }

    var acc := FoldPath(H, Hashing.LeafHash(H, bodyDigest.value), path, siblings.value);
    var computedRoot := RootFromPeaks(H, left.value + [acc] + right.value);
    ok := computedRoot == root.value;
  }

  /** Old peak `j` climbs to the new peak above it. */
  ghost predicate PeakChecks(H: Hashing.Hash, a: nat, b: nat, siblings: seq<seq<string>>,
                             olds: seq<Hashing.Digest>, news: seq<Hashing.Digest>, j: nat)
    requires ValidSize(a) && ValidSize(b) && a <= b && j < |PeakList(a)|
    requires |olds| == |siblings| == |PeakList(a)| && |news| == |PeakList(b)|
  {
    var w := Hashing.ParseDigests(siblings[j]);
    && w.Some? && |w.value| == |PeakPath(a, b, j)|
    && Hashing.Fold(H, olds[j], PeakPath(a, b, j), w.value) == news[NewMountain(a, b, j)]
  }

  /** The same, once every sibling list has been decoded. */
  ghost predicate PeakClimbs(H: Hashing.Hash, a: nat, b: nat, p: Consistency, j: nat)
    requires ValidSize(a) && ValidSize(b) && a <= b && j < |PeakList(a)|
    requires |p.olds| == |p.siblings| == |PeakList(a)| && |p.news| == |PeakList(b)|
  {
    && |p.siblings[j]| == |PeakPath(a, b, j)|
    && Hashing.Fold(H, p.olds[j], PeakPath(a, b, j), p.siblings[j]) == p.news[NewMountain(a, b, j)]
  }

  lemma ClimbsMeanExtends(H: Hashing.Hash, a: nat, b: nat, p: Consistency)
    requires ValidSize(a) && ValidSize(b) && a <= b
    requires |p.olds| == |p.siblings| == |PeakList(a)| && |p.news| == |PeakList(b)|
    ensures (forall j :: 0 <= j < |PeakList(a)| ==> PeakClimbs(H, a, b, p, j)) <==>
            Extends(H, Hashing.Bag(H, p.olds), a, Hashing.Bag(H, p.news), b, p)
  {
    hide PeakPath, NewMountain, PeakList, ValidSize;
    if forall j :: 0 <= j < |PeakList(a)| ==> PeakClimbs(H, a, b, p, j) {
      forall j | 0 <= j < |PeakList(a)|
        ensures |p.siblings[j]| == |PeakPath(a, b, j)|
        ensures Hashing.Fold(H, p.olds[j], PeakPath(a, b, j), p.siblings[j]) == p.news[NewMountain(a, b, j)]
      {
        assert PeakClimbs(H, a, b, p, j);
      }
    }
  }

  lemma AllPeaksCheck(H: Hashing.Hash, a: nat, b: nat, siblings: seq<seq<string>>, p: Consistency)
    requires ValidSize(a) && ValidSize(b) && a <= b
    requires |p.olds| == |siblings| == |PeakList(a)| && |p.news| == |PeakList(b)|
    requires ParseWitnesses(siblings) == Geometry.Some(p.siblings)
    ensures (forall j :: 0 <= j < |PeakList(a)| ==> PeakChecks(H, a, b, siblings, p.olds, p.news, j)) <==>
            Extends(H, Hashing.Bag(H, p.olds), a, Hashing.Bag(H, p.news), b, p)
  {
    hide *;
    ClimbsMeanExtends(H, a, b, p);
    forall j | 0 <= j < |PeakList(a)|
      ensures PeakChecks(H, a, b, siblings, p.olds, p.news, j) <==> PeakClimbs(H, a, b, p, j)
    {
      PeakCheckMeans(H, a, b, siblings, p, j);
    }
  }

  lemma PeakCheckMeans(H: Hashing.Hash, a: nat, b: nat, siblings: seq<seq<string>>, p: Consistency, j: nat)
    requires ValidSize(a) && ValidSize(b) && a <= b && j < |PeakList(a)|
    requires |p.olds| == |siblings| == |p.siblings| == |PeakList(a)| && |p.news| == |PeakList(b)|
    requires Hashing.ParseDigests(siblings[j]) == Geometry.Some(p.siblings[j])
    ensures PeakChecks(H, a, b, siblings, p.olds, p.news, j) <==> PeakClimbs(H, a, b, p, j)
  {
    hide PeakPath, NewMountain, PeakList, ValidSize;
  }

  /** One round of the loop over the old peaks. */
  method CheckPeak(H: Hashing.Hash, sizeA: nat, sizeB: nat, newPositions: seq<nat>, ghost siblings: seq<seq<string>>,
                   ghost olds: seq<Hashing.Digest>, news: seq<Hashing.Digest>,
                   i: nat, p: nat, w: seq<string>, oldPeak: Hashing.Digest)
    returns (ok: bool)
    requires ValidSize(sizeA) && ValidSize(sizeB) && sizeA <= sizeB && i < |PeakList(sizeA)|
    requires newPositions == PeakList(sizeB) && p == PeakList(sizeA)[i]
    requires |olds| == |siblings| == |PeakList(sizeA)| && |news| == |newPositions|
    requires w == siblings[i] && oldPeak == olds[i]
    ensures ok == PeakChecks(H, sizeA, sizeB, siblings, olds, news, i)
  {
    PeakBelow(sizeA, i);
    var containingIdx, path := Route(sizeB, newPositions, p);
    assert path == PeakPath(sizeA, sizeB, i) && containingIdx == NewMountain(sizeA, sizeB, i);
    if |w| != |path| { return false; }
    var siblingBytes := Hashing.ParseDigests(w);
    if siblingBytes.None? { return false; }
    var acc := FoldPath(H, oldPeak, path, siblingBytes.value);
    ok := acc == news[containingIdx];
  }

  /** The loop over the old peaks. */
  method CheckPeaks(H: Hashing.Hash, sizeA: nat, sizeB: nat, oldPositions: seq<nat>, newPositions: seq<nat>,
                    siblings: seq<seq<string>>, olds: seq<Hashing.Digest>, news: seq<Hashing.Digest>)
    returns (ok: bool)
    requires ValidSize(sizeA) && ValidSize(sizeB) && sizeA <= sizeB
    requires oldPositions == PeakList(sizeA) && newPositions == PeakList(sizeB)
    requires |olds| == |siblings| == |oldPositions| && |news| == |newPositions|
    ensures ok <==> forall j :: 0 <= j < |PeakList(sizeA)| ==> PeakChecks(H, sizeA, sizeB, siblings, olds, news, j)
  {
    hide *;
    for i := 0 to |oldPositions|
      invariant forall j :: 0 <= j < i ==> PeakChecks(H, sizeA, sizeB, siblings, olds, news, j)
    {
      ok := CheckPeak(H, sizeA, sizeB, newPositions, siblings, olds, news, i, oldPositions[i], siblings[i], olds[i]);
      if !ok { return; }
    }
    return true;
  }

  /** Accepts exactly the proofs that `AcceptsConsistency` describes. */
  method VerifyConsistency(H: Hashing.Hash, rootAHex: string, sizeA: int, rootBHex: string, sizeB: int,
                           proof: ConsistencyProof) returns (ok: bool)
    ensures ok == AcceptsConsistency(H, rootAHex, sizeA, rootBHex, sizeB, proof)
    ensures ok ==> proof.v == 1 && proof.kind == "consistency" && proof.sizeA == sizeA && proof.sizeB == sizeB
  {
    var rootA, rootB := Hashing.ParseDigest(rootAHex), Hashing.ParseDigest(rootBHex);
    if rootA.None? || rootB.None? { return false; }
    if proof.v != 1 || proof.kind != "consistency" { return false; }
    if proof.sizeA != sizeA || proof.sizeB != sizeB { return false; }
    if sizeA < 0 { return false; }
    if sizeB < 0 || sizeB < sizeA { return false; }

    var oldPositions := Peaks(sizeA);
    var newPositions := Peaks(sizeB);
    if oldPositions.None? || newPositions.None? { return false; }

    if |proof.oldPeaks| != |oldPositions.value| { return false; }
    if |proof.newPeaks| != |newPositions.value| { return false; }
    if |proof.siblings| != |oldPositions.value| { return false; }

    var olds, news := Hashing.ParseDigests(proof.oldPeaks), Hashing.ParseDigests(proof.newPeaks);
    if olds.None? || news.None? { return false; }

    var computedRootA := RootFromPeaks(H, olds.value);
    if computedRootA != rootA.value { return false; }
    var computedRootB := RootFromPeaks(H, news.value);
    if computedRootB != rootB.value { return false; }

    ok := CheckPeaks(H, sizeA, sizeB, oldPositions.value, newPositions.value, proof.siblings, olds.value, news.value);
    ChecksDecide(H, rootAHex, sizeA, rootBHex, sizeB, proof, olds.value, news.value);
  }

  lemma ChecksDecide(H: Hashing.Hash, rootAHex: string, a: nat, rootBHex: string, b: nat, proof: ConsistencyProof,
                     olds: seq<Hashing.Digest>, news: seq<Hashing.Digest>)
    requires ValidSize(a) && ValidSize(b) && a <= b
    requires proof.v == 1 && proof.kind == "consistency" && proof.sizeA == a && proof.sizeB == b
    requires Hashing.ParseDigests(proof.oldPeaks) == Geometry.Some(olds)
    requires Hashing.ParseDigests(proof.newPeaks) == Geometry.Some(news)
    requires |olds| == |proof.siblings| == |PeakList(a)| && |news| == |PeakList(b)|
    requires Hashing.ParseDigest(rootAHex) == Geometry.Some(Hashing.Bag(H, olds))
    requires Hashing.ParseDigest(rootBHex) == Geometry.Some(Hashing.Bag(H, news))
    ensures AcceptsConsistency(H, rootAHex, a, rootBHex, b, proof) <==>
            forall j :: 0 <= j < |PeakList(a)| ==> PeakChecks(H, a, b, proof.siblings, olds, news, j)
  {
    hide PeakPath, NewMountain, PeakList, ValidSize, PeakChecks;
    var ws := ParseWitnesses(proof.siblings);
    if ws.Some? {
      AllPeaksCheck(H, a, b, proof.siblings, Consistency(olds, ws.value, news));
    } else {
      var j :| 0 <= j < |proof.siblings| && Hashing.ParseDigests(proof.siblings[j]).None?;
      assert !PeakChecks(H, a, b, proof.siblings, olds, news, j) by {
        UndecodedFails(H, a, b, proof.siblings, olds, news, j);
      }
    }
  }

  lemma UndecodedFails(H: Hashing.Hash, a: nat, b: nat, siblings: seq<seq<string>>,
                       olds: seq<Hashing.Digest>, news: seq<Hashing.Digest>, j: nat)
    requires ValidSize(a) && ValidSize(b) && a <= b && j < |PeakList(a)|
    requires |olds| == |siblings| == |PeakList(a)| && |news| == |PeakList(b)|
    requires Hashing.ParseDigests(siblings[j]).None?
    ensures !PeakChecks(H, a, b, siblings, olds, news, j)
  {
  }
}

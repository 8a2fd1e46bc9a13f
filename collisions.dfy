/**
  The meet-in-the-middle join of the collision search.  A 12-character string is
  four 3-character blocks; by additivity its objcHash is

      k0 * 257^9 + k1 * 257^6 + k2 * 257^3 + k3   (mod 2^64)

  where k0..k3 are the blocks' hashes.  The search walks the suffix map for k0, k1
  and k2, prunes partial sums that cannot be completed, and looks the missing last
  block up by its hash.  This module proves that everything it emits collides with
  the reference hash and that pruning loses no combination of stored blocks.
*/
module Collisions {
  import opened Hashing
  import opened SuffixMap

  /** `len`: the length of the reference string and of every emitted string. */
  const Len: nat := 12

  /** The block weights: `f2 = 257^3`, `f1 = f2 &* f2`, `f0 = f2 &* f2 &* f2`. */
  const F2: U64 := 16974593
  const F1: U64 := WMul(F2, F2)
  const F0: U64 := WMul(WMul(F2, F2), F2)

  datatype Option<T> = None | Some(value: T)

  /** The result of Swift's trapping (non-`&`) arithmetic: a value, or a runtime trap. */
  datatype Checked<T> = Value(v: T) | Overflow

  /** Swift `a * b` on UInt64. */
  function CheckedMul(a: U64, b: U64): (r: Checked<U64>) {
    if a * b < Modulus then Value(a * b) else Overflow
  }

  /** Swift `a + b` on UInt64. */
  function CheckedAdd(a: U64, b: U64): (r: Checked<U64>) {
    if a + b < Modulus then Value(a + b) else Overflow
  }

  /** Swift `a - b` on UInt64. */
  function CheckedSub(a: U64, b: U64): (r: Checked<U64>) {
    if a >= b then Value(a - b) else Overflow
  }

  /** `x * UInt64(257 * 257 * 257) + x`: the hash of two blocks that both hash to `x`. */
  function TwoBlockBound(x: U64): (r: Checked<U64>)
    ensures r.Value? <==> x * F2 + x < Modulus
    ensures r.Value? ==> r.v == x * F2 + x
  {
    match CheckedMul(x, F2)
    case Overflow => Overflow
    case Value(p) => CheckedAdd(p, x)
  }

  /** `qminHash`/`qmaxHash`: bounds on the hash of the last six characters. */
  datatype Bounds = Bounds(qminHash: U64, qmaxHash: U64)

  /** Lines computing `qmaxHash` and then `qminHash` from the suffix-map bounds. */
  function ComputeBounds(minHash: U64, maxHash: U64): (r: Checked<Bounds>)
    ensures r.Value? <==> maxHash * F2 + maxHash < Modulus && minHash * F2 + minHash < Modulus
    ensures r.Value? ==> r.v.qmaxHash == maxHash * F2 + maxHash && r.v.qminHash == minHash * F2 + minHash
  {
    match (TwoBlockBound(maxHash), TwoBlockBound(minHash))
    case (Value(qmax), Value(qmin)) => Value(Bounds(qmin, qmax))
    case _ => Overflow
  }

  /** The admissible ranges of the first-six-character and first-nine-character
      partial sums, relative to the reference hash. */
  datatype Windows = Windows(p1lo: U64, p1hi: U64, p2lo: U64, p2hi: U64)

  /** `p1lo = rh - qmaxHash`, `p1hi = rh - qminHash`, `p2lo = rh - maxHash`,
      `p2hi = rh - minHash`, each a trapping subtraction. */
  function ComputeWindows(rh: U64, b: Bounds, minHash: U64, maxHash: U64): (r: Checked<Windows>)
    ensures r.Value? <==> b.qmaxHash <= rh && b.qminHash <= rh && maxHash <= rh && minHash <= rh
    ensures r.Value? ==> r.v.p1lo == rh - b.qmaxHash && r.v.p1hi == rh - b.qminHash
    ensures r.Value? ==> r.v.p2lo == rh - maxHash && r.v.p2hi == rh - minHash
  {
    match (CheckedSub(rh, b.qmaxHash), CheckedSub(rh, b.qminHash), CheckedSub(rh, maxHash), CheckedSub(rh, minHash))
    case (Value(p1lo), Value(p1hi), Value(p2lo), Value(p2hi)) => Value(Windows(p1lo, p1hi, p2lo, p2hi))
    case _ => Overflow
  }

  /** The wrapped hash of a four-block string whose blocks hash to k0..k3. */
  function Combine(k0: U64, k1: U64, k2: U64, k3: U64): (r: U64) {
    (k0 * F0 + k1 * F1 + k2 * F2 + k3) % Modulus
  }

  /** The one value that `&+`-completes `h` to `rh` is `rh &- h`. */
  lemma {:induction false} CompletingKey(h: U64, rh: U64)
    ensures forall k :: WAdd(h, k) == rh <==> k == WSub(rh, h)
  {
    forall k: U64 ensures WAdd(h, k) == rh <==> k == WSub(rh, h) {
      if h + k < Modulus {
        ModUnique(h + k, 0, h + k);
      } else {
        ModUnique(h + k, 1, h + k - Modulus);
      }
      if rh >= h {
        ModUnique(rh - h, 0, rh - h);
      } else {
        ModUnique(rh - h, -1, rh - h + Modulus);
      }
    }
  }

  /** One pass of the innermost loop body for the keys k0, k1, k2: the two window
      tests, the computation of `missing` and its lookup. */
  function Join(t: Table, w: Windows, rh: U64, k0: U64, k1: U64, k2: U64): (r: Option<string>)
    requires k0 in t.suffixMap && k1 in t.suffixMap && k2 in t.suffixMap
  {
    var h0 := WMul(k0, F0);
    var h1 := WAdd(h0, WMul(k1, F1));
    if h1 > w.p1hi || h1 < w.p1lo then None
    else
      var h2 := WAdd(h1, WMul(k2, F2));
      if h2 > w.p2hi || h2 < w.p2lo then None
      else
        var missing := WSub(rh, h2);
        if missing in t.suffixMap
        then Some(t.suffixMap[k0] + t.suffixMap[k1] + t.suffixMap[k2] + t.suffixMap[missing])
        else None
  }

  /** What one pass of the innermost loop body emits: a string exactly when both
      partial sums lie in their windows and some stored key k3 completes the wrapped
      sum to `rh`; the string is then the stored blocks for k0, k1, k2, k3. */
  lemma {:induction false} JoinEmits(t: Table, w: Windows, rh: U64, k0: U64, k1: U64, k2: U64)
    requires k0 in t.suffixMap && k1 in t.suffixMap && k2 in t.suffixMap
    ensures var h1 := WAdd(WMul(k0, F0), WMul(k1, F1));
      var h2 := WAdd(h1, WMul(k2, F2));
      Join(t, w, rh, k0, k1, k2).Some? <==>
        w.p1lo <= h1 <= w.p1hi && w.p2lo <= h2 <= w.p2hi &&
        exists k3 :: k3 in t.suffixMap && WAdd(h2, k3) == rh
    ensures forall k3 ::
      (k3 in t.suffixMap && Join(t, w, rh, k0, k1, k2).Some? &&
       WAdd(WAdd(WAdd(WMul(k0, F0), WMul(k1, F1)), WMul(k2, F2)), k3) == rh) ==>
      Join(t, w, rh, k0, k1, k2).value == t.suffixMap[k0] + t.suffixMap[k1] + t.suffixMap[k2] + t.suffixMap[k3]
  {
    CompletingKey(WAdd(WAdd(WMul(k0, F0), WMul(k1, F1)), WMul(k2, F2)), rh);
  }

  /** `v` is the string the suffix map holds for `v`'s own hash. */
  ghost predicate Stored(t: Table, v: string) {
    StringHash(v) in t.suffixMap && t.suffixMap[StringHash(v)] == v
  }

  /** A string the join can produce for reference hash `rh`: 12 characters, each
      3-character block the stored string for its hash, and objcHash equal to `rh`. */
  ghost predicate IsCollision(t: Table, rh: U64, s: string) {
    && |s| == Len
    && Stored(t, s[..3]) && Stored(t, s[3..6]) && Stored(t, s[6..9]) && Stored(t, s[9..])
    && StringHash(s) == rh
  }

  // ---------------------------------------------------------------------------
  // Arithmetic of the weights

  /** The weights are the powers of 257 that place a block at offsets 9, 6 and 3. */
  lemma {:induction false} WeightsArePowers()
    ensures F2 == Pow(3) && F1 == Pow(6) && F0 == Pow(9) % Modulus
    ensures F1 == 288136807515649 && F0 == 2617856364451727617
    ensures Pow(9) == F0 + 265 * Modulus
  {
    PowValues();
    assert Pow(9) == 4891005035897482905857 by {
      assert Pow(8) == 19031147999601100801;
    }
  }

  /** The exact polynomial of four 3-byte blocks, with the weights: the first block's
      weight 257^9 exceeds 2^64 by 265 times 2^64 (plus `F0`). */
  lemma {:induction false} PolyOfBlocks(b0: seq<Byte>, b1: seq<Byte>, b2: seq<Byte>, b3: seq<Byte>)
    requires |b0| == |b1| == |b2| == |b3| == SuffixLen
    ensures Poly(b0 + b1 + b2 + b3) ==
      (Poly(b0) * F0 + Poly(b1) * F1 + Poly(b2) * F2 + Poly(b3)) + (Poly(b0) * 265) * Modulus
  {
    var p0, p1, p2, p3 := Poly(b0), Poly(b1), Poly(b2), Poly(b3);
    PowValues();
    WeightsArePowers();
    PolyAppend(b0, b1);
    PolyAppend(b0 + b1, b2);
    PolyAppend(b0 + b1 + b2, b3);
    assert Poly(b0 + b1 + b2 + b3) == ((p0 * 16974593 + p1) * 16974593 + p2) * 16974593 + p3;
  }

  /** The rolling hash of four 3-byte blocks, computed from their hashes with the weights. */
  lemma {:induction false} HashOfBlocks(b0: seq<Byte>, b1: seq<Byte>, b2: seq<Byte>, b3: seq<Byte>)
    requires |b0| == |b1| == |b2| == |b3| == SuffixLen
    ensures RollingHash(b0 + b1 + b2 + b3) ==
      Combine(RollingHash(b0), RollingHash(b1), RollingHash(b2), RollingHash(b3))
  {
    var p0, p1, p2, p3 := Poly(b0), Poly(b1), Poly(b2), Poly(b3);
    PolyOfBlocks(b0, b1, b2, b3);
    ModAddMultiple(p0 * F0 + p1 * F1 + p2 * F2 + p3, p0 * 265);
    HashIsPolyMod(b0 + b1 + b2 + b3);
    ShortHashIsExact(b0);
    ShortHashIsExact(b1);
    ShortHashIsExact(b2);
    ShortHashIsExact(b3);
  }

  /** The hash of four blocks, computed from their hashes with the weights. */
  lemma {:induction false} JoinHash(v0: string, v1: string, v2: string, v3: string)
    requires |v0| == |v1| == |v2| == |v3| == SuffixLen
    ensures StringHash(v0 + v1 + v2 + v3) ==
      Combine(StringHash(v0), StringHash(v1), StringHash(v2), StringHash(v3))
  {
    LowBytesAppend(v0, v1);
    LowBytesAppend(v0 + v1, v2);
    LowBytesAppend(v0 + v1 + v2, v3);
    HashOfBlocks(LowBytes(v0), LowBytes(v1), LowBytes(v2), LowBytes(v3));
  }

  /** The wrapped partial sums of the loops are the weighted sums reduced mod 2^64. */
  lemma {:induction false} PartialSums(k0: U64, k1: U64, k2: U64)
    ensures WAdd(WMul(k0, F0), WMul(k1, F1)) == (k0 * F0 + k1 * F1) % Modulus
    ensures WAdd(WAdd(WMul(k0, F0), WMul(k1, F1)), WMul(k2, F2)) == (k0 * F0 + k1 * F1 + k2 * F2) % Modulus
  {
    var a, b, c := k0 * F0, k1 * F1, k2 * F2;
    assert WAdd(WMul(k0, F0), WMul(k1, F1)) == (a % Modulus + b % Modulus) % Modulus;
    ModOfBothSums(a, b);
    assert WAdd(WAdd(WMul(k0, F0), WMul(k1, F1)), WMul(k2, F2)) == ((a + b) % Modulus + c % Modulus) % Modulus;
    ModOfBothSums(a + b, c);
  }

  /** Subtracting `h`, the residue of `x`, from `rh` with `&-` and adding `x` back gives `rh`. */
  lemma {:induction false} CancelResidue(x: int, h: U64, rh: U64)
    requires h == x % Modulus
    ensures (x + WSub(rh, h)) % Modulus == rh
  {
    ModOfSum(rh - h, x);
    assert x - h == (x / Modulus) * Modulus;
    ModAddMultiple(rh, x / Modulus);
    ModUnique(rh, 0, rh);
  }

  /** `missing = rh &- h2` is the one last-block hash that completes the sum to `rh`. */
  lemma {:induction false} MissingCompletes(k0: U64, k1: U64, k2: U64, rh: U64)
    ensures Combine(k0, k1, k2, WSub(rh, WAdd(WAdd(WMul(k0, F0), WMul(k1, F1)), WMul(k2, F2)))) == rh
  {
    PartialSums(k0, k1, k2);
    CancelResidue(k0 * F0 + k1 * F1 + k2 * F2, WAdd(WAdd(WMul(k0, F0), WMul(k1, F1)), WMul(k2, F2)), rh);
  }

  /** The pruning arithmetic: when the four block hashes combine to `rh`, and `rh` is at
      least the bound on two-block hashes, the partial sums are exactly `rh` minus the
      hash of the remaining blocks, and `missing` is the last block's hash. */
  lemma {:induction false} PartialSumsExact(k0: U64, k1: U64, k2: U64, k3: U64, rh: U64, maxHash: U64)
    requires Combine(k0, k1, k2, k3) == rh
    requires k2 <= maxHash && k3 <= maxHash
    requires maxHash * F2 + maxHash <= rh
    ensures WAdd(WMul(k0, F0), WMul(k1, F1)) == rh - (k2 * F2 + k3)
    ensures WAdd(WAdd(WMul(k0, F0), WMul(k1, F1)), WMul(k2, F2)) == rh - k3
    ensures WSub(rh, rh - k3) == k3
  {
    WeightsArePowers();
    var x := k0 * F0 + k1 * F1;
    var tail := k2 * F2 + k3;
    assert tail <= maxHash * F2 + maxHash;
    PartialSums(k0, k1, k2);
    var q := (x + tail) / Modulus;
    assert x + tail == q * Modulus + rh;
    ModUnique(x, q, rh - tail);
    var h1 := WAdd(WMul(k0, F0), WMul(k1, F1));
    ModUnique(k2 * F2, 0, k2 * F2);
    ModUnique(h1 + k2 * F2, 0, rh - k3);
    ModUnique(k3, 0, k3);
  }

  // ---------------------------------------------------------------------------
  // Bounds and windows

  /** With a non-empty suffix map, the trapping computations of `qmaxHash` and
      `qminHash` do not overflow, and every pair of stored hashes, weighted as the last
      two blocks, lies between them. */
  lemma {:induction false} BoundsCorrect(t: Table)
    requires Consistent(t) && t.suffixMap != map[]
    ensures ComputeBounds(t.minHash, t.maxHash).Value?
    ensures ComputeBounds(t.minHash, t.maxHash).v.qminHash <= ComputeBounds(t.minHash, t.maxHash).v.qmaxHash
    ensures ComputeBounds(t.minHash, t.maxHash).v.qmaxHash == t.maxHash * F2 + t.maxHash
    ensures ComputeBounds(t.minHash, t.maxHash).v.qminHash == t.minHash * F2 + t.minHash
    ensures forall k2, k3 :: k2 in t.suffixMap && k3 in t.suffixMap ==>
      ComputeBounds(t.minHash, t.maxHash).v.qminHash <= k2 * F2 + k3 <= ComputeBounds(t.minHash, t.maxHash).v.qmaxHash
  {
    BlockHashBound(t.suffixMap[t.maxHash]);
    assert t.minHash <= t.maxHash < 16974593;
    forall k2, k3 | k2 in t.suffixMap && k3 in t.suffixMap
      ensures t.minHash * F2 + t.minHash <= k2 * F2 + k3 <= t.maxHash * F2 + t.maxHash
    {
    }
  }

  /** Without any stored block, `minHash` keeps its initial 2^56 - 1 and the computation
      of `qminHash` traps. */
  lemma {:induction false} EmptyMapTraps(t: Table)
    requires Consistent(t) && t.suffixMap == map[]
    ensures ComputeBounds(t.minHash, t.maxHash) == Overflow
  {
    assert TwoBlockBound(InitialMinHash) == Overflow;
  }

  /** Once the reference hash is at least `qmaxHash`, none of the four trapping
      subtractions underflows and both windows are non-empty. */
  lemma {:induction false} WindowsCorrect(t: Table, rh: U64)
    requires Consistent(t) && ComputeBounds(t.minHash, t.maxHash).Value?
    requires ComputeBounds(t.minHash, t.maxHash).v.qmaxHash <= rh
    ensures ComputeWindows(rh, ComputeBounds(t.minHash, t.maxHash).v, t.minHash, t.maxHash).Value?
    ensures var w := ComputeWindows(rh, ComputeBounds(t.minHash, t.maxHash).v, t.minHash, t.maxHash).v;
      w.p1lo <= w.p1hi && w.p2lo <= w.p2hi
  {
    if t.suffixMap == map[] {
      EmptyMapTraps(t);
    }
    BoundsCorrect(t);
  }

  // ---------------------------------------------------------------------------
  // Soundness and completeness of one join step

  /** Soundness: whatever the innermost body emits is a collision with `rh`. */
  lemma {:induction false} JoinSound(t: Table, w: Windows, rh: U64, k0: U64, k1: U64, k2: U64)
    requires Consistent(t)
    requires k0 in t.suffixMap && k1 in t.suffixMap && k2 in t.suffixMap
    requires Join(t, w, rh, k0, k1, k2).Some?
    ensures IsCollision(t, rh, Join(t, w, rh, k0, k1, k2).value)
    ensures BlockHash(Join(t, w, rh, k0, k1, k2).value, 0) == k0
    ensures BlockHash(Join(t, w, rh, k0, k1, k2).value, 1) == k1
    ensures BlockHash(Join(t, w, rh, k0, k1, k2).value, 2) == k2
  {
    var m := t.suffixMap;
    var missing := WSub(rh, WAdd(WAdd(WMul(k0, F0), WMul(k1, F1)), WMul(k2, F2)));
    var s := m[k0] + m[k1] + m[k2] + m[missing];
    assert Join(t, w, rh, k0, k1, k2).value == s;
    assert s[..3] == m[k0] && s[3..6] == m[k1] && s[6..9] == m[k2] && s[9..] == m[missing];
    JoinHash(m[k0], m[k1], m[k2], m[missing]);
    MissingCompletes(k0, k1, k2, rh);
  }

  /** Completeness of the pruning: for stored hashes k0..k3 that combine to `rh`, both
      window tests pass, `missing` is k3, and the join of the four stored blocks is
      emitted. */
  lemma {:induction false} JoinComplete(t: Table, rh: U64, k0: U64, k1: U64, k2: U64, k3: U64)
    requires Consistent(t)
    requires k0 in t.suffixMap && k1 in t.suffixMap && k2 in t.suffixMap && k3 in t.suffixMap
    requires ComputeBounds(t.minHash, t.maxHash).Value?
    requires ComputeBounds(t.minHash, t.maxHash).v.qmaxHash <= rh
    requires Combine(k0, k1, k2, k3) == rh
    ensures ComputeWindows(rh, ComputeBounds(t.minHash, t.maxHash).v, t.minHash, t.maxHash).Value?
    ensures Join(t, ComputeWindows(rh, ComputeBounds(t.minHash, t.maxHash).v, t.minHash, t.maxHash).v, rh, k0, k1, k2)
      == Some(t.suffixMap[k0] + t.suffixMap[k1] + t.suffixMap[k2] + t.suffixMap[k3])
  {
    WindowsCorrect(t, rh);
    BoundsCorrect(t);
    PartialSumsExact(k0, k1, k2, k3, rh, t.maxHash);
  }

  /** The hash of a 12-character string is the weighted sum of its blocks' hashes. */
  lemma {:induction false} BlocksCombine(s: string)
    requires |s| == Len
    ensures StringHash(s) == Combine(StringHash(s[..3]), StringHash(s[3..6]), StringHash(s[6..9]), StringHash(s[9..]))
  {
    assert s == s[..3] + s[3..6] + s[6..9] + s[9..];
    JoinHash(s[..3], s[3..6], s[6..9], s[9..]);
  }

  /** Every collision with `rh` is the join of its own blocks' hashes. */
  lemma {:induction false} CollisionIsJoined(t: Table, rh: U64, s: string)
    requires Consistent(t)
    requires ComputeBounds(t.minHash, t.maxHash).Value?
    requires ComputeBounds(t.minHash, t.maxHash).v.qmaxHash <= rh
    requires IsCollision(t, rh, s)
    ensures ComputeWindows(rh, ComputeBounds(t.minHash, t.maxHash).v, t.minHash, t.maxHash).Value?
    ensures Join(t, ComputeWindows(rh, ComputeBounds(t.minHash, t.maxHash).v, t.minHash, t.maxHash).v,
                 rh, StringHash(s[..3]), StringHash(s[3..6]), StringHash(s[6..9])) == Some(s)
  {
    BlocksCombine(s);
    JoinComplete(t, rh, StringHash(s[..3]), StringHash(s[3..6]), StringHash(s[6..9]), StringHash(s[9..]));
    assert s == s[..3] + s[3..6] + s[6..9] + s[9..];
  }

  // ---------------------------------------------------------------------------
  // The search loops

  /** The hash of the `i`-th 3-character block of a 12-character string. */
  function BlockHash(s: string, i: nat): (r: U64)
    requires |s| == Len && i < 4
  {
    StringHash(s[3 * i..3 * i + 3])
  }

  /** No string occurs twice. */
  ghost predicate Distinct(ss: seq<string>) {
    forall i, j :: 0 <= i < j < |ss| ==> ss[i] != ss[j]
  }

  /** Concatenating two duplicate-free sequences with no common element. */
  lemma {:induction false} DistinctConcat(a: seq<string>, b: seq<string>)
    requires Distinct(a) && Distinct(b)
    requires forall s :: s in a ==> s !in b
    ensures Distinct(a + b)
  {
    forall i, j | 0 <= i < j < |a + b| ensures (a + b)[i] != (a + b)[j] {
      if j < |a| {
        assert (a + b)[i] == a[i] && (a + b)[j] == a[j];
      } else if i < |a| {
        assert (a + b)[i] == a[i] && (a + b)[j] == b[j - |a|];
        assert b[j - |a|] in b;
      } else {
        assert (a + b)[i] == b[i - |a|] && (a + b)[j] == b[j - |a|];
      }
    }
  }

  /** The innermost loop (lines 151-159), for fixed k0 and k1: every stored k2 in turn.
      It emits, once each, the joins for (k0, k1, k2) over all stored k2. */
  method SearchThird(t: Table, w: Windows, rh: U64, k0: U64, k1: U64, h1: U64) returns (found: seq<string>)
    requires Consistent(t)
    requires k0 in t.suffixMap && k1 in t.suffixMap
    requires h1 == WAdd(WMul(k0, F0), WMul(k1, F1)) && w.p1lo <= h1 <= w.p1hi
    ensures forall s :: s in found ==>
      IsCollision(t, rh, s) && BlockHash(s, 0) == k0 && BlockHash(s, 1) == k1
    ensures Distinct(found)
    ensures forall k2 :: k2 in t.suffixMap && Join(t, w, rh, k0, k1, k2).Some? ==>
      Join(t, w, rh, k0, k1, k2).value in found
  {
    var m := t.suffixMap;
    var v0, v1 := m[k0], m[k1];
    found := [];
    var rest2 := m.Keys;
    while rest2 != {}
      invariant rest2 <= m.Keys
      invariant forall s :: s in found ==>
        IsCollision(t, rh, s) && BlockHash(s, 0) == k0 && BlockHash(s, 1) == k1 && BlockHash(s, 2) !in rest2
      invariant Distinct(found)
      invariant forall k2 :: k2 in m && k2 !in rest2 && Join(t, w, rh, k0, k1, k2).Some? ==>
        Join(t, w, rh, k0, k1, k2).value in found
      decreases rest2
    {
      var k2 :| k2 in rest2;
      rest2 := rest2 - {k2};
      var v2 := m[k2];
      var h2 := WAdd(h1, WMul(k2, F2));
      if h2 > w.p2hi || h2 < w.p2lo {
        continue;
      }
      var missing := WSub(rh, h2);
      if missing in m {
        var s := v0 + v1 + v2 + m[missing];
        JoinSound(t, w, rh, k0, k1, k2);
        found := found + [s];
      }
    }
  }

  /** The middle loop (lines 148-160), for fixed k0: every stored k1 in turn, skipping
      those whose prefix hash h1 falls outside [p1lo, p1hi]. */
  method SearchSecond(t: Table, w: Windows, rh: U64, k0: U64) returns (found: seq<string>)
    requires Consistent(t)
    requires k0 in t.suffixMap
    ensures forall s :: s in found ==> IsCollision(t, rh, s) && BlockHash(s, 0) == k0
    ensures Distinct(found)
    ensures forall k1, k2 :: k1 in t.suffixMap && k2 in t.suffixMap && Join(t, w, rh, k0, k1, k2).Some? ==>
      Join(t, w, rh, k0, k1, k2).value in found
  {
    var m := t.suffixMap;
    var h0 := WMul(k0, F0);
    found := [];
    var rest1 := m.Keys;
    while rest1 != {}
      invariant rest1 <= m.Keys
      invariant forall s :: s in found ==> IsCollision(t, rh, s) && BlockHash(s, 0) == k0 && BlockHash(s, 1) !in rest1
      invariant Distinct(found)
      invariant forall k1, k2 :: k1 in m && k1 !in rest1 && k2 in m && Join(t, w, rh, k0, k1, k2).Some? ==>
        Join(t, w, rh, k0, k1, k2).value in found
      decreases rest1
    {
      var k1 :| k1 in rest1;
      rest1 := rest1 - {k1};
      var h1 := WAdd(h0, WMul(k1, F1));
      if h1 > w.p1hi || h1 < w.p1lo {
        continue;
      }
      var more := SearchThird(t, w, rh, k0, k1, h1);
      DistinctConcat(found, more);
      found := found + more;
    }
  }

  /** The three nested loops over the suffix map (lines 140-161).  The map's iteration
      order is unspecified, so each loop takes its keys in an arbitrary order.  The
      strings emitted are exactly the collisions with `rh` whose blocks are stored
      strings, each of them once. */
  method Search(t: Table, rh: U64) returns (found: seq<string>)
    requires Consistent(t)
    requires ComputeBounds(t.minHash, t.maxHash).Value?
    requires ComputeBounds(t.minHash, t.maxHash).v.qmaxHash <= rh
    ensures forall s :: s in found <==> IsCollision(t, rh, s)
    ensures Distinct(found)
  {
    var m := t.suffixMap;
    var bounds := ComputeBounds(t.minHash, t.maxHash).v;
    WindowsCorrect(t, rh);
    var w := ComputeWindows(rh, bounds, t.minHash, t.maxHash).v;
    found := [];
    var rest0 := m.Keys;
    while rest0 != {}
      invariant rest0 <= m.Keys
      invariant forall s :: s in found ==> IsCollision(t, rh, s) && BlockHash(s, 0) !in rest0
      invariant Distinct(found)
      invariant forall k0, k1, k2 ::
        (k0 in m && k0 !in rest0 && k1 in m && k2 in m && Join(t, w, rh, k0, k1, k2).Some?) ==>
        Join(t, w, rh, k0, k1, k2).value in found
      decreases rest0
    {
      var k0 :| k0 in rest0;
      rest0 := rest0 - {k0};
      var more := SearchSecond(t, w, rh, k0);
      DistinctConcat(found, more);
      found := found + more;
    }
    forall s | IsCollision(t, rh, s) ensures s in found {
      CollisionIsJoined(t, rh, s);
    }
  }

  // ---------------------------------------------------------------------------
  // The whole program

  /** How a run ends: line 109 traps, the reference hash is one the reference loop
      would reject and redraw, or the search emits its collisions. */
  datatype Outcome = Trapped | RejectedReference | Collisions(found: seq<string>)

  /** Two 12-character strings whose corresponding blocks have equal hashes. */
  ghost predicate SameBlockHashes(s: string, s': string) {
    && |s| == |s'| == Len
    && StringHash(s[..3]) == StringHash(s'[..3])
    && StringHash(s[3..6]) == StringHash(s'[3..6])
    && StringHash(s[6..9]) == StringHash(s'[6..9])
    && StringHash(s[9..]) == StringHash(s'[9..])
  }

  /** The script: build the suffix map, compute the bounds, take the reference hash
      `rh`, compute the windows and run the join.  Every emitted string is a 12-character
      string over the alphabet whose objcHash is `rh`; every such string is matched by an
      emitted string with the same block hashes. */
  method FindCollisions(alphabet: string, rh: U64) returns (outcome: Outcome)
    ensures outcome.Trapped? <==> alphabet == []
    ensures outcome.RejectedReference? <==>
      (alphabet != [] &&
       ComputeBounds(BuiltTable(alphabet).minHash, BuiltTable(alphabet).maxHash).Value? &&
       rh < ComputeBounds(BuiltTable(alphabet).minHash, BuiltTable(alphabet).maxHash).v.qmaxHash)
    ensures outcome.Collisions? ==> Distinct(outcome.found)
    ensures outcome.Collisions? ==> forall s :: s in outcome.found ==>
      |s| == Len && (forall i :: 0 <= i < |s| ==> s[i] in alphabet) && StringHash(s) == rh
    ensures outcome.Collisions? ==> forall s ::
      |s| == Len && (forall i :: 0 <= i < |s| ==> s[i] in alphabet) && StringHash(s) == rh ==>
      exists s' :: s' in outcome.found && SameBlockHashes(s, s')
  {
    var builder := new SuffixMapBuilder(alphabet);
    builder.BuildSuffixMap([]);
    var t := builder.Model();
    BuiltTableConsistent(alphabet);
    var bounds := ComputeBounds(t.minHash, t.maxHash);
    if bounds.Overflow? {
      if t.suffixMap != map[] {
        BoundsCorrect(t);
      }
      return Trapped;
    }
    if t.suffixMap == map[] {
      EmptyMapTraps(t);
    }
    if rh < bounds.v.qmaxHash {
      return RejectedReference;
    }
    var found := Search(t, rh);
    SearchCoversAlphabet(alphabet, rh, found);
    return Collisions(found);
  }

  /** The join over the suffix map of an alphabet emits only collisions over that
      alphabet, and matches every collision over it by one with the same block hashes. */
  lemma {:induction false} SearchCoversAlphabet(alphabet: string, rh: U64, found: seq<string>)
    requires forall s :: s in found <==> IsCollision(BuiltTable(alphabet), rh, s)
    ensures forall s :: s in found ==>
      |s| == Len && (forall i :: 0 <= i < |s| ==> s[i] in alphabet) && StringHash(s) == rh
    ensures forall s ::
      |s| == Len && (forall i :: 0 <= i < |s| ==> s[i] in alphabet) && StringHash(s) == rh ==>
      exists s' :: s' in found && SameBlockHashes(s, s')
  {
    forall s | s in found
      ensures |s| == Len && (forall i :: 0 <= i < |s| ==> s[i] in alphabet) && StringHash(s) == rh
    {
      CollisionOverAlphabet(alphabet, rh, s);
    }
    forall s | |s| == Len && (forall i :: 0 <= i < |s| ==> s[i] in alphabet) && StringHash(s) == rh
      ensures exists s' :: s' in found && SameBlockHashes(s, s')
    {
      var s' := StoredRepresentative(alphabet, rh, s);
      assert s' in found;
    }
  }

  /** A collision built from the suffix map of an alphabet is a string over it. */
  lemma {:induction false} CollisionOverAlphabet(alphabet: string, rh: U64, s: string)
    requires IsCollision(BuiltTable(alphabet), rh, s)
    ensures |s| == Len && (forall i :: 0 <= i < |s| ==> s[i] in alphabet) && StringHash(s) == rh
  {
    var t := BuiltTable(alphabet);
    BuiltTableCorrect(alphabet);
    var v0, v1, v2, v3 := s[..3], s[3..6], s[6..9], s[9..];
    assert IsBlock(alphabet, t.suffixMap[StringHash(v0)]);
    assert IsBlock(alphabet, t.suffixMap[StringHash(v1)]);
    assert IsBlock(alphabet, t.suffixMap[StringHash(v2)]);
    assert IsBlock(alphabet, t.suffixMap[StringHash(v3)]);
    forall i | 0 <= i < |s| ensures s[i] in alphabet {
      if i < 3 { assert s[i] == v0[i]; }
      else if i < 6 { assert s[i] == v1[i - 3]; }
      else if i < 9 { assert s[i] == v2[i - 6]; }
      else { assert s[i] == v3[i - 9]; }
    }
  }

  /** A 12-character string is the concatenation of its four blocks. */
  lemma {:induction false} SplitBlocks(s: string)
    requires |s| == Len
    ensures s == s[..3] + s[3..6] + s[6..9] + s[9..]
    ensures |s[..3]| == |s[3..6]| == |s[6..9]| == |s[9..]| == SuffixLen
  {
  }

  /** The four blocks of a concatenation of four 3-character strings are those strings. */
  lemma {:induction false} JoinedBlocks(v0: string, v1: string, v2: string, v3: string)
    requires |v0| == |v1| == |v2| == |v3| == SuffixLen
    ensures |v0 + v1 + v2 + v3| == Len
    ensures (v0 + v1 + v2 + v3)[..3] == v0 && (v0 + v1 + v2 + v3)[3..6] == v1
    ensures (v0 + v1 + v2 + v3)[6..9] == v2 && (v0 + v1 + v2 + v3)[9..] == v3
  {
  }

  /** Any 12-character string over the alphabet that collides with `rh` has a
      counterpart among the join's collisions: the stored blocks with the same hashes. */
  lemma {:induction false} StoredRepresentative(alphabet: string, rh: U64, s: string) returns (s': string)
    requires |s| == Len && (forall i :: 0 <= i < |s| ==> s[i] in alphabet) && StringHash(s) == rh
    ensures IsCollision(BuiltTable(alphabet), rh, s') && SameBlockHashes(s, s')
  {
    BuiltTableConsistent(alphabet);
    BuiltTableCoversBlocks(alphabet);
    SplitBlocks(s);
    BlockOverAlphabet(alphabet, s, 0);
    BlockOverAlphabet(alphabet, s, 3);
    BlockOverAlphabet(alphabet, s, 6);
    BlockOverAlphabet(alphabet, s, 9);
    s' := StoredBlocks(BuiltTable(alphabet), rh, s[..3], s[3..6], s[6..9], s[9..]);
  }

  /** A 3-character slice of a string over the alphabet is a block. */
  lemma {:induction false} BlockOverAlphabet(alphabet: string, s: string, lo: nat)
    requires lo + SuffixLen <= |s| && forall i :: 0 <= i < |s| ==> s[i] in alphabet
    ensures IsBlock(alphabet, s[lo..lo + SuffixLen])
  {
    var block := s[lo..lo + SuffixLen];
    forall i | 0 <= i < |block| ensures block[i] in alphabet {
      assert block[i] == s[lo + i];
    }
  }

  /** Replacing each block of a collision by the stored string with its hash
      keeps the hash, so the result is a collision the join emits. */
  lemma {:induction false} StoredBlocks(t: Table, rh: U64, v0: string, v1: string, v2: string, v3: string) returns (s': string)
    requires Consistent(t)
    requires |v0| == |v1| == |v2| == |v3| == SuffixLen
    requires StringHash(v0) in t.suffixMap && StringHash(v1) in t.suffixMap
    requires StringHash(v2) in t.suffixMap && StringHash(v3) in t.suffixMap
    requires StringHash(v0 + v1 + v2 + v3) == rh
    ensures IsCollision(t, rh, s') && SameBlockHashes(v0 + v1 + v2 + v3, s')
  {
    var m := t.suffixMap;
    var k0, k1, k2, k3 := StringHash(v0), StringHash(v1), StringHash(v2), StringHash(v3);
    s' := m[k0] + m[k1] + m[k2] + m[k3];
    JoinedBlocks(v0, v1, v2, v3);
    JoinedBlocks(m[k0], m[k1], m[k2], m[k3]);
    JoinHash(v0, v1, v2, v3);
    JoinHash(m[k0], m[k1], m[k2], m[k3]);
  }

  /** The alphabet the script is run with: the 94 printable ASCII characters other
      than the space. */
  const SourceAlphabet: string :=
    "0123456789ABCDEFGHIJKLMNOPQRSTUVWXYZabcdefghijklmnopqrstuvwxyz!\"#$%&'()*+,-./:;<=>?@[\\]^_`{|}~"

  /** With the script's own alphabet the suffix map is non-empty and lines 108-109
      do not trap. */
  lemma {:induction false} SourceAlphabetDoesNotTrap()
    ensures |SourceAlphabet| == 94
    ensures BuiltTable(SourceAlphabet).suffixMap != map[]
    ensures ComputeBounds(BuiltTable(SourceAlphabet).minHash, BuiltTable(SourceAlphabet).maxHash).Value?
  {
    BuiltTableCorrect(SourceAlphabet);
    BoundsCorrect(BuiltTable(SourceAlphabet));
  }
}

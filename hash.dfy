/**
  The rolling hash behind the Objective-C string hash: the empty input hashes to 0,
  and `RollingHash(b + [c]) = (RollingHash(b) * 257 + c) mod 2^64`, computed with
  Swift's wrapping UInt64 operators `&*` and `&+`.
  `RollingHash` is that wrapping computation on bytes; `Poly` is the same polynomial
  over the unbounded integers.  Everything the collision search relies on (the hash
  is additive, short inputs never wrap) is proved here about these two functions.
*/
module Hashing {

  /** 2^64: the range of Swift's UInt64. */
  const Modulus: int := 0x1_0000_0000_0000_0000

  type U64 = x: int | 0 <= x < 0x1_0000_0000_0000_0000
  type Byte = x: int | 0 <= x < 256

  /** The multiplier of the hash. */
  const Base: U64 := 257

  // The three wrapping operators reduce by 2^64 written as a literal (the value of
  // `Modulus`), so that each remainder is by a constant.

  /** Swift `a &* b` on UInt64. */
  function WMul(a: U64, b: U64): (r: U64) {
    (a * b) % 0x1_0000_0000_0000_0000
  }

  /** Swift `a &+ b` on UInt64. */
  function WAdd(a: U64, b: U64): (r: U64) {
    (a + b) % 0x1_0000_0000_0000_0000
  }

  /** Swift `a &- b` on UInt64. */
  function WSub(a: U64, b: U64): (r: U64) {
    (a - b) % 0x1_0000_0000_0000_0000
  }

  /** 257^n over the integers. */
  function Pow(n: nat): (r: nat) {
    if n == 0 then 1 else Pow(n - 1) * Base
  }

  /** The hash polynomial evaluated without any wrap-around. */
  function Poly(bytes: seq<Byte>): (r: nat) {
    if bytes == [] then 0 else Poly(bytes[..|bytes| - 1]) * Base + bytes[|bytes| - 1]
  }

  /** The hash as `hash(data:)` computes it: one wrapping multiply-add per byte. */
  function RollingHash(bytes: seq<Byte>): (r: U64) {
    if bytes == [] then 0
    else WAdd(WMul(RollingHash(bytes[..|bytes| - 1]), Base), bytes[|bytes| - 1])
  }

  /** The byte `objcHash` feeds into the hash for each unicode scalar: `c.value & 0xff`,
      which for a non-negative scalar value is its remainder modulo 256. */
  function LowByte(c: char): (r: Byte) {
    (c as int) % 256
  }

  /** The bytes `objcHash` hashes for a string: the low byte of every scalar, in order. */
  function LowBytes(s: string): (r: seq<Byte>) {
    seq(|s|, i requires 0 <= i < |s| => LowByte(s[i]))
  }

  /** The value `String.objcHash` returns: the rolling hash of the low bytes. */
  function StringHash(s: string): (r: U64) {
    RollingHash(LowBytes(s))
  }

  /** `n` zero bytes. */
  function Zeros(n: nat): (r: seq<Byte>)
    ensures |r| == n
  {
    if n == 0 then [] else Zeros(n - 1) + [0]
  }

  // ---------------------------------------------------------------------------
  // Arithmetic modulo 2^64

  lemma {:induction false} ModAddMultiple(x: int, q: int)
    ensures (x + q * Modulus) % Modulus == x % Modulus
  {
    var r := x % Modulus;
    var d := x / Modulus;
    assert x == d * Modulus + r;
    assert x + q * Modulus == (d + q) * Modulus + r;
  }

  lemma {:induction false} ModOfSum(x: int, y: int)
    ensures (x % Modulus + y) % Modulus == (x + y) % Modulus
  {
    ModAddMultiple(x % Modulus + y, x / Modulus);
  }

  lemma {:induction false} ModOfProduct(x: int, c: int)
    ensures ((x % Modulus) * c) % Modulus == (x * c) % Modulus
  {
    var q, r := x / Modulus, x % Modulus;
    assert x == q * Modulus + r;
    assert x * c == r * c + (q * c) * Modulus by {
      assert x * c == (q * Modulus + r) * c;
    }
    ModAddMultiple(r * c, q * c);
  }

  /** The Euclidean remainder is the unique representative in [0, 2^64). */
  lemma {:induction false} ModUnique(x: int, q: int, r: int)
    requires x == q * Modulus + r && 0 <= r < Modulus
    ensures x % Modulus == r
  {
    ModAddMultiple(r, q);
  }

  lemma {:induction false} ModOfBothSums(x: int, y: int)
    ensures (x % Modulus + y % Modulus) % Modulus == (x + y) % Modulus
  {
    ModOfSum(x, y % Modulus);
    ModOfSum(y, x);
  }

  lemma {:induction false} ModOfWeightedSum(x: int, y: int, c: int)
    ensures ((x % Modulus) * c + y % Modulus) % Modulus == (x * c + y) % Modulus
  {
    var rx := x % Modulus;
    ModOfSum(y, rx * c);
    ModOfSum(rx * c, y);
    ModOfProduct(x, c);
    ModOfSum(x * c, y);
  }

  // ---------------------------------------------------------------------------
  // Properties of the hash

  /** The wrapping hash is the exact polynomial reduced modulo 2^64: every step of
      `result &* 257 &+ byte` agrees with the unbounded computation up to 2^64. */
  lemma {:induction false} HashIsPolyMod(bytes: seq<Byte>)
    ensures RollingHash(bytes) == Poly(bytes) % Modulus
  {
    if bytes != [] {
      var init, last := bytes[..|bytes| - 1], bytes[|bytes| - 1];
      HashIsPolyMod(init);
      ModOfProduct(Poly(init), Base);
      ModOfSum(Poly(init) * Base, last);
      ModOfSum((Poly(init) % Modulus) * Base, last);
    }
  }

  /** An n-byte input has an exact polynomial value below 257^n. */
  lemma {:induction false} PolyBound(bytes: seq<Byte>)
    ensures Poly(bytes) < Pow(|bytes|)
  {
    if bytes != [] {
      var init := bytes[..|bytes| - 1];
      PolyBound(init);
      assert Poly(init) * Base <= (Pow(|init|) - 1) * Base;
    }
  }

  lemma {:induction false} PowMonotone(m: nat, n: nat)
    requires m <= n
    ensures Pow(m) <= Pow(n)
  {
    if m < n {
      PowMonotone(m, n - 1);
    }
  }

  /** Inputs of up to seven bytes never wrap: their hash is the exact polynomial.
      In particular the last six characters of a string never overflow. */
  lemma {:induction false} ShortHashIsExact(bytes: seq<Byte>)
    requires |bytes| <= 7
    ensures RollingHash(bytes) == Poly(bytes)
    ensures Poly(bytes) < Pow(|bytes|) <= Pow(7)
  {
    PolyBound(bytes);
    PowMonotone(|bytes|, 7);
    PowValues();
    HashIsPolyMod(bytes);
    ModUnique(Poly(bytes), 0, Poly(bytes));
  }

  lemma {:induction false} PowValues()
    ensures Pow(3) == 16974593
    ensures Pow(6) == 288136807515649
    ensures Pow(7) == 74051159531521793 < Modulus
  {
    assert Pow(3) == 16974593;
    assert Pow(6) == 288136807515649;
  }

  /** Additivity on the exact polynomial: appending `b` shifts `a` up by |b| places. */
  lemma {:induction false} PolyAppend(a: seq<Byte>, b: seq<Byte>)
    ensures Poly(a + b) == Poly(a) * Pow(|b|) + Poly(b)
  {
    if b == [] {
      assert a + b == a;
    } else {
      var init, last := b[..|b| - 1], b[|b| - 1];
      assert (a + b)[..|a + b| - 1] == a + init;
      PolyAppend(a, init);
      calc {
        Poly(a + b);
        Poly(a + init) * Base + last;
        (Poly(a) * Pow(|init|) + Poly(init)) * Base + last;
        Poly(a) * (Pow(|init|) * Base) + (Poly(init) * Base + last);
        Poly(a) * Pow(|b|) + Poly(b);
      }
    }
  }

  /** Additivity of the wrapping hash:
      hash(a ++ b) == (hash(a) * 257^|b| + hash(b)) mod 2^64. */
  lemma {:induction false} HashAppend(a: seq<Byte>, b: seq<Byte>)
    ensures RollingHash(a + b) == (RollingHash(a) * Pow(|b|) + RollingHash(b)) % Modulus
  {
    PolyAppend(a, b);
    HashIsPolyMod(a + b);
    HashIsPolyMod(a);
    HashIsPolyMod(b);
    ModOfWeightedSum(Poly(a), Poly(b), Pow(|b|));
  }

  lemma {:induction false} HashZeros(n: nat)
    ensures RollingHash(Zeros(n)) == 0
  {
    if n > 0 {
      assert Zeros(n)[..n - 1] == Zeros(n - 1);
      HashZeros(n - 1);
    }
  }

  /** Zero bytes appended to `a` only shift its hash up by 257 per byte. */
  lemma {:induction false} HashPadRight(a: seq<Byte>, z: seq<Byte>)
    requires RollingHash(z) == 0
    ensures RollingHash(a + z) == (RollingHash(a) * Pow(|z|)) % Modulus
  {
    HashAppend(a, z);
  }

  /** Leading zero bytes do not change the hash. */
  lemma {:induction false} HashPadLeft(z: seq<Byte>, b: seq<Byte>)
    requires RollingHash(z) == 0
    ensures RollingHash(z + b) == RollingHash(b)
  {
    HashAppend(z, b);
    ModUnique(RollingHash(b), 0, RollingHash(b));
  }

  /** The additivity the search relies on, in the form `hash("ab") = hash("a\0") +
      hash("\0b")`: padding each part with zero bytes to the other part's place, the
      two hashes add up (with wrap-around) to the hash of the whole. */
  lemma {:induction false} HashAdditive(a: seq<Byte>, b: seq<Byte>)
    ensures RollingHash(a + b) == WAdd(RollingHash(a + Zeros(|b|)), RollingHash(Zeros(|a|) + b))
  {
    var za, zb := Zeros(|a|), Zeros(|b|);
    var shifted := RollingHash(a) * Pow(|b|);
    assert RollingHash(a + zb) == shifted % Modulus by {
      HashZeros(|b|);
      HashPadRight(a, zb);
    }
    assert RollingHash(za + b) == RollingHash(b) by {
      HashZeros(|a|);
      HashPadLeft(za, b);
    }
    assert RollingHash(a + b) == (shifted + RollingHash(b)) % Modulus by {
      HashAppend(a, b);
    }
    WAddOfResidues(RollingHash(a + b), RollingHash(a + zb), RollingHash(za + b), shifted);
  }

  /** `&+` on residues: when `left` is `x mod 2^64` and `whole` is `(x + right) mod 2^64`,
      then `whole` is `left &+ right`. */
  lemma {:induction false} WAddOfResidues(whole: U64, left: U64, right: U64, x: int)
    requires left == x % Modulus && whole == (x + right) % Modulus
    ensures whole == WAdd(left, right)
  {
    ModOfSum(x, right);
  }

  lemma {:induction false} LowBytesAppend(s: string, t: string)
    ensures LowBytes(s + t) == LowBytes(s) + LowBytes(t)
  {
  }

  /** `objcHash` uses only the low eight bits of each scalar: on a string whose scalars
      are all below 256 it equals `hash(data:)` over the string's code units. */
  lemma {:induction false} ObjcHashIsByteHash(s: string, data: seq<Byte>)
    requires |data| == |s|
    requires forall i :: 0 <= i < |s| ==> data[i] == s[i] as int
    ensures RollingHash(LowBytes(s)) == RollingHash(data)
  {
    assert LowBytes(s) == data;
  }

  // ---------------------------------------------------------------------------
  // The two loops of the source

  /** `hash(data:)`: folds `result &* 257 &+ byte` over the bytes. */
  method Hash(data: seq<Byte>) returns (result: U64)
    ensures result == RollingHash(data)
  {
    result := 0;
    for i := 0 to |data|
      invariant result == RollingHash(data[..i])
    {
      assert data[..i + 1][..i] == data[..i];
      result := WAdd(WMul(result, Base), data[i]);
    }
    assert data[..|data|] == data;
  }

  /** `String.objcHash`: the same fold over the unicode scalars, keeping the low byte
      of each. */
  method ObjcHash(s: string) returns (result: U64)
    ensures result == StringHash(s)
  {
    result := 0;
    for i := 0 to |s|
      invariant result == RollingHash(LowBytes(s)[..i])
    {
      assert LowBytes(s)[..i + 1][..i] == LowBytes(s)[..i];
      result := WAdd(WMul(result, Base), LowByte(s[i]));
    }
    assert LowBytes(s)[..|s|] == LowBytes(s);
  }
}

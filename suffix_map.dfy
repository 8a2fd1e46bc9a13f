/**
  The suffix map of the collision search: `buildSuffixMap("")` enumerates every
  string of `suffixLen` (3) characters over the alphabet, in the order of its nested
  recursion, and records each one under its objcHash in the global dictionary
  `suffixMap`, keeping the global `minHash` and `maxHash` up to date.

  The enumeration order is the sequence `Extensions`; recording a sequence of strings
  is the left fold `RecordAll`; the class `SuffixMapBuilder` holds the three globals
  and its recursive method is proved to perform exactly that fold.
*/
module SuffixMap {
  import opened Hashing

  /** `suffixLen`: the length of every block. */
  const SuffixLen: nat := 3

  /** The initial value of `minHash`: 0xffffffffffffff, i.e. 2^56 - 1 (not UInt64.max). */
  const InitialMinHash: U64 := 0xff_ffff_ffff_ffff

  /** The three globals `suffixMap`, `minHash`, `maxHash` as one value. */
  datatype Table = Table(suffixMap: map<U64, string>, minHash: U64, maxHash: U64)

  /** The globals before `buildSuffixMap` runs. */
  const InitialTable: Table := Table(map[], InitialMinHash, 0)

  function Max(a: U64, b: U64): (r: U64) {
    if a >= b then a else b
  }

  function Min(a: U64, b: U64): (r: U64) {
    if a <= b then a else b
  }

  /** The leaf case of `buildSuffixMap`: hash the full-length string, widen the bounds
      and store the string under its hash, replacing any earlier string there. */
  function Record(t: Table, s: string): (r: Table) {
    var h := StringHash(s);
    Table(t.suffixMap[h := s], Min(t.minHash, h), Max(t.maxHash, h))
  }

  /** Recording the strings of `ss` one after another. */
  function RecordAll(t: Table, ss: seq<string>): (r: Table)
    decreases |ss|
  {
    if ss == [] then t else Record(RecordAll(t, ss[..|ss| - 1]), ss[|ss| - 1])
  }

  /** The strings the recursion under `prefix` reaches, in order, for the first `n`
      characters of the alphabet at position |prefix|. */
  function Extensions(alphabet: string, prefix: string, n: nat): (r: seq<string>)
    requires |prefix| < SuffixLen && n <= |alphabet|
    decreases SuffixLen - |prefix|, n
  {
    if n == 0 then []
    else
      Extensions(alphabet, prefix, n - 1) + Below(alphabet, prefix + [alphabet[n - 1]])
  }

  /** The enumeration order of `buildSuffixMap("")`. */
  function Blocks(alphabet: string): (r: seq<string>) {
    Extensions(alphabet, [], |alphabet|)
  }

  /** The globals after `buildSuffixMap("")`. */
  function BuiltTable(alphabet: string): (r: Table) {
    RecordAll(InitialTable, Blocks(alphabet))
  }

  /** A string of exactly `suffixLen` characters drawn from the alphabet. */
  ghost predicate IsBlock(alphabet: string, s: string) {
    |s| == SuffixLen && forall i :: 0 <= i < |s| ==> s[i] in alphabet
  }

  /** The position of the last string in `ss` whose hash is `k`, or -1 if none. */
  function LastIndex(ss: seq<string>, k: U64): (r: int)
    ensures -1 <= r < |ss|
    ensures r >= 0 ==> StringHash(ss[r]) == k
    ensures forall j :: r < j < |ss| ==> StringHash(ss[j]) != k
  {
    if ss == [] then -1
    else if StringHash(ss[|ss| - 1]) == k then |ss| - 1
    else LastIndex(ss[..|ss| - 1], k)
  }

  /** What the three globals satisfy at every point of the construction: each key is
      the hash of its block-length string, and the bounds enclose every key and, once
      there is a key, are themselves keys. */
  ghost predicate Consistent(t: Table) {
    && (forall k :: k in t.suffixMap ==> StringHash(t.suffixMap[k]) == k && |t.suffixMap[k]| == SuffixLen)
    && (forall k :: k in t.suffixMap ==> t.minHash <= k <= t.maxHash)
    && (t.suffixMap == map[] ==> t.minHash == InitialMinHash && t.maxHash == 0)
    && (t.suffixMap != map[] ==> t.minHash in t.suffixMap && t.maxHash in t.suffixMap)
  }

  // ---------------------------------------------------------------------------
  // The enumeration

  /** A string is reached under `prefix` exactly when it has block length, starts with
      `prefix`, continues with one of the first `n` characters, and ends in alphabet
      characters. */
  lemma {:induction false} ExtensionsMember(alphabet: string, prefix: string, n: nat, s: string)
    requires |prefix| < SuffixLen && n <= |alphabet|
    ensures s in Extensions(alphabet, prefix, n) <==>
      && |s| == SuffixLen
      && s[..|prefix|] == prefix
      && s[|prefix|] in alphabet[..n]
      && forall i :: |prefix| < i < SuffixLen ==> s[i] in alphabet
    decreases SuffixLen - |prefix|, n
  {
    if n > 0 {
      var c := alphabet[n - 1];
      var child := prefix + [c];
      ExtensionsMember(alphabet, prefix, n - 1, s);
      ChildMember(alphabet, prefix, c, s);
      assert alphabet[..n] == alphabet[..n - 1] + [c];
    }
  }

  /** What the recursion produces for one extended prefix `child`: the string itself
      once it has block length, otherwise everything reached under it. */
  function Below(alphabet: string, child: string): (r: seq<string>)
    requires 0 < |child| <= SuffixLen
    decreases SuffixLen - |child| + 1, 0
  {
    if |child| == SuffixLen then [child] else Extensions(alphabet, child, |alphabet|)
  }

  /** The strings produced for the child `prefix + [c]` are exactly the block-length
      strings that start with `prefix`, continue with `c`, and end in alphabet characters. */
  lemma {:induction false} ChildMember(alphabet: string, prefix: string, c: char, s: string)
    requires |prefix| < SuffixLen
    ensures s in Below(alphabet, prefix + [c]) <==>
      && |s| == SuffixLen
      && s[..|prefix|] == prefix
      && s[|prefix|] == c
      && forall i :: |prefix| < i < SuffixLen ==> s[i] in alphabet
    decreases SuffixLen - |prefix|, 0
  {
    var child := prefix + [c];
    if |child| == SuffixLen {
      if |s| == SuffixLen && s[..|prefix|] == prefix && s[|prefix|] == c {
        assert s == child;
      }
    } else {
      ExtensionsMember(alphabet, child, |alphabet|, s);
      assert alphabet[..|alphabet|] == alphabet;
      if |s| == SuffixLen && s[..|prefix|] == prefix && s[|prefix|] == c {
        assert s[..|child|] == child;
      }
      if |s| == SuffixLen && s[..|child|] == child {
        assert s[..|prefix|] == child[..|prefix|] == prefix;
        assert s[|prefix|] == child[|prefix|] == c;
      }
    }
  }

  /** `buildSuffixMap("")` reaches exactly the block-length strings over the alphabet. */
  lemma {:induction false} BlocksMember(alphabet: string, s: string)
    ensures s in Blocks(alphabet) <==> IsBlock(alphabet, s)
  {
    ExtensionsMember(alphabet, [], |alphabet|, s);
    assert alphabet[..|alphabet|] == alphabet;
  }

  // ---------------------------------------------------------------------------
  // Recording

  lemma {:induction false} RecordAllConcat(t: Table, a: seq<string>, b: seq<string>)
    ensures RecordAll(t, a + b) == RecordAll(RecordAll(t, a), b)
    decreases |b|
  {
    if b == [] {
      assert a + b == a;
    } else {
      assert (a + b)[..|a + b| - 1] == a + b[..|b| - 1];
      RecordAllConcat(t, a, b[..|b| - 1]);
    }
  }

  /** Later strings overwrite earlier ones: after recording `ss`, key `k` is present
      exactly when it was before or some string of `ss` hashes to it, and then it holds
      the LAST such string. */
  lemma {:induction false} RecordAllLookup(t: Table, ss: seq<string>, k: U64)
    ensures k in RecordAll(t, ss).suffixMap <==> k in t.suffixMap || LastIndex(ss, k) >= 0
    ensures k in RecordAll(t, ss).suffixMap ==>
      RecordAll(t, ss).suffixMap[k] == if LastIndex(ss, k) >= 0 then ss[LastIndex(ss, k)] else t.suffixMap[k]
    decreases |ss|
  {
    if ss != [] {
      var init := ss[..|ss| - 1];
      RecordAllLookup(t, init, k);
      if StringHash(ss[|ss| - 1]) != k {
        assert LastIndex(ss, k) == LastIndex(init, k);
        if LastIndex(init, k) >= 0 {
          assert ss[LastIndex(ss, k)] == init[LastIndex(init, k)];
        }
      }
    }
  }

  /** A block-length string hashes below 257^3, hence below the initial `minHash`. */
  lemma {:induction false} BlockHashBound(s: string)
    requires |s| == SuffixLen
    ensures StringHash(s) < Pow(3) == 16974593
  {
    ShortHashIsExact(LowBytes(s));
    PowValues();
  }

  /** Recording one block-length string keeps the globals consistent. */
  lemma {:induction false} RecordConsistent(t: Table, s: string)
    requires Consistent(t) && |s| == SuffixLen
    ensures Consistent(Record(t, s))
  {
    BlockHashBound(s);
    var t' := Record(t, s);
    var h := StringHash(s);
    assert h in t'.suffixMap;
    if t.suffixMap != map[] {
      assert t.minHash in t'.suffixMap && t.maxHash in t'.suffixMap;
    }
  }

  lemma {:induction false} RecordAllConsistent(t: Table, ss: seq<string>)
    requires Consistent(t)
    requires forall i :: 0 <= i < |ss| ==> |ss[i]| == SuffixLen
    ensures Consistent(RecordAll(t, ss))
    decreases |ss|
  {
    if ss != [] {
      RecordAllConsistent(t, ss[..|ss| - 1]);
      RecordConsistent(RecordAll(t, ss[..|ss| - 1]), ss[|ss| - 1]);
    }
  }

  /** What `buildSuffixMap("")` leaves in the globals:
      - every key maps to a block over the alphabet whose hash is that key;
      - every block over the alphabet has its hash as a key;
      - each key holds the last block of the enumeration with that hash;
      - `minHash` and `maxHash` are attained keys enclosing every key, unless the
        alphabet is empty, in which case the globals keep their initial values. */
  lemma {:induction false} BuiltTableCorrect(alphabet: string)
    ensures Consistent(BuiltTable(alphabet))
    ensures forall k :: k in BuiltTable(alphabet).suffixMap ==>
      IsBlock(alphabet, BuiltTable(alphabet).suffixMap[k])
    ensures forall s :: IsBlock(alphabet, s) ==> StringHash(s) in BuiltTable(alphabet).suffixMap
    ensures forall k :: k in BuiltTable(alphabet).suffixMap ==>
      0 <= LastIndex(Blocks(alphabet), k) &&
      BuiltTable(alphabet).suffixMap[k] == Blocks(alphabet)[LastIndex(Blocks(alphabet), k)]
    ensures BuiltTable(alphabet).suffixMap == map[] <==> alphabet == []
  {
    BuiltTableConsistent(alphabet);
    BuiltTableHoldsLastBlocks(alphabet);
    BuiltTableCoversBlocks(alphabet);
  }

  /** The finished globals are consistent, and the dictionary is empty exactly when
      the alphabet is. */
  lemma {:induction false} BuiltTableConsistent(alphabet: string)
    ensures Consistent(BuiltTable(alphabet))
    ensures BuiltTable(alphabet).suffixMap == map[] <==> alphabet == []
  {
    var blocks := Blocks(alphabet);
    forall i | 0 <= i < |blocks| ensures |blocks[i]| == SuffixLen {
      BlocksMember(alphabet, blocks[i]);
    }
    RecordAllConsistent(InitialTable, blocks);
    if alphabet != [] {
      var s := seq(SuffixLen, _ => alphabet[0]);
      assert IsBlock(alphabet, s);
      BuiltTableCoversBlocks(alphabet);
    }
  }

  /** Every key of the finished dictionary holds the last block, in enumeration order,
      with that hash. */
  lemma {:induction false} BuiltTableHoldsLastBlocks(alphabet: string)
    ensures forall k :: k in BuiltTable(alphabet).suffixMap ==>
      IsBlock(alphabet, BuiltTable(alphabet).suffixMap[k])
    ensures forall k :: k in BuiltTable(alphabet).suffixMap ==>
      0 <= LastIndex(Blocks(alphabet), k) &&
      BuiltTable(alphabet).suffixMap[k] == Blocks(alphabet)[LastIndex(Blocks(alphabet), k)]
  {
    var blocks, t := Blocks(alphabet), BuiltTable(alphabet);
    forall k | k in t.suffixMap
      ensures IsBlock(alphabet, t.suffixMap[k])
      ensures 0 <= LastIndex(blocks, k) && t.suffixMap[k] == blocks[LastIndex(blocks, k)]
    {
      RecordAllLookup(InitialTable, blocks, k);
      BlocksMember(alphabet, blocks[LastIndex(blocks, k)]);
    }
  }

  /** The hash of every block over the alphabet is a key of the finished dictionary. */
  lemma {:induction false} BuiltTableCoversBlocks(alphabet: string)
    ensures forall s :: IsBlock(alphabet, s) ==> StringHash(s) in BuiltTable(alphabet).suffixMap
  {
    var blocks, t := Blocks(alphabet), BuiltTable(alphabet);
    forall s | IsBlock(alphabet, s) ensures StringHash(s) in t.suffixMap {
      BlocksMember(alphabet, s);
      var i :| 0 <= i < |blocks| && blocks[i] == s;
      RecordAllLookup(InitialTable, blocks, StringHash(s));
    }
  }

  /** One iteration of `buildSuffixMap(prefix)`: recording the strings reached for the
      first i + 1 characters is recording those for the first i, then what the
      recursion produces for character i. */
  lemma {:induction false} FoldStep(start: Table, alphabet: string, prefix: string, i: nat)
    requires |prefix| < SuffixLen && i < |alphabet|
    ensures RecordAll(start, Extensions(alphabet, prefix, i + 1)) ==
      RecordAll(RecordAll(start, Extensions(alphabet, prefix, i)), Below(alphabet, prefix + [alphabet[i]]))
  {
    var done := Extensions(alphabet, prefix, i);
    assert Extensions(alphabet, prefix, i + 1) == done + Below(alphabet, prefix + [alphabet[i]]);
    RecordAllConcat(start, done, Below(alphabet, prefix + [alphabet[i]]));
  }

  // ---------------------------------------------------------------------------
  // The globals and buildSuffixMap

  /** The global state of the search program: `suffixMap`, `maxHash`, `minHash`. */
  class SuffixMapBuilder {
    const alphabet: string
    var suffixMap: map<U64, string>
    var maxHash: U64
    var minHash: U64

    function Model(): (r: Table)
      reads this
    {
      Table(suffixMap, minHash, maxHash)
    }

    /** The declarations of the three globals. */
    constructor (alphabet: string)
      ensures this.alphabet == alphabet
      ensures Model() == InitialTable
    {
      this.alphabet := alphabet;
      suffixMap := map[];
      maxHash := 0;
      minHash := InitialMinHash;
    }

    /** The leaf case of `buildSuffixMap`: hash `s`, widen `maxHash` and `minHash`, and
        store `s` under its hash. */
    method Store(s: string)
      requires |s| == SuffixLen
      modifies this
      ensures Model() == Record(old(Model()), s)
    {
      var h := ObjcHash(s);
      maxHash := Max(maxHash, h);
      minHash := Min(minHash, h);
      suffixMap := suffixMap[h := s];
    }

    /** `buildSuffixMap(prefix)`: for each alphabet character, either records the
        completed string or recurses on it. */
    method BuildSuffixMap(prefix: string)
      requires |prefix| < SuffixLen
      modifies this
      ensures Model() == RecordAll(old(Model()), Extensions(alphabet, prefix, |alphabet|))
      decreases SuffixLen - |prefix|, 1
    {
      ghost var start := Model();
      for i := 0 to |alphabet|
        invariant Model() == RecordAll(start, Extensions(alphabet, prefix, i))
      {
        FoldStep(start, alphabet, prefix, i);
        Extend(prefix, alphabet[i]);
      }
    }

    /** The body of the loop in `buildSuffixMap(prefix)` for the character `c`: with
        `l` the length of `prefix + c`, store it when `l == suffixLen`, otherwise recurse. */
    method Extend(prefix: string, c: char)
      requires |prefix| < SuffixLen
      modifies this
      ensures Model() == RecordAll(old(Model()), Below(alphabet, prefix + [c]))
      decreases SuffixLen - |prefix|, 0
    {
      var s := prefix + [c];
      var l := |prefix| + 1;
      if l == SuffixLen {
        Store(s);
        assert RecordAll(old(Model()), [s]) == Record(old(Model()), s) by {
          assert [s][..0] == [];
        }
      } else {
        BuildSuffixMap(s);
      }
    }
  }
}

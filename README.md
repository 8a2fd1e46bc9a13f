# Hash collisions for the Objective-C string hash, modelled in Dafny

This project models `generate-osx-hashcollisions.swift`. The script looks for
12-character strings whose Objective-C (CoreFoundation) string hash equals a given
reference hash. The core of that hash is the rolling polynomial
`result = result * 257 + c` over UInt64, with wrap-around.

The script is a meet-in-the-middle search. It works in four steps:

1. It enumerates every 3-character block over an alphabet.
2. It stores each block in a dictionary keyed by the block's hash, and tracks the
   smallest and largest hash seen.
3. From those two hashes it derives bounds on the hash of the last six characters.
   From the bounds and the reference hash `rh` it derives two windows of admissible
   partial sums.
4. Three nested loops over the dictionary pick the first three blocks. Any prefix
   whose partial sum falls outside a window is pruned. The fourth block is looked up
   by the hash still missing.

The model has three modules:

- `Hashing` (`hash.dfy`). UInt64 wrap-around is written out as arithmetic modulo
  2^64. `RollingHash` is the wrapping fold and `Poly` the same polynomial over the
  integers. The two loops `hash(data:)` and `String.objcHash` are methods, proved to
  compute `RollingHash`. The properties the search depends on are proved here:
  - the hash is the polynomial modulo 2^64;
  - it is additive;
  - short inputs never wrap.
- `SuffixMap` (`suffix_map.dfy`). The globals `suffixMap`, `minHash` and `maxHash` are
  the fields of the class `SuffixMapBuilder`. Its recursive method `BuildSuffixMap` is
  proved to perform exactly a left fold (`RecordAll`) over the enumeration order
  (`Extensions`). Lemmas then describe the finished dictionary:
  - every key is the hash of its stored block;
  - every 3-character string over the alphabet has its hash present;
  - the stored block is the last one in enumeration order with that hash;
  - the bounds are the minimum and maximum key.
- `Collisions` (`collisions.dfy`). It covers:
  - the trapping computations of `qmaxHash`/`qminHash` (`ComputeBounds`, built on
    `TwoBlockBound`) and of the windows `p1lo..p2hi` (`ComputeWindows`);
  - the weights `f0`, `f1`, `f2`;
  - one pass of the innermost loop body, as the function `Join`; the lemma
    `JoinEmits` states when it emits a string and which one;
  - the nested loops, as three methods, one per loop;
  - the whole script, as `FindCollisions`.

  The main result: for a reference hash at least `qmaxHash`, the loops emit exactly
  the 12-character strings whose four blocks are stored blocks and whose hash is
  `rh`, each one once. The pruning by the two windows loses no collision. Every
  12-character string over the alphabet that collides with `rh` is matched by an
  emitted string with the same four block hashes.

Swift's trapping arithmetic (`*`, `+`, `-` on UInt64) is modelled by the
`Checked` datatype, which is `Overflow` where Swift traps. The wrapping operators
`&*`, `&+` and `&-` are `WMul`, `WAdd` and `WSub`.

## Model

| member | source | states |
|---|---|---|
| Hashing.Hash | generate-osx-hashcollisions.swift:72-78 | `hash(data:)` returns the wrapping rolling hash of its bytes, proved by a loop invariant over the processed prefix |
| Hashing.ObjcHash | generate-osx-hashcollisions.swift:55-61 | `objcHash` returns the rolling hash of the low bytes of its unicode scalars |
| Hashing.ObjcHashIsByteHash | generate-osx-hashcollisions.swift:55-78 | on a string whose scalars are the given bytes, `objcHash` and `hash(data:)` agree |
| Hashing.HashIsPolyMod | generate-osx-hashcollisions.swift:5-6 | the wrapping hash equals the recurrence `result(n) = result(n-1) * 257 + c(n)` evaluated over the integers, reduced modulo 2^64 |
| Hashing.PolyBound | generate-osx-hashcollisions.swift:18 | an n-byte input has an exact polynomial value below 257^n |
| Hashing.ShortHashIsExact | generate-osx-hashcollisions.swift:18 | an input of at most 7 bytes never wraps: its hash is the exact polynomial, below 257^7 < 2^64 (one byte more than the six the comment on line 18 claims) |
| Hashing.PolyAppend | generate-osx-hashcollisions.swift:15-16 | over the integers, the polynomial of `a + b` is `poly(a) * 257^|b| + poly(b)` |
| Hashing.HashAppend | generate-osx-hashcollisions.swift:15-16 | the wrapping hash of `a + b` is `hash(a) * 257^|b| + hash(b)` modulo 2^64 |
| Hashing.HashAdditive | generate-osx-hashcollisions.swift:15-16 | `hash(a + b) = hash(a + zeros) &+ hash(zeros + b)`, the additivity in the form `hash("ab") = hash("a\0") + hash("\0b")` |
| SuffixMap.SuffixMapBuilder.constructor | generate-osx-hashcollisions.swift:88-90 | the globals start as an empty dictionary, `maxHash = 0` and `minHash = 0xffffffffffffff` |
| SuffixMap.SuffixMapBuilder.Store | generate-osx-hashcollisions.swift:95-99 | the leaf case stores the block under its objcHash and widens `maxHash`/`minHash` by it; nothing else changes |
| SuffixMap.SuffixMapBuilder.BuildSuffixMap | generate-osx-hashcollisions.swift:91-106 | `buildSuffixMap(prefix)` leaves the globals equal to recording, in enumeration order, every string its recursion reaches |
| SuffixMap.ExtensionsMember | generate-osx-hashcollisions.swift:91-104 | the recursion under `prefix` reaches exactly the 3-character strings that start with `prefix` and continue with alphabet characters |
| SuffixMap.BlocksMember | generate-osx-hashcollisions.swift:91-106 | `buildSuffixMap("")` reaches a string if and only if it is a 3-character string over the alphabet |
| SuffixMap.LastIndex | generate-osx-hashcollisions.swift:99 | the position of the last block with a given hash: that block has the hash and no later block has it, or -1 when no block has it |
| SuffixMap.RecordAllLookup | generate-osx-hashcollisions.swift:96-99 | after recording a sequence, a hash is a key if and only if it was one before or some recorded block has it, and it then holds the last such block |
| SuffixMap.BlockHashBound | generate-osx-hashcollisions.swift:90-96 | a 3-character block hashes below 257^3 = 16974593 |
| SuffixMap.RecordConsistent | generate-osx-hashcollisions.swift:96-99 | recording one block keeps the globals consistent: keys are the hashes of their blocks, and `minHash`/`maxHash` are the smallest/largest key |
| SuffixMap.BuiltTableCorrect | generate-osx-hashcollisions.swift:88-106 | the finished dictionary is consistent; it holds only blocks over the alphabet; every block's hash is a key holding the last block with that hash; it is empty if and only if the alphabet is |
| SuffixMap.BuiltTableConsistent | generate-osx-hashcollisions.swift:88-106 | after `buildSuffixMap("")` the globals are consistent, and the dictionary is empty if and only if the alphabet is |
| SuffixMap.BuiltTableHoldsLastBlocks | generate-osx-hashcollisions.swift:93-99 | every key of the finished dictionary holds a block over the alphabet: the last block, in enumeration order, with that hash |
| SuffixMap.BuiltTableCoversBlocks | generate-osx-hashcollisions.swift:93-99 | the hash of every 3-character string over the alphabet is a key of the finished dictionary |
| SuffixMap.SuffixMapBuilder.Extend | generate-osx-hashcollisions.swift:92-103 | the loop body for character `c`: with `prefix + c` of length 3 it stores that string, otherwise it runs the recursion on it; either way the globals become the old ones with everything reached from `prefix + c` recorded in order |
| SuffixMap.FoldStep | generate-osx-hashcollisions.swift:93-103 | one iteration of the loop in `buildSuffixMap` records the completed string, or everything reached under the extended prefix, after what the earlier iterations recorded |
| Collisions.WeightsArePowers | generate-osx-hashcollisions.swift:135-137 | `f2 = 257^3`, `f1 = 257^6` and `f0 = 257^9 mod 2^64` (the one weight that wraps) |
| Collisions.HashOfBlocks | generate-osx-hashcollisions.swift:27-37 | on bytes: the rolling hash of four 3-byte blocks is `k0*f0 + k1*f1 + k2*f2 + k3` modulo 2^64, where each `k` is one block's hash |
| Collisions.JoinHash | generate-osx-hashcollisions.swift:27-37 | the hash of four concatenated blocks is `k0*f0 + k1*f1 + k2*f2 + k3` modulo 2^64, where each `k` is one block's hash |
| Collisions.TwoBlockBound | generate-osx-hashcollisions.swift:108-109 | `x * UInt64(257 * 257 * 257) + x` with Swift's trapping `*` and `+`: it traps (`Overflow`) exactly when the exact value `x * 16974593 + x` reaches 2^64, and otherwise is that value |
| Collisions.ComputeBounds | generate-osx-hashcollisions.swift:108-109 | `qmaxHash` from `maxHash`, then `qminHash` from `minHash`, each `x * 16974593 + x` with trapping operators: `Overflow` if and only if either exact value reaches 2^64, otherwise exactly those two values |
| Collisions.BoundsCorrect | generate-osx-hashcollisions.swift:108-109 | with a non-empty dictionary `qmaxHash`/`qminHash` do not trap; `qmin <= qmax`; the weighted hash `k2*f2 + k3` of any two stored keys lies between them |
| Collisions.EmptyMapTraps | generate-osx-hashcollisions.swift:90-109 | with an empty dictionary `minHash` stays at 2^56-1 and `qminHash` overflows |
| Collisions.SourceAlphabetDoesNotTrap | generate-osx-hashcollisions.swift:82-109 | with the script's own 94-character alphabet the dictionary is non-empty and the bounds do not trap |
| Collisions.ComputeWindows | generate-osx-hashcollisions.swift:125-128 | the four trapping subtractions from `rh`: no trap if and only if `rh` is at least each of `qmaxHash`, `qminHash`, `maxHash` and `minHash`, and then `p1lo = rh - qmaxHash`, `p1hi = rh - qminHash`, `p2lo = rh - maxHash`, `p2hi = rh - minHash` exactly |
| Collisions.WindowsCorrect | generate-osx-hashcollisions.swift:117-128 | for `rh >= qmaxHash` none of the four subtractions of the windows traps, and both windows are non-empty |
| Collisions.CompletingKey | generate-osx-hashcollisions.swift:154 | `missing = rh &- h` is the one UInt64 `k` with `h &+ k == rh` |
| Collisions.JoinEmits | generate-osx-hashcollisions.swift:147-156 | the innermost body for keys `k0`, `k1`, `k2` (`h1 = k0 &* f0 &+ k1 &* f1`, `h2 = h1 &+ k2 &* f2`, `missing = rh &- h2`, the lookup) emits a string if and only if `h1` is in `[p1lo, p1hi]`, `h2` is in `[p2lo, p2hi]` and some stored key `k3` has `h2 &+ k3 == rh`; the string is then `v0 + v1 + v2` followed by the block stored under that `k3` |
| Collisions.JoinSound | generate-osx-hashcollisions.swift:147-157 | a string the innermost body emits is a 12-character collision with `rh` made of stored blocks whose first three hashes are the loop keys |
| Collisions.JoinComplete | generate-osx-hashcollisions.swift:22-37 | for stored keys with `k0*f0 + k1*f1 + k2*f2 + k3 = rh`, both window tests pass, `missing` is `k3`, and the four stored blocks are emitted |
| Collisions.CollisionIsJoined | generate-osx-hashcollisions.swift:147-157 | every collision made of stored blocks is what the innermost body emits for the hashes of its first three blocks |
| Collisions.SearchThird | generate-osx-hashcollisions.swift:151-159 | for fixed `k0`, `k1` the innermost loop emits, without repetition, the collisions for every stored `k2` |
| Collisions.SearchSecond | generate-osx-hashcollisions.swift:148-160 | for fixed `k0` the middle loop, pruning by `[p1lo, p1hi]`, emits without repetition every string the join emits for `k0`, over all stored `k1` and `k2` |
| Collisions.Search | generate-osx-hashcollisions.swift:139-161 | the three loops emit exactly the collisions with `rh` made of stored blocks, each once |
| Collisions.CollisionOverAlphabet | generate-osx-hashcollisions.swift:93-99 | an emitted collision is a 12-character string over the alphabet with hash `rh` |
| Collisions.StoredBlocks | generate-osx-hashcollisions.swift:20-23 | replacing each block of a colliding string by the stored block with the same hash keeps the hash |
| Collisions.StoredRepresentative | generate-osx-hashcollisions.swift:20-37 | any 12-character string over the alphabet with hash `rh` has an emitted collision with the same four block hashes |
| Collisions.SearchCoversAlphabet | generate-osx-hashcollisions.swift:139-161 | the join over an alphabet's suffix map emits only collisions over that alphabet with hash `rh`, and matches every such collision by one with the same block hashes |
| Collisions.FindCollisions | generate-osx-hashcollisions.swift:87-161 | the script traps if and only if the alphabet is empty; otherwise it rejects the reference hash if and only if `rh < qmaxHash`; otherwise it emits distinct 12-character strings over the alphabet with hash `rh`, covering every block-hash pattern of a collision |

## Left out

- The random reference input (lines 112-123): `rh` is a parameter of `FindCollisions`. The source redraws while `rh < qmaxHash`; the model reports such an `rh` as `RejectedReference` instead of looping. The random generator `cs_arc4random_uniform` is not modelled.
- Console output: the `print` calls, the progress counter `t`, and the `Double` percentage (lines 87, 101, 107, 110, 129-133, 139-145). The collisions the source prints (line 157) are the sequence `Search` returns.
- Dictionary iteration order: Swift's iteration order over `suffixMap` is unspecified. Each loop picks its keys in an arbitrary order, so `Search` returns its collisions in some order, and its contract states the set and the absence of repetition, not an order.
- The `String` subscript extension (lines 51-54) is used only for the reference input, which is not modelled.
- The platform imports (lines 44-49) and `cs_arc4random_uniform` (lines 64-70) are foreign calls.
- `generate.plist.swift`, `slow.swift` and `linux-hashcollision.swift` are not part of this model.
- `LowByte` models `c.value & 0xff` as the remainder modulo 256. The two agree because a scalar value is non-negative.
- `SuffixMap.SuffixMapBuilder.BuildSuffixMap` requires a prefix shorter than three characters. The source only calls it with `""` and its own extensions; with a non-empty alphabet, a longer prefix would recurse forever.
- Swift `String` concatenation and `unicodeScalars` are modelled as Dafny `string`, a sequence of Unicode scalar values. Grapheme clustering plays no role because every scalar is handled separately.

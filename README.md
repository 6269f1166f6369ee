# merkle-rs in Dafny

A model of the Merkle tree in `src/main.rs` of merkle-rs, with proofs about it.
The tree is built once over an ordered list of byte values.

- Every value becomes a leaf digest `H(0x00 ‖ value)`.
- Each level is combined pairwise into the level above. An internal digest is
  `H(0x01 ‖ left ‖ right)`, and a lone last node is hashed with itself.
- A level produced with an odd length greater than one is padded with a copy of
  its last digest, without hashing.
- All digests are packed into one flat array:
  - `P = next_power_of_2(n)` internal slots come first (modelled as `CeilPow2(n)`, which is the source's `next_power_of_2(n)` for n ≤ 2^32; see Findings);
  - the `n` leaf digests follow them;
  - the internal levels are written into shrinking windows that sit just left
    of the leaves;
  - the root is copied into slot 0.
- `verify(position, value)` re-hashes `value` and compares that digest with the
  stored leaf digest.
- `root_hash` returns slot 0.

Files and modules:

- `hashing.dfy` (`Hashing`): the domain-separated leaf and internal-node digests
  (`hash_leaf`, `hash_internal_node`). The hash algorithm is a parameter
  `h: seq<byte> -> seq<byte>`.
- `levels.dfy` (`Levels`): `build_upper_level`. It is a loop-and-push method,
  proved equal to the specification `UpperLevel`.
- `power_of_two.dfy` (`PowerOfTwo`): `next_power_of_2`. A `usize` is a `nat`,
  `|` is `BitOr` and `>>` is `Shr`. The method is proved against `CeilPow2`,
  the least power of two that is not below `n`.
- `assembler.dfy` (`Assembler`): `build_internal_nodes`, an in-place method on an
  `array`. It is proved equal to the specification `Assembled`, which writes the
  levels window by window (`WriteLevels`). Lemmas place the leaves, every level,
  the root and the untouched slots.
- `merkle_tree.dfy` (`Tree`): the `MerkleTree` class and the two scenarios of
  `main`. The class has `BuildWithHasher`, `Verify` and `RootHash`. It also
  proves what the root commits to:
  - for a fixed leaf count, two value lists with one root expose a hash
    collision;
  - the root does not commit to the leaf count, because a lone last value
    counts the same as two copies of it.

## Model

| member | source | states |
|---|---|---|
| Hashing.LeafInput | src/main.rs:47-55 | A leaf digest, `HashLeaf(h, value) = h(LeafInput(value))`, is taken over the leaf tag 0 followed by the value's bytes. |
| Hashing.InternalInputLayout | src/main.rs:57-69 | An internal digest, `HashInternalNode(h, left, right) = h(InternalInput(left, right))`, is taken over the tag 1, the left child, then the right child, or the left child again when there is none. |
| Hashing.DomainSeparated | src/main.rs:7-8 | No leaf input equals any internal-node input, because the tag bytes differ. |
| Hashing.LoneChildPairedWithItself | src/main.rs:63-67 | A node without a right sibling gets the same digest as when paired with itself. |
| Hashing.LeafInputInjective | src/main.rs:52-53 | Different values give different leaf inputs. |
| Hashing.InternalInputInjective | src/main.rs:61-64 | For children of equal length, the internal input determines both children. |
| Levels.Combined | src/main.rs:75-86 | Combining a level of m nodes gives ceil(m/2) parents. |
| Levels.CombinedAt | src/main.rs:78-86 | Parent j combines nodes 2j and 2j+1, or node 2j alone at the end of an odd level. |
| Levels.UpperLen | src/main.rs:88-91 | The level above a non-empty level is non-empty. It is shorter than a level longer than one. Its length is one or even. |
| Levels.UpperLevel | src/main.rs:71-94 | The level above, `Padded(Combined(h, nodes))` (the pairwise pass, then the padding rule `Padded` of lines 88-91), has UpperLen(m) entries. |
| Levels.PaddedPrefix | src/main.rs:88-91 | Padding keeps every entry it was given. |
| Levels.UpperLevelAt | src/main.rs:78-91 | Entry j of the level above is parent j. |
| Levels.UpperLevelEntries | src/main.rs:78-91 | Every pair is hashed together. A lone last node is hashed with itself. The padding entry is a copy of the one before it. |
| Levels.UpperLevelShape | src/main.rs:88-91 | Empty stays empty. A level above a level longer than one is non-empty and shorter. A level above a non-empty level has length one or an even length. |
| Levels.UpperLevelDigests | src/main.rs:71-94 | With d-byte digests, every node of a produced level has d bytes. |
| Levels.UpperLevelCollision | src/main.rs:78-86 | Two different levels of equal length, made of d-byte digests, with the same level above yield two different inputs with one digest. |
| Levels.BuildUpperLevel | src/main.rs:71-94 | The loop over i and the padding step return exactly UpperLevel(h, nodes). |
| PowerOfTwo.CeilPow2 | src/main.rs:12-13 | The result is a power of two, at least n, and below 2n for n ≥ 1. |
| PowerOfTwo.CeilPow2IsLeast | src/main.rs:12-13 | No power of two at or above n is smaller than CeilPow2(n). |
| PowerOfTwo.CeilPow2Unique | src/main.rs:12-13 | A power of two in [n, 2n) is CeilPow2(n). |
| PowerOfTwo.SmearTopOnes | src/main.rs:16-20 | After r or-and-shift rounds, the top min(2^r, L) of the L bits of x are set. |
| PowerOfTwo.SmearAllOnes | src/main.rs:16-20 | Enough rounds turn x into 2^BitLength(x) − 1. |
| PowerOfTwo.SmearBelow | src/main.rs:16-20 | Smearing sets no bit above the highest one. |
| PowerOfTwo.NextPowerOf2Exact | src/main.rs:14-22 | Decrementing, smearing with enough rounds and incrementing gives CeilPow2(n). |
| PowerOfTwo.NextPowerOf2 | src/main.rs:13-23 | The routine as written computes Smear(n − 1, 5) + 1, where `Smear(x, r)` is r or-and-shift rounds of lines 16-20. The result is at most 2^63, and it is the least power of two ≥ n whenever n ≤ 2^32. |
| PowerOfTwo.FiveRoundsMissLowBits | src/main.rs:16-21 | For n = 2^k + 1 with k ≥ 32, five rounds give 2^(k+1) − 2^(k−31) + 1, which is not a power of two. |
| PowerOfTwo.NextPowerOf2Wide | src/main.rs:13-23 | With the sixth round `>> 32`, the result is CeilPow2(n) for every n up to 2^63. |
| Assembler.SlotsAboveFit | src/main.rs:106-111 | For a level of 2 ≤ m ≤ P nodes, P a power of two, the levels above it take at most P − 1 slots. |
| Assembler.InternalSlotsFit | src/main.rs:100-111 | For 2 ≤ n ≤ P, P a power of two, all internal levels fit into P − 1 slots. So neither window subtraction underflows, and slot 0 stays free. |
| Assembler.LevelsAboveSize | src/main.rs:106-111 | The levels above m nodes take SlotsAbove(m) slots, and every one of them is non-empty. |
| Assembler.InternalLevelsSize | src/main.rs:100-111 | The internal levels over n leaves take InternalSlots(n) slots. |
| Assembler.Splice | src/main.rs:104 | clone_from_slice into a window keeps the array's length. |
| Assembler.SpliceAt | src/main.rs:104 | After the copy, the window holds the level, and every other slot is as before. |
| Assembler.CloneFromSlice | src/main.rs:104 | The array after the copy is Splice of the array before. |
| Assembler.WriteLevelsStep | src/main.rs:108-110 | Writing one level into the window ending at `end`, then the rest from its start, is writing all of them from `end`. |
| Assembler.WriteLevelsKeepsRight | src/main.rs:104-110 | No slot at or right of the first window's end is written. |
| Assembler.WriteLevelsKeepsLeft | src/main.rs:104-110 | No slot left of the last window's start is written. |
| Assembler.WriteLevelsTiles | src/main.rs:104-110 | The written levels tile the internal region from the right, in order, each window ending where the previous one starts. |
| Assembler.AssembledKeepsLeaves | src/main.rs:96-114 | The leaf slots P.. are never written. |
| Assembler.AssembledTiles | src/main.rs:100-113 | The levels tile [P − InternalSlots(n), P) bottom-up, and slot 0 holds the root. |
| Assembler.AssembledKeepsUnused | src/main.rs:96-114 | The slots between the root slot and the top window keep their contents. |
| Assembler.BuildInternalNodes | src/main.rs:96-114 | The in-place loop leaves exactly Assembled(h, old array, P) in the array. |
| Tree.LeafHashes | src/main.rs:134 | There is one leaf digest per value. |
| Tree.InitialNodes | src/main.rs:138-140 | The array before build_internal_nodes has P + n slots, with the leaf digests from slot P on. |
| Tree.TreeNodes | src/main.rs:136-142 | The built array has CeilPow2(n) + n slots, where CeilPow2(n) is `next_power_of_2(n)` for n ≤ 2^32. |
| Tree.TreeLeaves | src/main.rs:140-142 | The built array holds the leaf digests behind the internal slots, in order. |
| Tree.TreeRoot | src/main.rs:142 | Slot 0 of the built array holds the Merkle root over the leaf digests. |
| Tree.TreeLevels | src/main.rs:142 | The internal levels, bottom-up, tile the InternalSlots(n) slots just left of the leaves, starting at slot 1 or later. |
| Tree.TreeUnused | src/main.rs:138 | The slots between the root and the topmost level stay empty vectors. |
| Tree.TopDigest | src/main.rs:106-113 | With d-byte digests, the digest at the top of any level has d bytes. |
| Tree.MerkleRootDigest | src/main.rs:113 | With d-byte digests, the root has d bytes. |
| Tree.TopCollision | src/main.rs:106-113 | Two different levels of equal length that reach the same top digest yield a collision of the hash. |
| Tree.RootCommitsToValues | src/main.rs:124-150 | Two different value lists of one length with the same root yield a collision of the hash. |
| Tree.LoneLastValueDuplicated | src/main.rs:63-67 | Appending a copy of a lone last value does not change the root. |
| Tree.NodeCountFits | src/main.rs:138 | For 1 ≤ n ≤ 2^63 − 1, the array length CeilPow2(n) + n is below 2^64. |
| Tree.NodeCountOverflowsAbove | src/main.rs:138 | At n = 2^63 the array length is exactly 2^64, one past what a 64-bit `usize` holds. |
| Tree.NewNodes | src/main.rs:138-140 | The fresh array holds P empty slots followed by the leaf digests. |
| Tree.BuildNodes | src/main.rs:134-142 | The array built for n values has CeilPow2(n) internal slots, which is `next_power_of_2(n)` for n ≤ 2^32, and equals TreeNodes. |
| Tree.MerkleTree.BuildWithHasher | src/main.rs:124-150 | The tree is valid. It stores its values, the next power of two and the leaf count. Its leaf slots hold the leaf digests and its slot 0 holds the root. |
| Tree.MerkleTree.LeafSlot | src/main.rs:140 | The stored digest of leaf i is the leaf digest of value i. |
| Tree.MerkleTree.Verify | src/main.rs:152-163 | The check succeeds iff the value's leaf digest equals that of the stored value. The stored value is always accepted. Any other value is accepted only on a collision: two different leaf inputs with one digest. |
| Tree.MerkleTree.RootHash | src/main.rs:165-167 | The returned digest is the Merkle root over the leaf digests of the values. |
| Tree.MerkleTree.RootHashLength | src/main.rs:165-167 | With d-byte digests, the root hash has d bytes. |
| Tree.Scenarios | src/main.rs:170-183 | With 32-byte digests, the tree over two "Hello World" blocks has a 32-byte root. The tree over "Hello World" and "Bye, bye" accepts each block at its own position. It accepts "Bye, bye" at position 0 only on a hash collision. |
| Tree.ThreeLeavesRoot | src/main.rs:78-91 | The root over three leaves is H(H(a, b), H(c, c)), with no padding involved. |
| Tree.FiveLeavesRoot | src/main.rs:78-91 | The root over five leaves is H(H(p, q), H(r, r)), where r = H(e, e) is the lone fifth leaf and the middle level [p, q, r] is padded with a copy of r. |

Determinism needs no lemma. `RootHash` is a function of the values and the
hash algorithm alone.

## Left out

- PowerOfTwo.NextPowerOf2: requires 1 ≤ n ≤ 2^63. For n = 0 the decrement underflows a `usize`, which panics or wraps. Above 2^63 the least power of two ≥ n, 2^64, does not fit a `usize`; the routine as written then either overflows at `v += 1` (for example n = 2^64 − 1) or returns a non-power (n = 2^63 + 1 gives 2^64 − 2^32 + 1, `FiveRoundsMissLowBits` with k = 63). The tree calls the corrected routine instead (see the `BuildWithHasher` line below).
- PowerOfTwo.NextPowerOf2Wide: the same range 1 ≤ n ≤ 2^63: n = 0 underflows, and above 2^63 the answer 2^64 does not fit, so the six-round routine overflows at `v += 1`.
- Tree.MerkleTree.BuildWithHasher: requires at most 2^63 − 1 values (`MAX_LEAVES`). From 2^63 values on, `next_power_of_2(n) + n` at src/main.rs:138 overflows a `usize` (`NodeCountOverflowsAbove`: at n = 2^63 it is exactly 2^64); below that it fits (`NodeCountFits`).
- Tree.MerkleTree.BuildWithHasher: uses the corrected `NextPowerOf2Wide`, not the five-round routine as written; see Findings. With the routine as written, `count_internal_nodes` would still be at least n, but it would not be a power of two for some n above 2^32.
- Tree.MerkleTree.BuildWithHasher: the `assert!(count_leaves > 1)` panic is modelled as a precondition, not as an error result.
- Tree.MerkleTree.Verify: the `assert!(position < self.count_leaves)` panic is modelled as a precondition.
- Assembler.BuildInternalNodes: the source does not check that the internal levels fit into `count_internal_nodes` slots; a misfit would show up there as an underflow at line 101 or 109: a panic, or a wrap followed by a slice panic at line 104 or 110. The model requires the fit, and `InternalSlotsFit` proves it for every call the tree makes.
- The streaming hasher (`update`, `finalize_reset`) is one pure function applied to the concatenated input. Any hasher state that leaks between digests is not modelled, and neither is the `&mut self` on `verify`.
- SHA-256 itself is not modelled. The hash is a parameter. Digest length appears only as the hypothesis `FixedDigestLength`. Collision resistance appears only as an exhibited collision: a lemma or contract returns or names two different inputs with one digest.
- The `AsBytes` trait and its three impls (src/main.rs:25-45) are not modelled; values are given directly as byte sequences. The scenario blocks are written as their ASCII bytes.
- `println!` in `main` is output only and is not modelled.
- `Vec::with_capacity` in `build_upper_level` is an allocation hint with no effect on contents.
- `parents.remove(0)`: the copy of the root that the last window already holds is modelled, and the emptied `parents` vector is dropped.

## Findings

| source | as written | input that shows it | evidently intended | confidence | as-written member | corrected member |
|---|---|---|---|---|---|---|
| src/main.rs:13-23 | `next_power_of_2` smears with shifts 1, 2, 4, 8 and 16 only, so on a 64-bit `usize` only the highest set bit and the 31 bits below it are filled | n = 2^32 + 1 gives 2^33 − 1, which is odd and not a power of two (generally n = 2^k + 1, k ≥ 32) | the smallest power of two ≥ n, as its doc comment says, which needs a sixth or-and-shift round by 32 | not executed | PowerOfTwo.NextPowerOf2 (with PowerOfTwo.FiveRoundsMissLowBits) | PowerOfTwo.NextPowerOf2Wide |

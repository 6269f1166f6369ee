/**
 * The tree object (`MerkleTree`): built once from a list of values, it keeps
 * the node array, the number of internal slots (the next power of two of the
 * leaf count) and the number of leaves; `verify` compares a stored leaf
 * digest with the digest of a candidate value and `root_hash` returns slot 0.
 */
module Tree {
  import opened Hashing
  import opened Levels
  import opened PowerOfTwo
  import opened Assembler

  /** The leaf digests of the values, in order. */
  function LeafHashes(h: Hasher, values: seq<seq<byte>>): (r: seq<Hash>)
    ensures |r| == |values|
  {
    seq(|values|, i requires 0 <= i < |values| => HashLeaf(h, values[i]))
  }

  /** The largest leaf count for which `next_power_of_2(n) + n` fits a 64-bit `usize`. */
  const MAX_LEAVES: nat := 0x7FFF_FFFF_FFFF_FFFF

  /** Up to MAX_LEAVES leaves, the node array length P + n stays below 2^64. */
  lemma NodeCountFits(n: nat)
    requires 1 <= n <= MAX_LEAVES
    ensures CeilPow2(n) + n < 0x1_0000_0000_0000_0000
  {
    Pow2Table();
    Pow2IsPowerOfTwo(63);
    CeilPow2IsLeast(n, Pow2(63));
  }

  /** One leaf more, and P + n is exactly 2^64: the length overflows a `usize`. */
  lemma NodeCountOverflowsAbove()
    ensures CeilPow2(MAX_LEAVES + 1) + (MAX_LEAVES + 1) == 0x1_0000_0000_0000_0000
  {
    Pow2Table();
    Pow2IsPowerOfTwo(63);
    CeilPow2Unique(MAX_LEAVES + 1, Pow2(63));
  }

  /** The array before build_internal_nodes: P empty slots, then the leaf digests. */
  function InitialNodes(h: Hasher, values: seq<seq<byte>>, P: nat): (r: seq<Hash>)
    ensures |r| == P + |values|
    ensures r[P..] == LeafHashes(h, values)
  {
    seq(P, _ => []) + LeafHashes(h, values)
  }

  /**
   * The node array build_with_hasher produces: P = next power of two empty
   * slots followed by the leaf digests, after build_internal_nodes.
   */
  ghost function TreeNodes(h: Hasher, values: seq<seq<byte>>): (r: seq<Hash>)
    requires 2 <= |values|
    ensures |r| == CeilPow2(|values|) + |values|
  {
    var P := CeilPow2(|values|);
    InternalSlotsFit(|values|, P);
    Assembled(h, InitialNodes(h, values, P), P)
  }

  /** The leaf digests sit behind the P internal slots, in order. */
  lemma TreeLeaves(h: Hasher, values: seq<seq<byte>>)
    requires 2 <= |values|
    ensures TreeNodes(h, values)[CeilPow2(|values|)..] == LeafHashes(h, values)
  {
    var P := CeilPow2(|values|);
    InternalSlotsFit(|values|, P);
    AssembledKeepsLeaves(h, InitialNodes(h, values, P), P);
  }

  /** Slot 0 holds the root over the leaf digests. */
  lemma TreeRoot(h: Hasher, values: seq<seq<byte>>)
    requires 2 <= |values|
    ensures TreeNodes(h, values)[0] == MerkleRoot(h, LeafHashes(h, values))
  {
    var P := CeilPow2(|values|);
    var initial := InitialNodes(h, values, P);
    InternalSlotsFit(|values|, P);
    assert |initial| - P == |values|;
    AssembledTiles(h, initial, P);
    assert TreeNodes(h, values) == Assembled(h, initial, P);
  }

  /** The internal levels, bottom-up, tile the InternalSlots(n) slots just left of the leaves. */
  lemma TreeLevels(h: Hasher, values: seq<seq<byte>>)
    requires 2 <= |values|
    ensures var P := CeilPow2(|values|);
      InternalSlots(|values|) < P &&
      Tiled(TreeNodes(h, values), P - InternalSlots(|values|), P, InternalLevels(h, LeafHashes(h, values)))
  {
    var P := CeilPow2(|values|);
    var initial := InitialNodes(h, values, P);
    InternalSlotsFit(|values|, P);
    assert |initial| - P == |values|;
    AssembledTiles(h, initial, P);
    assert TreeNodes(h, values) == Assembled(h, initial, P);
  }

  /** The slots between the root and the topmost internal level stay empty. */
  lemma TreeUnused(h: Hasher, values: seq<seq<byte>>, k: nat)
    requires 2 <= |values|
    requires 1 <= k < CeilPow2(|values|) - InternalSlots(|values|)
    ensures TreeNodes(h, values)[k] == []
  {
    var P := CeilPow2(|values|);
    InternalSlotsFit(|values|, P);
    AssembledKeepsUnused(h, InitialNodes(h, values, P), P, k);
  }

  /** With digests of d bytes, the digest left at the top of any level has d bytes. */
  lemma {:induction false} TopDigest(h: Hasher, d: nat, level: seq<Hash>)
    requires FixedDigestLength(h, d) && |level| >= 1
    requires forall k :: 0 <= k < |level| ==> |level[k]| == d
    ensures |Top(h, level)| == d
    decreases |level|
  {
    if |level| > 1 {
      UpperLevelDigests(h, d, level);
      UpperLevelShape(h, level);
      TopDigest(h, d, UpperLevel(h, level));
    }
  }

  /** With digests of d bytes, the root has d bytes. */
  lemma MerkleRootDigest(h: Hasher, d: nat, leaves: seq<Hash>)
    requires FixedDigestLength(h, d) && |leaves| >= 1
    ensures |MerkleRoot(h, leaves)| == d
  {
    UpperLevelDigests(h, d, leaves);
    UpperLevelShape(h, leaves);
    TopDigest(h, d, UpperLevel(h, leaves));
  }

  /**
   * Two different levels of d-byte digests of equal length that reach the
   * same top digest expose a collision of the hash.
   */
  lemma {:induction false} TopCollision(h: Hasher, d: nat, a: seq<Hash>, b: seq<Hash>) returns (x: seq<byte>, y: seq<byte>)
    requires FixedDigestLength(h, d) && 1 <= |a| == |b|
    requires forall k :: 0 <= k < |a| ==> |a[k]| == d && |b[k]| == d
    requires Top(h, a) == Top(h, b)
    ensures a != b ==> x != y && h(x) == h(y)
    decreases |a|
  {
    x, y := [], [];
    if |a| > 1 {
      var ua, ub := UpperLevel(h, a), UpperLevel(h, b);
      UpperLevelDigests(h, d, a);
      UpperLevelDigests(h, d, b);
      UpperLevelShape(h, a);
      if ua == ub {
        x, y := UpperLevelCollision(h, d, a, b);
      } else {
        x, y := TopCollision(h, d, ua, ub);
      }
    }
  }

  /**
   * The root commits to the values for a fixed leaf count: two different
   * value lists of one length with the same root expose a collision of the
   * hash, either among leaf inputs or among internal inputs.
   */
  lemma RootCommitsToValues(h: Hasher, d: nat, v: seq<seq<byte>>, w: seq<seq<byte>>) returns (x: seq<byte>, y: seq<byte>)
    requires FixedDigestLength(h, d) && 2 <= |v| == |w|
    requires MerkleRoot(h, LeafHashes(h, v)) == MerkleRoot(h, LeafHashes(h, w))
    ensures v != w ==> x != y && h(x) == h(y)
  {
    var lv, lw := LeafHashes(h, v), LeafHashes(h, w);
    x, y := TopCollision(h, d, lv, lw);
    if v != w && lv == lw {
      var k :| 0 <= k < |v| && v[k] != w[k];
      assert lv[k] == lw[k];
      x, y := LeafInput(v[k]), LeafInput(w[k]);
      if x == y {
        LeafInputInjective(v[k], w[k]);
      }
    }
  }

  /**
   * The root does not commit to the leaf count: a lone last value is hashed
   * as if paired with a copy of itself, so appending that copy keeps the root.
   */
  lemma LoneLastValueDuplicated(h: Hasher, v: seq<seq<byte>>, last: seq<byte>)
    requires |v| % 2 == 0
    ensures MerkleRoot(h, LeafHashes(h, v + [last])) == MerkleRoot(h, LeafHashes(h, v + [last, last]))
  {
    var a, b := LeafHashes(h, v + [last]), LeafHashes(h, v + [last, last]);
    var ca, cb := Combined(h, a), Combined(h, b);
    forall j | 0 <= j < |ca|
      ensures ca[j] == cb[j]
    {
      CombinedAt(h, a, j);
      CombinedAt(h, b, j);
      if 2 * j + 1 == |a| {
        LoneChildPairedWithItself(h, a[2 * j]);
      }
    }
    assert ca == cb;
  }

  /**
   * `vec![Vec::new(); P + n]` followed by clone_from_slice of the leaves
   * into slots P..P + n.
   */
  method NewNodes(h: Hasher, values: seq<seq<byte>>, P: nat) returns (a: array<Hash>)
    ensures fresh(a) && a[..] == InitialNodes(h, values, P)
  {
    var leaves := LeafHashes(h, values);
    var n := |leaves|;
    a := new Hash[P + n](_ => []);
    assert a[..] == seq(P + n, _ => []);
    CloneFromSlice(a, P, P + n, leaves);
    forall k | 0 <= k < P + n
      ensures a[k] == InitialNodes(h, values, P)[k]
    {
      SpliceAt(seq(P + n, _ => []), P, leaves, k);
    }
  }

  /** The body of build_with_hasher up to the node array: size it, fill the leaves, build above them. */
  method BuildNodes(h: Hasher, values: seq<seq<byte>>) returns (a: array<Hash>, P: nat)
    requires 1 < |values| <= MAX_LEAVES
    ensures fresh(a) && P == CeilPow2(|values|) && a[..] == TreeNodes(h, values)
  {
    P := NextPowerOf2Wide(|values|);
    a := NewNodes(h, values, P);
    InternalSlotsFit(|values|, P);
    BuildInternalNodes(h, a, P);
  }

  class MerkleTree {
    const hasher: Hasher
    const nodes: array<Hash>
    const countInternalNodes: nat
    const countLeaves: nat
    /** The values the tree was built from. */
    ghost const values: seq<seq<byte>>

    ghost predicate Valid()
      reads this, nodes
    {
      2 <= countLeaves == |values| <= MAX_LEAVES &&
      countInternalNodes == CeilPow2(countLeaves) &&
      nodes.Length == countInternalNodes + countLeaves &&
      nodes[..] == TreeNodes(hasher, values)
    }

    /**
     * build_with_hasher: hash the values into leaves, size the array as
     * next_power_of_2(n) + n, copy the leaves behind the internal slots and
     * fill the internal levels.
     */
    constructor BuildWithHasher(values: seq<seq<byte>>, h: Hasher)
      requires 1 < |values| <= MAX_LEAVES
      ensures Valid() && fresh(nodes)
      ensures this.values == values && hasher == h
      ensures countLeaves == |values| && countInternalNodes == CeilPow2(|values|)
      ensures nodes[countInternalNodes..] == LeafHashes(h, values)
      ensures nodes[0] == MerkleRoot(h, LeafHashes(h, values))
    {
      var a, P := BuildNodes(h, values);
      hasher := h;
      nodes := a;
      countInternalNodes := P;
      countLeaves := |values|;
      this.values := values;
      new;
      TreeLeaves(h, values);
      TreeRoot(h, values);
    }

    /** The stored digest of leaf i is the leaf digest of the i-th value. */
    lemma LeafSlot(i: nat)
      requires Valid() && i < countLeaves
      ensures nodes[countInternalNodes + i] == HashLeaf(hasher, values[i])
    {
      TreeLeaves(hasher, values);
      assert nodes[countInternalNodes..][i] == LeafHashes(hasher, values)[i];
    }

    /**
     * verify: the stored digest of leaf `position` against the leaf digest
     * of `value`. The original value is always accepted; any other value is
     * accepted only on a collision of two different leaf inputs.
     */
    method Verify(position: nat, value: seq<byte>) returns (ok: bool)
      requires Valid() && position < countLeaves
      ensures ok <==> HashLeaf(hasher, value) == HashLeaf(hasher, values[position])
      ensures value == values[position] ==> ok
      ensures ok && value != values[position] ==>
        LeafInput(value) != LeafInput(values[position]) &&
        hasher(LeafInput(value)) == hasher(LeafInput(values[position]))
    {
      ok := nodes[countInternalNodes + position] == HashLeaf(hasher, value);
      LeafSlot(position);
      if LeafInput(value) == LeafInput(values[position]) {
        LeafInputInjective(value, values[position]);
      }
    }

    /** root_hash: slot 0, the root of the tree over the leaf digests. */
    function RootHash(): (r: Hash)
      reads this, nodes
      requires Valid()
      ensures r == MerkleRoot(hasher, LeafHashes(hasher, values))
    {
      TreeRoot(hasher, values);
      nodes[0]
    }

    /** With digests of d bytes the root has d bytes, so it is non-empty for d > 0. */
    lemma RootHashLength(d: nat)
      requires Valid() && FixedDigestLength(hasher, d)
      ensures |RootHash()| == d
    {
      MerkleRootDigest(hasher, d, LeafHashes(hasher, values));
    }
  }

  /** The bytes of "Hello World". */
  const HELLO_WORLD: seq<byte> := [72, 101, 108, 108, 111, 32, 87, 111, 114, 108, 100]

  /** The bytes of "Bye, bye". */
  const BYE_BYE: seq<byte> := [66, 121, 101, 44, 32, 98, 121, 101]

  /**
   * The two scenarios of the program's entry point, for a hash with 32-byte
   * digests: a tree over two equal blocks has a non-empty root, and a tree
   * over two different blocks verifies each block at its own position. The
   * second block is accepted at the first position only on a collision of
   * two different leaf inputs.
   */
  method Scenarios(h: Hasher) returns (rootLength: nat, firstOk: bool, secondOk: bool, swappedOk: bool)
    requires FixedDigestLength(h, 32)
    ensures rootLength == 32 && firstOk && secondOk
    ensures swappedOk ==> LeafInput(BYE_BYE) != LeafInput(HELLO_WORLD) && h(LeafInput(BYE_BYE)) == h(LeafInput(HELLO_WORLD))
  {
    var t := new MerkleTree.BuildWithHasher([HELLO_WORLD, HELLO_WORLD], h);
    t.RootHashLength(32);
    rootLength := |t.RootHash()|;
    var p := new MerkleTree.BuildWithHasher([HELLO_WORLD, BYE_BYE], h);
    firstOk := p.Verify(0, HELLO_WORLD);
    secondOk := p.Verify(1, BYE_BYE);
    swappedOk := p.Verify(0, BYE_BYE);
    assert LeafInput(BYE_BYE)[1] != LeafInput(HELLO_WORLD)[1];
  }

  /** Three leaves: the lone third leaf is hashed with itself; no padding is needed. */
  lemma ThreeLeavesRoot(h: Hasher, a: Hash, b: Hash, c: Hash)
    ensures MerkleRoot(h, [a, b, c]) ==
      HashInternalNode(h, HashInternalNode(h, a, Some(b)), Some(HashInternalNode(h, c, None)))
  {
    var up := [HashInternalNode(h, a, Some(b)), HashInternalNode(h, c, None)];
    assert [a, b, c][2..] == [c];
    assert Combined(h, [a, b, c]) == up;
    assert UpperLevel(h, [a, b, c]) == up;
    assert up[2..] == [];
    var root := HashInternalNode(h, up[0], Some(up[1]));
    assert UpperLevel(h, up) == [root];
    assert Top(h, up) == Top(h, [root]) == root;
  }

  /**
   * Five leaves: the lone fifth leaf is hashed with itself, and the odd level
   * of three parents is padded with a copy of its last digest, not a new one.
   */
  lemma FiveLeavesRoot(h: Hasher, a: Hash, b: Hash, c: Hash, d: Hash, e: Hash)
    ensures var p := HashInternalNode(h, a, Some(b));
      var q := HashInternalNode(h, c, Some(d));
      var r := HashInternalNode(h, e, None);
      MerkleRoot(h, [a, b, c, d, e]) ==
        HashInternalNode(h, HashInternalNode(h, p, Some(q)), Some(HashInternalNode(h, r, Some(r))))
  {
    var p := HashInternalNode(h, a, Some(b));
    var q := HashInternalNode(h, c, Some(d));
    var r := HashInternalNode(h, e, None);
    var leaves := [a, b, c, d, e];
    assert leaves[2..] == [c, d, e] && leaves[2..][2..] == [e];
    assert Combined(h, [e]) == [r];
    assert Combined(h, [c, d, e]) == [q, r];
    assert Combined(h, leaves) == [p, q, r];
    var up := [p, q, r, r];
    assert UpperLevel(h, leaves) == up;
    var pq, rr := HashInternalNode(h, p, Some(q)), HashInternalNode(h, r, Some(r));
    assert up[2..] == [r, r] && up[2..][2..] == [];
    assert Combined(h, up) == [pq, rr];
    var root := HashInternalNode(h, pq, Some(rr));
    assert [pq, rr][2..] == [];
    assert UpperLevel(h, [pq, rr]) == [root];
    assert Top(h, up) == Top(h, [pq, rr]) == Top(h, [root]) == root;
  }
}

/**
 * Packing all internal levels into the head of the node array
 * (`build_internal_nodes`).
 *
 * The array holds P internal slots followed by the n leaf digests. Each new
 * level is written into the window that ends where the previous one started,
 * so the levels tile the internal region from the right; the single digest of
 * the last level is then copied to slot 0, the root slot.
 */
module Assembler {
  import opened Hashing
  import opened Levels
  import opened PowerOfTwo

  // ---------------------------------------------------------------------
  // Slot accounting
  // ---------------------------------------------------------------------

  /** Slots taken by all levels above a level of m nodes, the root level included. */
  function SlotsAbove(m: nat): nat
  {
    if m <= 1 then 0 else UpperLen(m) + SlotsAbove(UpperLen(m))
  }

  /**
   * Slots taken by all internal levels over n leaves; the first level is
   * built even from a single leaf.
   */
  function InternalSlots(n: nat): nat
  {
    UpperLen(n) + SlotsAbove(UpperLen(n))
  }

  /** Above a level of at most P nodes (P a power of two) there are at most P/2 nodes. */
  lemma UpperLenHalves(m: nat, P: nat)
    requires IsPowerOfTwo(P) && 2 <= P && m <= P
    ensures UpperLen(m) <= P / 2 && IsPowerOfTwo(P / 2)
  {
    if P / 2 >= 2 {
      assert (P / 2) % 2 == 0;
    }
  }

  lemma {:induction false} SlotsAboveFit(m: nat, P: nat)
    requires IsPowerOfTwo(P) && 2 <= m <= P
    ensures SlotsAbove(m) <= P - 1
  {
    UpperLenHalves(m, P);
    var u := UpperLen(m);
    if u >= 2 {
      SlotsAboveFit(u, P / 2);
    }
  }

  /**
   * With P a power of two and 2 <= n <= P, the internal levels need at most
   * P - 1 slots: the window start never goes below 1, so neither subtraction
   * of build_internal_nodes underflows and slot 0 is left for the root.
   */
  lemma InternalSlotsFit(n: nat, P: nat)
    requires IsPowerOfTwo(P) && 2 <= n <= P
    ensures InternalSlots(n) <= P - 1
  {
    SlotsAboveFit(n, P);
  }

  // ---------------------------------------------------------------------
  // The specification of the packed array
  // ---------------------------------------------------------------------

  /** nodes with the window [start, start + |level|) overwritten by level. */
  function Splice(nodes: seq<Hash>, start: nat, level: seq<Hash>): (r: seq<Hash>)
    requires start + |level| <= |nodes|
    ensures |r| == |nodes|
  {
    nodes[..start] + level + nodes[start + |level|..]
  }

  /** Inside the window a spliced sequence holds the level, outside it the old nodes. */
  lemma SpliceAt(nodes: seq<Hash>, start: nat, level: seq<Hash>, k: nat)
    requires start + |level| <= |nodes| && k < |nodes|
    ensures Splice(nodes, start, level)[k] == if start <= k < start + |level| then level[k - start] else nodes[k]
  {
  }

  /** The digest left when climbing from `level` until one node remains. */
  function Top(h: Hasher, level: seq<Hash>): Hash
    requires |level| >= 1
    decreases |level|
  {
    if |level| == 1 then level[0] else Top(h, UpperLevel(h, level))
  }

  /** The root digest of the tree over the given leaf digests. */
  function MerkleRoot(h: Hasher, leaves: seq<Hash>): Hash
    requires |leaves| >= 1
  {
    Top(h, UpperLevel(h, leaves))
  }

  /** The levels above `level`, bottom-up, the one-node root level last. */
  function LevelsAbove(h: Hasher, level: seq<Hash>): seq<seq<Hash>>
    decreases |level|
  {
    if |level| <= 1 then []
    else [UpperLevel(h, level)] + LevelsAbove(h, UpperLevel(h, level))
  }

  /** Every internal level of the tree over the given leaf digests, bottom-up. */
  function InternalLevels(h: Hasher, leaves: seq<Hash>): seq<seq<Hash>>
  {
    [UpperLevel(h, leaves)] + LevelsAbove(h, UpperLevel(h, leaves))
  }

  /** The internal levels are the first level followed by the levels above it. */
  lemma InternalLevelsStep(h: Hasher, leaves: seq<Hash>)
    ensures InternalLevels(h, leaves)[0] == UpperLevel(h, leaves)
    ensures InternalLevels(h, leaves)[1..] == LevelsAbove(h, UpperLevel(h, leaves))
  {
  }

  /** Number of slots a list of levels occupies. */
  function TotalLen(levels: seq<seq<Hash>>): nat
    decreases |levels|
  {
    if levels == [] then 0 else |levels[0]| + TotalLen(levels[1..])
  }

  /**
   * The levels of the tree occupy SlotsAbove slots: the slot accounting is the
   * size of what is written.
   */
  lemma {:induction false} LevelsAboveSize(h: Hasher, level: seq<Hash>)
    ensures TotalLen(LevelsAbove(h, level)) == SlotsAbove(|level|)
    ensures |level| >= 1 ==> forall i :: 0 <= i < |LevelsAbove(h, level)| ==> |LevelsAbove(h, level)[i]| >= 1
    decreases |level|
  {
    if |level| > 1 {
      var up := UpperLevel(h, level);
      LevelsAboveSize(h, up);
      var ls := LevelsAbove(h, level);
      assert ls == [up] + LevelsAbove(h, up);
      assert ls[1..] == LevelsAbove(h, up);
    }
  }

  /** The internal levels over n leaves occupy InternalSlots(n) slots. */
  lemma InternalLevelsSize(h: Hasher, leaves: seq<Hash>)
    ensures TotalLen(InternalLevels(h, leaves)) == InternalSlots(|leaves|)
  {
    var up := UpperLevel(h, leaves);
    LevelsAboveSize(h, up);
    assert InternalLevels(h, leaves)[1..] == LevelsAbove(h, up);
  }

  /** The same, for the leaf region nodes[P..] of a node array. */
  lemma LeafRegionLevelsSize(h: Hasher, nodes: seq<Hash>, P: nat)
    requires P <= |nodes|
    ensures TotalLen(InternalLevels(h, nodes[P..])) == InternalSlots(|nodes| - P)
  {
    InternalLevelsSize(h, nodes[P..]);
  }

  /**
   * The writes of build_internal_nodes: levels[0] goes into the window that
   * ends at `end`, each next level into the window just left of the previous.
   */
  function WriteLevels(nodes: seq<Hash>, end: nat, levels: seq<seq<Hash>>): (r: seq<Hash>)
    requires TotalLen(levels) <= end <= |nodes|
    ensures |r| == |nodes|
    decreases |levels|
  {
    if levels == [] then nodes
    else
      var s := end - |levels[0]|;
      WriteLevels(Splice(nodes, s, levels[0]), s, levels[1..])
  }

  /**
   * One round of WriteLevels: writing the first level into the window
   * [s, end) and then the rest left of s is writing all of them from end.
   */
  lemma WriteLevelsStep(nodes: seq<Hash>, end: nat, level: seq<Hash>, rest: seq<seq<Hash>>, written: seq<Hash>, s: nat)
    requires s + |level| == end && s >= TotalLen(rest) && end <= |nodes|
    requires written == Splice(nodes, s, level)
    ensures TotalLen([level] + rest) == |level| + TotalLen(rest)
    ensures WriteLevels(written, s, rest) == WriteLevels(nodes, end, [level] + rest)
  {
    assert ([level] + rest)[1..] == rest;
  }

  /** The node array after build_internal_nodes(nodes, P). */
  function Assembled(h: Hasher, nodes: seq<Hash>, P: nat): (r: seq<Hash>)
    requires P < |nodes| && InternalSlots(|nodes| - P) <= P
    ensures |r| == |nodes|
  {
    LeafRegionLevelsSize(h, nodes, P);
    WriteLevels(nodes, P, InternalLevels(h, nodes[P..]))[0 := MerkleRoot(h, nodes[P..])]
  }

  /**
   * The levels tile nodes[lo..hi] from the right: the first one ends at hi,
   * each next one ends where the previous one starts, the last starts at lo.
   */
  ghost predicate Tiled(nodes: seq<Hash>, lo: nat, hi: nat, levels: seq<seq<Hash>>)
    decreases |levels|
  {
    if levels == [] then lo == hi
    else
      lo + |levels[0]| <= hi <= |nodes| &&
      nodes[hi - |levels[0]|..hi] == levels[0] &&
      Tiled(nodes, lo, hi - |levels[0]|, levels[1..])
  }

  // ---------------------------------------------------------------------
  // Lemmas about the writes
  // ---------------------------------------------------------------------

  /** Nothing at or right of `end` is written. */
  lemma {:induction false} WriteLevelsKeepsRight(nodes: seq<Hash>, end: nat, levels: seq<seq<Hash>>, k: nat)
    requires TotalLen(levels) <= end <= |nodes|
    requires end <= k < |nodes|
    ensures WriteLevels(nodes, end, levels)[k] == nodes[k]
    decreases |levels|
  {
    if levels != [] {
      var s := end - |levels[0]|;
      SpliceAt(nodes, s, levels[0], k);
      WriteLevelsKeepsRight(Splice(nodes, s, levels[0]), s, levels[1..], k);
    }
  }

  /** Nothing left of end - TotalLen(levels) is written. */
  lemma {:induction false} WriteLevelsKeepsLeft(nodes: seq<Hash>, end: nat, levels: seq<seq<Hash>>, k: nat)
    requires TotalLen(levels) <= end <= |nodes|
    requires k < end - TotalLen(levels)
    ensures WriteLevels(nodes, end, levels)[k] == nodes[k]
    decreases |levels|
  {
    if levels != [] {
      var s := end - |levels[0]|;
      SpliceAt(nodes, s, levels[0], k);
      WriteLevelsKeepsLeft(Splice(nodes, s, levels[0]), s, levels[1..], k);
    }
  }

  /** Every level written is found, in order, tiling [end - TotalLen(levels), end). */
  lemma {:induction false} WriteLevelsTiles(nodes: seq<Hash>, end: nat, levels: seq<seq<Hash>>)
    requires TotalLen(levels) <= end <= |nodes|
    ensures Tiled(WriteLevels(nodes, end, levels), end - TotalLen(levels), end, levels)
    decreases |levels|
  {
    if levels != [] {
      var s := end - |levels[0]|;
      var spliced := Splice(nodes, s, levels[0]);
      var r := WriteLevels(spliced, s, levels[1..]);
      WriteLevelsTiles(spliced, s, levels[1..]);
      forall k | s <= k < end
        ensures r[k] == levels[0][k - s]
      {
        SpliceAt(nodes, s, levels[0], k);
        WriteLevelsKeepsRight(spliced, s, levels[1..], k);
      }
      assert r[s..end] == levels[0];
    }
  }

  /** A tiling is unaffected by a write outside [lo, hi). */
  lemma {:induction false} TiledUpdate(nodes: seq<Hash>, lo: nat, hi: nat, levels: seq<seq<Hash>>, k: nat, x: Hash)
    requires Tiled(nodes, lo, hi, levels)
    requires k < lo && k < |nodes|
    ensures Tiled(nodes[k := x], lo, hi, levels)
    decreases |levels|
  {
    if levels != [] {
      TiledUpdate(nodes, lo, hi - |levels[0]|, levels[1..], k, x);
      assert nodes[k := x][hi - |levels[0]|..hi] == nodes[hi - |levels[0]|..hi];
    }
  }

  // ---------------------------------------------------------------------
  // What build_internal_nodes leaves in the array
  // ---------------------------------------------------------------------

  /** The leaf slots P.. are never written. */
  lemma AssembledKeepsLeaves(h: Hasher, nodes: seq<Hash>, P: nat)
    requires P < |nodes| && InternalSlots(|nodes| - P) <= P
    ensures Assembled(h, nodes, P)[P..] == nodes[P..]
  {
    var levels := InternalLevels(h, nodes[P..]);
    LeafRegionLevelsSize(h, nodes, P);
    var w := WriteLevels(nodes, P, levels);
    var r := Assembled(h, nodes, P);
    assert r == w[0 := MerkleRoot(h, nodes[P..])];
    forall k | P <= k < |nodes|
      ensures r[k] == nodes[k]
    {
      WriteLevelsKeepsRight(nodes, P, levels, k);
    }
  }

  /**
   * With room to spare (as for n >= 2 leaves and P = next power of two), the
   * internal levels tile [P - InternalSlots(n), P) bottom-up from the right,
   * and slot 0 holds the root.
   */
  lemma AssembledTiles(h: Hasher, nodes: seq<Hash>, P: nat)
    requires P < |nodes| && InternalSlots(|nodes| - P) < P
    ensures Tiled(Assembled(h, nodes, P), P - InternalSlots(|nodes| - P), P, InternalLevels(h, nodes[P..]))
    ensures Assembled(h, nodes, P)[0] == MerkleRoot(h, nodes[P..])
  {
    var levels := InternalLevels(h, nodes[P..]);
    LeafRegionLevelsSize(h, nodes, P);
    var w := WriteLevels(nodes, P, levels);
    WriteLevelsTiles(nodes, P, levels);
    TiledUpdate(w, P - InternalSlots(|nodes| - P), P, levels, 0, MerkleRoot(h, nodes[P..]));
  }

  /** Internal slots left of all windows, except the root slot, keep their contents. */
  lemma AssembledKeepsUnused(h: Hasher, nodes: seq<Hash>, P: nat, k: nat)
    requires P < |nodes| && InternalSlots(|nodes| - P) <= P
    requires 1 <= k < P - InternalSlots(|nodes| - P)
    ensures Assembled(h, nodes, P)[k] == nodes[k]
  {
    var levels := InternalLevels(h, nodes[P..]);
    LeafRegionLevelsSize(h, nodes, P);
    var w := WriteLevels(nodes, P, levels);
    assert Assembled(h, nodes, P) == w[0 := MerkleRoot(h, nodes[P..])];
    WriteLevelsKeepsLeft(nodes, P, levels, k);
  }

  // ---------------------------------------------------------------------
  // The in-place algorithm
  // ---------------------------------------------------------------------

  /** clone_from_slice into dst[start..end]: the two lengths must agree. */
  method CloneFromSlice(dst: array<Hash>, start: nat, end: nat, src: seq<Hash>)
    requires start <= end <= dst.Length && end - start == |src|
    modifies dst
    ensures dst[..] == Splice(old(dst[..]), start, src)
  {
    ghost var before := dst[..];
    forall k | start <= k < end {
      dst[k] := src[k - start];
    }
    forall k | 0 <= k < dst.Length
      ensures dst[k] == Splice(before, start, src)[k]
    {
      SpliceAt(before, start, src, k);
    }
  }

  /**
   * build_internal_nodes: levels are built bottom-up and written into
   * shrinking windows at the right edge of the internal region; the root is
   * then stored at slot 0.
   */
  method BuildInternalNodes(h: Hasher, nodes: array<Hash>, countInternalNodes: nat)
    requires countInternalNodes < nodes.Length
    requires InternalSlots(nodes.Length - countInternalNodes) <= countInternalNodes
    modifies nodes
    ensures nodes[..] == Assembled(h, old(nodes[..]), countInternalNodes)
  {
    ghost var initial := nodes[..];
    ghost var leaves := initial[countInternalNodes..];
    InternalLevelsSize(h, leaves);
    ghost var goal := WriteLevels(initial, countInternalNodes, InternalLevels(h, leaves));
    var parents := BuildUpperLevel(h, nodes[countInternalNodes..]);
    var upperLevelStart := countInternalNodes - |parents|;
    var upperLevelEnd := countInternalNodes;
    CloneFromSlice(nodes, upperLevelStart, upperLevelEnd, parents);
    LevelsAboveSize(h, parents);
    InternalLevelsStep(h, leaves);
    assert InternalLevels(h, leaves) == [parents] + LevelsAbove(h, parents);
    WriteLevelsStep(initial, countInternalNodes, parents, LevelsAbove(h, parents), nodes[..], upperLevelStart);
    while |parents| > 1
      invariant 1 <= |parents|
      invariant TotalLen(LevelsAbove(h, parents)) == SlotsAbove(|parents|) <= upperLevelStart
      invariant upperLevelStart + |parents| == upperLevelEnd <= nodes.Length
      invariant Top(h, parents) == MerkleRoot(h, leaves)
      invariant WriteLevels(nodes[..], upperLevelStart, LevelsAbove(h, parents)) == goal
      decreases |parents|
    {
      ghost var before := nodes[..];
      ghost var levels := LevelsAbove(h, parents);
      parents := BuildUpperLevel(h, parents);
      assert levels == [parents] + LevelsAbove(h, parents);
      LevelsAboveSize(h, parents);
      upperLevelEnd := upperLevelStart;
      upperLevelStart := upperLevelStart - |parents|;
      CloneFromSlice(nodes, upperLevelStart, upperLevelEnd, parents);
      WriteLevelsStep(before, upperLevelEnd, parents, LevelsAbove(h, parents), nodes[..], upperLevelStart);
    }
    assert LevelsAbove(h, parents) == [];
    nodes[0] := parents[0];
  }
}

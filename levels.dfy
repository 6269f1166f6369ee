/**
 * One step up the tree (`build_upper_level`): neighbours are combined
 * pairwise, a lone last node is combined with itself, and a resulting level
 * of odd length greater than one is padded with a copy of its last digest.
 */
module Levels {
  import opened Hashing

  /** The j-th parent of a level: nodes 2j and 2j+1, or node 2j alone at the end. */
  function Parent(h: Hasher, nodes: seq<Hash>, j: nat): Hash
    requires 2 * j < |nodes|
  {
    if 2 * j + 1 < |nodes| then HashInternalNode(h, nodes[2 * j], Some(nodes[2 * j + 1]))
    else HashInternalNode(h, nodes[2 * j], None)
  }

  /** All parents of a level, before padding: ceil(m/2) of them. */
  function Combined(h: Hasher, nodes: seq<Hash>): (r: seq<Hash>)
    ensures |r| == (|nodes| + 1) / 2
    decreases |nodes|
  {
    if |nodes| == 0 then []
    else if |nodes| == 1 then [HashInternalNode(h, nodes[0], None)]
    else [HashInternalNode(h, nodes[0], Some(nodes[1]))] + Combined(h, nodes[2..])
  }

  /** Entry j of the combined level is the j-th parent. */
  lemma {:induction false} CombinedAt(h: Hasher, nodes: seq<Hash>, j: nat)
    requires 2 * j < |nodes|
    ensures Combined(h, nodes)[j] == Parent(h, nodes, j)
    decreases j
  {
    if j > 0 {
      CombinedAt(h, nodes[2..], j - 1);
      assert nodes[2..][2 * (j - 1)] == nodes[2 * j];
    }
  }

  /** The resize rule: an odd level longer than one gets its last digest appended again. */
  function Padded(level: seq<Hash>): seq<Hash>
  {
    if |level| > 1 && |level| % 2 != 0 then level + [level[|level| - 1]] else level
  }

  /** Length of the level above a level of m nodes. */
  function UpperLen(m: nat): (r: nat)
    ensures m >= 1 ==> r >= 1
    ensures m > 1 ==> r < m
    ensures r <= 1 || r % 2 == 0
  {
    var c := (m + 1) / 2;
    if c > 1 && c % 2 != 0 then c + 1 else c
  }

  /** The level build_upper_level returns. */
  function UpperLevel(h: Hasher, nodes: seq<Hash>): (r: seq<Hash>)
    ensures |r| == UpperLen(|nodes|)
  {
    Padded(Combined(h, nodes))
  }

  /** Padding keeps every entry it was given. */
  lemma PaddedPrefix(level: seq<Hash>, k: nat)
    requires k < |level|
    ensures Padded(level)[k] == level[k]
  {
  }

  /** Entry j of the level above is the j-th parent. */
  lemma UpperLevelAt(h: Hasher, nodes: seq<Hash>, j: nat)
    requires 2 * j < |nodes|
    ensures UpperLevel(h, nodes)[j] == Parent(h, nodes, j)
  {
    var c := Combined(h, nodes);
    CombinedAt(h, nodes, j);
    PaddedPrefix(c, j);
  }

  /**
   * The entries of the level above: pairs are hashed together, a lone last
   * node with itself, and the padding entry is a copy, not a new digest.
   */
  lemma UpperLevelEntries(h: Hasher, nodes: seq<Hash>)
    ensures forall j :: 0 <= j && 2 * j + 1 < |nodes| ==>
      UpperLevel(h, nodes)[j] == HashInternalNode(h, nodes[2 * j], Some(nodes[2 * j + 1]))
    ensures |nodes| % 2 == 1 ==>
      UpperLevel(h, nodes)[|nodes| / 2] == HashInternalNode(h, nodes[|nodes| - 1], None)
    ensures |UpperLevel(h, nodes)| > (|nodes| + 1) / 2 ==>
      var r := UpperLevel(h, nodes);
      |r| == (|nodes| + 1) / 2 + 1 && r[|r| - 1] == r[|r| - 2]
  {
    forall j | 0 <= j && 2 * j + 1 < |nodes|
      ensures UpperLevel(h, nodes)[j] == HashInternalNode(h, nodes[2 * j], Some(nodes[2 * j + 1]))
    {
      UpperLevelAt(h, nodes, j);
    }
    if |nodes| % 2 == 1 {
      UpperLevelAt(h, nodes, |nodes| / 2);
    }
  }

  /** Every produced level but the empty one has one node or an even number. */
  lemma UpperLevelShape(h: Hasher, nodes: seq<Hash>)
    ensures |nodes| == 0 ==> UpperLevel(h, nodes) == []
    ensures |nodes| >= 1 ==> |UpperLevel(h, nodes)| == 1 || |UpperLevel(h, nodes)| % 2 == 0
    ensures |nodes| > 1 ==> 1 <= |UpperLevel(h, nodes)| < |nodes|
  {
  }

  /** With a fixed digest length d, every node of a produced level has d bytes. */
  lemma UpperLevelDigests(h: Hasher, d: nat, nodes: seq<Hash>)
    requires FixedDigestLength(h, d)
    ensures forall k :: 0 <= k < |UpperLevel(h, nodes)| ==> |UpperLevel(h, nodes)[k]| == d
  {
    var r := UpperLevel(h, nodes);
    forall k | 0 <= k < |r|
      ensures |r[k]| == d
    {
      if 2 * k < |nodes| {
        UpperLevelAt(h, nodes, k);
      } else {
        UpperLevelEntries(h, nodes);
        UpperLevelAt(h, nodes, k - 1);
      }
    }
  }

  /**
   * Two different levels of d-byte digests that share the level above
   * yield two different inputs with one digest: a collision of the hash.
   */
  lemma UpperLevelCollision(h: Hasher, d: nat, a: seq<Hash>, b: seq<Hash>) returns (x: seq<byte>, y: seq<byte>)
    requires |a| == |b|
    requires forall k :: 0 <= k < |a| ==> |a[k]| == d && |b[k]| == d
    requires UpperLevel(h, a) == UpperLevel(h, b)
    ensures a != b ==> x != y && h(x) == h(y)
  {
    x, y := [], [];
    if a != b {
      var k :| 0 <= k < |a| && a[k] != b[k];
      var j := k / 2;
      UpperLevelAt(h, a, j);
      UpperLevelAt(h, b, j);
      if 2 * j + 1 < |a| {
        x := InternalInput(a[2 * j], Some(a[2 * j + 1]));
        y := InternalInput(b[2 * j], Some(b[2 * j + 1]));
        if x == y {
          InternalInputInjective(a[2 * j], a[2 * j + 1], b[2 * j], b[2 * j + 1]);
        }
      } else {
        x := InternalInput(a[2 * j], None);
        y := InternalInput(b[2 * j], None);
        if x == y {
          InternalInputInjective(a[2 * j], a[2 * j], b[2 * j], b[2 * j]);
        }
      }
    }
  }

  /**
   * build_upper_level: a loop over the level with counter i, pushing one
   * parent per step, then the padding copy.
   */
  method BuildUpperLevel(h: Hasher, nodes: seq<Hash>) returns (result: seq<Hash>)
    ensures result == UpperLevel(h, nodes)
  {
    result := [];
    var i := 0;
    while i < |nodes|
      invariant i <= |nodes|
      invariant i % 2 == 0 || i == |nodes|
      invariant |result| == (i + 1) / 2
      invariant forall j :: 0 <= j < |result| ==> result[j] == Parent(h, nodes, j)
    {
      if i + 1 < |nodes| {
        result := result + [HashInternalNode(h, nodes[i], Some(nodes[i + 1]))];
        i := i + 2;
      } else {
        result := result + [HashInternalNode(h, nodes[i], None)];
        i := i + 1;
      }
    }
    forall j | 0 <= j < |result|
      ensures result[j] == Combined(h, nodes)[j]
    {
      CombinedAt(h, nodes, j);
    }
    assert result == Combined(h, nodes);
    if |result| > 1 && |result| % 2 != 0 {
      var lastNode := result[|result| - 1];
      result := result + [lastNode];
    }
  }
}

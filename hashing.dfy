/**
 * Domain-separated hashing of leaves and internal nodes (`hash_leaf` and
 * `hash_internal_node`).
 *
 * The hash algorithm is a parameter: any function from byte strings to
 * digests. The source drives a streaming hasher (`update` calls followed by
 * `finalize_reset`), which is reset after every digest, so each call is
 * observationally one application of that function to the concatenation of
 * the bytes it was fed.
 */
module Hashing {

  newtype byte = b: int | 0 <= b < 256

  /** A digest, as produced by the hash algorithm. */
  type Hash = seq<byte>

  /** The hash algorithm: a one-shot function of the bytes it is fed. */
  type Hasher = seq<byte> -> seq<byte>

  datatype Option<T> = None | Some(value: T)

  /** Tag byte that starts the input of every leaf digest. */
  const LEAF_SIG: byte := 0

  /** Tag byte that starts the input of every internal-node digest. */
  const INTERNAL_SIG: byte := 1

  /** The hash algorithm produces digests of d bytes whatever it is fed. */
  ghost predicate FixedDigestLength(h: Hasher, d: nat)
  {
    forall input :: |h(input)| == d
  }

  /** The bytes a leaf digest is computed over: the leaf tag, then the value. */
  function LeafInput(value: seq<byte>): (input: seq<byte>)
    ensures |input| == 1 + |value|
    ensures input[0] == LEAF_SIG && input[1..] == value
  {
    [LEAF_SIG] + value
  }

  /**
   * The bytes an internal digest is computed over: the internal tag, the left
   * child, then the right child, or the left child again when there is none.
   */
  function InternalInput(left: Hash, right: Option<Hash>): seq<byte>
  {
    var second := match right
      case Some(r) => r
      case None => left;
    [INTERNAL_SIG] + left + second
  }

  /** The layout of an internal input: tag byte, left child, second child. */
  lemma InternalInputLayout(left: Hash, right: Option<Hash>)
    ensures var input := InternalInput(left, right);
      var second := if right.Some? then right.value else left;
      |input| == 1 + |left| + |second| &&
      input[0] == INTERNAL_SIG &&
      input[1..1 + |left|] == left &&
      input[1 + |left|..] == second
  {
  }

  /** hash_leaf: the digest of a value's bytes under the leaf tag. */
  function HashLeaf(h: Hasher, value: seq<byte>): Hash
  {
    h(LeafInput(value))
  }

  /** hash_internal_node: the digest of one or two children under the internal tag. */
  function HashInternalNode(h: Hasher, left: Hash, right: Option<Hash>): Hash
  {
    h(InternalInput(left, right))
  }

  /** No leaf input is ever an internal-node input: their first bytes differ. */
  lemma DomainSeparated(value: seq<byte>, left: Hash, right: Option<Hash>)
    ensures LeafInput(value) != InternalInput(left, right)
  {
    InternalInputLayout(left, right);
    assert LeafInput(value)[0] != InternalInput(left, right)[0];
  }

  /** A node without a right sibling is hashed exactly as if paired with itself. */
  lemma LoneChildPairedWithItself(h: Hasher, left: Hash)
    ensures HashInternalNode(h, left, None) == HashInternalNode(h, left, Some(left))
  {
  }

  /** Different values give different leaf inputs. */
  lemma LeafInputInjective(a: seq<byte>, b: seq<byte>)
    requires LeafInput(a) == LeafInput(b)
    ensures a == b
  {
    assert a == LeafInput(a)[1..];
  }

  /**
   * For children of equal length (as digests of one algorithm are), the
   * internal input determines both children.
   */
  lemma InternalInputInjective(l1: Hash, r1: Hash, l2: Hash, r2: Hash)
    requires |l1| == |l2|
    requires InternalInput(l1, Some(r1)) == InternalInput(l2, Some(r2))
    ensures l1 == l2 && r1 == r2
  {
    var input := InternalInput(l1, Some(r1));
    InternalInputLayout(l1, Some(r1));
    InternalInputLayout(l2, Some(r2));
    assert l1 == input[1..1 + |l1|] == l2;
    assert r1 == input[1 + |l1|..] == r2;
  }
}

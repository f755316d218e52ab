/**
 * The arena record shared by the binary search tree and the radix tree, and the
 * `*mut T` child slots the in-place algorithms write through.
 */
module Nodes {
  import opened Wrappers

  /**
   * One arena record, addressed by the key it holds: the indices of its left and
   * right children and a size field (the subtree's node count in the size-balanced
   * tree, a node-type code in the radix tree).
   */
  datatype Node = Node(left: Option<nat>, right: Option<nat>, size: nat)

  /** `Node::default()`: no children and size 0. */
  const Default: Node := Node(None, None, 0)

  datatype Side = Left | Right

  /**
   * What a `*mut T` slot can refer to: the caller's root variable, or the
   * payload of a child field of an arena record.
   */
  datatype Slot = RootSlot | ChildSlot(holder: nat, side: Side)

  /** The child field of `n` on `side`. */
  function Child(n: Node, side: Side): Option<nat> {
    if side == Left then n.left else n.right
  }

  /** `n` with its child field on `side` replaced by `c`. */
  function WithChild(n: Node, side: Side, c: Option<nat>): (r: Node)
    ensures Child(r, side) == c && r.size == n.size
    ensures side == Left ==> r.right == n.right
    ensures side == Right ==> r.left == n.left
  {
    if side == Left then n.(left := c) else n.(right := c)
  }

  /** `size.saturating_sub(1)`: one less, stopping at zero. */
  function SaturatingDec(n: nat): nat {
    if n == 0 then 0 else n - 1
  }
}

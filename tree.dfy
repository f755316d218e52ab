/**
 * The `Tree` trait: the vector-backed arena the trees live in, its element access,
 * and the navigation defaults (extreme nodes, in-order neighbours, search).
 *
 * Keys are arena indices (`Idx` values are addressed through `as_usize`), and the
 * ordering `is_left_of` is the one every arena of the tree tests implements:
 * `first < second`.
 */
module Trees {
  import opened Wrappers
  import opened Nodes
  import opened Shapes

  /** The arena: one record per key, of a capacity fixed when it is made. */
  class Arena {
    const nodes: array<Node>

    /** `Store::new`: `capacity` default records. */
    constructor (capacity: nat)
      ensures nodes.Length == capacity && fresh(nodes)
      ensures forall i | 0 <= i < capacity :: nodes[i] == Default
    {
      nodes := new Node[capacity](_ => Default);
    }

    /** `Store::is_empty`: every record has size 0. */
    predicate IsEmpty()
      reads nodes
    {
      forall i | 0 <= i < nodes.Length :: nodes[i].size == 0
    }

    /** `Tree::get`: the record at `idx`, or nothing past the end of the arena. */
    function Get(idx: nat): (r: Option<Node>)
      reads nodes
      ensures r.Some? <==> idx < nodes.Length
      ensures r.Some? ==> r.value == nodes[idx]
    {
      if idx < nodes.Length then Some(nodes[idx]) else None
    }

    /** `Tree::set`: overwrite the record at `idx`; nothing happens past the end. */
    method Set(idx: nat, node: Node)
      modifies nodes
      ensures nodes[..] == if idx < nodes.Length then old(nodes[..])[idx := node] else old(nodes[..])
    {
      if idx < nodes.Length {
        nodes[idx] := node;
      }
    }
  }

  /** `is_left_of` of the arenas: `first` sorts before `second`. */
  predicate IsLeftOf(first: nat, second: nat) {
    first < second
  }

  /** `is_right_of`: distinct and not left of; under `<` this is `second < first`. */
  predicate IsRightOf(first: nat, second: nat)
    ensures IsRightOf(first, second) <==> second < first
  {
    first != second && !IsLeftOf(first, second)
  }

  /** `left`: the left-child field of an existing record; nothing past the end. */
  function Left(a: Arena, idx: nat): (r: Option<nat>)
    reads a.nodes
    ensures r.Some? ==> idx < a.nodes.Length
    ensures idx < a.nodes.Length ==> r == a.nodes[idx].left
  {
    match a.Get(idx)
    case None => None
    case Some(n) => n.left
  }

  /** `right`: the right-child field of an existing record; nothing past the end. */
  function Right(a: Arena, idx: nat): (r: Option<nat>)
    reads a.nodes
    ensures r.Some? ==> idx < a.nodes.Length
    ensures idx < a.nodes.Length ==> r == a.nodes[idx].right
  {
    match a.Get(idx)
    case None => None
    case Some(n) => n.right
  }

  /** `left_mut` / `right_mut`: a `*mut T` slot for the child field, when that field holds a child. */
  function ChildMut(a: Arena, idx: nat, side: Side): (r: Option<Slot>)
    reads a.nodes
    ensures r.Some? <==> idx < a.nodes.Length && Child(a.nodes[idx], side).Some?
    ensures r.Some? ==> r.value == ChildSlot(idx, side)
  {
    if idx < a.nodes.Length && Child(a.nodes[idx], side).Some? then Some(ChildSlot(idx, side)) else None
  }

  /** Reading through a `*mut T` slot (`*slot`); `root` is the caller's root variable. */
  function SlotValue(a: Arena, root: nat, slot: Slot): Option<nat>
    reads a.nodes
  {
    SlotIn(a.nodes[..], root, slot)
  }

  /** Writing `v` through a `*mut T` slot (`*slot = v`); returns the caller's root variable. */
  method WriteSlot(a: Arena, root: nat, slot: Slot, v: nat) returns (root': nat)
    modifies a.nodes
    ensures slot.RootSlot? ==> root' == v && a.nodes[..] == old(a.nodes[..])
    ensures slot.ChildSlot? ==> root' == root
    ensures slot.ChildSlot? ==> a.nodes[..] == if slot.holder < a.nodes.Length
      then old(a.nodes[..])[slot.holder := WithChild(old(a.nodes[slot.holder]), slot.side, Some(v))]
      else old(a.nodes[..])
  {
    root' := root;
    match slot
    case RootSlot =>
      root' := v;
    case ChildSlot(h, side) =>
      if h < a.nodes.Length {
        a.nodes[h] := WithChild(a.nodes[h], side, Some(v));
      }
  }

  /** `Tree::set_left`: replace the left child of an existing record. */
  method SetLeft(a: Arena, idx: nat, left: Option<nat>)
    modifies a.nodes
    ensures a.nodes[..] == if idx < a.nodes.Length
      then old(a.nodes[..])[idx := old(a.nodes[idx]).(left := left)]
      else old(a.nodes[..])
  {
    match a.Get(idx)
    case Some(node) =>
      a.Set(idx, node.(left := left));
    case None =>
  }

  /** `Tree::set_right`: replace the right child of an existing record. */
  method SetRight(a: Arena, idx: nat, right: Option<nat>)
    modifies a.nodes
    ensures a.nodes[..] == if idx < a.nodes.Length
      then old(a.nodes[..])[idx := old(a.nodes[idx]).(right := right)]
      else old(a.nodes[..])
  {
    match a.Get(idx)
    case Some(node) =>
      a.Set(idx, node.(right := right));
    case None =>
  }

  /** `Tree::clear`: reset a record to the default. */
  method Clear(a: Arena, idx: nat)
    modifies a.nodes
    ensures a.nodes[..] == if idx < a.nodes.Length then old(a.nodes[..])[idx := Default] else old(a.nodes[..])
  {
    a.Set(idx, Default);
  }

  /** `Tree::leftest`: follow left children from `current`; on a search tree this is the minimum. */
  method Leftest(a: Arena, current: nat, ghost t: Tree) returns (r: nat)
    requires Represents(a.nodes[..], t) && RootOf(t) == Some(current)
    ensures r == Leftmost(t) && r < a.nodes.Length && a.nodes[r].left.None?
    ensures IsBst(t) ==> r in Keys(t) && forall x | x in Keys(t) :: r <= x
  {
    r := current;
    ghost var u := t;
    while Left(a, r).Some?
      invariant Represents(a.nodes[..], u) && u.Branch? && u.key == r
      invariant Leftmost(u) == Leftmost(t)
      decreases Count(u)
    {
      r := Left(a, r).value;
      u := u.left;
    }
    if IsBst(t) {
      LeftmostIsMin(t);
    }
  }

  /** `Tree::rightest`: follow right children from `current`; on a search tree this is the maximum. */
  method Rightest(a: Arena, current: nat, ghost t: Tree) returns (r: nat)
    requires Represents(a.nodes[..], t) && RootOf(t) == Some(current)
    ensures r == Rightmost(t) && r < a.nodes.Length && a.nodes[r].right.None?
    ensures IsBst(t) ==> r in Keys(t) && forall x | x in Keys(t) :: x <= r
  {
    r := current;
    ghost var u := t;
    while Right(a, r).Some?
      invariant Represents(a.nodes[..], u) && u.Branch? && u.key == r
      invariant Rightmost(u) == Rightmost(t)
      decreases Count(u)
    {
      r := Right(a, r).value;
      u := u.right;
    }
    if IsBst(t) {
      RightmostIsMax(t);
    }
  }

  /**
   * `Tree::next`: the leftmost node of the right subtree of `idx`. On a search tree
   * this is the smallest key of the subtree at `idx` above `idx`; the source looks
   * no higher than that subtree, so with no right child the answer is nothing.
   */
  method Next(a: Arena, idx: nat, ghost t: Tree) returns (r: Option<nat>)
    requires Represents(a.nodes[..], t) && RootOf(t) == Some(idx)
    ensures r == if t.right.Nil? then None else Some(Leftmost(t.right))
    ensures IsBst(t) ==> (r.Some? <==> exists x | x in Keys(t) :: idx < x)
    ensures IsBst(t) && r.Some? ==>
      r.value in Keys(t) && idx < r.value && forall x | x in Keys(t) && idx < x :: r.value <= x
  {
    match Right(a, idx)
    case None =>
      r := None;
      assert Keys(t) == Keys(t.left) + {idx};
    case Some(c) =>
      var m := Leftest(a, c, t.right);
      r := Some(m);
      if IsBst(t) {
        assert m in Keys(t.right) && m in Keys(t);
      }
  }

  /**
   * `Tree::prev`: the rightmost node of the left subtree of `idx`; on a search tree
   * the largest key of the subtree at `idx` below `idx`.
   */
  method Prev(a: Arena, idx: nat, ghost t: Tree) returns (r: Option<nat>)
    requires Represents(a.nodes[..], t) && RootOf(t) == Some(idx)
    ensures r == if t.left.Nil? then None else Some(Rightmost(t.left))
    ensures IsBst(t) ==> (r.Some? <==> exists x | x in Keys(t) :: x < idx)
    ensures IsBst(t) && r.Some? ==>
      r.value in Keys(t) && r.value < idx && forall x | x in Keys(t) && x < idx :: x <= r.value
  {
    match Left(a, idx)
    case None =>
      r := None;
      assert Keys(t) == {idx} + Keys(t.right);
    case Some(c) =>
      var m := Rightest(a, c, t.left);
      r := Some(m);
      if IsBst(t) {
        assert m in Keys(t.left) && m in Keys(t);
      }
  }

  /**
   * `Tree::contains`: walk down from `root` by comparison until `idx` or a missing
   * child is met. The walk is `Reaches`; on a search tree it decides membership.
   */
  method Contains(a: Arena, root: nat, idx: nat, ghost t: Tree) returns (b: bool)
    requires Represents(a.nodes[..], t) && RootOf(t) == Some(root)
    ensures b == Reaches(t, idx)
    ensures IsBst(t) ==> (b <==> idx in Keys(t))
  {
    if IsBst(t) {
      ReachesIsMembership(t, idx);
    }
    var current := root;
    ghost var u := t;
    while true
      invariant Represents(a.nodes[..], u) && u.Branch? && u.key == current
      invariant Reaches(u, idx) == Reaches(t, idx)
      decreases Count(u)
    {
      if IsLeftOf(idx, current) {
        match Left(a, current)
        case Some(next) =>
          current := next;
          u := u.left;
        case None =>
          return false;
      } else if IsRightOf(idx, current) {
        match Right(a, current)
        case Some(next) =>
          current := next;
          u := u.right;
        case None =>
          return false;
      } else {
        return true;
      }
    }
  }
}

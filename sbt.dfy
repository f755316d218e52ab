/**
 * The `SizeBalanced` trait: size bookkeeping, the two rotations, and the in-place
 * insert and remove of a size-balanced tree whose nodes live in an arena.
 *
 * Every method works on the arena records; the ghost `Tree` argument is the shape
 * the records represent, and the contracts say which shape they represent after.
 * A `*mut T` root slot is a `Slot`: the caller's root variable (passed in and
 * returned) or a child field of a record.
 */
module Sbt {
  import opened Wrappers
  import opened Nodes
  import opened Shapes
  import opened Trees
  import opened SbtLemmas

  // ---------------------------------------------------------------------------
  // Size bookkeeping (sbt.rs:8-59)

  /** `size`: the subtree size stored at `idx`. */
  function Size(a: Arena, idx: nat): (r: Option<nat>)
    reads a.nodes
    ensures r.Some? <==> idx < a.nodes.Length
    ensures r.Some? ==> r.value == a.nodes[idx].size
  {
    match a.Get(idx)
    case None => None
    case Some(n) => Some(n.size)
  }

  /** `set_size`: overwrite the size of an existing record. */
  method SetSize(a: Arena, idx: nat, size: nat)
    modifies a.nodes
    ensures a.nodes[..] == if idx < a.nodes.Length
      then old(a.nodes[..])[idx := old(a.nodes[idx]).(size := size)]
      else old(a.nodes[..])
  {
    match a.Get(idx)
    case Some(node) =>
      a.Set(idx, node.(size := size));
    case None =>
  }

  /** `left_size`: the size of the left child, when there is one inside the arena. */
  function LeftSize(a: Arena, idx: nat): (r: Option<nat>)
    reads a.nodes
    ensures r.Some? <==> Trees.Left(a, idx).Some? && Trees.Left(a, idx).value < a.nodes.Length
    ensures r.Some? ==> r.value == a.nodes[Trees.Left(a, idx).value].size
  {
    match Trees.Left(a, idx)
    case None => None
    case Some(c) => Size(a, c)
  }

  /** `right_size`: the size of the right child, when there is one inside the arena. */
  function RightSize(a: Arena, idx: nat): (r: Option<nat>)
    reads a.nodes
    ensures r.Some? <==> Trees.Right(a, idx).Some? && Trees.Right(a, idx).value < a.nodes.Length
    ensures r.Some? ==> r.value == a.nodes[Trees.Right(a, idx).value].size
  {
    match Trees.Right(a, idx)
    case None => None
    case Some(c) => Size(a, c)
  }

  /** On a represented tree the stored sizes are the node counts. */
  lemma SizesOf(a: Arena, t: Tree)
    requires Represents(a.nodes[..], t) && t.Branch?
    ensures Size(a, t.key) == Some(Count(t))
    ensures LeftSize(a, t.key).UnwrapOr(0) == Count(t.left)
    ensures RightSize(a, t.key).UnwrapOr(0) == Count(t.right)
  {
  }

  /** The sizes `fix_size` reads, as read off the records. */
  lemma ChildSizes(a: Arena, idx: nat)
    requires idx < a.nodes.Length
    ensures LeftSize(a, idx).UnwrapOr(0) == ChildSize(a.nodes[..], idx, Nodes.Left)
    ensures RightSize(a, idx).UnwrapOr(0) == ChildSize(a.nodes[..], idx, Nodes.Right)
  {
  }

  /** `inc_size`. */
  method IncSize(a: Arena, idx: nat)
    modifies a.nodes
    ensures a.nodes[..] == if idx < a.nodes.Length
      then old(a.nodes[..])[idx := old(a.nodes[idx]).(size := old(a.nodes[idx]).size + 1)]
      else old(a.nodes[..])
  {
    match Size(a, idx)
    case Some(size) =>
      SetSize(a, idx, size + 1);
    case None =>
  }

  /** `dec_size`: a saturating decrement. */
  method DecSize(a: Arena, idx: nat)
    modifies a.nodes
    ensures a.nodes[..] == if idx < a.nodes.Length
      then old(a.nodes[..])[idx := old(a.nodes[idx]).(size := SaturatingDec(old(a.nodes[idx]).size))]
      else old(a.nodes[..])
  {
    match Size(a, idx)
    case Some(size) =>
      SetSize(a, idx, SaturatingDec(size));
    case None =>
  }

  /** `fix_size`: the size becomes one more than the children's sizes (a missing child counts 0). */
  method FixSize(a: Arena, idx: nat)
    modifies a.nodes
    ensures a.nodes[..] == if idx < a.nodes.Length
      then old(a.nodes[..])[idx := old(a.nodes[idx]).(size := old(LeftSize(a, idx)).UnwrapOr(0) + old(RightSize(a, idx)).UnwrapOr(0) + 1)]
      else old(a.nodes[..])
  {
    var size := LeftSize(a, idx).UnwrapOr(0) + RightSize(a, idx).UnwrapOr(0) + 1;
    SetSize(a, idx, size);
  }

  // ---------------------------------------------------------------------------
  // Rotations (sbt.rs:61-79)

  /**
   * `rotate_left`: the right child becomes the root of the subtree. Nothing happens
   * without a right child; otherwise the records represent the rotated shape, with
   * exact sizes, and only the two records involved change.
   */
  method RotateLeft(a: Arena, root: nat, ghost t: Tree) returns (r: Option<nat>)
    requires Represents(a.nodes[..], t) && IsBst(t) && RootOf(t) == Some(root)
    modifies a.nodes
    ensures t.right.Nil? ==> r.None? && a.nodes[..] == old(a.nodes[..])
    ensures t.right.Branch? ==> r == Some(t.right.key) && Represents(a.nodes[..], RotateLeftShape(t))
    ensures t.right.Branch? ==> SameExcept(old(a.nodes[..]), a.nodes[..], {root, t.right.key})
  {
    var right := Trees.Right(a, root);
    if right.None? {
      return None;
    }
    var rt := right.value;
    ghost var s0 := a.nodes[..];
    SubTreeRepr(s0, t, Right);
    SetRight(a, root, Trees.Left(a, rt));
    ghost var s1 := a.nodes[..];
    SetLeft(a, rt, Some(root));
    ghost var s2 := a.nodes[..];
    var size := Size(a, root);
    SetSize(a, rt, size.value);
    ghost var s3 := a.nodes[..];
    ChildSizes(a, root);
    FixSize(a, root);
    r := Some(rt);
    LiftWrites(s0, s1, s2, s3, a.nodes[..], t, Right);
  }

  /** `rotate_right`: the mirror image, lifting the left child. */
  method RotateRight(a: Arena, root: nat, ghost t: Tree) returns (r: Option<nat>)
    requires Represents(a.nodes[..], t) && IsBst(t) && RootOf(t) == Some(root)
    modifies a.nodes
    ensures t.left.Nil? ==> r.None? && a.nodes[..] == old(a.nodes[..])
    ensures t.left.Branch? ==> r == Some(t.left.key) && Represents(a.nodes[..], RotateRightShape(t))
    ensures t.left.Branch? ==> SameExcept(old(a.nodes[..]), a.nodes[..], {root, t.left.key})
  {
    var left := Trees.Left(a, root);
    if left.None? {
      return None;
    }
    var lt := left.value;
    ghost var s0 := a.nodes[..];
    SubTreeRepr(s0, t, Left);
    SetLeft(a, root, Trees.Right(a, lt));
    ghost var s1 := a.nodes[..];
    SetRight(a, lt, Some(root));
    ghost var s2 := a.nodes[..];
    var size := Size(a, root);
    SetSize(a, lt, size.value);
    ghost var s3 := a.nodes[..];
    ChildSizes(a, root);
    FixSize(a, root);
    r := Some(lt);
    LiftWrites(s0, s1, s2, s3, a.nodes[..], t, Left);
  }

  // ---------------------------------------------------------------------------
  // insert (sbt.rs:81-95, 112-198)

  /**
   * The state at the top of each pass of insert_impl's loop: the `root` slot of
   * the source is `slot`, `p` is the ghost path from the real root down to it and
   * `sub` the subtree it refers to; `root` is the caller's root variable.
   */
  ghost predicate InsertLoop(a: Arena, root: nat, slot: Slot, p: Path, sub: Tree, t: Tree, idx: nat)
    reads a.nodes
  {
    InsertState(a.nodes[..], root, slot, p, sub, t, idx)
  }

  /** The records represent `t'`, which is `t` with `idx` added, rooted at `root`. */
  ghost predicate Inserted(a: Arena, root: nat, t: Tree, t': Tree, idx: nat)
    reads a.nodes
  {
    InsertedIn(a.nodes[..], root, t, t', idx)
  }

  /**
   * `insert_sbt`: add `idx` to the tree at `root` and return the new root. A key
   * already present leaves the arena untouched; an empty tree becomes the single
   * node `idx`.
   */
  method InsertSbt(a: Arena, root: Option<nat>, idx: nat, ghost t: Tree) returns (r: Option<nat>, ghost t': Tree)
    requires Represents(a.nodes[..], t) && IsBst(t) && RootOf(t) == root
    requires idx < a.nodes.Length
    requires idx !in Keys(t) ==> a.nodes[idx].left.None? && a.nodes[idx].right.None?
    modifies a.nodes
    ensures Represents(a.nodes[..], t') && IsBst(t') && RootOf(t') == r
    ensures Keys(t') == Keys(t) + {idx} && r.Some? && a.nodes[r.value].size == |Keys(t')|
    ensures idx in Keys(t) ==> r == root && a.nodes[..] == old(a.nodes[..])
    ensures SameExcept(old(a.nodes[..]), a.nodes[..], Keys(t) + {idx})
  {
    if root.Some? {
      var found := Contains(a, root.value, idx, t);
      if found {
        t' := t;
        BstCount(t);
        return root, t';
      }
      var rootPtr;
      rootPtr, t' := InsertImpl(a, root.value, idx, t);
      r := Some(rootPtr);
    } else {
      SetSize(a, idx, 1);
      r := Some(idx);
      t' := Branch(Nil, idx, Nil);
    }
    BstCount(t');
  }

  /**
   * `insert_impl`: walk down from the root slot and put `idx` in place, rotating
   * on the way where a child outgrows its sibling. Each pass either finishes or
   * shortens the search path of `idx` below the slot.
   */
  method InsertImpl(a: Arena, root: nat, idx: nat, ghost t: Tree) returns (root': nat, ghost t': Tree)
    requires Represents(a.nodes[..], t) && IsBst(t) && RootOf(t) == Some(root)
    requires idx !in Keys(t) && idx < a.nodes.Length
    requires a.nodes[idx].left.None? && a.nodes[idx].right.None?
    modifies a.nodes
    ensures Represents(a.nodes[..], t') && IsBst(t') && RootOf(t') == Some(root')
    ensures Keys(t') == Keys(t) + {idx}
    ensures SameExcept(old(a.nodes[..]), a.nodes[..], Keys(t) + {idx})
  {
    ghost var s0 := a.nodes[..];
    ghost var z := Keys(t) + {idx};
    root' := root;
    var slot := RootSlot;
    ghost var p := Top;
    ghost var sub := t;
    while true
      invariant InsertLoop(a, root', slot, p, sub, t, idx)
      invariant SameExcept(s0, a.nodes[..], z)
      decreases SearchDepth(sub, idx)
    {
      ghost var s1 := a.nodes[..];
      var cur := SlotValue(a, root', slot).value;
      var done;
      ghost var p', sub';
      if IsLeftOf(idx, cur) {
        done, root', slot, p', sub', t' := InsertLeft(a, root', slot, idx, t, p, sub);
      } else {
        done, root', slot, p', sub', t' := InsertRight(a, root', slot, idx, t, p, sub);
      }
      SameExceptTrans(s0, s1, a.nodes[..], z, z, z);
      if done {
        return;
      }
      p, sub := p', sub';
    }
  }

  /** One pass of insert_impl when `idx` lies left of the slot's node (sbt.rs:120-157). */
  method InsertLeft(a: Arena, root: nat, slot: Slot, idx: nat, ghost t: Tree, ghost p: Path, ghost sub: Tree)
    returns (done: bool, root': nat, slot': Slot, ghost p': Path, ghost sub': Tree, ghost t': Tree)
    requires InsertLoop(a, root, slot, p, sub, t, idx) && IsLeftOf(idx, sub.key)
    modifies a.nodes
    ensures SameExcept(old(a.nodes[..]), a.nodes[..], Keys(t) + {idx})
    ensures done ==> Inserted(a, root', t, t', idx)
    ensures !done ==> InsertLoop(a, root', slot', p', sub', t, idx) && SearchDepth(sub', idx) < SearchDepth(sub, idx)
  {
    root', slot', p', sub', done, t' := root, slot, p, sub, false, t;
    var cur := SlotValue(a, root, slot).value;
    var leftRef := ChildMut(a, cur, Left);
    if leftRef.None? {
      t' := AttachLeaf(a, root, slot, idx, Left, t, p, sub);
      done := true;
      return;
    }
    var left := leftRef.value;
    var lc := SlotValue(a, root, left).value;
    SizesOf(a, sub);
    SizesOf(a, sub.left);
    assert lc in Keys(sub);
    var leftSize := Size(a, lc).value;
    var rightSize := RightSize(a, cur).UnwrapOr(0);
    if IsLeftOf(idx, lc) {
      if leftSize >= rightSize {
        root', sub' := RaiseChild(a, root, slot, idx, Left, t, p, sub);
        LiftDepth(sub, Left, idx);
      } else {
        slot', p', sub' := DescendInto(a, root, slot, left, idx, Left, t, p, sub);
      }
    } else {
      var lrSize := RightSize(a, lc).UnwrapOr(0);
      if lrSize >= rightSize {
        if lrSize == 0 && rightSize == 0 {
          root', t' := SpliceIn(a, root, slot, lc, leftSize, idx, Left, t, p, sub);
          done := true;
          return;
        }
        ghost var s0 := a.nodes[..];
        root' := RaiseInner(a, root, slot, left, idx, Left, t, p, sub);
        ghost var s1 := a.nodes[..];
        root', sub' := RaiseChild(a, root', slot, idx, Left, t, p, InnerLifted(sub, Left));
        SameExceptTrans(s0, s1, a.nodes[..], Keys(t) + {idx}, Keys(t) + {idx}, Keys(t) + {idx});
        DoubleLiftDepth(sub, Left, idx);
      } else {
        slot', p', sub' := DescendInto(a, root, slot, left, idx, Left, t, p, sub);
      }
    }
  }

  /** One pass of insert_impl when `idx` lies right of the slot's node (sbt.rs:158-196). */
  method InsertRight(a: Arena, root: nat, slot: Slot, idx: nat, ghost t: Tree, ghost p: Path, ghost sub: Tree)
    returns (done: bool, root': nat, slot': Slot, ghost p': Path, ghost sub': Tree, ghost t': Tree)
    requires InsertLoop(a, root, slot, p, sub, t, idx) && !IsLeftOf(idx, sub.key)
    modifies a.nodes
    ensures SameExcept(old(a.nodes[..]), a.nodes[..], Keys(t) + {idx})
    ensures done ==> Inserted(a, root', t, t', idx)
    ensures !done ==> InsertLoop(a, root', slot', p', sub', t, idx) && SearchDepth(sub', idx) < SearchDepth(sub, idx)
  {
    root', slot', p', sub', done, t' := root, slot, p, sub, false, t;
    var cur := SlotValue(a, root, slot).value;
    assert idx != cur;
    var rightRef := ChildMut(a, cur, Right);
    if rightRef.None? {
      t' := AttachLeaf(a, root, slot, idx, Right, t, p, sub);
      done := true;
      return;
    }
    var right := rightRef.value;
    var rc := SlotValue(a, root, right).value;
    SizesOf(a, sub);
    SizesOf(a, sub.right);
    assert rc in Keys(sub);
    var rightSize := Size(a, rc).value;
    var leftSize := LeftSize(a, cur).UnwrapOr(0);
    if IsRightOf(idx, rc) {
      if rightSize >= leftSize {
        root', sub' := RaiseChild(a, root, slot, idx, Right, t, p, sub);
        LiftDepth(sub, Right, idx);
      } else {
        slot', p', sub' := DescendInto(a, root, slot, right, idx, Right, t, p, sub);
      }
    } else {
      var rlSize := LeftSize(a, rc).UnwrapOr(0);
      if rlSize >= leftSize {
        if rlSize == 0 && leftSize == 0 {
          root', t' := SpliceIn(a, root, slot, rc, rightSize, idx, Right, t, p, sub);
          done := true;
          return;
        }
        ghost var s0 := a.nodes[..];
        root' := RaiseInner(a, root, slot, right, idx, Right, t, p, sub);
        ghost var s1 := a.nodes[..];
        root', sub' := RaiseChild(a, root', slot, idx, Right, t, p, InnerLifted(sub, Right));
        SameExceptTrans(s0, s1, a.nodes[..], Keys(t) + {idx}, Keys(t) + {idx}, Keys(t) + {idx});
        DoubleLiftDepth(sub, Right, idx);
      } else {
        slot', p', sub' := DescendInto(a, root, slot, right, idx, Right, t, p, sub);
      }
    }
  }

  /** `set_left` or `set_right`. */
  method SetChild(a: Arena, idx: nat, side: Side, c: Option<nat>)
    modifies a.nodes
    ensures a.nodes[..] == if idx < a.nodes.Length
      then old(a.nodes[..])[idx := WithChild(old(a.nodes[idx]), side, c)]
      else old(a.nodes[..])
  {
    if side == Left {
      SetLeft(a, idx, c);
    } else {
      SetRight(a, idx, c);
    }
  }

  /** `rotate_right` when `side` is `Left`, `rotate_left` when it is `Right`: the child on `side` is raised. */
  method Rotate(a: Arena, root: nat, side: Side, ghost t: Tree) returns (r: Option<nat>)
    requires Represents(a.nodes[..], t) && IsBst(t) && RootOf(t) == Some(root) && SubTree(t, side).Branch?
    modifies a.nodes
    ensures r == Some(SubTree(t, side).key) && Represents(a.nodes[..], Lift(t, side))
    ensures SameExcept(old(a.nodes[..]), a.nodes[..], {root, SubTree(t, side).key})
  {
    if side == Left {
      r := RotateRight(a, root, t);
    } else {
      r := RotateLeft(a, root, t);
    }
  }

  /** The empty child slot on `side` receives `idx` as a leaf. */
  method AttachLeaf(a: Arena, root: nat, slot: Slot, idx: nat, side: Side, ghost t: Tree, ghost p: Path, ghost sub: Tree)
    returns (ghost t': Tree)
    requires InsertLoop(a, root, slot, p, sub, t, idx) && Toward(side, idx, sub.key) && SubTree(sub, side).Nil?
    modifies a.nodes
    ensures Inserted(a, root, t, t', idx)
    ensures SameExcept(old(a.nodes[..]), a.nodes[..], Keys(t) + {idx})
  {
    ghost var s1 := a.nodes[..];
    var cur := SlotValue(a, root, slot).value;
    IncSize(a, cur);
    ghost var s2 := a.nodes[..];
    SetSize(a, idx, 1);
    ghost var s3 := a.nodes[..];
    SetChild(a, cur, side, Some(idx));
    t' := Plug(p, Join(side, Branch(Nil, idx, Nil), cur, SubTree(sub, Flip(side))));
    AttachState(s1, s2, s3, a.nodes[..], root, slot, p, sub, t, idx, side);
  }


  /** Count `idx` in the subtree at the slot, then move the slot down to the child on `side`. */
  method DescendInto(a: Arena, root: nat, slot: Slot, child: Slot, idx: nat, side: Side, ghost t: Tree, ghost p: Path, ghost sub: Tree)
    returns (slot': Slot, ghost p': Path, ghost sub': Tree)
    requires InsertLoop(a, root, slot, p, sub, t, idx) && Toward(side, idx, sub.key)
    requires SubTree(sub, side).Branch? && child == ChildSlot(sub.key, side)
    modifies a.nodes
    ensures InsertLoop(a, root, slot', p', sub', t, idx) && SearchDepth(sub', idx) < SearchDepth(sub, idx)
    ensures SameExcept(old(a.nodes[..]), a.nodes[..], Keys(t) + {idx})
  {
    ghost var s1 := a.nodes[..];
    var cur := SlotValue(a, root, slot).value;
    IncSize(a, cur);
    DescendState(s1, a.nodes[..], root, slot, p, sub, t, idx, side);
    p', sub' := Frame(side, cur, SubTree(sub, Flip(side)), p), SubTree(sub, side);
    slot' := child;
    SameExceptWiden(s1, a.nodes[..], {cur}, Keys(t) + {idx});
  }


  /** `*root = rotate(*root)`: the child on `side` is raised into the slot. */
  method RaiseChild(a: Arena, root: nat, slot: Slot, idx: nat, side: Side, ghost t: Tree, ghost p: Path, ghost sub: Tree)
    returns (root': nat, ghost sub': Tree)
    requires InsertLoop(a, root, slot, p, sub, t, idx) && SubTree(sub, side).Branch?
    modifies a.nodes
    ensures sub' == Lift(sub, side) && InsertLoop(a, root', slot, p, sub', t, idx)
    ensures SameExcept(old(a.nodes[..]), a.nodes[..], Keys(t) + {idx})
  {
    ghost var s1 := a.nodes[..];
    var cur := SlotValue(a, root, slot).value;
    var r := Rotate(a, cur, side, sub);
    ghost var s2 := a.nodes[..];
    root' := WriteSlot(a, root, slot, r.value);
    LiftState(s1, s2, a.nodes[..], root, root', slot, p, sub, t, idx, side);
    PlugKeys(p, sub);
    SameExceptWiden(s1, a.nodes[..], Keys(sub) + PathKeys(p), Keys(t) + {idx});
    sub' := Lift(sub, side);
  }


  /**
   * The case with no inner grandchild and no sibling: `idx` takes the slot, with
   * the child (`c`, of `childSize` nodes) and the old root beneath it.
   */
  method SpliceIn(a: Arena, root: nat, slot: Slot, c: nat, childSize: nat, idx: nat, side: Side, ghost t: Tree, ghost p: Path, ghost sub: Tree)
    returns (root': nat, ghost t': Tree)
    requires InsertLoop(a, root, slot, p, sub, t, idx) && Toward(side, idx, sub.key)
    requires SubTree(sub, side).Branch? && c == SubTree(sub, side).key && childSize == Count(SubTree(sub, side))
    requires Toward(Flip(side), idx, c)
    requires SubTree(SubTree(sub, side), Flip(side)).Nil? && SubTree(sub, Flip(side)).Nil?
    modifies a.nodes
    ensures Inserted(a, root', t, t', idx)
    ensures SameExcept(old(a.nodes[..]), a.nodes[..], Keys(t) + {idx})
  {
    ghost var s1 := a.nodes[..];
    var cur := SlotValue(a, root, slot).value;
    if side == Left {
      SetLeft(a, idx, Some(c));
      SetRight(a, idx, Some(cur));
    } else {
      SetLeft(a, idx, Some(cur));
      SetRight(a, idx, Some(c));
    }
    SetSize(a, idx, childSize + 2);
    SetChild(a, cur, side, None);
    SetSize(a, cur, 1);
    ghost var s2 := a.nodes[..];
    root' := WriteSlot(a, root, slot, idx);
    t' := Plug(p, Join(side, SubTree(sub, side), idx, Branch(Nil, cur, Nil)));
    SpliceState(s1, s2, a.nodes[..], root, root', slot, p, sub, t, idx, side);
  }


  /** `*child = rotate(*child)`: inside the child on `side`, its inner grandchild is raised. */
  method RaiseInner(a: Arena, root: nat, slot: Slot, child: Slot, idx: nat, side: Side, ghost t: Tree, ghost p: Path, ghost sub: Tree)
    returns (root': nat)
    requires InsertLoop(a, root, slot, p, sub, t, idx)
    requires SubTree(sub, side).Branch? && child == ChildSlot(sub.key, side)
    requires SubTree(SubTree(sub, side), Flip(side)).Branch?
    modifies a.nodes
    ensures root' == root && InsertLoop(a, root, slot, p, InnerLifted(sub, side), t, idx)
    ensures SubTree(InnerLifted(sub, side), side).Branch?
    ensures SameExcept(old(a.nodes[..]), a.nodes[..], Keys(t) + {idx})
  {
    ghost var s1 := a.nodes[..];
    ghost var ch := SubTree(sub, side);
    var c := SlotValue(a, root, child).value;
    SubTreeRepr(s1, sub, side);
    var l := Rotate(a, c, Flip(side), ch);
    ghost var s2 := a.nodes[..];
    root' := WriteSlot(a, root, child, l.value);
    RaiseInnerState(s1, s2, a.nodes[..], root, slot, p, sub, t, idx, side);
    InnerLiftedShape(sub, side);
    PlugKeys(p, sub);
    SameExceptWiden(s1, a.nodes[..], Keys(sub), Keys(t) + {idx});
  }


  // ---------------------------------------------------------------------------
  // remove (sbt.rs:97-110, 200-385)

  /** The search loop state, `RemoveState`, on the arena's records. */
  ghost predicate RemoveLoop(a: Arena, root: nat, top: Slot, current: Slot, parent: Slot, p: Path, sub: Tree, whole: Tree, idx: nat)
    reads a.nodes
  {
    RemoveState(a.nodes[..], root, top, current, parent, p, sub, whole, idx)
  }

  /**
   * The search loop shared by remove_impl (sbt.rs:218-235) and detach_node
   * (sbt.rs:313-326): from `top`, decrement each size on the way to `idx`. The
   * key is present, so the loop never runs out of children and never meets the
   * third branch.
   */
  method FindNode(a: Arena, root: nat, top: Slot, idx: nat, ghost whole: Tree)
    returns (current: Slot, parent: Slot, ghost p: Path, ghost sub: Tree)
    requires Represents(a.nodes[..], whole) && IsBst(whole) && idx in Keys(whole)
    requires SlotValue(a, root, top) == RootOf(whole)
    requires top.ChildSlot? ==> top.holder !in Keys(whole)
    modifies a.nodes
    ensures RemoveLoop(a, root, top, current, parent, p, sub, whole, idx) && sub.key == idx
    ensures SameExcept(old(a.nodes[..]), a.nodes[..], PathKeys(p))
    ensures SlotValue(a, root, top) == RootOf(whole)
  {
    ghost var s0 := a.nodes[..];
    current, parent := top, top;
    p, sub := Top, whole;
    while SlotValue(a, root, current) != Some(idx)
      invariant RemoveLoop(a, root, top, current, parent, p, sub, whole, idx)
      invariant SameExcept(s0, a.nodes[..], PathKeys(p))
      invariant SlotValue(a, root, top) == RootOf(whole)
      decreases Count(sub)
    {
      ghost var s1 := a.nodes[..];
      ghost var p0 := p;
      current, parent, p, sub := FindStep(a, root, top, current, parent, p, sub, whole, idx);
      SameExceptTrans(s0, s1, a.nodes[..], PathKeys(p0), {p.key}, PathKeys(p));
    }
  }

  /** One pass of the search loop: decrement the size at `current` and step toward `idx`. */
  method FindStep(a: Arena, root: nat, top: Slot, current: Slot, parent: Slot, ghost p: Path, ghost sub: Tree,
                  ghost whole: Tree, idx: nat)
    returns (current': Slot, parent': Slot, ghost p': Path, ghost sub': Tree)
    requires RemoveLoop(a, root, top, current, parent, p, sub, whole, idx) && sub.key != idx
    requires SlotValue(a, root, top) == RootOf(whole)
    requires top.ChildSlot? ==> top.holder !in Keys(whole)
    modifies a.nodes
    ensures RemoveLoop(a, root, top, current', parent', p', sub', whole, idx)
    ensures p'.Frame? && p'.key == sub.key && p'.up == p && sub' == SubTree(sub, p'.side)
    ensures SameExcept(old(a.nodes[..]), a.nodes[..], {sub.key}) && PathKeys(p) + {sub.key} <= PathKeys(p')
    ensures SlotValue(a, root, top) == RootOf(whole)
    ensures Count(sub') < Count(sub)
  {
    ghost var s1 := a.nodes[..];
    var cur := SlotValue(a, root, current).value;
    DecSize(a, cur);
    ghost var side := if IsLeftOf(idx, cur) then Left else Right;
    FindStepState(s1, a.nodes[..], root, top, current, parent, p, sub, whole, idx, side);
    p' := Frame(side, cur, SubTree(sub, Flip(side)), p);
    if IsLeftOf(idx, cur) {
      parent' := current;
      current' := ChildMut(a, cur, Left).value;
    } else {
      parent' := current;
      current' := ChildMut(a, cur, Right).value;
    }
    sub' := SubTree(sub, side);
  }


  /**
   * The replacement of the found node `node` (the root of `sub`): with two
   * children, the leftmost node of the right subtree, detached from there first
   * and given the node's children; otherwise the only child, or nothing
   * (sbt.rs:239-280, 329-367).
   */
  method Replacement(a: Arena, node: nat, ghost sub: Tree) returns (repl: Option<nat>, ghost rep: Tree)
    requires Represents(a.nodes[..], sub) && IsBst(sub) && RootOf(sub) == Some(node)
    modifies a.nodes
    decreases Count(sub), 2
    ensures Represents(a.nodes[..], rep) && IsBst(rep) && Keys(rep) == Keys(sub) - {node} && RootOf(rep) == repl
    ensures SameExcept(old(a.nodes[..]), a.nodes[..], Keys(sub))
    ensures sub.left.Nil? || sub.right.Nil? ==> a.nodes[..] == old(a.nodes[..])
  {
    var left := Trees.Left(a, node);
    var right := Trees.Right(a, node);
    if left.Some? && right.Some? {
      repl, rep := TakeSuccessor(a, node, left.value, right.value, sub);
    } else if left.Some? {
      repl, rep := left, sub.left;
    } else if right.Some? {
      repl, rep := right, sub.right;
    } else {
      repl, rep := None, Nil;
    }
  }

  /** Two children: the detached leftmost node of the right subtree takes the node's children. */
  method TakeSuccessor(a: Arena, node: nat, left: nat, right: nat, ghost sub: Tree) returns (repl: Option<nat>, ghost rep: Tree)
    requires Represents(a.nodes[..], sub) && IsBst(sub) && RootOf(sub) == Some(node)
    requires RootOf(sub.left) == Some(left) && RootOf(sub.right) == Some(right)
    modifies a.nodes
    decreases Count(sub), 1
    ensures Represents(a.nodes[..], rep) && IsBst(rep) && Keys(rep) == Keys(sub) - {node} && RootOf(rep) == repl
    ensures SameExcept(old(a.nodes[..]), a.nodes[..], Keys(sub))
  {
    ghost var s0 := a.nodes[..];
    var leftmost, newRight, r' := DetachLeftmost(a, node, right, sub);
    ghost var s1 := a.nodes[..];
    RepresentsFrame(s0, s1, sub.left, Keys(sub.right) + {node});
    SetLeft(a, leftmost, Some(left));
    ghost var s2 := a.nodes[..];
    var size: nat;
    if newRight.Some? {
      SetRight(a, leftmost, Some(newRight.value));
      SuccessorLinks(s1, s2, a.nodes[..], sub, leftmost, r');
      var leftSize := Size(a, left).value;
      var rightSize := Size(a, newRight.value).value;
      size := leftSize + rightSize + 1;
    } else {
      SetRight(a, leftmost, None);
      SuccessorLinks(s1, s2, a.nodes[..], sub, leftmost, r');
      var leftSize := Size(a, left).value;
      size := leftSize + 1;
    }
    ghost var s3 := a.nodes[..];
    SetSize(a, leftmost, size);
    repl := Some(leftmost);
    rep := Branch(sub.left, leftmost, r');
    SuccessorSized(s1, s3, a.nodes[..], sub, leftmost, r', size);
    SameExceptTrans(s0, s1, a.nodes[..], Keys(sub), {leftmost}, Keys(sub));
  }

  /**
   * Find the leftmost node of the right subtree and unlink it there, before it is
   * given new children; `newRight` is what remains of the right subtree.
   */
  method DetachLeftmost(a: Arena, node: nat, right: nat, ghost sub: Tree)
    returns (leftmost: nat, newRight: Option<nat>, ghost r': Tree)
    requires Represents(a.nodes[..], sub) && IsBst(sub) && RootOf(sub) == Some(node)
    requires RootOf(sub.right) == Some(right)
    modifies a.nodes
    decreases Count(sub), 0
    ensures leftmost == Leftmost(sub.right) && leftmost < a.nodes.Length
    ensures Represents(a.nodes[..], r') && IsBst(r') && Keys(r') == Keys(sub.right) - {leftmost}
    ensures newRight == RootOf(r')
    ensures SameExcept(old(a.nodes[..]), a.nodes[..], Keys(sub.right) + {node})
  {
    leftmost := Leftest(a, right, sub.right);
    if leftmost == right {
      newRight := Trees.Right(a, leftmost);
      r' := sub.right.right;
      LeftmostIsRoot(sub.right);
    } else {
      var rightPtr := ChildMut(a, node, Right).value;
      r' := DetachNode(a, rightPtr, leftmost, sub.right);
      newRight := Trees.Right(a, node);
    }
  }

  /**
   * `detach_node`: unlink `idx` from the subtree that the child field `root` points
   * at, decrementing the sizes above it. Detaching a childless subtree root leaves
   * everything as it was, as the source does.
   */
  method DetachNode(a: Arena, root: Slot, idx: nat, ghost sub: Tree) returns (ghost sub': Tree)
    requires root.ChildSlot? && root.holder < a.nodes.Length && root.holder !in Keys(sub)
    requires Represents(a.nodes[..], sub) && IsBst(sub) && idx in Keys(sub)
    requires Child(a.nodes[root.holder], root.side) == RootOf(sub)
    modifies a.nodes
    decreases Count(sub), 3
    ensures sub.key == idx && sub.left.Nil? && sub.right.Nil? ==> a.nodes[..] == old(a.nodes[..])
    ensures !(sub.key == idx && sub.left.Nil? && sub.right.Nil?) ==>
      Represents(a.nodes[..], sub') && IsBst(sub') && Keys(sub') == Keys(sub) - {idx} &&
      Child(a.nodes[root.holder], root.side) == RootOf(sub')
    ensures SameExcept(old(a.nodes[..]), a.nodes[..], Keys(sub) + {root.holder})
    ensures a.nodes[root.holder] == WithChild(old(a.nodes[root.holder]), root.side, Child(a.nodes[root.holder], root.side))
  {
    ghost var s0 := a.nodes[..];
    // Every slot below a child field is a child field: no caller variable is read.
    var current, parent, p, u := FindNode(a, 0, root, idx, sub);
    ghost var s1 := a.nodes[..];
    var node := SlotValue(a, 0, current).value;
    PlugCount(p, u);
    PlugKeys(p, u);
    FitsAllOutside(p, u);
    if p.Frame? {
      ParentSide(s1, p, u, idx);
      PlugRoot(p, u, u);
    } else {
      assert s1 == s0;
    }
    var repl, rep := Replacement(a, node, u);
    assert a.nodes[root.holder] == s1[root.holder];
    if p.Frame? {
      assert a.nodes[p.key] == s1[p.key];
      assert p.up.Frame? ==> a.nodes[p.up.key] == s1[p.up.key];
    }
    sub' := Relink(a, root, current, parent, node, repl, p, u, rep, sub, s1);
    SameExceptTrans(s0, s1, a.nodes[..], PathKeys(p), Keys(u) + PathKeys(p) + {root.holder}, Keys(sub) + {root.holder});
  }

  /**
   * The parent update of detach_node (sbt.rs:369-382): at the subtree root the
   * replacement goes into the starting child field (nothing at all when there is
   * none); below it, into whichever child field of the parent held the node.
   */
  method Relink(a: Arena, root: Slot, current: Slot, parent: Slot, node: nat, repl: Option<nat>,
                ghost p: Path, ghost u: Tree, ghost rep: Tree, ghost sub: Tree, ghost s1: seq<Node>)
    returns (ghost sub': Tree)
    requires root.ChildSlot? && root.holder < a.nodes.Length && root.holder !in Keys(sub)
    requires u.Branch? && u.key == node && Plug(p, u) == sub && RemoveInv(s1, p, u, node)
    requires SameExcept(s1, a.nodes[..], Keys(u))
    requires Represents(a.nodes[..], rep) && IsBst(rep) && Keys(rep) == Keys(u) - {node} && RootOf(rep) == repl
    requires current == SlotAt(root, p) && SlotValue(a, 0, current) == Some(node)
    requires SlotValue(a, 0, root) == RootOf(sub)
    requires p.Top? ==> parent == root
    requires p.Frame? ==> parent == SlotAt(root, p.up) && SlotValue(a, 0, parent) == Some(p.key)
    requires p.Frame? ==> RootOf(sub).Some? && RootOf(sub).value in PathKeys(p) && node !in PathKeys(p)
    requires p.Frame? ==> p.key < a.nodes.Length && Child(a.nodes[p.key], p.side) == Some(node)
    requires p.Frame? ==> Child(a.nodes[p.key], Flip(p.side)) != Some(node)
    modifies a.nodes
    ensures p.Top? && repl.None? ==> a.nodes[..] == old(a.nodes[..])
    ensures !(p.Top? && repl.None?) ==>
      Represents(a.nodes[..], sub') && IsBst(sub') && Keys(sub') == Keys(sub) - {node} &&
      Child(a.nodes[root.holder], root.side) == RootOf(sub')
    ensures SameExcept(old(a.nodes[..]), a.nodes[..], PathKeys(p) + {root.holder})
    ensures a.nodes[root.holder] == WithChild(old(a.nodes[root.holder]), root.side, Child(a.nodes[root.holder], root.side))
  {
    ghost var s2 := a.nodes[..];
    sub' := sub;
    PlugKeys(p, u);
    if p.Frame? {
      PlugRoot(p, u, rep);
    }
    if SlotValue(a, 0, current) == SlotValue(a, 0, root) {
      if repl.Some? {
        var _ := WriteSlot(a, 0, root, repl.value);
        RepresentsFrame(s2, a.nodes[..], rep, {root.holder});
        sub' := rep;
      }
    } else if Trees.Left(a, SlotValue(a, 0, parent).value) == SlotValue(a, 0, current) {
      SetLeft(a, SlotValue(a, 0, parent).value, repl);
      sub' := DetachClose(s1, s2, a.nodes[..], p, u, rep);
      assert a.nodes[root.holder] == s2[root.holder];
    } else if Trees.Right(a, SlotValue(a, 0, parent).value) == SlotValue(a, 0, current) {
      SetRight(a, SlotValue(a, 0, parent).value, repl);
      sub' := DetachClose(s1, s2, a.nodes[..], p, u, rep);
      assert a.nodes[root.holder] == s2[root.holder];
    }
  }

  /** Closing a detach below the subtree root: the subtree loses exactly the found key. */
  lemma DetachClose(s1: seq<Node>, s2: seq<Node>, s3: seq<Node>, p: Path, u: Tree, rep: Tree) returns (sub': Tree)
    requires u.Branch? && RemoveInv(s1, p, u, u.key) && SameExcept(s1, s2, Keys(u))
    requires Represents(s2, rep) && IsBst(rep) && Keys(rep) == Keys(u) - {u.key}
    requires SlotWritten(s2, s3, p, RootOf(rep))
    ensures sub' == Plug(p, rep) && Represents(s3, sub') && IsBst(sub')
    ensures Keys(sub') == Keys(Plug(p, u)) - {u.key}
  {
    RemoveClose(s1, s2, s3, p, u, rep, Keys(u));
    SettleTree(s3, p, rep);
    PlugKeys(p, u);
    FitsAllOutside(p, u);
    sub' := Plug(p, rep);
  }

  /**
   * `remove_impl`: unlink `idx` from the tree whose root is the caller's variable
   * `root` and clear its record. The result says whether the tree became empty;
   * the source's third outcome (the key was not found) cannot arise for a key
   * that is present, which is what the source asks of its callers.
   */
  method RemoveImpl(a: Arena, root: nat, idx: nat, ghost t: Tree) returns (empty: bool, root': nat, ghost t': Tree)
    requires Represents(a.nodes[..], t) && IsBst(t) && RootOf(t) == Some(root) && idx in Keys(t)
    modifies a.nodes
    ensures empty <==> Keys(t) == {idx}
    ensures !empty ==> Represents(a.nodes[..], t') && IsBst(t') && RootOf(t') == Some(root')
    ensures !empty ==> Keys(t') == Keys(t) - {idx}
    ensures idx < a.nodes.Length && a.nodes[idx] == Default
    ensures SameExcept(old(a.nodes[..]), a.nodes[..], Keys(t))
  {
    ghost var s0 := a.nodes[..];
    root' := root;
    var current, parent, p, u := FindNode(a, root, RootSlot, idx, t);
    ghost var s1 := a.nodes[..];
    var node := SlotValue(a, root, current).value;
    PlugKeys(p, u);
    FitsAllOutside(p, u);
    if p.Frame? {
      ParentSide(s1, p, u, idx);
      PlugRoot(p, u, u);
    }
    var replacement, rep := Replacement(a, node, u);
    if p.Frame? {
      assert a.nodes[p.key] == s1[p.key];
      assert p.up.Frame? ==> a.nodes[p.up.key] == s1[p.up.key];
    }
    ghost var s2 := a.nodes[..];
    empty, root', t' := RelinkRoot(a, root, parent, node, replacement, p, u, rep, t, s1);
    SameExceptTrans(s0, s1, s2, PathKeys(p), Keys(u), Keys(t));
    SameExceptTrans(s0, s2, a.nodes[..], Keys(t), PathKeys(p) + {node}, Keys(t));
  }

  /**
   * The parent update of remove_impl (sbt.rs:282-300): at the root the replacement
   * becomes the root variable, or the tree is empty; below it, the replacement goes
   * into whichever child field of the parent held the node. The node's record is
   * cleared either way.
   */
  method RelinkRoot(a: Arena, root: nat, parent: Slot, node: nat, replacement: Option<nat>,
                    ghost p: Path, ghost u: Tree, ghost rep: Tree, ghost t: Tree, ghost s1: seq<Node>)
    returns (empty: bool, root': nat, ghost t': Tree)
    requires u.Branch? && u.key == node && Plug(p, u) == t && RemoveInv(s1, p, u, node)
    requires SameExcept(s1, a.nodes[..], Keys(u))
    requires Represents(a.nodes[..], rep) && IsBst(rep) && Keys(rep) == Keys(u) - {node} && RootOf(rep) == replacement
    requires RootOf(t) == Some(root) && (p.Top? ==> node == root)
    requires p.Frame? ==> parent == SlotAt(RootSlot, p.up) && SlotValue(a, root, parent) == Some(p.key)
    requires p.Frame? ==> root in PathKeys(p) && node !in PathKeys(p)
    requires p.Frame? ==> p.key < a.nodes.Length && Child(a.nodes[p.key], p.side) == Some(node)
    requires p.Frame? ==> Child(a.nodes[p.key], Flip(p.side)) != Some(node)
    modifies a.nodes
    ensures empty <==> Keys(t) == {node}
    ensures !empty ==> Represents(a.nodes[..], t') && IsBst(t') && RootOf(t') == Some(root')
    ensures !empty ==> Keys(t') == Keys(t) - {node}
    ensures node < a.nodes.Length && a.nodes[node] == Default
    ensures SameExcept(old(a.nodes[..]), a.nodes[..], PathKeys(p) + {node})
  {
    ghost var s2 := a.nodes[..];
    root' := root;
    KeysInArena(s1, u);
    PlugKeys(p, u);
    if root == node {
      if p.Frame? {
        PlugRoot(p, u, rep);
      }
      if replacement.Some? {
        root' := replacement.value;
      } else {
        Clear(a, node);
        return true, root', Nil;
      }
      t' := rep;
    } else {
      t' := RelinkParent(a, root, parent, node, replacement, p, u, rep, t, s1);
    }
    ghost var s3 := a.nodes[..];
    Clear(a, node);
    RepresentsFrame(s3, a.nodes[..], t', {node});
    assert t'.key in Keys(t');
    empty := false;
    SameExceptTrans(s2, s3, a.nodes[..], PathKeys(p), {node}, PathKeys(p) + {node});
  }

  /** Below the root: the replacement goes into whichever child field of the parent held the node. */
  method RelinkParent(a: Arena, root: nat, parent: Slot, node: nat, replacement: Option<nat>,
                      ghost p: Path, ghost u: Tree, ghost rep: Tree, ghost t: Tree, ghost s1: seq<Node>)
    returns (ghost t': Tree)
    requires u.Branch? && u.key == node && Plug(p, u) == t && RemoveInv(s1, p, u, node)
    requires SameExcept(s1, a.nodes[..], Keys(u))
    requires Represents(a.nodes[..], rep) && IsBst(rep) && Keys(rep) == Keys(u) - {node} && RootOf(rep) == replacement
    requires RootOf(t) == Some(root) && root != node && (p.Top? ==> node == root)
    requires p.Frame? ==> parent == SlotAt(RootSlot, p.up) && SlotValue(a, root, parent) == Some(p.key)
    requires p.Frame? ==> p.key < a.nodes.Length && Child(a.nodes[p.key], p.side) == Some(node)
    requires p.Frame? ==> Child(a.nodes[p.key], Flip(p.side)) != Some(node)
    modifies a.nodes
    ensures Represents(a.nodes[..], t') && IsBst(t') && RootOf(t') == Some(root) && Keys(t') == Keys(t) - {node}
    ensures SameExcept(old(a.nodes[..]), a.nodes[..], PathKeys(p))
  {
    ghost var s2 := a.nodes[..];
    PlugRoot(p, u, rep);
    if Trees.Left(a, SlotValue(a, root, parent).value) == Some(node) {
      SetLeft(a, SlotValue(a, root, parent).value, replacement);
      t' := DetachClose(s1, s2, a.nodes[..], p, u, rep);
    } else {
      assert Trees.Right(a, SlotValue(a, root, parent).value) == Some(node);
      SetRight(a, SlotValue(a, root, parent).value, replacement);
      t' := DetachClose(s1, s2, a.nodes[..], p, u, rep);
    }
  }


  /**
   * `remove_sbt`: remove `idx` from the tree at `root` and return the new root;
   * nothing for an empty tree or one that became empty. The key must be present
   * (sbt.rs:213-216).
   */
  method RemoveSbt(a: Arena, root: Option<nat>, idx: nat, ghost t: Tree) returns (r: Option<nat>, ghost t': Tree)
    requires Represents(a.nodes[..], t) && IsBst(t) && RootOf(t) == root
    requires root.Some? ==> idx in Keys(t)
    modifies a.nodes
    ensures Represents(a.nodes[..], t') && IsBst(t') && RootOf(t') == r && Keys(t') == Keys(t) - {idx}
    ensures r.None? <==> Keys(t) <= {idx}
    ensures r.Some? ==> a.nodes[r.value].size == |Keys(t')|
    ensures root.None? ==> a.nodes[..] == old(a.nodes[..])
    ensures root.Some? ==> idx < a.nodes.Length && a.nodes[idx] == Default
    ensures SameExcept(old(a.nodes[..]), a.nodes[..], Keys(t))
  {
    if root.None? {
      return None, Nil;
    }
    var empty, rootVal;
    empty, rootVal, t' := RemoveImpl(a, root.value, idx, t);
    if empty {
      r, t' := None, Nil;
    } else {
      r := Some(rootVal);
      BstCount(t');
    }
  }
}

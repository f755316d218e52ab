/**
 * One lemma per step of the size-balanced tree's in-place insert and remove loops:
 * the state before the step satisfies the loop invariant, the step's writes are
 * described record by record, and the state after satisfies the invariant again
 * (or the finished tree is laid out correctly).
 */
module SbtLemmas {
  import opened Wrappers
  import opened Nodes
  import opened Shapes

  /**
   * Insert loop invariant: the slot points at a represented search subtree `sub`
   * that `idx` belongs in, the ancestors already count the node being inserted,
   * and `idx`'s own record has no children.
   */
  ghost predicate InsertInv(s: seq<Node>, p: Path, sub: Tree, idx: nat) {
    sub.Branch? && Represents(s, sub) && IsBst(sub) && idx !in Keys(sub) &&
    idx < |s| && s[idx].left.None? && s[idx].right.None? &&
    PathBst(p) && Fits(p, idx) && (forall x | x in Keys(sub) :: Fits(p, x)) &&
    PathRepr(s, p, RootOf(sub), Count(sub) + 1)
  }

  /**
   * Remove loop invariant: the slot points at a represented search subtree that
   * holds `idx`, and the ancestors already count one node fewer.
   */
  ghost predicate RemoveInv(s: seq<Node>, p: Path, sub: Tree, idx: nat) {
    sub.Branch? && Represents(s, sub) && IsBst(sub) && idx in Keys(sub) &&
    PathBst(p) && (forall x | x in Keys(sub) :: Fits(p, x)) &&
    PathRepr(s, p, RootOf(sub), Count(sub) - 1)
  }

  /**
   * The state at the top of each pass of insert_impl's loop: the `root` slot of
   * the source is `slot`, `p` is the ghost path from the real root down to it and
   * `sub` the subtree it refers to; `root` is the caller's root variable.
   */
  ghost predicate InsertState(s: seq<Node>, root: nat, slot: Slot, p: Path, sub: Tree, t: Tree, idx: nat) {
    InsertInv(s, p, sub, idx) &&
    slot == SlotOf(p) && SlotIn(s, root, slot) == Some(sub.key) &&
    Keys(sub) + PathKeys(p) == Keys(t) &&
    (p.Frame? ==> RootOf(Plug(p, sub)) == Some(root))
  }

  /** The records `s` represent `t'`, which is `t` with `idx` added, rooted at `root`. */
  ghost predicate InsertedIn(s: seq<Node>, root: nat, t: Tree, t': Tree, idx: nat) {
    Represents(s, t') && IsBst(t') && RootOf(t') == Some(root) && Keys(t') == Keys(t) + {idx}
  }

  /** The slot at the bottom of `p`, where the path starts at the slot `top`. */
  function SlotAt(top: Slot, p: Path): Slot {
    if p.Top? then top else SlotOf(p)
  }

  /**
   * The state of the search loop of remove_impl and detach_node: `current` points at
   * `sub`, `parent` at the node above it (or is the starting slot `top`), the path
   * `p` leads from the whole tree `whole` at `top` down to `sub`, and the ancestors
   * already count one node fewer.
   */
  ghost predicate RemoveState(s: seq<Node>, root: nat, top: Slot, current: Slot, parent: Slot, p: Path, sub: Tree,
                              whole: Tree, idx: nat) {
    RemoveInv(s, p, sub, idx) && Plug(p, sub) == whole &&
    current == SlotAt(top, p) && SlotIn(s, root, current) == Some(sub.key) &&
    (p.Top? ==> parent == top) &&
    (p.Frame? ==> parent == SlotAt(top, p.up) && SlotIn(s, root, parent) == Some(p.key))
  }

  /** After the last step: `sub` hangs at the bottom of `p` and every record is exact. */
  ghost predicate Settled(s: seq<Node>, p: Path, sub: Tree) {
    Represents(s, sub) && IsBst(sub) && PathBst(p) &&
    (forall x | x in Keys(sub) :: Fits(p, x)) && PathRepr(s, p, RootOf(sub), Count(sub))
  }

  /** `s'` is `s` after writing `v` into the child field the slot of `p` designates. */
  ghost predicate SlotWritten(s: seq<Node>, s': seq<Node>, p: Path, v: Option<nat>) {
    match p
    case Top => s' == s
    case Frame(side, k, _, _) => k < |s| && SameExcept(s, s', {k}) && s'[k] == WithChild(s[k], side, v)
  }

  lemma FitsAllOutside(p: Path, t: Tree)
    requires PathBst(p) && forall x | x in Keys(t) :: Fits(p, x)
    ensures Keys(t) !! PathKeys(p)
  {
    forall x | x in Keys(t)
      ensures x !in PathKeys(p)
    {
      FitsOutsidePath(p, x);
    }
  }

  /** The record holding the slot of a path is not in the subtree hanging from it. */
  lemma SlotHolderOutside(p: Path, t: Tree)
    requires PathBst(p) && p.Frame? && forall x | x in Keys(t) :: Fits(p, x)
    ensures p.key !in Keys(t)
  {
    if p.key in Keys(t) {
      FitsOutsidePath(p, p.key);
    }
  }

  lemma SubTreeKeys(t: Tree, side: Side)
    requires t.Branch?
    ensures Keys(t) == Keys(SubTree(t, side)) + {t.key} + Keys(SubTree(t, Flip(side)))
    ensures Count(t) == Count(SubTree(t, side)) + 1 + Count(SubTree(t, Flip(side)))
    ensures Join(side, SubTree(t, side), t.key, SubTree(t, Flip(side))) == t
    ensures IsBst(t) ==> IsBst(SubTree(t, side)) && IsBst(SubTree(t, Flip(side)))
    ensures IsBst(t) ==> forall x | x in Keys(SubTree(t, side)) :: Toward(side, x, t.key)
    ensures IsBst(t) ==> forall x | x in Keys(SubTree(t, Flip(side))) :: Toward(Flip(side), x, t.key)
  {
  }

  lemma SubTreeRepr(s: seq<Node>, t: Tree, side: Side)
    requires t.Branch? && Represents(s, t)
    ensures t.key < |s|
    ensures s[t.key] == JoinNode(side, RootOf(SubTree(t, side)), RootOf(SubTree(t, Flip(side))), Count(t))
    ensures Represents(s, SubTree(t, side)) && Represents(s, SubTree(t, Flip(side)))
  {
  }

  /** The key of the bottom frame of a search path is in neither its kept subtree nor the frames above. */
  lemma FrameKeyOutside(side: Side, k: nat, sib: Tree, up: Path)
    requires PathBst(Frame(side, k, sib, up))
    ensures k !in Keys(sib) && k !in PathKeys(up)
  {
    FitsOutsidePath(up, k);
  }

  /** `Replace` at a frame: the ancestor `k` now points at `sub2` and nothing else moved. */
  lemma ReplaceFrame(s1: seq<Node>, s2: seq<Node>, side: Side, k: nat, sib: Tree, up: Path, before: Option<nat>, c: nat, sub2: Tree)
    requires PathBst(Frame(side, k, sib, up)) && PathRepr(s1, Frame(side, k, sib, up), before, c)
    requires Represents(s1, sub2) && Keys(sub2) !! PathKeys(Frame(side, k, sib, up))
    requires SlotWritten(s1, s2, Frame(side, k, sib, up), RootOf(sub2))
    ensures PathRepr(s2, Frame(side, k, sib, up), RootOf(sub2), c) && Represents(s2, sub2)
    ensures SameExcept(s1, s2, PathKeys(Frame(side, k, sib, up)))
  {
    FrameKeyOutside(side, k, sib, up);
    WithChildJoin(side, before, RootOf(sib), 1 + c + Count(sib), RootOf(sub2));
    RepresentsFrame(s1, s2, sib, {k});
    PathReprFrame(s1, s2, up, Some(k), 1 + c + Count(sib), {k});
    RepresentsFrame(s1, s2, sub2, {k});
    SameExceptWiden(s1, s2, {k}, PathKeys(Frame(side, k, sib, up)));
  }

  /** Writing a new subtree root into the slot at the bottom of `p` keeps the ancestors exact. */
  lemma Replace(s: seq<Node>, s1: seq<Node>, s2: seq<Node>, p: Path, before: Option<nat>, c: nat, sub2: Tree, xs: set<nat>)
    requires PathBst(p) && PathRepr(s, p, before, c)
    requires SameExcept(s, s1, xs) && xs !! PathKeys(p)
    requires Represents(s1, sub2) && Keys(sub2) !! PathKeys(p)
    requires SlotWritten(s1, s2, p, RootOf(sub2))
    ensures PathRepr(s2, p, RootOf(sub2), c) && Represents(s2, sub2)
    ensures SameExcept(s1, s2, PathKeys(p))
  {
    PathReprFrame(s, s1, p, before, c, xs);
    match p
    case Top =>
    case Frame(side, k, sib, up) =>
      ReplaceFrame(s1, s2, side, k, sib, up, before, c, sub2);
  }

  /** Whole-tree facts once the loop has settled. */
  lemma SettleTree(s: seq<Node>, p: Path, sub: Tree)
    requires Settled(s, p, sub)
    ensures Represents(s, Plug(p, sub)) && IsBst(Plug(p, sub))
    ensures Keys(Plug(p, sub)) == Keys(sub) + PathKeys(p)
  {
    Close(s, p, sub);
    PlugBst(p, sub);
    PlugKeys(p, sub);
  }

  // ---------------------------------------------------------------------------
  // insert_impl

  /** Counting `idx` at the slot's node and moving the slot to its child keeps the insert invariant. */
  /** Going down one frame keeps the path ordered, and every key below fits the longer path. */
  lemma FrameBst(p: Path, sub: Tree, side: Side)
    requires sub.Branch? && IsBst(sub) && PathBst(p) && forall x | x in Keys(sub) :: Fits(p, x)
    ensures var p' := Frame(side, sub.key, SubTree(sub, Flip(side)), p);
      PathBst(p') && forall x | x in Keys(SubTree(sub, side)) :: Fits(p', x)
  {
    SubTreeKeys(sub, side);
    assert sub.key in Keys(sub);
  }

  /**
   * Going down one frame after rewriting the size at `sub`'s root to `c`: the
   * records hold the child, and the longer path with `c'` nodes expected below it.
   */
  lemma DescendRepr(s: seq<Node>, s': seq<Node>, p: Path, sub: Tree, side: Side, c: nat, c': nat)
    requires sub.Branch? && IsBst(sub) && Represents(s, sub) && PathBst(p) && Fits(p, sub.key)
    requires PathRepr(s, p, RootOf(sub), c) && c == 1 + c' + Count(SubTree(sub, Flip(side)))
    requires SameExcept(s, s', {sub.key}) && sub.key < |s| && s'[sub.key] == s[sub.key].(size := c)
    ensures Represents(s', SubTree(sub, side))
    ensures PathRepr(s', Frame(side, sub.key, SubTree(sub, Flip(side)), p), RootOf(SubTree(sub, side)), c')
    ensures Child(s'[sub.key], side) == RootOf(SubTree(sub, side))
  {
    var k := sub.key;
    var child, sib := SubTree(sub, side), SubTree(sub, Flip(side));
    SubTreeKeys(sub, side);
    SubTreeRepr(s, sub, side);
    FitsOutsidePath(p, k);
    RepresentsFrame(s, s', child, {k});
    RepresentsFrame(s, s', sib, {k});
    PathReprFrame(s, s', p, Some(k), c, {k});
    assert s'[k] == JoinNode(side, RootOf(child), RootOf(sib), c);
  }

  lemma InsertDescend(s: seq<Node>, s': seq<Node>, p: Path, sub: Tree, idx: nat, side: Side)
    requires InsertInv(s, p, sub, idx) && Toward(side, idx, sub.key) && SubTree(sub, side).Branch?
    requires SameExcept(s, s', {sub.key}) && sub.key < |s|
    requires s'[sub.key] == s[sub.key].(size := s[sub.key].size + 1)
    ensures var p' := Frame(side, sub.key, SubTree(sub, Flip(side)), p);
      InsertInv(s', p', SubTree(sub, side), idx) && Plug(p', SubTree(sub, side)) == Plug(p, sub) &&
      SearchDepth(SubTree(sub, side), idx) < SearchDepth(sub, idx)
  {
    var k := sub.key;
    var child, sib := SubTree(sub, side), SubTree(sub, Flip(side));
    SubTreeKeys(sub, side);
    SubTreeRepr(s, sub, side);
    assert s'[k] == s[k].(size := Count(sub) + 1);
    FrameBst(p, sub, side);
    DescendRepr(s, s', p, sub, side, Count(sub) + 1, Count(child) + 1);
    assert idx != k && s'[idx] == s[idx];
    assert idx !in Keys(child);
    assert Fits(Frame(side, k, sib, p), idx);
  }


  /** Counting `idx` at the slot's node and linking `idx` as a leaf of size 1 under it inserts `idx`. */
  lemma InsertAttach(s: seq<Node>, s': seq<Node>, p: Path, sub: Tree, idx: nat, side: Side)
    requires InsertInv(s, p, sub, idx) && Toward(side, idx, sub.key) && SubTree(sub, side).Nil?
    requires SameExcept(s, s', {sub.key, idx}) && sub.key < |s|
    requires s'[sub.key] == WithChild(s[sub.key], side, Some(idx)).(size := s[sub.key].size + 1)
    requires s'[idx] == s[idx].(size := 1)
    ensures var sub' := Join(side, Branch(Nil, idx, Nil), sub.key, SubTree(sub, Flip(side)));
      Settled(s', p, sub') && Keys(sub') == Keys(sub) + {idx} && sub'.key == sub.key
  {
    var k := sub.key;
    var sub' := Join(side, Branch(Nil, idx, Nil), k, SubTree(sub, Flip(side)));
    AttachShape(p, sub, idx, side);
    AttachRepr(s, s', sub, idx, side);
    FitsOutsidePath(p, k);
    FitsOutsidePath(p, idx);
    assert RootOf(sub) == RootOf(sub') && Count(sub) + 1 == Count(sub');
    PathReprFrame(s, s', p, RootOf(sub'), Count(sub'), {k, idx});
  }

  /** The new leaf on `side` of `sub` keeps the search order, and every key fits the path. */
  lemma AttachShape(p: Path, sub: Tree, idx: nat, side: Side)
    requires sub.Branch? && IsBst(sub) && idx !in Keys(sub) && Toward(side, idx, sub.key) && SubTree(sub, side).Nil?
    requires PathBst(p) && Fits(p, idx) && forall x | x in Keys(sub) :: Fits(p, x)
    ensures var sub' := Join(side, Branch(Nil, idx, Nil), sub.key, SubTree(sub, Flip(side)));
      && IsBst(sub') && Keys(sub') == Keys(sub) + {idx} && Count(sub') == Count(sub) + 1
      && sub'.key == sub.key && forall x | x in Keys(sub') :: Fits(p, x)
  {
    SubTreeKeys(sub, side);
    var sub' := Join(side, Branch(Nil, idx, Nil), sub.key, SubTree(sub, Flip(side)));
    assert Keys(sub') == Keys(sub) + {idx};
    assert IsBst(sub');
  }

  /** The two records written by the leaf attachment represent the grown subtree. */
  lemma AttachRepr(s: seq<Node>, s': seq<Node>, sub: Tree, idx: nat, side: Side)
    requires sub.Branch? && Represents(s, sub) && IsBst(sub) && idx !in Keys(sub) && SubTree(sub, side).Nil?
    requires idx < |s| && s[idx].left.None? && s[idx].right.None?
    requires SameExcept(s, s', {sub.key, idx}) && sub.key < |s|
    requires s'[sub.key] == WithChild(s[sub.key], side, Some(idx)).(size := s[sub.key].size + 1)
    requires s'[idx] == s[idx].(size := 1)
    ensures Represents(s', Join(side, Branch(Nil, idx, Nil), sub.key, SubTree(sub, Flip(side))))
  {
    var k := sub.key;
    var sib := SubTree(sub, Flip(side));
    SubTreeKeys(sub, side);
    SubTreeRepr(s, sub, side);
    RepresentsFrame(s, s', sib, {k, idx});
    var leaf := Branch(Nil, idx, Nil);
    assert Represents(s', leaf);
  }

  /** `*root = rotate(*root)`: the child on `side` is raised to the slot. */
  lemma InsertLift(s: seq<Node>, s1: seq<Node>, s2: seq<Node>, p: Path, sub: Tree, idx: nat, side: Side, xs: set<nat>)
    requires InsertInv(s, p, sub, idx) && SubTree(sub, side).Branch?
    requires xs <= Keys(sub) && SameExcept(s, s1, xs)
    requires Represents(s1, Lift(sub, side))
    requires SlotWritten(s1, s2, p, RootOf(Lift(sub, side)))
    ensures InsertInv(s2, p, Lift(sub, side), idx) && Keys(Lift(sub, side)) == Keys(sub)
    ensures SameExcept(s, s2, Keys(sub) + PathKeys(p))
  {
    LiftOk(sub, side);
    InsertReplaced(s, s1, s2, p, sub, Lift(sub, side), idx, xs);
  }

  /**
   * The slot of `p` now holds `l`, a search tree with the keys and the count of
   * `sub`, whose records were rewritten only inside `sub`: the insert invariant
   * holds for `l`.
   */
  lemma InsertReplaced(s: seq<Node>, s1: seq<Node>, s2: seq<Node>, p: Path, sub: Tree, l: Tree, idx: nat, xs: set<nat>)
    requires InsertInv(s, p, sub, idx)
    requires l.Branch? && IsBst(l) && Keys(l) == Keys(sub) && Count(l) == Count(sub)
    requires xs <= Keys(sub) && SameExcept(s, s1, xs) && Represents(s1, l)
    requires SlotWritten(s1, s2, p, RootOf(l))
    ensures InsertInv(s2, p, l, idx)
    ensures SameExcept(s, s2, Keys(sub) + PathKeys(p))
  {
    ReplacedRepr(s, s1, s2, p, sub, l, xs);
    FitsOutsidePath(p, idx);
    assert s2[idx] == s[idx];
    InsertInvKeep(s, s2, p, sub, l, idx);
  }

  /** The arena half of `InsertReplaced`: the path and `l` are represented. */
  lemma ReplacedRepr(s: seq<Node>, s1: seq<Node>, s2: seq<Node>, p: Path, sub: Tree, l: Tree, xs: set<nat>)
    requires PathBst(p) && PathRepr(s, p, RootOf(sub), Count(sub) + 1)
    requires forall x | x in Keys(sub) :: Fits(p, x)
    requires Keys(l) == Keys(sub)
    requires xs <= Keys(sub) && SameExcept(s, s1, xs) && Represents(s1, l)
    requires SlotWritten(s1, s2, p, RootOf(l))
    ensures PathRepr(s2, p, RootOf(l), Count(sub) + 1) && Represents(s2, l)
    ensures SameExcept(s, s2, Keys(sub) + PathKeys(p))
  {
    FitsAllOutside(p, sub);
    SubsetApart(xs, Keys(sub), PathKeys(p));
    assert Keys(l) !! PathKeys(p);
    Replace(s, s1, s2, p, RootOf(sub), Count(sub) + 1, l, xs);
    SameExceptTrans(s, s1, s2, xs, PathKeys(p), Keys(sub) + PathKeys(p));
  }

  lemma SubsetApart(xs: set<nat>, ys: set<nat>, zs: set<nat>)
    requires xs <= ys && ys !! zs
    ensures xs !! zs
  {
  }

  /** The subtree after its child on `side` had its inner grandchild raised. */
  function InnerLifted(sub: Tree, side: Side): Tree
    requires sub.Branch? && SubTree(sub, side).Branch? && SubTree(SubTree(sub, side), Flip(side)).Branch?
  {
    Join(side, Lift(SubTree(sub, side), Flip(side)), sub.key, SubTree(sub, Flip(side)))
  }

  lemma InnerLiftedShape(sub: Tree, side: Side)
    requires sub.Branch? && SubTree(sub, side).Branch? && SubTree(SubTree(sub, side), Flip(side)).Branch?
    ensures var m := InnerLifted(sub, side);
      m.Branch? && Keys(m) == Keys(sub) && Count(m) == Count(sub) && m.key == sub.key &&
      RootOf(m) == Some(sub.key) && SubTree(m, side).Branch? && (IsBst(sub) ==> IsBst(m))
  {
    var child, sib := SubTree(sub, side), SubTree(sub, Flip(side));
    var c' := Lift(child, Flip(side));
    SubTreeKeys(sub, side);
    LiftOk(child, Flip(side));
    var m := Join(side, c', sub.key, sib);
    assert Keys(m) == Keys(c') + {sub.key} + Keys(sib);
    assert Count(m) == Count(c') + 1 + Count(sib);
  }

  /** The insert invariant carries over to a rearranged subtree of the same keys, once it is in place. */
  lemma InsertInvKeep(s: seq<Node>, s2: seq<Node>, p: Path, sub: Tree, m: Tree, idx: nat)
    requires InsertInv(s, p, sub, idx)
    requires m.Branch? && Represents(s2, m) && IsBst(m) && Keys(m) == Keys(sub) && Count(m) == Count(sub)
    requires PathRepr(s2, p, RootOf(m), Count(sub) + 1)
    requires |s2| == |s| && s2[idx] == s[idx]
    ensures InsertInv(s2, p, m, idx)
  {
  }

  /** After the inner rotation and the write of the new child, the arena holds `InnerLifted`. */
  lemma InnerLiftRepr(s: seq<Node>, s1: seq<Node>, s2: seq<Node>, sub: Tree, side: Side, xs: set<nat>)
    requires sub.Branch? && Represents(s, sub) && IsBst(sub) && SubTree(sub, side).Branch?
    requires SubTree(SubTree(sub, side), Flip(side)).Branch?
    requires xs <= Keys(SubTree(sub, side)) && SameExcept(s, s1, xs)
    requires Represents(s1, Lift(SubTree(sub, side), Flip(side)))
    requires SameExcept(s1, s2, {sub.key}) && sub.key < |s1|
    requires s2[sub.key] == WithChild(s1[sub.key], side, RootOf(Lift(SubTree(sub, side), Flip(side))))
    ensures Represents(s2, InnerLifted(sub, side))
  {
    var k := sub.key;
    var child, sib := SubTree(sub, side), SubTree(sub, Flip(side));
    var c' := Lift(child, Flip(side));
    SubTreeKeys(sub, side);
    SubTreeRepr(s, sub, side);
    LiftOk(child, Flip(side));
    assert k !in xs && k !in Keys(c') && k !in Keys(sib) && xs !! Keys(sib);
    RepresentsFrame(s1, s2, c', {k});
    RepresentsFrame(s, s1, sib, xs);
    RepresentsFrame(s1, s2, sib, {k});
    WithChildJoin(side, RootOf(child), RootOf(sib), Count(sub), RootOf(c'));
    JoinRepr(s2, side, c', k, sib);
  }

  /** `*child = rotate(*child)`: inside the child on `side`, its inner grandchild is raised. */
  lemma InsertInnerLift(s: seq<Node>, s1: seq<Node>, s2: seq<Node>, p: Path, sub: Tree, idx: nat, side: Side, xs: set<nat>)
    requires InsertInv(s, p, sub, idx) && SubTree(sub, side).Branch?
    requires SubTree(SubTree(sub, side), Flip(side)).Branch?
    requires xs <= Keys(SubTree(sub, side)) && SameExcept(s, s1, xs)
    requires Represents(s1, Lift(SubTree(sub, side), Flip(side)))
    requires SameExcept(s1, s2, {sub.key}) && sub.key < |s1|
    requires s2[sub.key] == WithChild(s1[sub.key], side, RootOf(Lift(SubTree(sub, side), Flip(side))))
    ensures InsertInv(s2, p, InnerLifted(sub, side), idx)
  {
    SubTreeKeys(sub, side);
    InnerLiftedShape(sub, side);
    InnerLiftRepr(s, s1, s2, sub, side, xs);
    RewrittenInside(s, s1, s2, p, sub, xs);
    assert s2[idx] == s[idx];
    InsertInvKeep(s, s2, p, sub, InnerLifted(sub, side), idx);
  }

  /**
   * Records rewritten inside `sub` (the set `xs`, then its root) leave the path
   * above it represented.
   */
  lemma RewrittenInside(s: seq<Node>, s1: seq<Node>, s2: seq<Node>, p: Path, sub: Tree, xs: set<nat>)
    requires sub.Branch? && PathBst(p) && PathRepr(s, p, RootOf(sub), Count(sub) + 1)
    requires forall x | x in Keys(sub) :: Fits(p, x)
    requires xs <= Keys(sub) && SameExcept(s, s1, xs) && SameExcept(s1, s2, {sub.key})
    ensures PathRepr(s2, p, RootOf(sub), Count(sub) + 1)
    ensures SameExcept(s, s2, Keys(sub))
  {
    assert sub.key in Keys(sub);
    SameExceptTrans(s, s1, s2, xs, {sub.key}, Keys(sub));
    FitsAllOutside(p, sub);
    PathReprFrame(s, s2, p, RootOf(sub), Count(sub) + 1, Keys(sub));
  }

  /** The tree of the special case: `idx` over the child on `side` and the leaf `sub.key`. */
  function Spliced(sub: Tree, idx: nat, side: Side): Tree
    requires sub.Branch?
  {
    Join(side, SubTree(sub, side), idx, Branch(Nil, sub.key, Nil))
  }

  /** The spliced tree is a search tree, of one key more, all fitting the path. */
  lemma SpliceShape(p: Path, sub: Tree, idx: nat, side: Side)
    requires sub.Branch? && IsBst(sub) && idx !in Keys(sub) && Toward(side, idx, sub.key)
    requires SubTree(sub, side).Branch? && Toward(Flip(side), idx, SubTree(sub, side).key)
    requires SubTree(SubTree(sub, side), Flip(side)).Nil? && SubTree(sub, Flip(side)).Nil?
    requires PathBst(p) && Fits(p, idx) && forall x | x in Keys(sub) :: Fits(p, x)
    ensures IsBst(Spliced(sub, idx, side)) && Keys(Spliced(sub, idx, side)) == Keys(sub) + {idx}
    ensures Count(Spliced(sub, idx, side)) == Count(sub) + 1
    ensures forall x | x in Keys(Spliced(sub, idx, side)) :: Fits(p, x)
  {
    var c := SubTree(sub, side);
    SubTreeKeys(sub, side);
    SubTreeKeys(c, Flip(side));
    var sp := Spliced(sub, idx, side);
    assert Keys(sp) == Keys(c) + {idx} + {sub.key};
  }

  /** After the two writes of the special case the arena holds the spliced tree. */
  lemma SpliceRepr(s: seq<Node>, s1: seq<Node>, sub: Tree, idx: nat, side: Side)
    requires sub.Branch? && Represents(s, sub) && IsBst(sub) && idx !in Keys(sub) && idx < |s|
    requires SubTree(sub, side).Branch? && SubTree(sub, Flip(side)).Nil?
    requires SameExcept(s, s1, {sub.key, idx}) && sub.key < |s|
    requires s1[idx] == JoinNode(side, Some(SubTree(sub, side).key), Some(sub.key), Count(SubTree(sub, side)) + 2)
    requires s1[sub.key] == WithChild(s[sub.key], side, None).(size := 1)
    ensures Represents(s1, Spliced(sub, idx, side))
  {
    var k := sub.key;
    var c := SubTree(sub, side);
    SubTreeKeys(sub, side);
    SubTreeRepr(s, sub, side);
    assert k !in Keys(c) && idx !in Keys(c);
    RepresentsFrame(s, s1, c, {k, idx});
    var leaf := Branch(Nil, k, Nil);
    WithChildJoin(side, RootOf(c), None, Count(sub), None);
    assert JoinNode(side, None, None, Count(sub)).(size := 1) == Node(None, None, 1);
    assert s1[k] == Node(None, None, 1);
    assert Represents(s1, leaf);
    assert RootOf(c) == Some(c.key) && RootOf(leaf) == Some(k) && Count(leaf) == 1;
    JoinRepr(s1, side, c, idx, leaf);
  }

  /**
   * The special case of insert_impl with no grandchild and no sibling: `idx`
   * becomes the subtree root with the former child and root as its children.
   */
  lemma InsertSplice(s: seq<Node>, s1: seq<Node>, s2: seq<Node>, p: Path, sub: Tree, idx: nat, side: Side)
    requires InsertInv(s, p, sub, idx) && Toward(side, idx, sub.key)
    requires SubTree(sub, side).Branch? && Toward(Flip(side), idx, SubTree(sub, side).key)
    requires SubTree(SubTree(sub, side), Flip(side)).Nil? && SubTree(sub, Flip(side)).Nil?
    requires SameExcept(s, s1, {sub.key, idx}) && sub.key < |s|
    requires s1[idx] == JoinNode(side, Some(SubTree(sub, side).key), Some(sub.key), Count(SubTree(sub, side)) + 2)
    requires s1[sub.key] == WithChild(s[sub.key], side, None).(size := 1)
    requires SlotWritten(s1, s2, p, Some(idx))
    ensures var sp := Join(side, SubTree(sub, side), idx, Branch(Nil, sub.key, Nil));
      Settled(s2, p, sp) && Keys(sp) == Keys(sub) + {idx}
    ensures SameExcept(s, s2, {sub.key, idx} + PathKeys(p))
  {
    var k := sub.key;
    SpliceShape(p, sub, idx, side);
    SpliceRepr(s, s1, sub, idx, side);
    var sp := Spliced(sub, idx, side);
    assert k in Keys(sub) && RootOf(sub) == Some(k);
    assert Count(sp) == Count(sub) + 1;
    SettleReplaced(s, s1, s2, p, Some(k), sp, {k, idx});
  }

  /**
   * A search subtree `l` fitting the path, built by rewriting records of its own keys
   * and written into the slot of `p`, settles the insert with the ancestors as counted.
   */
  lemma SettleReplaced(s: seq<Node>, s1: seq<Node>, s2: seq<Node>, p: Path, before: Option<nat>, l: Tree, xs: set<nat>)
    requires PathBst(p) && PathRepr(s, p, before, Count(l))
    requires IsBst(l) && Represents(s1, l) && forall x | x in Keys(l) :: Fits(p, x)
    requires xs <= Keys(l) && SameExcept(s, s1, xs)
    requires SlotWritten(s1, s2, p, RootOf(l))
    ensures Settled(s2, p, l) && SameExcept(s, s2, xs + PathKeys(p))
  {
    FitsAllOutside(p, l);
    SubsetApart(xs, Keys(l), PathKeys(p));
    Replace(s, s1, s2, p, before, Count(l), l, xs);
    SameExceptTrans(s, s1, s2, xs, PathKeys(p), xs + PathKeys(p));
  }

  /** A single rotation shortens the search path of a key headed further outwards. */
  lemma LiftDepth(t: Tree, side: Side, x: nat)
    requires t.Branch? && IsBst(t) && SubTree(t, side).Branch? && x !in Keys(t)
    requires Toward(side, x, SubTree(t, side).key)
    ensures SearchDepth(Lift(t, side), x) < SearchDepth(t, x)
  {
    SubTreeKeys(t, side);
  }

  /** The double rotation shortens the search path of a key headed into the inner grandchild. */
  lemma DoubleLiftDepth(t: Tree, side: Side, x: nat)
    requires t.Branch? && IsBst(t) && x !in Keys(t)
    requires SubTree(t, side).Branch? && SubTree(SubTree(t, side), Flip(side)).Branch?
    requires Toward(side, x, t.key) && Toward(Flip(side), x, SubTree(t, side).key)
    ensures SubTree(InnerLifted(t, side), side).Branch?
    ensures SearchDepth(Lift(InnerLifted(t, side), side), x) < SearchDepth(t, x)
  {
    SubTreeKeys(t, side);
    SubTreeKeys(SubTree(t, side), Flip(side));
  }

  // ---------------------------------------------------------------------------
  // remove_impl and detach_node

  /** Taking one off the size at the current node and moving to its child keeps the remove invariant. */
  lemma RemoveDescend(s: seq<Node>, s': seq<Node>, p: Path, sub: Tree, idx: nat, side: Side)
    requires RemoveInv(s, p, sub, idx) && Toward(side, idx, sub.key)
    requires SameExcept(s, s', {sub.key}) && sub.key < |s|
    requires s'[sub.key] == s[sub.key].(size := SaturatingDec(s[sub.key].size))
    ensures var p' := Frame(side, sub.key, SubTree(sub, Flip(side)), p);
      SubTree(sub, side).Branch? && RemoveInv(s', p', SubTree(sub, side), idx) &&
      Plug(p', SubTree(sub, side)) == Plug(p, sub)
    ensures Child(s'[sub.key], side) == RootOf(SubTree(sub, side))
  {
    var k := sub.key;
    var child, sib := SubTree(sub, side), SubTree(sub, Flip(side));
    SubTreeKeys(sub, side);
    SubTreeRepr(s, sub, side);
    assert s'[k] == s[k].(size := Count(sub) - 1);
    FrameBst(p, sub, side);
    DescendRepr(s, s', p, sub, side, Count(sub) - 1, Count(child) - 1);
  }


  /**
   * The parent of the found node holds it in the child field on the path's side and
   * not in the other one (which holds the sibling, ordered the other way).
   */
  lemma ParentSide(s: seq<Node>, p: Path, sub: Tree, idx: nat)
    requires RemoveInv(s, p, sub, idx) && p.Frame?
    ensures p.key < |s| && Child(s[p.key], p.side) == Some(sub.key)
    ensures Child(s[p.key], Flip(p.side)) != Some(sub.key)
  {
    var sib := p.sibling;
    assert Child(s[p.key], Flip(p.side)) == RootOf(sib);
    if sib.Branch? {
      assert sib.key in Keys(sib);
      assert Toward(Flip(p.side), sib.key, p.key);
      assert sub.key in Keys(sub);
      assert Toward(p.side, sub.key, p.key);
    }
  }

  /** Removing one key from a search tree leaves one node fewer. */
  lemma RemoveCount(sub: Tree, rep: Tree)
    requires sub.Branch? && IsBst(sub) && IsBst(rep) && Keys(rep) == Keys(sub) - {sub.key}
    ensures Count(rep) == Count(sub) - 1
  {
    BstCount(sub);
    BstCount(rep);
    assert Keys(sub) == Keys(rep) + {sub.key};
  }

  /** The found node's replacement is written into the slot that pointed at it. */
  lemma RemoveClose(s: seq<Node>, s1: seq<Node>, s2: seq<Node>, p: Path, sub: Tree, rep: Tree, xs: set<nat>)
    requires sub.Branch? && RemoveInv(s, p, sub, sub.key)
    requires SameExcept(s, s1, xs) && xs <= Keys(sub)
    requires Represents(s1, rep) && IsBst(rep) && Keys(rep) == Keys(sub) - {sub.key}
    requires SlotWritten(s1, s2, p, RootOf(rep))
    ensures Settled(s2, p, rep)
  {
    RemoveCount(sub, rep);
    FitsAllOutside(p, sub);
    Replace(s, s1, s2, p, Some(sub.key), Count(sub) - 1, rep, xs);
  }

  lemma SuccessorKeys(l: Tree, k: nat, r: Tree, m: nat, r': Tree)
    requires m in Keys(r) && k !in Keys(l) && k !in Keys(r) && Keys(r') == Keys(r) - {m}
    ensures Keys(Branch(l, m, r')) == Keys(Branch(l, k, r)) - {k}
  {
  }

  /**
   * Two children: the leftmost node `m` of the right subtree, already detached
   * from it (leaving `r'`), takes the removed node's place.
   */
  lemma ReplaceWithSuccessor(s1: seq<Node>, s2: seq<Node>, sub: Tree, m: nat, r': Tree)
    requires sub.Branch? && IsBst(sub) && sub.left.Branch? && sub.right.Branch? && m == Leftmost(sub.right)
    requires Represents(s1, sub.left) && Represents(s1, r') && IsBst(r') && Keys(r') == Keys(sub.right) - {m}
    requires SameExcept(s1, s2, {m}) && m < |s1|
    requires s2[m] == Node(Some(sub.left.key), RootOf(r'), Count(sub.left) + Count(r') + 1)
    ensures var rep := Branch(sub.left, m, r');
      Represents(s2, rep) && IsBst(rep) && Keys(rep) == Keys(sub) - {sub.key}
  {
    var l, k, r := sub.left, sub.key, sub.right;
    var rep := Branch(l, m, r');
    LeftmostIsMin(r);
    assert m in Keys(r) && k < m && m !in Keys(l);
    RepresentsFrame(s1, s2, l, {m});
    RepresentsFrame(s1, s2, r', {m});
    assert Represents(s2, rep);
    forall x | x in Keys(l)
      ensures x < m
    {
      assert x < k;
    }
    forall x | x in Keys(r')
      ensures m < x
    {
      assert x in Keys(r) && x != m;
    }
    assert IsBst(rep);
    SuccessorKeys(l, k, r, m, r');
  }

  /**
   * `set_left(leftmost, ..)` then `set_right(leftmost, ..)`: only the successor's
   * record changed, and the sizes of the two subtrees it now holds are still theirs.
   */
  lemma SuccessorLinks(s1: seq<Node>, s2: seq<Node>, s3: seq<Node>, sub: Tree, m: nat, r': Tree)
    requires sub.Branch? && IsBst(sub) && sub.left.Branch? && sub.right.Branch? && m == Leftmost(sub.right)
    requires Represents(s1, sub.left) && Represents(s1, r') && Keys(r') == Keys(sub.right) - {m}
    requires m < |s1| && s2 == s1[m := s1[m].(left := Some(sub.left.key))]
    requires s3 == s2[m := s2[m].(right := RootOf(r'))]
    ensures SameExcept(s1, s3, {m}) && s3[m] == s1[m].(left := Some(sub.left.key), right := RootOf(r'))
    ensures sub.left.key < |s3| && s3[sub.left.key].size == Count(sub.left)
    ensures r'.Branch? ==> r'.key < |s3| && s3[r'.key].size == Count(r')
  {
    var l := sub.left.key;
    LeftmostIsMin(sub.right);
    assert l in Keys(sub.left) && m in Keys(sub.right);
    assert l < sub.key < m;
    assert s3[l] == s1[l];
    if r'.Branch? {
      assert r'.key in Keys(r') && r'.key != m;
      assert s3[r'.key] == s1[r'.key];
    }
  }

  /** `set_size(leftmost, ..)` completes the successor: the subtree without `sub.key`. */
  lemma SuccessorSized(s1: seq<Node>, s3: seq<Node>, s4: seq<Node>, sub: Tree, m: nat, r': Tree, size: nat)
    requires sub.Branch? && IsBst(sub) && sub.left.Branch? && sub.right.Branch? && m == Leftmost(sub.right)
    requires Represents(s1, sub.left) && Represents(s1, r') && IsBst(r') && Keys(r') == Keys(sub.right) - {m}
    requires m < |s1| && SameExcept(s1, s3, {m}) && s3[m].left == Some(sub.left.key) && s3[m].right == RootOf(r')
    requires size == Count(sub.left) + Count(r') + 1 && s4 == s3[m := s3[m].(size := size)]
    ensures var rep := Branch(sub.left, m, r');
      Represents(s4, rep) && IsBst(rep) && Keys(rep) == Keys(sub) - {sub.key}
    ensures SameExcept(s1, s4, {m})
  {
    assert s4[m] == Node(Some(sub.left.key), RootOf(r'), Count(sub.left) + Count(r') + 1);
    ReplaceWithSuccessor(s1, s4, sub, m, r');
  }

  /** When the right child is itself leftmost, what is left of the right subtree is its right subtree. */
  lemma LeftmostIsRoot(t: Tree)
    requires t.Branch? && IsBst(t) && t.left.Nil?
    ensures Leftmost(t) == t.key && Keys(t.right) == Keys(t) - {t.key}
  {
  }

  // ---------------------------------------------------------------------------
  // Closing the loops

  /** The finished insert: the whole tree gains `idx` and its root is the root variable. */
  lemma InsertFinish(s: seq<Node>, p: Path, sub: Tree, sub': Tree, idx: nat, t: Tree, root: nat)
    requires Settled(s, p, sub') && Keys(sub') == Keys(sub) + {idx} && sub'.Branch?
    requires Keys(sub) + PathKeys(p) == Keys(t)
    requires p.Top? ==> sub'.key == root
    requires p.Frame? ==> RootOf(Plug(p, sub)) == Some(root)
    ensures Represents(s, Plug(p, sub')) && IsBst(Plug(p, sub'))
    ensures RootOf(Plug(p, sub')) == Some(root) && Keys(Plug(p, sub')) == Keys(t) + {idx}
  {
    SettleTree(s, p, sub');
    if p.Frame? {
      PlugRoot(p, sub, sub');
    }
  }

  /** Represents after a rotation, from the two records the rotation rewrote. */
  /** In a search tree the two keys a rotation rewrites are in none of the three subtrees it moves. */
  lemma LiftKeysApart(t: Tree, side: Side)
    requires t.Branch? && IsBst(t) && SubTree(t, side).Branch?
    ensures var c := SubTree(t, side);
      && t.key != c.key
      && t.key !in Keys(SubTree(c, side)) && c.key !in Keys(SubTree(c, side))
      && t.key !in Keys(SubTree(c, Flip(side))) && c.key !in Keys(SubTree(c, Flip(side)))
      && t.key !in Keys(SubTree(t, Flip(side))) && c.key !in Keys(SubTree(t, Flip(side)))
    ensures var c := SubTree(t, side);
      Count(t) == Count(SubTree(c, side)) + 1 + (Count(SubTree(c, Flip(side))) + 1 + Count(SubTree(t, Flip(side))))
  {
    var c := SubTree(t, side);
    SubTreeKeys(t, side);
    SubTreeKeys(c, side);
    assert Toward(side, c.key, t.key);
  }

  lemma LiftRepr(s: seq<Node>, s': seq<Node>, t: Tree, side: Side)
    requires t.Branch? && IsBst(t) && Represents(s, t) && SubTree(t, side).Branch?
    requires SameExcept(s, s', {t.key, SubTree(t, side).key})
    requires var c := SubTree(t, side);
      c.key < |s'| && s'[c.key] == JoinNode(side, RootOf(SubTree(c, side)), Some(t.key), Count(t))
    requires var c := SubTree(t, side);
      t.key < |s'| &&
      s'[t.key] == JoinNode(side, RootOf(SubTree(c, Flip(side))), RootOf(SubTree(t, Flip(side))),
                            Count(SubTree(c, Flip(side))) + Count(SubTree(t, Flip(side))) + 1)
    ensures Represents(s', Lift(t, side))
  {
    var k, c := t.key, SubTree(t, side);
    var outer, inner, sib := SubTree(c, side), SubTree(c, Flip(side)), SubTree(t, Flip(side));
    LiftKeysApart(t, side);
    SubTreeRepr(s, t, side);
    SubTreeRepr(s, c, side);
    RepresentsFrame2(s, s', outer, k, c.key);
    RepresentsFrame2(s, s', inner, k, c.key);
    RepresentsFrame2(s, s', sib, k, c.key);
    var low := Join(side, inner, k, sib);
    JoinRepr(s', side, inner, k, sib);
    JoinRepr(s', side, outer, c.key, low);
    assert Lift(t, side) == Join(side, outer, c.key, low);
  }

  /** The size stored at the child on `side` of record `idx`; 0 without one. */
  function ChildSize(s: seq<Node>, idx: nat, side: Side): nat
    requires idx < |s|
  {
    match Child(s[idx], side)
    case None => 0
    case Some(c) => if c < |s| then s[c].size else 0
  }

  /** The size stored at the root of a represented tree is its node count. */
  lemma RootSize(s: seq<Node>, t: Tree, idx: nat, side: Side)
    requires Represents(s, t) && idx < |s| && Child(s[idx], side) == RootOf(t)
    ensures ChildSize(s, idx, side) == Count(t)
  {
  }

  /** Overwriting the child opposite `side` of a joined record. */
  lemma WithSiblingJoin(side: Side, c: Option<nat>, sib: Option<nat>, n: nat, v: Option<nat>)
    ensures WithChild(JoinNode(side, c, sib, n), Flip(side), v) == JoinNode(side, c, v, n)
  {
  }

  /** The record of the raised child `c` after the rotation's writes. */
  lemma LiftRaisedRecord(s0: seq<Node>, rc: Node, t: Tree, side: Side)
    requires t.Branch? && IsBst(t) && Represents(s0, t) && SubTree(t, side).Branch?
    requires SubTree(t, side).key < |s0|
    requires rc == WithChild(s0[SubTree(t, side).key], Flip(side), Some(t.key)).(size := Count(t))
    ensures rc == JoinNode(side, RootOf(SubTree(SubTree(t, side), side)), Some(t.key), Count(t))
  {
    var c := SubTree(t, side);
    SubTreeRepr(s0, t, side);
    SubTreeRepr(s0, c, side);
    WithSiblingJoin(side, RootOf(SubTree(c, side)), RootOf(SubTree(c, Flip(side))), Count(c), Some(t.key));
  }

  /** The links of the lowered root `k` once it takes the raised child's inner subtree. */
  lemma LiftLoweredLinks(s0: seq<Node>, t: Tree, side: Side)
    requires t.Branch? && Represents(s0, t) && SubTree(t, side).Branch?
    requires t.key < |s0| && SubTree(t, side).key < |s0|
    ensures WithChild(s0[t.key], side, Child(s0[SubTree(t, side).key], Flip(side)))
      == JoinNode(side, RootOf(SubTree(SubTree(t, side), Flip(side))), RootOf(SubTree(t, Flip(side))), Count(t))
  {
    var c := SubTree(t, side);
    SubTreeRepr(s0, t, side);
    SubTreeRepr(s0, c, side);
    WithChildJoin(side, Some(c.key), RootOf(SubTree(t, Flip(side))), Count(t), RootOf(SubTree(c, Flip(side))));
  }

  /** The children of the lowered root `k` are untouched subtrees, so their sizes are their counts. */
  lemma LiftLoweredSize(s0: seq<Node>, s3: seq<Node>, t: Tree, side: Side)
    requires t.Branch? && IsBst(t) && Represents(s0, t) && SubTree(t, side).Branch?
    requires SameExcept(s0, s3, {t.key, SubTree(t, side).key}) && t.key < |s3|
    requires s3[t.key] == JoinNode(side, RootOf(SubTree(SubTree(t, side), Flip(side))), RootOf(SubTree(t, Flip(side))), Count(t))
    ensures ChildSize(s3, t.key, Left) + ChildSize(s3, t.key, Right)
      == Count(SubTree(SubTree(t, side), Flip(side))) + Count(SubTree(t, Flip(side)))
  {
    var k, c := t.key, SubTree(t, side);
    var inner, sib := SubTree(c, Flip(side)), SubTree(t, Flip(side));
    SubTreeKeys(t, side);
    SubTreeKeys(c, Flip(side));
    SubTreeRepr(s0, t, side);
    SubTreeRepr(s0, c, side);
    assert k !in Keys(inner) && c.key !in Keys(inner) && k !in Keys(sib) && c.key !in Keys(sib);
    RepresentsFrame(s0, s3, inner, {k, c.key});
    RepresentsFrame(s0, s3, sib, {k, c.key});
    RootSize(s3, inner, k, side);
    RootSize(s3, sib, k, Flip(side));
  }

  /**
   * The four writes of a rotation raising the child `c` on `side` of `k`: `k` takes
   * `c`'s inner child, `c` takes `k` as its other child and `k`'s size, and `k`'s
   * size is recomputed from its children. The records then hold the rotated tree.
   */
  lemma LiftWrites(s0: seq<Node>, s1: seq<Node>, s2: seq<Node>, s3: seq<Node>, s4: seq<Node>, t: Tree, side: Side)
    requires t.Branch? && IsBst(t) && Represents(s0, t) && SubTree(t, side).Branch?
    requires t.key < |s0| && SubTree(t, side).key < |s0|
    requires s1 == s0[t.key := WithChild(s0[t.key], side, Child(s0[SubTree(t, side).key], Flip(side)))]
    requires s2 == s1[SubTree(t, side).key := WithChild(s1[SubTree(t, side).key], Flip(side), Some(t.key))]
    requires s3 == s2[SubTree(t, side).key := s2[SubTree(t, side).key].(size := s0[t.key].size)]
    requires s4 == s3[t.key := s3[t.key].(size := ChildSize(s3, t.key, Left) + ChildSize(s3, t.key, Right) + 1)]
    ensures Represents(s4, Lift(t, side)) && SameExcept(s0, s4, {t.key, SubTree(t, side).key})
  {
    var k, c := t.key, SubTree(t, side).key;
    SubTreeKeys(t, side);
    assert k != c && s0[k].size == Count(t);
    assert s4[c] == WithChild(s0[c], Flip(side), Some(k)).(size := Count(t));
    LiftRaisedRecord(s0, s4[c], t, side);
    LiftLoweredLinks(s0, t, side);
    assert SameExcept(s0, s3, {k, c});
    LiftLoweredSize(s0, s3, t, side);
    LiftRepr(s0, s4, t, side);
  }

  /**
   * `*child = rotate(*child)` in the insert loop: the loop state holds for the
   * subtree whose child on `side` had its inner grandchild raised.
   */
  lemma RaiseInnerState(s1: seq<Node>, s2: seq<Node>, s3: seq<Node>, root: nat, slot: Slot, p: Path, sub: Tree,
                        t: Tree, idx: nat, side: Side)
    requires InsertState(s1, root, slot, p, sub, t, idx) && SubTree(sub, side).Branch?
    requires SubTree(SubTree(sub, side), Flip(side)).Branch?
    requires SameExcept(s1, s2, {SubTree(sub, side).key, SubTree(SubTree(sub, side), Flip(side)).key})
    requires Represents(s2, Lift(SubTree(sub, side), Flip(side))) && sub.key < |s2|
    requires s3 == s2[sub.key := WithChild(s2[sub.key], side, Some(SubTree(SubTree(sub, side), Flip(side)).key))]
    ensures InsertState(s3, root, slot, p, InnerLifted(sub, side), t, idx)
    ensures SameExcept(s1, s3, Keys(sub))
  {
    var ch := SubTree(sub, side);
    var c, g := ch.key, SubTree(ch, Flip(side)).key;
    SubTreeKeys(sub, side);
    SubTreeKeys(ch, Flip(side));
    LiftOk(ch, Flip(side));
    assert SameExcept(s2, s3, {sub.key});
    InsertInnerLift(s1, s2, s3, p, sub, idx, side, {c, g});
    InnerLiftedShape(sub, side);
    SameExceptTrans(s1, s2, s3, {c, g}, {sub.key}, Keys(sub));
    if p.Frame? {
      PlugRoot(p, sub, InnerLifted(sub, side));
      SlotHolderOutside(p, sub);
      assert s3[p.key] == s1[p.key];
    }
  }

  /** The descent of the insert loop, on the records: the loop state moves one frame down. */
  lemma DescendState(s1: seq<Node>, s2: seq<Node>, root: nat, slot: Slot, p: Path, sub: Tree, t: Tree, idx: nat, side: Side)
    requires InsertState(s1, root, slot, p, sub, t, idx) && Toward(side, idx, sub.key) && SubTree(sub, side).Branch?
    requires sub.key < |s1| && s2 == s1[sub.key := s1[sub.key].(size := s1[sub.key].size + 1)]
    ensures var p' := Frame(side, sub.key, SubTree(sub, Flip(side)), p);
      InsertState(s2, root, ChildSlot(sub.key, side), p', SubTree(sub, side), t, idx) &&
      SearchDepth(SubTree(sub, side), idx) < SearchDepth(sub, idx)
    ensures SameExcept(s1, s2, {sub.key})
  {
    var k := sub.key;
    assert SameExcept(s1, s2, {k});
    InsertDescend(s1, s2, p, sub, idx, side);
    SubTreeKeys(sub, side);
    SubTreeRepr(s1, sub, side);
    assert Child(s2[k], side) == RootOf(SubTree(sub, side));
  }

  /** `*root = rotate(*root)` in the insert loop: the slot now holds the raised child. */
  lemma LiftState(s1: seq<Node>, s2: seq<Node>, s3: seq<Node>, root: nat, root': nat, slot: Slot, p: Path, sub: Tree,
                  t: Tree, idx: nat, side: Side)
    requires InsertState(s1, root, slot, p, sub, t, idx) && SubTree(sub, side).Branch?
    requires SameExcept(s1, s2, {sub.key, SubTree(sub, side).key}) && Represents(s2, Lift(sub, side))
    requires slot.RootSlot? ==> s3 == s2 && root' == SubTree(sub, side).key
    requires slot.ChildSlot? ==> root' == root && s3 == if slot.holder < |s2|
      then s2[slot.holder := WithChild(s2[slot.holder], slot.side, Some(SubTree(sub, side).key))] else s2
    ensures InsertState(s3, root', slot, p, Lift(sub, side), t, idx)
    ensures SameExcept(s1, s3, Keys(sub) + PathKeys(p))
  {
    var c := SubTree(sub, side).key;
    SubTreeKeys(sub, side);
    LiftOk(sub, side);
    if p.Frame? {
      assert p.key < |s2|;
      assert SlotWritten(s2, s3, p, RootOf(Lift(sub, side)));
      PlugRoot(p, sub, Lift(sub, side));
    }
    InsertLift(s1, s2, s3, p, sub, idx, side, {sub.key, c});
  }

  /** The empty child slot on `side` receives `idx` as a leaf: the insertion is complete. */
  lemma AttachState(s1: seq<Node>, s2: seq<Node>, s3: seq<Node>, s4: seq<Node>, root: nat, slot: Slot, p: Path,
                    sub: Tree, t: Tree, idx: nat, side: Side)
    requires InsertState(s1, root, slot, p, sub, t, idx) && Toward(side, idx, sub.key) && SubTree(sub, side).Nil?
    requires sub.key < |s1| && s2 == s1[sub.key := s1[sub.key].(size := s1[sub.key].size + 1)]
    requires idx < |s2| && s3 == s2[idx := s2[idx].(size := 1)]
    requires s4 == s3[sub.key := WithChild(s3[sub.key], side, Some(idx))]
    ensures InsertedIn(s4, root, t, Plug(p, Join(side, Branch(Nil, idx, Nil), sub.key, SubTree(sub, Flip(side)))), idx)
    ensures SameExcept(s1, s4, Keys(t) + {idx})
  {
    var k := sub.key;
    var sub' := Join(side, Branch(Nil, idx, Nil), k, SubTree(sub, Flip(side)));
    assert k != idx;
    assert SameExcept(s1, s4, {k, idx});
    assert s4[k] == WithChild(s1[k], side, Some(idx)).(size := s1[k].size + 1);
    assert s4[idx] == s1[idx].(size := 1);
    InsertAttach(s1, s4, p, sub, idx, side);
    InsertFinish(s4, p, sub, sub', idx, t, root);
    SameExceptWiden(s1, s4, {k, idx}, Keys(t) + {idx});
  }

  /** The case with no inner grandchild and no sibling: `idx` takes the slot and the insertion is complete. */
  lemma SpliceState(s1: seq<Node>, s2: seq<Node>, s3: seq<Node>, root: nat, root': nat, slot: Slot, p: Path,
                    sub: Tree, t: Tree, idx: nat, side: Side)
    requires InsertState(s1, root, slot, p, sub, t, idx) && Toward(side, idx, sub.key)
    requires SubTree(sub, side).Branch? && Toward(Flip(side), idx, SubTree(sub, side).key)
    requires SubTree(SubTree(sub, side), Flip(side)).Nil? && SubTree(sub, Flip(side)).Nil?
    requires SameExcept(s1, s2, {sub.key, idx}) && sub.key < |s1|
    requires s2[idx] == JoinNode(side, Some(SubTree(sub, side).key), Some(sub.key), Count(SubTree(sub, side)) + 2)
    requires s2[sub.key] == WithChild(s1[sub.key], side, None).(size := 1)
    requires slot.RootSlot? ==> s3 == s2 && root' == idx
    requires slot.ChildSlot? ==> root' == root && s3 == if slot.holder < |s2|
      then s2[slot.holder := WithChild(s2[slot.holder], slot.side, Some(idx))] else s2
    ensures InsertedIn(s3, root', t, Plug(p, Join(side, SubTree(sub, side), idx, Branch(Nil, sub.key, Nil))), idx)
    ensures SameExcept(s1, s3, Keys(t) + {idx})
  {
    var k := sub.key;
    var sp := Join(side, SubTree(sub, side), idx, Branch(Nil, k, Nil));
    if p.Frame? {
      assert p.key < |s2|;
      assert SlotWritten(s2, s3, p, Some(idx));
    }
    InsertSplice(s1, s2, s3, p, sub, idx, side);
    InsertFinish(s3, p, sub, sp, idx, t, root');
    SubTreeKeys(sub, side);
    SameExceptWiden(s1, s3, {k, idx} + PathKeys(p), Keys(t) + {idx});
  }

  /**
   * One pass of the search loop: with the size at `sub`'s root decremented, the
   * state moves one frame down toward `idx`, and the starting slot still holds the
   * whole tree.
   */
  lemma FindStepState(s1: seq<Node>, s2: seq<Node>, root: nat, top: Slot, current: Slot, parent: Slot, p: Path,
                      sub: Tree, whole: Tree, idx: nat, side: Side)
    requires RemoveState(s1, root, top, current, parent, p, sub, whole, idx) && sub.key != idx
    requires side == (if idx < sub.key then Left else Right)
    requires SlotIn(s1, root, top) == RootOf(whole)
    requires top.ChildSlot? ==> top.holder !in Keys(whole)
    requires sub.key < |s1| && s2 == s1[sub.key := s1[sub.key].(size := SaturatingDec(s1[sub.key].size))]
    ensures var p' := Frame(side, sub.key, SubTree(sub, Flip(side)), p);
      RemoveState(s2, root, top, ChildSlot(sub.key, side), current, p', SubTree(sub, side), whole, idx) &&
      PathKeys(p) + {sub.key} <= PathKeys(p')
    ensures SameExcept(s1, s2, {sub.key}) && SlotIn(s2, root, top) == RootOf(whole)
    ensures Count(SubTree(sub, side)) < Count(sub)
  {
    var k := sub.key;
    assert SameExcept(s1, s2, {k});
    PlugKeys(p, sub);
    assert k in Keys(whole);
    if top.ChildSlot? && top.holder < |s1| {
      assert s2[top.holder] == s1[top.holder];
    }
    if current.ChildSlot? && current.holder < |s1| {
      if p.Frame? {
        FitsOutsidePath(p, k);
      }
      assert s2[current.holder] == s1[current.holder];
    }
    RemoveDescend(s1, s2, p, sub, idx, side);
    SubTreeKeys(sub, side);
  }
}

/**
 * The abstract shape of a binary tree laid out in an arena of `Node` records, and
 * the zipper (`Path`) that the in-place insert and remove loops walk down.
 *
 * `Represents(s, t)` is the size invariant of the size-balanced tree: every key of
 * `t` has a record in `s` naming exactly its children's roots and holding exactly
 * the number of nodes of its subtree.
 */
module Shapes {
  import opened Wrappers
  import opened Nodes

  datatype Tree = Nil | Branch(left: Tree, key: nat, right: Tree)

  function Keys(t: Tree): set<nat> {
    match t
    case Nil => {}
    case Branch(l, k, r) => Keys(l) + {k} + Keys(r)
  }

  function Count(t: Tree): nat {
    match t
    case Nil => 0
    case Branch(l, _, r) => Count(l) + 1 + Count(r)
  }

  function RootOf(t: Tree): Option<nat> {
    if t.Nil? then None else Some(t.key)
  }

  /** Keys left of a node are smaller than it, keys right of it larger. */
  predicate IsBst(t: Tree) {
    match t
    case Nil => true
    case Branch(l, k, r) =>
      IsBst(l) && IsBst(r) &&
      (forall x | x in Keys(l) :: x < k) &&
      (forall x | x in Keys(r) :: k < x)
  }

  predicate Represents(s: seq<Node>, t: Tree) {
    match t
    case Nil => true
    case Branch(l, k, r) =>
      k < |s| && s[k] == Node(RootOf(l), RootOf(r), Count(t)) &&
      Represents(s, l) && Represents(s, r)
  }

  /** `s'` equals `s` except possibly at the indices in `xs`. */
  predicate SameExcept(s: seq<Node>, s': seq<Node>, xs: set<nat>) {
    |s'| == |s| && forall j {:trigger s'[j]} | 0 <= j < |s| && j !in xs :: s'[j] == s[j]
  }

  lemma SameExceptTrans(s: seq<Node>, s1: seq<Node>, s2: seq<Node>, xs: set<nat>, ys: set<nat>, zs: set<nat>)
    requires SameExcept(s, s1, xs) && SameExcept(s1, s2, ys) && xs + ys <= zs
    ensures SameExcept(s, s2, zs)
  {
  }

  lemma SameExceptWiden(s: seq<Node>, s1: seq<Node>, xs: set<nat>, zs: set<nat>)
    requires SameExcept(s, s1, xs) && xs <= zs
    ensures SameExcept(s, s1, zs)
  {
  }

  /** The outcome of the structural search for `x` that `Tree::contains` performs. */
  function Reaches(t: Tree, x: nat): bool {
    match t
    case Nil => false
    case Branch(l, k, r) =>
      if x < k then Reaches(l, x) else if k < x then Reaches(r, x) else true
  }

  /** Number of nodes the search for `x` visits before falling off or stopping. */
  function SearchDepth(t: Tree, x: nat): nat {
    match t
    case Nil => 0
    case Branch(l, k, r) =>
      1 + (if x < k then SearchDepth(l, x) else if k < x then SearchDepth(r, x) else 0)
  }

  /** The node reached by following left children from the root. */
  function Leftmost(t: Tree): nat
    requires t.Branch?
  {
    if t.left.Nil? then t.key else Leftmost(t.left)
  }

  /** The node reached by following right children from the root. */
  function Rightmost(t: Tree): nat
    requires t.Branch?
  {
    if t.right.Nil? then t.key else Rightmost(t.right)
  }

  function RotateRightShape(t: Tree): Tree
    requires t.Branch? && t.left.Branch?
  {
    Branch(t.left.left, t.left.key, Branch(t.left.right, t.key, t.right))
  }

  function RotateLeftShape(t: Tree): Tree
    requires t.Branch? && t.right.Branch?
  {
    Branch(Branch(t.left, t.key, t.right.left), t.right.key, t.right.right)
  }

  function Flip(side: Side): Side {
    if side == Left then Right else Left
  }

  /** `x` belongs on `side` of key `k`. */
  predicate Toward(side: Side, x: nat, k: nat) {
    if side == Left then x < k else k < x
  }

  /** The child subtree of `t` on `side`. */
  function SubTree(t: Tree, side: Side): Tree
    requires t.Branch?
  {
    if side == Left then t.left else t.right
  }

  /** The tree with root `k`, `t` on `side` and `sib` on the other side. */
  function Join(side: Side, t: Tree, k: nat, sib: Tree): Tree {
    if side == Left then Branch(t, k, sib) else Branch(sib, k, t)
  }

  /** The record of a node with child `c` on `side`, `sib` on the other side and size `n`. */
  function JoinNode(side: Side, c: Option<nat>, sib: Option<nat>, n: nat): Node {
    if side == Left then Node(c, sib, n) else Node(sib, c, n)
  }

  /** The rotation that raises the child on `side` to the root. */
  function Lift(t: Tree, side: Side): Tree
    requires t.Branch? && SubTree(t, side).Branch?
  {
    if side == Left then RotateRightShape(t) else RotateLeftShape(t)
  }

  /**
   * A zipper: the way from a subtree back up to the root. Each frame is an ancestor,
   * the side of it on which the subtree hangs and the subtree it keeps on the other.
   */
  datatype Path = Top | Frame(side: Side, key: nat, sibling: Tree, up: Path)

  function Plug(p: Path, t: Tree): Tree {
    match p
    case Top => t
    case Frame(side, k, sib, up) => Plug(up, Join(side, t, k, sib))
  }

  function PathKeys(p: Path): set<nat> {
    match p
    case Top => {}
    case Frame(_, k, sib, up) => {k} + Keys(sib) + PathKeys(up)
  }

  /** The `*mut T` slot through which the subtree at the bottom of `p` is reached. */
  function SlotOf(p: Path): Slot {
    match p
    case Top => RootSlot
    case Frame(side, k, _, _) => ChildSlot(k, side)
  }

  /** Reading through a `*mut T` slot in the records `s`; `root` is the caller's root variable. */
  function SlotIn(s: seq<Node>, root: nat, slot: Slot): Option<nat> {
    match slot
    case RootSlot => Some(root)
    case ChildSlot(h, side) => if h < |s| then Child(s[h], side) else None
  }

  /** `x` lies on the subtree's side of every ancestor in `p`. */
  predicate Fits(p: Path, x: nat) {
    match p
    case Top => true
    case Frame(side, k, _, up) => Toward(side, x, k) && Fits(up, x)
  }

  /** The ancestors of `p` and the subtrees they keep are ordered as in a search tree. */
  predicate PathBst(p: Path) {
    match p
    case Top => true
    case Frame(side, k, sib, up) =>
      IsBst(sib) && Fits(up, k) && PathBst(up) &&
      forall y | y in Keys(sib) :: Toward(Flip(side), y, k) && Fits(up, y)
  }

  /**
   * The records of the ancestors in `p`, for a subtree at the bottom whose root is
   * `child` and which holds (or is about to hold) `c` nodes.
   */
  predicate PathRepr(s: seq<Node>, p: Path, child: Option<nat>, c: nat) {
    match p
    case Top => true
    case Frame(side, k, sib, up) =>
      var n := 1 + c + Count(sib);
      k < |s| && Represents(s, sib) &&
      s[k] == JoinNode(side, child, RootOf(sib), n) &&
      PathRepr(s, up, Some(k), n)
  }

  // ---------------------------------------------------------------------------
  // Facts about the shape

  lemma {:induction false} KeysInArena(s: seq<Node>, t: Tree)
    requires Represents(s, t)
    ensures forall k | k in Keys(t) :: k < |s|
  {
    match t
    case Nil =>
    case Branch(l, _, r) =>
      KeysInArena(s, l);
      KeysInArena(s, r);
  }

  /** In a search tree no key repeats, so the node count is the number of keys. */
  lemma {:induction false} BstCount(t: Tree)
    requires IsBst(t)
    ensures Count(t) == |Keys(t)|
  {
    match t
    case Nil =>
    case Branch(l, k, r) =>
      BstCount(l);
      BstCount(r);
      forall x | x in Keys(l)
        ensures x !in Keys(r) && x != k
      {
        assert x < k;
      }
      assert k !in Keys(r);
      DisjointUnionSize(Keys(l), k, Keys(r));
  }

  /** Sizes add up over a union of disjoint sets around a key in neither. */
  lemma DisjointUnionSize(a: set<nat>, k: nat, b: set<nat>)
    requires a !! b && k !in a && k !in b
    ensures |a + {k} + b| == |a| + 1 + |b|
  {
    assert |a + b| == |a| + |b|;
    assert a + {k} + b == (a + b) + {k};
  }

  /** On a search tree the structural search succeeds exactly for the stored keys. */
  lemma {:induction false} ReachesIsMembership(t: Tree, x: nat)
    requires IsBst(t)
    ensures Reaches(t, x) <==> x in Keys(t)
  {
    match t
    case Nil =>
    case Branch(l, k, r) =>
      ReachesIsMembership(l, x);
      ReachesIsMembership(r, x);
  }

  lemma {:induction false} LeftmostIsMin(t: Tree)
    requires t.Branch? && IsBst(t)
    ensures Leftmost(t) in Keys(t)
    ensures forall x | x in Keys(t) :: Leftmost(t) <= x
  {
    if t.left.Branch? {
      LeftmostIsMin(t.left);
    }
  }

  lemma {:induction false} RightmostIsMax(t: Tree)
    requires t.Branch? && IsBst(t)
    ensures Rightmost(t) in Keys(t)
    ensures forall x | x in Keys(t) :: x <= Rightmost(t)
  {
    if t.right.Branch? {
      RightmostIsMax(t.right);
    }
  }

  /** The arena holds `Join(side, t, k, sib)` when it holds `k`'s record and both subtrees. */
  lemma JoinRepr(s: seq<Node>, side: Side, t: Tree, k: nat, sib: Tree)
    ensures Represents(s, Join(side, t, k, sib)) <==>
      && k < |s| && s[k] == JoinNode(side, RootOf(t), RootOf(sib), Count(t) + 1 + Count(sib))
      && Represents(s, t) && Represents(s, sib)
    ensures Keys(Join(side, t, k, sib)) == Keys(t) + {k} + Keys(sib)
    ensures Count(Join(side, t, k, sib)) == Count(t) + 1 + Count(sib)
    ensures RootOf(Join(side, t, k, sib)) == Some(k)
  {
  }

  /** Overwriting the child on `side` of a joined record. */
  lemma WithChildJoin(side: Side, c: Option<nat>, sib: Option<nat>, n: nat, v: Option<nat>)
    ensures WithChild(JoinNode(side, c, sib, n), side, v) == JoinNode(side, v, sib, n)
  {
  }

  /** Framing: a tree stays represented when only records outside it change. */
  lemma {:induction false} RepresentsFrame(s: seq<Node>, s': seq<Node>, t: Tree, xs: set<nat>)
    requires Represents(s, t) && SameExcept(s, s', xs) && Keys(t) !! xs
    ensures Represents(s', t)
  {
    match t
    case Nil =>
    case Branch(l, _, r) =>
      RepresentsFrame(s, s', l, xs);
      RepresentsFrame(s, s', r, xs);
  }

  /** Framing for a write to two records, neither of them in the tree. */
  lemma RepresentsFrame2(s: seq<Node>, s': seq<Node>, t: Tree, a: nat, b: nat)
    requires Represents(s, t) && SameExcept(s, s', {a, b}) && a !in Keys(t) && b !in Keys(t)
    ensures Represents(s', t)
  {
    forall x | x in Keys(t) ensures x !in {a, b} {
    }
    RepresentsFrame(s, s', t, {a, b});
  }

  lemma {:induction false} PathReprFrame(s: seq<Node>, s': seq<Node>, p: Path, child: Option<nat>, c: nat, xs: set<nat>)
    requires PathRepr(s, p, child, c) && SameExcept(s, s', xs) && PathKeys(p) !! xs
    ensures PathRepr(s', p, child, c)
  {
    match p
    case Top =>
    case Frame(_, k, sib, up) =>
      RepresentsFrame(s, s', sib, xs);
      PathReprFrame(s, s', up, Some(k), 1 + c + Count(sib), xs);
  }

  /** A key that fits below every ancestor is none of the ancestors and in none of their kept subtrees. */
  lemma {:induction false} FitsOutsidePath(p: Path, x: nat)
    requires PathBst(p) && Fits(p, x)
    ensures x !in PathKeys(p)
  {
    match p
    case Top =>
    case Frame(side, k, sib, up) =>
      FitsOutsidePath(up, x);
  }

  lemma {:induction false} PlugKeys(p: Path, t: Tree)
    ensures Keys(Plug(p, t)) == Keys(t) + PathKeys(p)
  {
    match p
    case Top =>
    case Frame(side, k, sib, up) =>
      PlugKeys(up, Join(side, t, k, sib));
  }

  /** Below a frame the root of the whole tree is an ancestor, whatever subtree is plugged in. */
  lemma {:induction false} PlugRoot(p: Path, t: Tree, t': Tree)
    requires p.Frame?
    ensures RootOf(Plug(p, t)) == RootOf(Plug(p, t'))
    ensures RootOf(Plug(p, t)).Some? && RootOf(Plug(p, t)).value in PathKeys(p)
  {
    match p
    case Frame(side, k, sib, up) =>
      if up.Frame? {
        PlugRoot(up, Join(side, t, k, sib), Join(side, t', k, sib));
      }
  }

  lemma {:induction false} PlugCount(p: Path, t: Tree)
    ensures Count(t) <= Count(Plug(p, t))
  {
    match p
    case Top =>
    case Frame(side, k, sib, up) =>
      PlugCount(up, Join(side, t, k, sib));
  }

  lemma {:induction false} PlugBst(p: Path, t: Tree)
    requires IsBst(t) && PathBst(p)
    requires forall x | x in Keys(t) :: Fits(p, x)
    ensures IsBst(Plug(p, t))
  {
    match p
    case Top =>
    case Frame(side, k, sib, up) =>
      var t' := Join(side, t, k, sib);
      assert Keys(t') == Keys(t) + {k} + Keys(sib);
      PlugBst(up, t');
  }

  /** Closing the zipper: ancestors' records plus a represented subtree represent the whole tree. */
  lemma {:induction false} Close(s: seq<Node>, p: Path, t: Tree)
    requires PathRepr(s, p, RootOf(t), Count(t)) && Represents(s, t)
    ensures Represents(s, Plug(p, t))
  {
    match p
    case Top =>
    case Frame(side, k, sib, up) =>
      Close(s, up, Join(side, t, k, sib));
  }

  lemma RotateRightShapeOk(t: Tree)
    requires t.Branch? && t.left.Branch?
    ensures Keys(RotateRightShape(t)) == Keys(t)
    ensures Count(RotateRightShape(t)) == Count(t)
    ensures IsBst(t) ==> IsBst(RotateRightShape(t))
  {
    var Branch(Branch(a, x, b), y, c) := t;
    var inner := Branch(b, y, c);
    assert Keys(t.left) == Keys(a) + {x} + Keys(b);
    assert Keys(inner) == Keys(b) + {y} + Keys(c);
    if IsBst(t) {
      assert IsBst(t.left) && IsBst(b);
      assert IsBst(inner);
      assert forall z | z in Keys(inner) :: x < z;
    }
  }

  lemma RotateLeftShapeOk(t: Tree)
    requires t.Branch? && t.right.Branch?
    ensures Keys(RotateLeftShape(t)) == Keys(t)
    ensures Count(RotateLeftShape(t)) == Count(t)
    ensures IsBst(t) ==> IsBst(RotateLeftShape(t))
  {
    var Branch(a, x, Branch(b, y, c)) := t;
    var inner := Branch(a, x, b);
    assert Keys(t.right) == Keys(b) + {y} + Keys(c);
    assert Keys(inner) == Keys(a) + {x} + Keys(b);
    if IsBst(t) {
      assert IsBst(t.right) && IsBst(b);
      assert IsBst(inner);
      assert forall z | z in Keys(inner) :: z < y;
    }
  }

  lemma LiftOk(t: Tree, side: Side)
    requires t.Branch? && SubTree(t, side).Branch?
    ensures Keys(Lift(t, side)) == Keys(t) && Count(Lift(t, side)) == Count(t)
    ensures IsBst(t) ==> IsBst(Lift(t, side))
    ensures Lift(t, side).key == SubTree(t, side).key
  {
    if side == Left {
      RotateRightShapeOk(t);
    } else {
      RotateLeftShapeOk(t);
    }
  }
}

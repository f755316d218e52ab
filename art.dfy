/**
 * The `AdaptiveRadix` trait: a simplified radix tree over the same arena records.
 * Children still live in the `left`/`right` fields; a key is routed by its bytes,
 * most significant first, and the `size` field holds a node-type code.
 *
 * The pure readers (`node_type`, `child_count`, `find_child`) are functions of the
 * arena's records `s`; the writers are methods on the arena whose new records are
 * given by the functions `WithType`, `ChildInserted`, `ChildRemoved` and `Cleared`.
 * No shape is assumed of the arena: child links may form cycles, and the walks
 * below are bounded by depth, as in the source.
 */
module Art {
  import opened Wrappers
  import opened Nodes
  import Trees

  /** A `u8`. */
  type Byte = x: nat | x < 256

  /** `NodeType`: the classes of child capacity. */
  datatype NodeType = Empty | Node4 | Node16 | Node48 | Node256

  /** `NodeType::from_size`: the class a size code falls in; nothing above 256. */
  function FromSize(size: nat): (r: Option<NodeType>)
    ensures r.Some? <==> size <= 256
    ensures r == Some(Empty) <==> size == 0
  {
    if size == 0 then Some(Empty)
    else if size <= 4 then Some(Node4)
    else if size <= 16 then Some(Node16)
    else if size <= 48 then Some(Node48)
    else if size <= 256 then Some(Node256)
    else None
  }

  /** `NodeType::to_size`: the code a class is stored as, its capacity. */
  function ToSize(t: NodeType): (r: nat)
    ensures FromSize(r) == Some(t)
    ensures forall size: nat | FromSize(size) == Some(t) :: size <= r
  {
    match t
    case Empty => 0
    case Node4 => 4
    case Node16 => 16
    case Node48 => 48
    case Node256 => 256
  }

  /** Storing a class and reading it back gives the class. */
  lemma SizeRoundTrip(t: NodeType)
    ensures FromSize(ToSize(t)) == Some(t)
  {
  }

  /** The stored code of a class is the largest size in that class. */
  lemma ToSizeIsCapacity(size: nat)
    requires FromSize(size).Some?
    ensures size <= ToSize(FromSize(size).value)
    ensures FromSize(ToSize(FromSize(size).value)) == FromSize(size)
    ensures FromSize(ToSize(FromSize(size).value) + 1) != FromSize(size)
  {
  }

  /** A size field holding exactly the code of a class. */
  predicate Canonical(size: nat) {
    FromSize(size).Some? && ToSize(FromSize(size).value) == size
  }

  /** The class a canonical code moves to when one child is added. */
  function Grow(t: NodeType): NodeType {
    match t
    case Empty => Node4
    case Node4 => Node16
    case Node16 => Node48
    case Node48 => Node256
    case Node256 => Node256
  }

  /** 256 to the power `i`. */
  function ByteWeight(i: nat): (r: nat)
    ensures r > 0
  {
    if i == 0 then 1 else 256 * ByteWeight(i - 1)
  }

  /** `key >> (8 * i)`. */
  function ShiftBytes(key: nat, i: nat): nat {
    if i == 0 then key else ShiftBytes(key, i - 1) / 256
  }

  /**
   * `key_byte`: byte number `7 - depth % 8` of the key, counting from the least
   * significant byte, so depth 0 reads the most significant byte of a 64-bit key.
   */
  function KeyByte(key: nat, depth: nat): Byte {
    ShiftBytes(key, 7 - depth % 8) % 256
  }

  /** The byte at a depth is base-256 digit `7 - depth % 8` of the key. */
  lemma KeyByteIsDigit(key: nat, depth: nat)
    ensures KeyByte(key, depth) == key / ByteWeight(7 - depth % 8) % 256
  {
    ShiftIsDivision(key, 7 - depth % 8);
  }

  /** Shifting right by `i` bytes is division by `256^i`. */
  lemma {:induction false} ShiftIsDivision(key: nat, i: nat)
    ensures ShiftBytes(key, i) == key / ByteWeight(i)
  {
    if i > 0 {
      ShiftIsDivision(key, i - 1);
      DivDiv(key, ByteWeight(i - 1), 256);
    }
  }

  /** Dividing by `m` and then by `n` is dividing by `n * m`. */
  lemma DivDiv(x: nat, m: nat, n: nat)
    requires m > 0 && n > 0
    ensures x / m / n == x / (n * m)
  {
    var q, r := x / m, x % m;
    var a, b := q / n, q % n;
    Regroup(x, q, r, m, a, b, n);
    RemainderBound(b, r, m, n);
    DivUnique(x, n * m, a, b * m + r);
  }

  lemma Regroup(x: int, q: int, r: int, m: int, a: int, b: int, n: int)
    requires x == q * m + r && q == a * n + b
    ensures x == a * (n * m) + (b * m + r)
  {
    calc {
      x;
      q * m + r;
      (a * n + b) * m + r;
      { assert (a * n + b) * m == a * n * m + b * m; }
      a * n * m + b * m + r;
    }
  }

  lemma RemainderBound(b: nat, r: nat, m: nat, n: nat)
    requires b < n && r < m
    ensures b * m + r < n * m
  {
    assert b * m <= (n - 1) * m;
    assert (n - 1) * m == n * m - m;
  }

  /** A quotient is fixed by its remainder being in range. */
  lemma DivUnique(x: nat, d: nat, a: nat, s: nat)
    requires d > 0 && x == a * d + s && s < d
    ensures x / d == a
  {
    MulStep(x / d, a, d);
    MulStep(a, x / d, d);
  }

  lemma {:induction false} MulStep(u: nat, v: nat, d: nat)
    ensures u < v ==> u * d + d <= v * d
    decreases v
  {
    if u < v {
      assert v * d == (v - 1) * d + d;
      MulStep(u, v - 1, d);
    }
  }

  /** The byte taken at a depth repeats every eight levels. */
  lemma KeyBytePeriodic(key: nat, depth: nat)
    ensures KeyByte(key, depth + 8) == KeyByte(key, depth)
  {
  }

  /** The bytes read at depths 0 through 7. */
  function KeyBytes(key: nat): seq<Byte> {
    [KeyByte(key, 0), KeyByte(key, 1), KeyByte(key, 2), KeyByte(key, 3),
     KeyByte(key, 4), KeyByte(key, 5), KeyByte(key, 6), KeyByte(key, 7)]
  }

  /** The number a sequence of bytes denotes, most significant first. */
  function FromBytes(b: seq<Byte>): nat {
    if |b| == 0 then 0 else FromBytes(b[..|b| - 1]) * 256 + b[|b| - 1]
  }

  /** Shifting a key below `256^8` right by `i` bytes leaves less than `256^(8 - i)`. */
  lemma {:induction false} ShiftBound(key: nat, i: nat)
    requires key < ByteWeight(8) && i <= 8
    ensures ShiftBytes(key, i) < ByteWeight(8 - i)
  {
    if i > 0 {
      ShiftBound(key, i - 1);
    }
  }

  /** The first `n` bytes read from the top denote the key shifted right by the other `8 - n`. */
  lemma {:induction false} KeyPrefix(key: nat, n: nat)
    requires key < ByteWeight(8) && n <= 8
    ensures FromBytes(KeyBytes(key)[..n]) == ShiftBytes(key, 8 - n)
  {
    if n == 0 {
      ShiftBound(key, 8);
    } else {
      var b := KeyBytes(key);
      KeyPrefix(key, n - 1);
      assert b[..n][..n - 1] == b[..n - 1];
      assert b[n - 1] == KeyByte(key, n - 1);
    }
  }

  /** A 64-bit key is recovered from the bytes read at depths 0 through 7, big-endian. */
  lemma KeyBytesRoundTrip(key: nat)
    requires key < 0x1_0000_0000_0000_0000
    ensures FromBytes(KeyBytes(key)) == key
  {
    assert ByteWeight(8) == 0x1_0000_0000_0000_0000 by {
      assert ByteWeight(2) == 0x1_0000;
      assert ByteWeight(4) == 0x1_0000_0000;
      assert ByteWeight(6) == 0x1_0000_0000_0000;
    }
    KeyPrefix(key, 8);
    assert KeyBytes(key)[..8] == KeyBytes(key);
  }

  // ----- Readers -----

  /** `node_type`: the class coded in the size field of an existing record. */
  function TypeOf(s: seq<Node>, idx: nat): (r: Option<NodeType>)
    ensures r.Some? ==> idx < |s|
  {
    if idx < |s| then FromSize(s[idx].size) else None
  }

  /** `child_count`: the size field of an existing record, 0 past the end; its class is the node's type. */
  function ChildCount(s: seq<Node>, idx: nat): (r: nat)
    ensures idx < |s| ==> FromSize(r) == TypeOf(s, idx)
    ensures idx >= |s| ==> r == 0
  {
    if idx < |s| then s[idx].size else 0
  }

  /** The child field `insert_child` and `remove_child` use for a byte. */
  function ByteSide(byte: Byte): Side {
    if byte < 128 then Left else Right
  }

  /** The child field `find_child` reads for a byte in a node of class `t`. */
  function Route(t: NodeType, byte: Byte): (r: Option<Side>)
    ensures (t == Node4 || t == Node16) ==> r == Some(ByteSide(byte))
    ensures (t == Node48 || t == Node256) ==> r == Some(if byte % 2 == 0 then Left else Right)
    ensures t == Empty ==> r == None
  {
    match t
    case Node4 | Node16 => Some(if byte < 128 then Left else Right)
    case Node48 | Node256 => Some(if byte % 2 == 0 then Left else Right)
    case Empty => None
  }

  /**
   * `find_child`: the child stored under `byte`. Small nodes split the bytes at 128,
   * large ones by parity; an empty node, an undefined code or a missing record has none.
   */
  function FindChild(s: seq<Node>, idx: nat, byte: Byte): (r: Option<nat>)
    ensures TypeOf(s, idx).None? || TypeOf(s, idx) == Some(Empty) ==> r.None?
    ensures TypeOf(s, idx) == Some(Node4) || TypeOf(s, idx) == Some(Node16) ==>
      r == (if byte < 128 then s[idx].left else s[idx].right)
    ensures TypeOf(s, idx) == Some(Node48) || TypeOf(s, idx) == Some(Node256) ==>
      r == (if byte % 2 == 0 then s[idx].left else s[idx].right)
  {
    match TypeOf(s, idx)
    case None => None
    case Some(t) =>
      match Route(t, byte)
      case None => None
      case Some(side) => Child(s[idx], side)
  }

  /**
   * The walk `find_child` makes for `key`: the node reached after `j` steps from `v`,
   * the first step taken at `depth`; nothing once a step finds no child.
   */
  function Visit(s: seq<Node>, v: nat, key: nat, depth: nat, j: nat): Option<nat>
    decreases j
  {
    if j == 0 then Some(v)
    else match FindChild(s, v, KeyByte(key, depth))
      case None => None
      case Some(n) => Visit(s, n, key, depth + 1, j - 1)
  }

  /** A walk is extended at its far end by one more `find_child`. */
  lemma {:induction false} VisitStep(s: seq<Node>, v: nat, key: nat, depth: nat, j: nat)
    ensures Visit(s, v, key, depth, j + 1) ==
      match Visit(s, v, key, depth, j)
      case None => None
      case Some(u) => FindChild(s, u, KeyByte(key, depth + j))
    decreases j
  {
    if j > 0 {
      match FindChild(s, v, KeyByte(key, depth))
      case None =>
      case Some(n) =>
        VisitStep(s, n, key, depth + 1, j - 1);
    }
  }

  /** A walk that reached step `j` passed every earlier step. */
  lemma {:induction false} VisitReached(s: seq<Node>, v: nat, key: nat, depth: nat, i: nat, j: nat)
    requires i <= j && Visit(s, v, key, depth, j).Some?
    ensures Visit(s, v, key, depth, i).Some?
  {
    if i < j {
      VisitStep(s, v, key, depth, j - 1);
      VisitReached(s, v, key, depth, i, j - 1);
    }
  }

  /** Every step before one the walk reached found a child. */
  lemma StepTaken(s: seq<Node>, v: nat, key: nat, depth: nat, d: nat, n: nat)
    requires d < n && Visit(s, v, key, depth, n).Some?
    ensures Visit(s, v, key, depth, d).Some?
    ensures FindChild(s, Visit(s, v, key, depth, d).value, KeyByte(key, depth + d)).Some?
  {
    VisitReached(s, v, key, depth, d + 1, n);
    VisitStep(s, v, key, depth, d);
  }

  /** A walk that stopped stays stopped. */
  lemma {:induction false} VisitStops(s: seq<Node>, v: nat, key: nat, depth: nat, i: nat, j: nat)
    requires i <= j && Visit(s, v, key, depth, i).None?
    ensures Visit(s, v, key, depth, j).None?
  {
    if i < j {
      VisitStops(s, v, key, depth, i, j - 1);
      VisitStep(s, v, key, depth, j - 1);
    }
  }

  // ----- Writers -----

  /** The records after `set_node_type(idx, t)`. */
  function WithType(s: seq<Node>, idx: nat, t: NodeType): (r: seq<Node>)
    ensures |r| == |s|
    ensures forall j | 0 <= j < |s| && j != idx :: r[j] == s[j]
    ensures idx < |s| ==> r[idx].left == s[idx].left && r[idx].right == s[idx].right
    ensures idx < |s| ==> TypeOf(r, idx) == Some(t) && Canonical(r[idx].size)
  {
    if idx < |s| then s[idx := s[idx].(size := ToSize(t))] else s
  }

  /** The records after `insert_child(idx, byte, child)`. */
  function ChildInserted(s: seq<Node>, idx: nat, byte: Byte, child: nat): (r: seq<Node>)
    ensures |r| == |s|
    ensures forall j | 0 <= j < |s| && j != idx :: r[j] == s[j]
    ensures idx < |s| ==> Child(r[idx], ByteSide(byte)) == Some(child)
    ensures idx < |s| && byte < 128 ==> r[idx].right == s[idx].right
    ensures idx < |s| && 128 <= byte ==> r[idx].left == s[idx].left
    ensures idx < |s| && s[idx].size < 256 ==> TypeOf(r, idx) == FromSize(s[idx].size + 1)
    ensures idx < |s| && 256 <= s[idx].size ==> r[idx].size == s[idx].size
    ensures idx < |s| && Canonical(s[idx].size) ==>
      Canonical(r[idx].size) && TypeOf(r, idx) == Some(Grow(TypeOf(s, idx).value))
  {
    var linked := if idx < |s| then s[idx := WithChild(s[idx], ByteSide(byte), Some(child))] else s;
    match FromSize(ChildCount(linked, idx) + 1)
    case Some(t) => WithType(linked, idx, t)
    case None => linked
  }

  /** The records after `remove_child(parent, byte)`. */
  function ChildRemoved(s: seq<Node>, parent: nat, byte: Byte): (r: seq<Node>)
    ensures |r| == |s|
    ensures forall j | 0 <= j < |s| && j != parent :: r[j] == s[j]
    ensures parent < |s| ==> Child(r[parent], ByteSide(byte)).None?
    ensures parent < |s| && byte < 128 ==> r[parent].right == s[parent].right
    ensures parent < |s| && 128 <= byte ==> r[parent].left == s[parent].left
    ensures parent < |s| && 0 < s[parent].size <= 257 ==> TypeOf(r, parent) == FromSize(s[parent].size - 1)
    ensures parent < |s| && s[parent].size == 0 ==> TypeOf(r, parent) == Some(Empty)
    ensures parent < |s| && Canonical(s[parent].size) ==> r[parent].size == s[parent].size
  {
    var unlinked := if parent < |s| then s[parent := WithChild(s[parent], ByteSide(byte), None)] else s;
    var count := ChildCount(unlinked, parent);
    match FromSize(if count == 0 then 0 else count - 1)
    case Some(t) => WithType(unlinked, parent, t)
    case None => unlinked
  }

  /** The records after `clear(idx)`. */
  function Cleared(s: seq<Node>, idx: nat): (r: seq<Node>)
    ensures |r| == |s|
    ensures forall j | 0 <= j < |s| && j != idx :: r[j] == s[j]
    ensures idx < |s| ==> r[idx] == Default && TypeOf(r, idx) == Some(Empty)
  {
    if idx < |s| then s[idx := Default] else s
  }

  /** `set_node_type`: store the code of `t` in an existing record. */
  method SetNodeType(a: Trees.Arena, idx: nat, t: NodeType)
    modifies a.nodes
    ensures a.nodes[..] == WithType(old(a.nodes[..]), idx, t)
  {
    match a.Get(idx)
    case Some(node) =>
      a.Set(idx, node.(size := ToSize(t)));
    case None =>
  }

  /** `insert_child`: link `child` under `byte` and move the node up a class; always true. */
  method InsertChild(a: Trees.Arena, idx: nat, byte: Byte, child: nat) returns (ok: bool)
    modifies a.nodes
    ensures ok
    ensures a.nodes[..] == ChildInserted(old(a.nodes[..]), idx, byte, child)
  {
    ok := true;
    if byte < 128 {
      Trees.SetLeft(a, idx, Some(child));
    } else {
      Trees.SetRight(a, idx, Some(child));
    }
    var newCount := ChildCount(a.nodes[..], idx) + 1;
    match FromSize(newCount)
    case Some(newType) =>
      SetNodeType(a, idx, newType);
    case None =>
  }

  /** `remove_child`: unlink the child field `byte` selects and recompute the class. */
  method RemoveChild(a: Trees.Arena, parent: nat, byte: Byte)
    modifies a.nodes
    ensures a.nodes[..] == ChildRemoved(old(a.nodes[..]), parent, byte)
  {
    if byte < 128 {
      Trees.SetLeft(a, parent, None);
    } else {
      Trees.SetRight(a, parent, None);
    }
    var count := ChildCount(a.nodes[..], parent);
    var newCount := if count == 0 then 0 else count - 1;
    match FromSize(newCount)
    case Some(newType) =>
      SetNodeType(a, parent, newType);
    case None =>
  }

  // ----- Search -----

  /**
   * `search_art`: walk from `root` by the key's bytes. The answer is whether the key
   * is met within eight steps; the depth bound ends the walk even on a cyclic arena.
   */
  method SearchArt(a: Trees.Arena, root: nat, key: nat) returns (b: bool)
    ensures b <==> exists j | 0 <= j <= 8 :: Visit(a.nodes[..], root, key, 0, j) == Some(key)
  {
    ghost var s := a.nodes[..];
    var current := root;
    var depth := 0;
    while true
      invariant depth <= 8
      invariant Visit(s, root, key, 0, depth) == Some(current)
      invariant forall j | 0 <= j < depth :: Visit(s, root, key, 0, j) != Some(key)
      decreases 8 - depth
    {
      if current == key {
        assert Visit(a.nodes[..], root, key, 0, depth) == Some(key);
        return true;
      }
      var byte := KeyByte(key, depth);
      VisitStep(s, root, key, 0, depth);
      match FindChild(a.nodes[..], current, byte)
      case Some(next) =>
        current := next;
        depth := depth + 1;
        if depth > 8 {
          return false;
        }
      case None =>
        forall j | depth < j <= 8
          ensures Visit(s, root, key, 0, j).None?
        {
          VisitStops(s, root, key, 0, depth + 1, j);
        }
        return false;
    }
  }

  // ----- Insert -----

  /**
   * The walk for `key` from `root` stops at step `d` (at most 8) on a node with no
   * child under the key's byte, without having met the key after the root.
   */
  predicate Vacant(s: seq<Node>, root: nat, key: nat, d: nat) {
    && d <= 8
    && Visit(s, root, key, 0, d).Some?
    && FindChild(s, Visit(s, root, key, 0, d).value, KeyByte(key, d)).None?
    && forall j | 1 <= j <= d :: Visit(s, root, key, 0, j) != Some(key)
  }

  /** No step before one the walk reached is vacant. */
  lemma NotVacantBefore(s: seq<Node>, root: nat, key: nat, n: nat)
    requires Visit(s, root, key, 0, n).Some?
    ensures forall d: nat | d < n :: !Vacant(s, root, key, d)
  {
    forall d: nat | d < n
      ensures !Vacant(s, root, key, d)
    {
      StepTaken(s, root, key, 0, d, n);
    }
  }

  /** A walk that meets `key` or runs past nine levels is vacant nowhere. */
  lemma NeverVacant(s: seq<Node>, root: nat, key: nat, n: nat)
    requires 1 <= n && Visit(s, root, key, 0, n).Some?
    requires n > 8 || Visit(s, root, key, 0, n) == Some(key)
    ensures forall d | 0 <= d <= 8 :: !Vacant(s, root, key, d)
  {
    NotVacantBefore(s, root, key, n);
  }

  /** The walk for `key` is vacant at one step at most. */
  lemma OnlyVacant(s: seq<Node>, root: nat, key: nat, n: nat)
    requires Vacant(s, root, key, n)
    ensures forall d | Vacant(s, root, key, d) :: d == n
  {
    NotVacantBefore(s, root, key, n);
    VisitStep(s, root, key, 0, n);
    forall d | n < d <= 8
      ensures !Vacant(s, root, key, d)
    {
      VisitStops(s, root, key, 0, n + 1, d);
    }
  }

  /**
   * `insert_art` as the source has it. An empty tree becomes `key` as a `Node4`.
   * Otherwise the root is returned and, where the walk for `key` is vacant, `key`
   * is made a `Node4` and linked there by `insert_child`; when the walk meets `key`
   * below the root or runs nine levels deep, nothing changes.
   */
  method InsertArtAsWritten(a: Trees.Arena, root: Option<nat>, key: nat) returns (r: Option<nat>)
    modifies a.nodes
    ensures root.None? ==> r == Some(key) && a.nodes[..] == WithType(old(a.nodes[..]), key, Node4)
    ensures root.Some? ==> r == root
    ensures root.Some? ==> forall d | Vacant(old(a.nodes[..]), root.value, key, d) ::
      a.nodes[..] == ChildInserted(WithType(old(a.nodes[..]), key, Node4),
        Visit(old(a.nodes[..]), root.value, key, 0, d).value, KeyByte(key, d), key)
    ensures root.Some? && (forall d | 0 <= d <= 8 :: !Vacant(old(a.nodes[..]), root.value, key, d)) ==>
      a.nodes[..] == old(a.nodes[..])
  {
    if root.None? {
      SetNodeType(a, key, Node4);
      return Some(key);
    }
    var vacant, depth, current := FindVacant(a, root.value, key);
    if vacant {
      LinkVacant(a, root.value, key, depth, current);
    }
    return root;
  }

  /**
   * The walk of `insert_art` from `root`: one `find_child` per level on the byte of
   * `key` for that level. It reports the vacant step and the node it stopped at, or
   * that it met `key` below the root or ran nine levels deep.
   */
  method FindVacant(a: Trees.Arena, root: nat, key: nat) returns (vacant: bool, depth: nat, current: nat)
    ensures vacant ==> Vacant(a.nodes[..], root, key, depth) && Visit(a.nodes[..], root, key, 0, depth) == Some(current)
    ensures !vacant ==> forall d | 0 <= d <= 8 :: !Vacant(a.nodes[..], root, key, d)
  {
    ghost var s := a.nodes[..];
    current := root;
    depth := 0;
    while true
      invariant depth <= 8
      invariant Visit(s, root, key, 0, depth) == Some(current)
      invariant forall j | 1 <= j <= depth :: Visit(s, root, key, 0, j) != Some(key)
      decreases 8 - depth
    {
      VisitStep(s, root, key, 0, depth);
      match FindChild(a.nodes[..], current, KeyByte(key, depth))
      case Some(next) =>
        if next == key {
          NeverVacant(s, root, key, depth + 1);
          return false, depth, current;
        }
        current := next;
        depth := depth + 1;
        if depth > 8 {
          NeverVacant(s, root, key, depth);
          return false, depth, current;
        }
      case None =>
        return true, depth, current;
    }
  }

  /** The vacant arm of the walk: `key` becomes a `Node4` linked under `current`. */
  method LinkVacant(a: Trees.Arena, ghost root: nat, key: nat, depth: nat, current: nat)
    requires Vacant(a.nodes[..], root, key, depth) && Visit(a.nodes[..], root, key, 0, depth) == Some(current)
    modifies a.nodes
    ensures forall d | Vacant(old(a.nodes[..]), root, key, d) ::
      a.nodes[..] == ChildInserted(WithType(old(a.nodes[..]), key, Node4),
        Visit(old(a.nodes[..]), root, key, 0, d).value, KeyByte(key, d), key)
  {
    OnlyVacant(a.nodes[..], root, key, depth);
    SetNodeType(a, key, Node4);
    var _ := InsertChild(a, current, KeyByte(key, depth), key);
  }

  /**
   * `insert_art` with the root checked as every other node is: inserting the root's
   * own key leaves the tree as it is.
   */
  method InsertArt(a: Trees.Arena, root: Option<nat>, key: nat) returns (r: Option<nat>)
    modifies a.nodes
    ensures root.None? ==> r == Some(key) && a.nodes[..] == WithType(old(a.nodes[..]), key, Node4)
    ensures root.Some? ==> r == root
    ensures root == Some(key) ==> a.nodes[..] == old(a.nodes[..])
    ensures root.Some? && root.value != key ==> forall d | Vacant(old(a.nodes[..]), root.value, key, d) ::
      a.nodes[..] == ChildInserted(WithType(old(a.nodes[..]), key, Node4),
        Visit(old(a.nodes[..]), root.value, key, 0, d).value, KeyByte(key, d), key)
    ensures root.Some? && (forall d | 0 <= d <= 8 :: !Vacant(old(a.nodes[..]), root.value, key, d)) ==>
      a.nodes[..] == old(a.nodes[..])
  {
    if root == Some(key) {
      return root;
    }
    r := InsertArtAsWritten(a, root, key);
  }

  /**
   * Inserting `key` as the source does at the root's own key, where the root has no
   * child under its first byte, makes the root its own child.
   */
  lemma RootReinsertLoops(s: seq<Node>, key: nat)
    requires key < |s| && Vacant(s, key, key, 0)
    ensures FindChild(ChildInserted(WithType(s, key, Node4), key, KeyByte(key, 0), key), key, KeyByte(key, 0)) == Some(key)
  {
  }

  /**
   * After a (corrected) insert below a node with fewer than 16 in its size field,
   * the walk for `key` reaches `key` one step after the vacant one.
   */
  lemma InsertThenFind(s: seq<Node>, root: nat, key: nat, d: nat)
    requires root != key && Vacant(s, root, key, d)
    requires Visit(s, root, key, 0, d).value < |s| && s[Visit(s, root, key, 0, d).value].size < 16
    ensures Visit(ChildInserted(WithType(s, key, Node4), Visit(s, root, key, 0, d).value, KeyByte(key, d), key),
      root, key, 0, d + 1) == Some(key)
  {
    var c := Visit(s, root, key, 0, d).value;
    var s2 := ChildInserted(WithType(s, key, Node4), c, KeyByte(key, d), key);
    InsertKeepsWalk(s, root, key, d, d);
    VisitStep(s2, root, key, 0, d);
  }

  /** The walk for `key` before the vacant step is the same after the insert. */
  lemma {:induction false} InsertKeepsWalk(s: seq<Node>, root: nat, key: nat, d: nat, j: nat)
    requires root != key && Vacant(s, root, key, d)
    requires Visit(s, root, key, 0, d).value < |s| && s[Visit(s, root, key, 0, d).value].size < 16
    requires j <= d
    ensures Visit(ChildInserted(WithType(s, key, Node4), Visit(s, root, key, 0, d).value, KeyByte(key, d), key),
      root, key, 0, j) == Visit(s, root, key, 0, j)
  {
    var c := Visit(s, root, key, 0, d).value;
    var s1 := WithType(s, key, Node4);
    var s2 := ChildInserted(s1, c, KeyByte(key, d), key);
    if j > 0 {
      InsertKeepsWalk(s, root, key, d, j - 1);
      StepTaken(s, root, key, 0, j - 1, d);
      VisitStep(s, root, key, 0, j - 1);
      VisitStep(s2, root, key, 0, j - 1);
      var u := Visit(s, root, key, 0, j - 1).value;
      var b := KeyByte(key, j - 1);
      assert u != key;
      assert c != key;
      if u == c {
        assert TypeOf(s, c) == Some(Node4) || TypeOf(s, c) == Some(Node16);
        assert ByteSide(b) != ByteSide(KeyByte(key, d));
        assert TypeOf(s2, c) == Some(Node4) || TypeOf(s2, c) == Some(Node16);
        assert FindChild(s2, c, b) == FindChild(s, c, b);
      } else if u < |s| {
        assert s2[u] == s[u];
      }
    }
  }

  // ----- Remove -----

  /**
   * The walk for `key` from `v`, starting at `depth`, first meets `key` at step `j`,
   * no deeper than the ninth level.
   */
  predicate Hit(s: seq<Node>, v: nat, key: nat, depth: nat, j: nat) {
    && 1 <= j && depth + j <= 9
    && Visit(s, v, key, depth, j - 1).Some?
    && Visit(s, v, key, depth, j) == Some(key)
    && forall i | 1 <= i < j :: Visit(s, v, key, depth, i) != Some(key)
  }

  /** A walk whose first step finds `next` goes on as the walk from `next`. */
  lemma VisitFirst(s: seq<Node>, v: nat, next: nat, key: nat, depth: nat, i: nat)
    requires FindChild(s, v, KeyByte(key, depth)) == Some(next) && 1 <= i
    ensures Visit(s, v, key, depth, i) == Visit(s, next, key, depth + 1, i - 1)
  {
  }

  /** When the first step finds `next` and not `key`, the first meeting moves one step up. */
  lemma HitShift(s: seq<Node>, v: nat, next: nat, key: nat, depth: nat, j: nat)
    requires FindChild(s, v, KeyByte(key, depth)) == Some(next) && next != key && 2 <= j
    ensures Hit(s, v, key, depth, j) == Hit(s, next, key, depth + 1, j - 1)
  {
    var below := depth + 1;
    VisitFirst(s, v, next, key, depth, j);
    VisitFirst(s, v, next, key, depth, j - 1);
    if Hit(s, v, key, depth, j) {
      forall i | 1 <= i < j - 1
        ensures Visit(s, next, key, below, i) != Some(key)
      {
        VisitFirst(s, v, next, key, depth, i + 1);
      }
    }
    if Hit(s, next, key, depth + 1, j - 1) {
      forall i | 1 <= i < j
        ensures Visit(s, v, key, depth, i) != Some(key)
      {
        VisitFirst(s, v, next, key, depth, i);
      }
    }
  }

  /**
   * Where `remove_art_impl` unlinks `key`: the node before the walk first meets it
   * and the byte taken there, provided that meeting is no deeper than the ninth level.
   */
  function RemoveSite(s: seq<Node>, v: nat, key: nat, depth: nat): (r: Option<(nat, Byte)>)
    ensures r.Some? ==> FindChild(s, r.value.0, r.value.1) == Some(key)
    decreases 9 - depth
  {
    if depth > 8 then None
    else match FindChild(s, v, KeyByte(key, depth))
      case None => None
      case Some(n) => if n == key then Some((v, KeyByte(key, depth))) else RemoveSite(s, n, key, depth + 1)
  }

  /** The records after unlinking at `site`, or the same records when there is none. */
  function AfterRemove(s: seq<Node>, site: Option<(nat, Byte)>, key: nat): seq<Node> {
    match site
    case None => s
    case Some((p, b)) => Cleared(ChildRemoved(s, p, b), key)
  }

  /** The site is the step before the first meeting with `key`, when there is one. */
  lemma {:induction false} RemoveSiteIsFirstHit(s: seq<Node>, v: nat, key: nat, depth: nat)
    ensures RemoveSite(s, v, key, depth).Some? <==> exists j: nat :: Hit(s, v, key, depth, j)
    ensures forall j: nat | Hit(s, v, key, depth, j) ::
      RemoveSite(s, v, key, depth) == Some((Visit(s, v, key, depth, j - 1).value, KeyByte(key, depth + j - 1)))
    decreases 9 - depth
  {
    if depth <= 8 {
      match FindChild(s, v, KeyByte(key, depth))
      case None =>
      case Some(next) =>
        if next == key {
          assert Hit(s, v, key, depth, 1);
          forall j: nat | Hit(s, v, key, depth, j)
            ensures j == 1
          {
          }
        } else {
          RemoveSiteIsFirstHit(s, next, key, depth + 1);
          forall j: nat | Hit(s, v, key, depth, j)
            ensures 2 <= j && Hit(s, next, key, depth + 1, j - 1)
            ensures Visit(s, v, key, depth, j - 1) == Visit(s, next, key, depth + 1, j - 2)
          {
            HitShift(s, v, next, key, depth, j);
            VisitFirst(s, v, next, key, depth, j - 1);
          }
          if RemoveSite(s, v, key, depth).Some? {
            var j: nat :| Hit(s, next, key, depth + 1, j);
            HitShift(s, v, next, key, depth, j + 1);
          }
        }
    }
  }

  /**
   * `remove_art_impl`: walk on from `current` at `depth`; at the remove site unlink
   * `key` with `remove_child` and clear its record. The answer says whether there
   * was a site.
   */
  method RemoveArtImpl(a: Trees.Arena, current: nat, key: nat, depth: nat) returns (b: bool)
    modifies a.nodes
    ensures b == RemoveSite(old(a.nodes[..]), current, key, depth).Some?
    ensures a.nodes[..] == AfterRemove(old(a.nodes[..]), RemoveSite(old(a.nodes[..]), current, key, depth), key)
    decreases 9 - depth
  {
    if depth > 8 {
      return false;
    }
    var byte := KeyByte(key, depth);
    match FindChild(a.nodes[..], current, byte)
    case Some(next) =>
      if next == key {
        RemoveChild(a, current, byte);
        Trees.Clear(a, key);
        return true;
      }
      b := RemoveArtImpl(a, next, key, depth + 1);
    case None =>
      return false;
  }

  /**
   * `remove_art`: an empty tree stays empty; removing the root clears it and empties
   * the tree; otherwise the root is kept and `remove_art_impl` runs from it.
   */
  method RemoveArt(a: Trees.Arena, root: Option<nat>, key: nat) returns (r: Option<nat>)
    modifies a.nodes
    ensures root.None? ==> r.None? && a.nodes[..] == old(a.nodes[..])
    ensures root == Some(key) ==> r.None? && a.nodes[..] == Cleared(old(a.nodes[..]), key)
    ensures root.Some? && root.value != key ==> r == root
    ensures root.Some? && root.value != key ==>
      a.nodes[..] == AfterRemove(old(a.nodes[..]), RemoveSite(old(a.nodes[..]), root.value, key, 0), key)
  {
    if root.None? {
      return None;
    }
    var rootIdx := root.value;
    if rootIdx == key {
      Trees.Clear(a, key);
      return None;
    }
    var _ := RemoveArtImpl(a, rootIdx, key, 0);
    return root;
  }

  /**
   * Removing at a site below a `Node4` or `Node16` parent unlinks the key: the parent
   * has no child under that byte any more, the key's record is the default, and no
   * other record changes.
   */
  lemma RemoveUnlinks(s: seq<Node>, root: nat, key: nat)
    requires RemoveSite(s, root, key, 0).Some?
    requires TypeOf(s, RemoveSite(s, root, key, 0).value.0) == Some(Node4) ||
             TypeOf(s, RemoveSite(s, root, key, 0).value.0) == Some(Node16)
    ensures var (p, b) := RemoveSite(s, root, key, 0).value;
      var s2 := AfterRemove(s, RemoveSite(s, root, key, 0), key);
      && FindChild(s2, p, b).None?
      && (key < |s| ==> s2[key] == Default)
      && forall x | 0 <= x < |s| && x != p && x != key :: s2[x] == s[x]
  {
  }
}

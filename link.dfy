/**
 * `LinkIndex`: the integer types a link identifier can have, and `Link`, the
 * (index, source, target) triple.
 *
 * Twelve primitive types implement the trait directly. Each `NonZero` type stores a
 * value shifted up by one: the stored 1 plays zero and `from_usize(v)` stores `v + 1`.
 * `usize` and `isize` are taken to be 64 bits wide.
 */
module LinkIndex {
  import opened Wrappers

  /** The primitive integer types. */
  datatype Prim = U8 | U16 | U32 | U64 | U128 | Usize | I8 | I16 | I32 | I64 | I128 | Isize {

    predicate Signed() {
      this in {I8, I16, I32, I64, I128, Isize}
    }

    /** 2 to the power of the width. */
    function Modulus(): (m: nat)
      ensures m >= 0x100
    {
      match this
      case U8 | I8 => 0x100
      case U16 | I16 => 0x1_0000
      case U32 | I32 => 0x1_0000_0000
      case U64 | Usize | I64 | Isize => 0x1_0000_0000_0000_0000
      case U128 | I128 => 0x1_0000_0000_0000_0000_0000_0000_0000_0000
    }

    function Min(): int {
      if Signed() then -(Modulus() / 2) else 0
    }

    function Max(): int {
      if Signed() then Modulus() / 2 - 1 else Modulus() - 1
    }

    /** `val as Self` for a `usize`: the low bits, read as two's complement when signed. */
    function Cast(val: nat): (r: int)
      ensures Min() <= r <= Max()
      ensures val <= Max() ==> r == val
    {
      var m := Modulus();
      assert m == 2 * (m / 2) && Min() == if Signed() then -(m / 2) else 0;
      var low := if val < m then val else val % m;
      assert 0 <= low < m;
      if low > Max() then low - m else low
    }
  }

  /** `2^64`, one above `usize::MAX`. */
  const UsizeModulus: nat := 0x1_0000_0000_0000_0000

  /** `x as usize`: the low 64 bits of two's complement. */
  function AsUsizeCast(x: int): (r: nat)
    ensures r < UsizeModulus
    ensures 0 <= x < UsizeModulus ==> r == x
  {
    x % UsizeModulus
  }

  /** A link index type: a primitive, or the `NonZero` type over one. */
  datatype IndexType = Plain(prim: Prim) | NonZero(prim: Prim)

  /** The values an index type holds. */
  predicate Valid(t: IndexType, v: int) {
    t.prim.Min() <= v <= t.prim.Max() && (t.NonZero? ==> v != 0)
  }

  /** `LinkIndex::zero`: 0, or the stored 1 of a `NonZero` type. */
  function Zero(t: IndexType): (r: int)
    ensures Valid(t, r) && IsZero(t, r)
  {
    if t.Plain? then 0 else 1
  }

  /** `LinkIndex::is_zero`: a zero is a value of the type that `as_usize` reads as 0. */
  predicate IsZero(t: IndexType, v: int)
    ensures IsZero(t, v) ==> Valid(t, v) && (t.NonZero? ==> t.prim.Min() <= v - 1) && AsUsize(t, v) == 0
  {
    assert t.prim.Min() <= 0 && 1 <= t.prim.Max();
    if t.Plain? then v == 0 else v == 1
  }

  /** Exactly the zero value is zero. */
  lemma IsZeroIsZero(t: IndexType, v: int)
    ensures IsZero(t, v) <==> v == Zero(t)
  {
  }

  /**
   * `LinkIndex::from_usize`: a cast for primitives; `NonZero` types store the cast
   * plus one, which must neither overflow nor be zero (`new_unchecked`).
   */
  function FromUsize(t: IndexType, val: nat): (r: int)
    requires val < UsizeModulus
    requires t.NonZero? ==> t.prim.Cast(val) + 1 <= t.prim.Max() && t.prim.Cast(val) != -1
    ensures Valid(t, r)
  {
    if t.Plain? then t.prim.Cast(val) else t.prim.Cast(val) + 1
  }

  /** `LinkIndex::as_usize`: a cast, after taking one off for `NonZero` types. */
  function AsUsize(t: IndexType, v: int): (r: nat)
    requires Valid(t, v)
    requires t.NonZero? ==> t.prim.Min() <= v - 1
    ensures r < UsizeModulus
  {
    if t.Plain? then AsUsizeCast(v) else AsUsizeCast(v - 1)
  }

  /** The largest `usize` value a type holds after `from_usize` (shifted for `NonZero` types). */
  function UsizeLimit(t: IndexType): int {
    var top := if t.NonZero? then t.prim.Max() - 1 else t.prim.Max();
    if top < UsizeModulus then top else UsizeModulus - 1
  }

  /** Converting a `usize` the type can hold in and out gives it back. */
  lemma FromUsizeRoundTrip(t: IndexType, val: nat)
    requires val <= UsizeLimit(t)
    ensures val < UsizeModulus
    ensures t.NonZero? ==> t.prim.Cast(val) + 1 <= t.prim.Max() && t.prim.Cast(val) != -1
    ensures t.NonZero? ==> t.prim.Min() <= FromUsize(t, val) - 1
    ensures AsUsize(t, FromUsize(t, val)) == val
  {
  }

  /** Converting a non-negative value out to a `usize` and back gives it back. */
  lemma AsUsizeRoundTrip(t: IndexType, v: int)
    requires Valid(t, v) && Zero(t) <= v && v - Zero(t) < UsizeModulus
    ensures t.NonZero? ==> t.prim.Min() <= v - 1
    ensures t.NonZero? ==> t.prim.Cast(AsUsize(t, v)) + 1 <= t.prim.Max() && t.prim.Cast(AsUsize(t, v)) != -1
    ensures FromUsize(t, AsUsize(t, v)) == v
  {
  }

  /** `checked_add_one`: the successor, or nothing when it is not a value of the type. */
  function CheckedAddOne(t: IndexType, v: int): (r: Option<int>)
    requires Valid(t, v)
    ensures r.None? <==> !Valid(t, v + 1)
    ensures r.Some? ==> r.value == v + 1
  {
    if v + 1 <= t.prim.Max() && (t.NonZero? ==> v + 1 != 0) then Some(v + 1) else None
  }

  /**
   * `checked_sub_one`: the predecessor, or nothing when it leaves the type; a
   * `NonZero` type refuses every stored value up to its zero 1.
   */
  function CheckedSubOne(t: IndexType, v: int): (r: Option<int>)
    requires Valid(t, v)
    ensures t.Plain? ==> (r.None? <==> !Valid(t, v - 1))
    ensures t.NonZero? ==> (r.None? <==> v <= 1)
    ensures r.Some? ==> r.value == v - 1 && Valid(t, r.value)
  {
    if t.Plain? then (if t.prim.Min() <= v - 1 then Some(v - 1) else None)
    else if v <= 1 then None
    else Some(v - 1)
  }

  /** `Link`: a link's identifier, its source and its target. */
  datatype Link<T> = Link(index: T, source: T, target: T)

  /** `Link::new`. */
  function New<T>(index: T, source: T, target: T): (l: Link<T>)
    ensures l.index == index && l.source == source && l.target == target
  {
    Link(index, source, target)
  }

  /** `Link::point`: all three parts equal. */
  function Point<T>(v: T): (l: Link<T>)
    ensures l == New(v, v, v)
  {
    New(v, v, v)
  }

  /** `Link::nothing`: all three parts zero. */
  function Nothing(t: IndexType): (l: Link<int>)
    ensures IsNull(t, l)
  {
    New(Zero(t), Zero(t), Zero(t))
  }

  /** `Link::is_null`: all three parts are zero, so a null link is a point on the zero id. */
  predicate IsNull(t: IndexType, l: Link<int>)
    ensures IsNull(t, l) ==> IsFull(l) && l == Point(Zero(t))
  {
    IsZero(t, l.index) && IsZero(t, l.source) && IsZero(t, l.target)
  }

  /** `Link::is_full`: the link is a point on itself. */
  predicate IsFull<T(==)>(l: Link<T>)
    ensures IsFull(l) <==> l == Point(l.index)
  {
    l.index == l.source && l.index == l.target
  }

  /** `Link::is_partial`: the link refers to itself as source or target; every full link is partial. */
  predicate IsPartial<T(==)>(l: Link<T>)
    ensures IsFull(l) ==> IsPartial(l)
    ensures IsPartial(l) <==> l == New(l.index, l.index, l.target) || l == New(l.index, l.source, l.index)
  {
    l.index == l.source || l.index == l.target
  }

  /** The null link is the only null link, and a point is full, hence partial. */
  lemma LinkShapes<T>(t: IndexType, l: Link<int>, v: T)
    ensures IsNull(t, l) <==> l == Nothing(t)
    ensures IsFull(Point(v)) && IsPartial(Point(v))
    ensures IsFull(l) ==> IsPartial(l)
    ensures IsFull(l) <==> l == Point(l.index)
  {
  }
}

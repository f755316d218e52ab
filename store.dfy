/**
 * The flat-array link store: a growable table of raw slots indexed by link id,
 * the next id never handed out (`allocatedEnd`), and a LIFO list of freed ids threaded
 * through the `source` field of their slots, 0 ending it.
 *
 * The store is modelled for `T = usize` (`ANY` and `ZERO` are 0, `ONE` is 1), where
 * `from_usize` and `as_usize` are the identity. Handler closures are functions: a
 * read handler of the links it was already given and the current one (so a closure
 * that counts or collects is a function of that history), a write handler of the
 * before and after links. Operations also return what their handler was given.
 */
module Store {
  import opened Wrappers
  import opened Errors
  import opened Handler
  import opened LinkIndex

  /** `usize::MAX`, the mark of a slot on the free list. */
  const FreeMark: nat := 0xFFFF_FFFF_FFFF_FFFF

  /** `T::ANY`: the wildcard of a query. */
  const Any: nat := 0

  /** The slots `grow(1024)` makes on creation. */
  const InitialSlots: nat := 1024

  /** `RawLink`: one slot of the table. */
  datatype RawLink = RawLink(source: nat, target: nat, isFree: nat)

  const Zeroed: RawLink := RawLink(0, 0, 0)

  /** `Link::nothing()` for `usize`: all three parts zero. */
  const NoLink: Link<nat> := New(0, 0, 0)

  /** The source `create` gives a link: none, the one value, or the first of two. */
  function CreatedSource(q: seq<nat>): nat {
    if |q| == 0 then 0 else q[0]
  }

  /** The target `create` gives a link: none, the one value, or the second of two. */
  function CreatedTarget(q: seq<nat>): nat {
    if |q| == 0 then 0 else if |q| == 1 then q[0] else q[1]
  }

  /** A read handler: the links already passed to it, and the current one. */
  type ReadFn = (seq<Link<nat>>, Link<nat>) -> Returned

  /** A write handler: the link before and after the change. */
  type WriteFn = (Link<nat>, Link<nat>) -> Returned

  /** `q` selects `l`: index, source and target, as far as `q` gives them, match or are `ANY`. */
  predicate Matches(q: seq<nat>, l: Link<nat>) {
    && (|q| >= 1 ==> q[0] == Any || q[0] == l.index)
    && (|q| >= 2 ==> q[1] == Any || q[1] == l.source)
    && (|q| >= 3 ==> q[2] == Any || q[2] == l.target)
  }

  /** The outcome of running a read handler: the last flow and the links it was given. */
  datatype Fed = Fed(flow: Flow, given: seq<Link<nat>>)

  /**
   * Running a read handler over `links`, after `passed`: each link goes to the
   * handler in turn until it answers `Break`. The answer is the last flow and the
   * links the handler was given.
   */
  function Feed(h: ReadFn, links: seq<Link<nat>>, passed: seq<Link<nat>>): Fed
    decreases |links|
  {
    if links == [] then Fed(Continue, passed)
    else if IntoFlow(h(passed, links[0])) == Break then Fed(Break, passed + [links[0]])
    else Feed(h, links[1..], passed + [links[0]])
  }

  /** The handler continues on each of the first `k` links. */
  predicate ContinuesFor(h: ReadFn, links: seq<Link<nat>>, passed: seq<Link<nat>>, k: nat)
    requires k <= |links|
  {
    forall i | 0 <= i < k :: IntoFlow(h(passed + links[..i], links[i])) == Continue
  }

  /** Continuing on the first `k + 1` links is continuing on the first, then on `k` of the rest. */
  lemma ContinuesStep(h: ReadFn, links: seq<Link<nat>>, passed: seq<Link<nat>>, k: nat)
    requires k < |links|
    ensures ContinuesFor(h, links, passed, k + 1) <==>
      IntoFlow(h(passed, links[0])) == Continue && ContinuesFor(h, links[1..], passed + [links[0]], k)
  {
    var rest := links[1..];
    var passed' := passed + [links[0]];
    assert passed + links[..0] == passed;
    forall i | 0 <= i < k
      ensures passed + links[..i + 1] == passed' + rest[..i] && links[i + 1] == rest[i]
    {
      assert links[..i + 1] == [links[0]] + rest[..i];
    }
    if ContinuesFor(h, links, passed, k + 1) {
      forall i | 0 <= i < k
        ensures IntoFlow(h(passed' + rest[..i], rest[i])) == Continue
      {
        assert IntoFlow(h(passed + links[..i + 1], links[i + 1])) == Continue;
      }
    }
    if IntoFlow(h(passed, links[0])) == Continue && ContinuesFor(h, rest, passed', k) {
      forall i | 0 <= i < k + 1
        ensures IntoFlow(h(passed + links[..i], links[i])) == Continue
      {
        if i > 0 {
          assert IntoFlow(h(passed' + rest[..i - 1], rest[i - 1])) == Continue;
        }
      }
    }
  }

  /**
   * The handler ends with `Continue` exactly when it continues on every link, and then
   * it was given all of them.
   */
  lemma {:induction false} FeedContinues(h: ReadFn, links: seq<Link<nat>>, passed: seq<Link<nat>>)
    ensures Feed(h, links, passed).flow == Continue <==> ContinuesFor(h, links, passed, |links|)
    ensures Feed(h, links, passed).flow == Continue ==> Feed(h, links, passed).given == passed + links
    decreases |links|
  {
    if links != [] {
      ContinuesStep(h, links, passed, |links| - 1);
      FeedContinues(h, links[1..], passed + [links[0]]);
      assert passed + [links[0]] + links[1..] == passed + links;
    }
  }

  /** Passing the first link on: a prefix of the rest, after it, is a prefix of all the links. */
  lemma ShiftPrefix(passed: seq<Link<nat>>, links: seq<Link<nat>>, k: nat)
    requires 0 < k < |links| + 1
    ensures passed + [links[0]] + links[1..][..k - 1] == passed + links[..k]
  {
    assert links[..k] == [links[0]] + links[1..][..k - 1];
  }

  /**
   * When the handler breaks it was given the links up to and including the first one
   * it broke on (the `k`-th, `k` being one less than the links it was given here), and
   * it continued on all before that one.
   */
  lemma {:induction false} FeedBreaks(h: ReadFn, links: seq<Link<nat>>, passed: seq<Link<nat>>)
    requires Feed(h, links, passed).flow == Break
    ensures var k := |Feed(h, links, passed).given| - |passed| - 1;
      && 0 <= k < |links|
      && Feed(h, links, passed).given == passed + links[..k + 1]
      && IntoFlow(h(passed + links[..k], links[k])) == Break
      && ContinuesFor(h, links, passed, k)
    decreases |links|
  {
    var l := links[0];
    assert passed + links[..0] == passed;
    if IntoFlow(h(passed, l)) == Break {
      assert passed + [l] == passed + links[..1];
    } else {
      var rest := links[1..];
      var passed' := passed + [l];
      var fed := Feed(h, rest, passed');
      assert Feed(h, links, passed) == fed;
      FeedBreaks(h, rest, passed');
      var k := |fed.given| - |passed'| - 1;
      assert |fed.given| - |passed| - 1 == k + 1;
      ContinuesStep(h, links, passed, k);
      ShiftPrefix(passed, links, k + 1);
      ShiftPrefix(passed, links, k + 2);
    }
  }

  /** A handler that always continues is given every link. */
  lemma {:induction false} FeedAll(h: ReadFn, links: seq<Link<nat>>, passed: seq<Link<nat>>)
    requires forall p, l :: h(p, l) == FlowValue(Continue)
    ensures Feed(h, links, passed) == Fed(Continue, passed + links)
    decreases |links|
  {
    if links != [] {
      FeedAll(h, links[1..], passed + [links[0]]);
      assert passed + [links[0]] + links[1..] == passed + links;
    }
  }

  /** The ids `lo` to `hi - 1`, in order. */
  function Range(lo: nat, hi: nat): (r: seq<nat>)
    requires lo <= hi
    decreases hi - lo
    ensures |r| == hi - lo
    ensures forall i | 0 <= i < |r| :: r[i] == lo + i
    ensures forall x :: x in r <==> lo <= x < hi
  {
    if lo == hi then [] else [lo] + Range(lo + 1, hi)
  }

  /** The set of the elements of `xs`. */
  function Elements(xs: seq<nat>): (r: set<nat>)
    ensures forall x :: x in r <==> x in xs
  {
    set x | x in xs
  }

  /** A sequence without repeats has as many elements as its set. */
  lemma {:induction false} DistinctSize(xs: seq<nat>)
    requires forall k, l | 0 <= k < l < |xs| :: xs[k] != xs[l]
    ensures |Elements(xs)| == |xs|
  {
    if xs != [] {
      var last := xs[|xs| - 1];
      var init := xs[..|xs| - 1];
      DistinctSize(init);
      assert xs == init + [last];
      var before := Elements(init);
      assert Elements(xs) == before + {last};
      forall k | 0 <= k < |init|
        ensures init[k] != last
      {
        assert xs[k] != xs[|xs| - 1];
      }
      assert last !in before;
      assert |before + {last}| == |before| + 1;
    }
  }

  /** Each id of `list` has a slot whose `source` names the next id of the list, 0 after the last. */
  predicate Chained(mem: seq<RawLink>, list: seq<nat>) {
    forall k | 0 <= k < |list| :: list[k] < |mem| && mem[list[k]].source == NextFree(list, k)
  }

  /** The id after the `k`-th of the list, 0 after the last. */
  function NextFree(list: seq<nat>, k: nat): nat {
    if k + 1 < |list| then list[k + 1] else 0
  }

  /** Writing a slot off the list keeps the chain. */
  lemma ChainKept(mem0: seq<RawLink>, mem1: seq<RawLink>, list: seq<nat>, index: nat)
    requires |mem0| <= |mem1| && forall i | 0 <= i < |mem0| && i != index :: mem1[i] == mem0[i]
    requires index !in list && Chained(mem0, list)
    ensures Chained(mem1, list)
  {
    forall k | 0 <= k < |list|
      ensures list[k] < |mem1| && mem1[list[k]] == mem0[list[k]]
    {
      assert list[k] != index;
    }
  }

  /** Taking the head off the list, whatever happens to its slot, keeps the chain of the rest. */
  lemma ChainPop(mem0: seq<RawLink>, mem1: seq<RawLink>, list: seq<nat>)
    requires list != [] && Chained(mem0, list)
    requires forall k | 1 <= k < |list| :: list[k] != list[0]
    requires |mem0| <= |mem1| && forall i | 0 <= i < |mem0| && i != list[0] :: mem1[i] == mem0[i]
    ensures Chained(mem1, list[1..])
  {
    var tail := list[1..];
    forall k | 0 <= k < |tail|
      ensures tail[k] < |mem1| && mem1[tail[k]].source == NextFree(tail, k)
    {
      assert tail[k] == list[k + 1] != list[0];
      assert mem0[list[k + 1]].source == NextFree(list, k + 1);
    }
  }

  /** Putting an id whose slot names the old head in front keeps the chain. */
  lemma ChainPush(mem0: seq<RawLink>, mem1: seq<RawLink>, list: seq<nat>, index: nat)
    requires Chained(mem0, list) && index !in list
    requires |mem0| == |mem1| && index < |mem1|
    requires forall i | 0 <= i < |mem0| && i != index :: mem1[i] == mem0[i]
    requires mem1[index].source == if list == [] then 0 else list[0]
    ensures Chained(mem1, [index] + list)
  {
    ChainKept(mem0, mem1, list, index);
    var l := [index] + list;
    forall k | 0 <= k < |l|
      ensures l[k] < |mem1| && mem1[l[k]].source == NextFree(l, k)
    {
      if k > 0 {
        assert l[k] == list[k - 1];
        assert mem1[list[k - 1]].source == NextFree(list, k - 1);
      }
    }
  }

  /** Slot `i` holds a link: a non-zero id below `end` whose slot is not marked free. */
  predicate Live(mem: seq<RawLink>, end: nat, i: nat) {
    i != 0 && i < end && i < |mem| && mem[i].isFree != FreeMark
  }

  /** The link slot `i` holds. */
  function Stored(mem: seq<RawLink>, i: nat): Link<nat>
    requires i < |mem|
  {
    New(i, mem[i].source, mem[i].target)
  }

  /** The links the slots below `end` hold, by id. */
  function ViewOf(mem: seq<RawLink>, end: nat): (v: map<nat, Link<nat>>)
    ensures forall i :: i in v <==> Live(mem, end, i)
    ensures forall i | i in v :: i < |mem| && v[i] == Stored(mem, i)
  {
    map i | 0 <= i < end && Live(mem, end, i) :: Stored(mem, i)
  }

  /** Writing a link into a slot below `end` stores that link at its id. */
  lemma ViewOfWrite(mem: seq<RawLink>, end: nat, index: nat, raw: RawLink)
    requires 1 <= index < end && index < |mem| && raw.isFree != FreeMark
    ensures ViewOf(mem[index := raw], end) == ViewOf(mem, end)[index := New(index, raw.source, raw.target)]
  {
    var v := ViewOf(mem[index := raw], end);
    var w := ViewOf(mem, end)[index := New(index, raw.source, raw.target)];
    assert v.Keys == w.Keys;
    forall i | i in v
      ensures v[i] == w[i]
    {
    }
  }

  /** Marking a slot free removes its id and nothing else. */
  lemma ViewOfFree(mem: seq<RawLink>, end: nat, index: nat, raw: RawLink)
    requires index < |mem| && raw.isFree == FreeMark
    ensures ViewOf(mem[index := raw], end) == ViewOf(mem, end) - {index}
  {
    var v := ViewOf(mem[index := raw], end);
    var w := ViewOf(mem, end) - {index};
    assert v.Keys == w.Keys;
    forall i | i in v
      ensures v[i] == w[i]
    {
    }
  }

  /** Slots at `end` and above do not take part. */
  lemma ViewOfBeyond(mem: seq<RawLink>, mem': seq<RawLink>, end: nat)
    requires end <= |mem| <= |mem'| && mem'[..end] == mem[..end]
    ensures ViewOf(mem', end) == ViewOf(mem, end)
  {
    var v := ViewOf(mem', end);
    var w := ViewOf(mem, end);
    forall i | 0 <= i < end
      ensures mem'[i] == mem[i]
    {
      assert mem'[..end][i] == mem[..end][i];
    }
    assert v.Keys == w.Keys;
  }

  /** Raising `end` past a slot that holds a link adds that link. */
  lemma ViewOfExtend(mem: seq<RawLink>, end: nat)
    requires 1 <= end < |mem| && mem[end].isFree != FreeMark
    ensures ViewOf(mem, end + 1) == ViewOf(mem, end)[end := Stored(mem, end)]
  {
    var v := ViewOf(mem, end + 1);
    var w := ViewOf(mem, end)[end := Stored(mem, end)];
    assert v.Keys == w.Keys;
  }

  /**
   * The store's invariant over its fields: ids 1 to `end - 1` have slots; `list`, the
   * free list, holds distinct such ids, chained through `source`, counted by `count`
   * and headed by `first`; a slot is marked free exactly when its id is on the list.
   */
  ghost predicate Wf(mem: seq<RawLink>, end: nat, count: nat, first: Option<nat>, list: seq<nat>) {
    && 1 <= end < |mem|
    && count == |list|
    && first == (if list == [] then None else Some(list[0]))
    && (forall k | 0 <= k < |list| :: 1 <= list[k] < end)
    && (forall k, l | 0 <= k < l < |list| :: list[k] != list[l])
    && Chained(mem, list)
    && (forall i | 1 <= i < end :: mem[i].isFree == FreeMark <==> i in list)
  }

  /** Unmarking the head of the free list makes it a link and moves the list on. */
  lemma WfPop(mem: seq<RawLink>, end: nat, list: seq<nat>)
    requires list != [] && Wf(mem, end, |list|, Some(list[0]), list)
    ensures var f := list[0];
      var mem' := mem[f := mem[f].(isFree := 0)];
      var next := if mem[f].source == 0 then None else Some(mem[f].source);
      && Wf(mem', end, |list| - 1, next, list[1..])
      && f !in ViewOf(mem, end) && ViewOf(mem', end) == ViewOf(mem, end)[f := Stored(mem', f)]
  {
    var f := list[0];
    var mem' := mem[f := mem[f].(isFree := 0)];
    var tail := list[1..];
    forall k | 0 <= k < |tail|
      ensures tail[k] != f && tail[k] == list[k + 1]
    {
      assert list[0] != list[k + 1];
    }
    ChainPop(mem, mem', list);
    assert mem[f].source == NextFree(list, 0);
    ViewOfWrite(mem, end, f, mem'[f]);
  }

  /** Handing out `end` as a fresh id, the table grown to keep a slot past it. */
  lemma WfFresh(mem: seq<RawLink>, grown: seq<RawLink>, end: nat)
    requires Wf(mem, end, 0, None, [])
    requires |mem| <= |grown| && end + 1 < |grown| && grown[..|mem|] == mem
    ensures Wf(grown[end := Zeroed], end + 1, 0, None, [])
    ensures end !in ViewOf(mem, end)
    ensures ViewOf(grown[end := Zeroed], end + 1) == ViewOf(mem, end)[end := Stored(grown[end := Zeroed], end)]
  {
    var mem' := grown[end := Zeroed];
    forall i | 0 <= i < |mem| && i != end
      ensures mem'[i] == mem[i]
    {
      assert grown[..|mem|][i] == mem[i];
    }
    ViewOfBeyond(mem, mem', end);
    ViewOfExtend(mem', end);
  }

  /** Writing a link into the slot of a link keeps the invariant and stores that link. */
  lemma WfWrite(mem: seq<RawLink>, end: nat, count: nat, first: Option<nat>, list: seq<nat>, index: nat, raw: RawLink)
    requires Wf(mem, end, count, first, list) && Live(mem, end, index) && raw.isFree != FreeMark
    ensures Wf(mem[index := raw], end, count, first, list)
    ensures ViewOf(mem[index := raw], end) == ViewOf(mem, end)[index := New(index, raw.source, raw.target)]
  {
    ChainKept(mem, mem[index := raw], list, index);
    ViewOfWrite(mem, end, index, raw);
  }

  /** Marking the slot of a link free, chained to the old head, pushes its id on the free list. */
  lemma WfPush(mem: seq<RawLink>, end: nat, first: Option<nat>, list: seq<nat>, index: nat)
    requires Wf(mem, end, |list|, first, list) && Live(mem, end, index)
    ensures var mem' := mem[index := RawLink(first.UnwrapOr(0), 0, FreeMark)];
      && Wf(mem', end, |list| + 1, Some(index), [index] + list)
      && ViewOf(mem', end) == ViewOf(mem, end) - {index}
  {
    var raw := RawLink(first.UnwrapOr(0), 0, FreeMark);
    var mem' := mem[index := raw];
    assert index !in list;
    ChainPush(mem, mem', list, index);
    PushedIds(list, index, end);
    PushedMarks(mem, end, list, index, raw);
    ViewOfFree(mem, end, index, raw);
  }

  /** A fresh id in range at the head keeps the ids of the list in range and distinct. */
  lemma PushedIds(list: seq<nat>, index: nat, end: nat)
    requires forall k | 0 <= k < |list| :: 1 <= list[k] < end
    requires forall k, m | 0 <= k < m < |list| :: list[k] != list[m]
    requires 1 <= index < end && index !in list
    ensures var l := [index] + list;
      && (forall k | 0 <= k < |l| :: 1 <= l[k] < end)
      && (forall k, m | 0 <= k < m < |l| :: l[k] != l[m])
  {
    var l := [index] + list;
    forall k | 0 <= k < |l|
      ensures 1 <= l[k] < end
    {
      if k > 0 {
        assert l[k] == list[k - 1];
      }
    }
    forall k, m | 0 <= k < m < |l|
      ensures l[k] != l[m]
    {
      assert l[m] == list[m - 1];
      if k > 0 {
        assert l[k] == list[k - 1];
      }
    }
  }

  /** The free marks below `end` are exactly the ids of the pushed list. */
  lemma PushedMarks(mem: seq<RawLink>, end: nat, list: seq<nat>, index: nat, raw: RawLink)
    requires 1 <= index < end < |mem| && raw.isFree == FreeMark
    requires forall i | 1 <= i < end :: mem[i].isFree == FreeMark <==> i in list
    ensures forall i | 1 <= i < end :: mem[index := raw][i].isFree == FreeMark <==> i in [index] + list
  {
    var mem' := mem[index := raw];
    forall i | 1 <= i < end
      ensures mem'[i].isFree == FreeMark <==> i in [index] + list
    {
      if i != index {
        assert mem'[i] == mem[i];
      }
    }
  }

  /** The ids of the links of `v` that `q` matches. */
  function SelectedIn(v: map<nat, Link<nat>>, q: seq<nat>): (r: set<nat>)
    ensures forall i :: i in r <==> i in v && Matches(q, v[i])
  {
    set i | i in v && Matches(q, v[i])
  }

  /** Adding a link adds its id to a selection exactly when the query matches it. */
  lemma SelectedAdd(v: map<nat, Link<nat>>, id: nat, l: Link<nat>, q: seq<nat>)
    requires id !in v
    ensures SelectedIn(v[id := l], q) == SelectedIn(v, q) + (if Matches(q, l) then {id} else {})
  {
  }

  /** Storing twice at one key keeps the second value. */
  lemma Overwrite<K, V>(m: map<K, V>, k: K, first: V, second: V)
    ensures m[k := first][k := second] == m[k := second]
  {
  }

  class Store {
    var mem: seq<RawLink>
    var allocatedEnd: nat
    var freeCount: nat
    var firstFree: Option<nat>
    /** The free list from its head: the ids `first_free` and the `source` fields chain. */
    ghost var freeList: seq<nat>

    /**
     * Ids 1 to `allocatedEnd - 1` have slots; the free list holds distinct such ids,
     * chained through `source` and counted by `free_count`; a slot is marked free
     * exactly when its id is on the list.
     */
    ghost predicate Valid()
      reads this
    {
      Wf(mem, allocatedEnd, freeCount, firstFree, freeList)
    }

    /** `Store::new` on fresh memory: 1024 zeroed slots and no links. */
    constructor ()
      ensures Valid() && View() == map[]
      ensures allocatedEnd == 1 && freeCount == 0 && firstFree.None? && |mem| == InitialSlots
    {
      mem := seq(InitialSlots, _ => Zeroed);
      allocatedEnd := 1;
      freeCount := 0;
      firstFree := None;
      freeList := [];
    }

    /** `exists`: a non-zero id below `allocatedEnd` whose slot is not marked free. */
    predicate Exists(index: nat)
      reads this
      ensures Valid() ==> (Exists(index) <==> 1 <= index < allocatedEnd && index !in freeList)
    {
      Live(mem, allocatedEnd, index)
    }

    /** The link stored in the slot of an existing id. */
    function LinkOf(index: nat): Link<nat>
      requires Exists(index)
      reads this
    {
      Stored(mem, index)
    }

    /** The links of the store, by id. */
    function View(): (v: map<nat, Link<nat>>)
      reads this
      ensures forall i :: i in v <==> Exists(i)
      ensures forall i | i in v :: v[i] == LinkOf(i)
    {
      ViewOf(mem, allocatedEnd)
    }

    /** `get`: the link of an existing id. */
    function Get(index: nat): (r: Option<Link<nat>>)
      reads this
      ensures r.Some? <==> index in View()
      ensures r.Some? ==> r.value == View()[index] && r.value.index == index
    {
      if !Exists(index) then None else Some(LinkOf(index))
    }

    /** `count_total`: `allocatedEnd - free_count - 1`, the number of links. */
    function CountTotal(): (r: nat)
      requires Valid()
      reads this
      ensures r == |View()|
    {
      FreeListSize();
      allocatedEnd - freeCount - 1
    }

    /** The ids of the links are those below `allocatedEnd` less the free list. */
    lemma FreeListSize()
      requires Valid()
      ensures allocatedEnd - freeCount - 1 == |View()|
    {
      var ids := Range(1, allocatedEnd);
      var all := Elements(ids);
      var free := Elements(freeList);
      DistinctSize(ids);
      DistinctSize(freeList);
      forall x | x in View().Keys
        ensures x in all - free
      {
        assert Exists(x);
      }
      forall x | x in all - free
        ensures x in View().Keys
      {
        assert 1 <= x < allocatedEnd && x !in freeList;
        assert Exists(x);
      }
      assert View().Keys == all - free;
      forall x | x in free
        ensures x in all
      {
        var k :| 0 <= k < |freeList| && freeList[k] == x;
      }
      var kept := all - free;
      assert all == kept + free && kept * free == {};
      assert |all| == |kept| + |free|;
    }

    /** The links from id `i` up that `q` selects, in ascending id order. */
    function MatchingFrom(q: seq<nat>, i: nat): seq<Link<nat>>
      reads this
      decreases allocatedEnd - i
    {
      if allocatedEnd <= i then []
      else (if Exists(i) && Matches(q, LinkOf(i)) then [LinkOf(i)] else []) + MatchingFrom(q, i + 1)
    }

    /** The links `q` selects, in ascending id order. */
    function Matching(q: seq<nat>): seq<Link<nat>>
      reads this
    {
      MatchingFrom(q, 1)
    }

    /** The ids of `q`'s selection: the links of the store that `q` matches. */
    function Selected(q: seq<nat>): set<nat>
      reads this
    {
      SelectedIn(View(), q)
    }

    /**
     * The links from id `i` up that `q` selects are links of the store, at ids from `i`,
     * in strictly ascending id order, and every selected link at such an id is among them.
     */
    lemma MatchingFromSpec(q: seq<nat>, i: nat)
      ensures forall k | 0 <= k < |MatchingFrom(q, i)| ::
        && i <= MatchingFrom(q, i)[k].index
        && MatchingFrom(q, i)[k].index in Selected(q)
        && View()[MatchingFrom(q, i)[k].index] == MatchingFrom(q, i)[k]
      ensures forall k, m | 0 <= k < m < |MatchingFrom(q, i)| ::
        MatchingFrom(q, i)[k].index < MatchingFrom(q, i)[m].index
      ensures forall j | j in Selected(q) && i <= j :: View()[j] in MatchingFrom(q, i)
    {
      MatchingFromLinks(q, i);
      MatchingFromOrdered(q, i);
      MatchingFromComplete(q, i);
    }

    /** The links from id `i` up that `q` selects are selected links, at their ids, from `i` on. */
    lemma {:induction false} MatchingFromLinks(q: seq<nat>, i: nat)
      ensures forall k | 0 <= k < |MatchingFrom(q, i)| ::
        && i <= MatchingFrom(q, i)[k].index
        && MatchingFrom(q, i)[k].index in Selected(q)
        && View()[MatchingFrom(q, i)[k].index] == MatchingFrom(q, i)[k]
      decreases allocatedEnd - i
    {
      if i < allocatedEnd {
        MatchingFromLinks(q, i + 1);
        var head := if Exists(i) && Matches(q, LinkOf(i)) then [LinkOf(i)] else [];
        assert MatchingFrom(q, i) == head + MatchingFrom(q, i + 1);
      }
    }

    /** The links from id `i` up that `q` selects come in strictly ascending id order. */
    lemma {:induction false} MatchingFromOrdered(q: seq<nat>, i: nat)
      ensures forall k, m | 0 <= k < m < |MatchingFrom(q, i)| ::
        MatchingFrom(q, i)[k].index < MatchingFrom(q, i)[m].index
      decreases allocatedEnd - i
    {
      if i < allocatedEnd {
        MatchingFromOrdered(q, i + 1);
        MatchingFromLinks(q, i + 1);
        var head := if Exists(i) && Matches(q, LinkOf(i)) then [LinkOf(i)] else [];
        assert MatchingFrom(q, i) == head + MatchingFrom(q, i + 1);
      }
    }

    /** Every link `q` selects at an id from `i` up is among those listed. */
    lemma {:induction false} MatchingFromComplete(q: seq<nat>, i: nat)
      ensures forall j | j in Selected(q) && i <= j :: View()[j] in MatchingFrom(q, i)
      decreases allocatedEnd - i
    {
      if i < allocatedEnd {
        MatchingFromComplete(q, i + 1);
        var head := if Exists(i) && Matches(q, LinkOf(i)) then [LinkOf(i)] else [];
        var rest := MatchingFrom(q, i + 1);
        assert MatchingFrom(q, i) == head + rest;
        forall j | j in Selected(q) && i <= j
          ensures View()[j] in MatchingFrom(q, i)
        {
          if j == i {
            assert View()[j] in head;
          } else {
            assert View()[j] in rest;
          }
        }
      } else {
        forall j | j in Selected(q)
          ensures j < allocatedEnd
        {
          assert Exists(j);
        }
      }
    }

    /** `Matching(q)` lists the links `q` selects, once each, in ascending id order. */
    lemma MatchingSpec(q: seq<nat>)
      ensures forall k | 0 <= k < |Matching(q)| ::
        Matching(q)[k].index in Selected(q) && View()[Matching(q)[k].index] == Matching(q)[k]
      ensures forall k, m | 0 <= k < m < |Matching(q)| :: Matching(q)[k].index < Matching(q)[m].index
      ensures forall j | j in Selected(q) :: View()[j] in Matching(q)
    {
      MatchingFromSpec(q, 1);
      forall j | j in Selected(q)
        ensures 1 <= j
      {
        assert Exists(j);
      }
    }

    /** There are as many links in `Matching(q)` as ids `q` selects. */
    lemma MatchingSize(q: seq<nat>)
      ensures |Matching(q)| == |Selected(q)|
    {
      MatchingSpec(q);
      var m := Matching(q);
      var ids := seq(|m|, k requires 0 <= k < |m| => m[k].index);
      DistinctSize(ids);
      forall j | j in Selected(q)
        ensures j in ids
      {
        var k :| 0 <= k < |m| && m[k] == View()[j];
        assert ids[k] == j;
      }
      assert Elements(ids) == Selected(q);
    }

    /** Queries that select the same links list the same links. */
    lemma {:induction false} MatchingFromAlike(q: seq<nat>, q': seq<nat>, i: nat)
      requires forall l :: Matches(q, l) == Matches(q', l)
      ensures MatchingFrom(q, i) == MatchingFrom(q', i)
      decreases allocatedEnd - i
    {
      if i < allocatedEnd {
        MatchingFromAlike(q, q', i + 1);
      }
    }

    /** An index query lists the link at that index, or nothing. */
    lemma {:induction false} MatchingFromIndex(index: nat, i: nat)
      requires index != Any
      ensures MatchingFrom([index], i) == if i <= index && Exists(index) then [LinkOf(index)] else []
      decreases allocatedEnd - i
    {
      if i < allocatedEnd {
        MatchingFromIndex(index, i + 1);
      }
    }

    /** `count` of the empty query: every link. */
    lemma CountTotalIsMatching()
      requires Valid()
      ensures CountTotal() == |Matching([])|
    {
      MatchingSize([]);
      assert Selected([]) == View().Keys;
    }

    /** Running `h` over the links from id `i` up that `q` selects. */
    method EachFrom(q: seq<nat>, h: ReadFn, i: nat) returns (flow: Flow, given: seq<Link<nat>>)
      requires 1 <= i
      ensures Fed(flow, given) == Feed(h, MatchingFrom(q, i), [])
    {
      var j := i;
      given := [];
      while j < allocatedEnd
        invariant i <= j
        invariant Feed(h, MatchingFrom(q, i), []) == Feed(h, MatchingFrom(q, j), given)
        decreases allocatedEnd - j
      {
        var rest := MatchingFrom(q, j + 1);
        if Exists(j) {
          var link := LinkOf(j);
          if Matches(q, link) {
            assert MatchingFrom(q, j) == [link] + rest;
            if IntoFlow(h(given, link)) == Break {
              return Break, given + [link];
            }
            assert ([link] + rest)[1..] == rest;
            given := given + [link];
          } else {
            assert MatchingFrom(q, j) == rest;
          }
        } else {
          assert MatchingFrom(q, j) == rest;
        }
        j := j + 1;
      }
      flow := Continue;
    }

    /**
     * `each`: the handler is run over the links `q` selects in ascending id order,
     * until it answers `Break`; an index query looks at that one link only.
     */
    method Each(q: seq<nat>, h: ReadFn) returns (flow: Flow, given: seq<Link<nat>>)
      ensures Fed(flow, given) == Feed(h, Matching(q), [])
      decreases |q|
    {
      if |q| == 0 {
        flow, given := EachFrom(q, h, 1);
        return;
      }
      var indexQuery := q[0];
      if |q| == 1 {
        if indexQuery == Any {
          MatchingFromAlike(q, [], 1);
          flow, given := Each([], h);
          return;
        }
        assert q == [indexQuery];
        MatchingFromIndex(indexQuery, 1);
        if Exists(indexQuery) {
          var link := LinkOf(indexQuery);
          flow := IntoFlow(h([], link));
          given := [link];
          return;
        }
        return Continue, [];
      }
      flow, given := EachFrom(q, h, 1);
    }

    /** `count`: the number of links `q` selects. */
    method Count(q: seq<nat>) returns (r: nat)
      requires Valid()
      ensures r == |Selected(q)|
    {
      MatchingSize(q);
      if |q| == 0 {
        CountTotalIsMatching();
        return CountTotal();
      }
      var index := q[0];
      if |q| == 1 {
        if index == Any {
          CountTotalIsMatching();
          MatchingFromAlike(q, [], 1);
          return CountTotal();
        }
        assert q == [index];
        MatchingFromIndex(index, 1);
        if Exists(index) {
          return 1;
        }
        return 0;
      }
      var h: ReadFn := (passed, l) => FlowValue(Continue);
      var flow, given := Each(q, h);
      FeedAll(h, Matching(q), []);
      r := |given|;
    }

    /**
     * `allocate_index`: the head of the free list when there is one (its slot is
     * unmarked, keeping the chain link in `source`, and the list moves to the next id),
     * otherwise `allocated` with its slot zeroed, the table
     * doubling once `allocated` reaches its length. The id becomes a link; no other
     * link changes.
     */
    method AllocateIndex() returns (index: nat)
      requires Valid()
      modifies this
      ensures Valid()
      ensures 1 <= index < |mem| && index !in old(View()) && index in View()
      ensures View() == old(View())[index := LinkOf(index)]
      ensures old(firstFree).Some? ==>
        index == old(firstFree).value && freeList == old(freeList)[1..] && allocatedEnd == old(allocatedEnd)
      ensures old(firstFree).None? ==>
        index == old(allocatedEnd) && allocatedEnd == old(allocatedEnd) + 1 && freeList == old(freeList)
      ensures old(firstFree).Some? ==>
        index < |old(mem)| && mem[index] == old(mem)[index].(isFree := 0) && freeCount == old(freeCount) - 1
      ensures old(firstFree).None? ==> mem[index] == Zeroed && freeCount == old(freeCount)
      ensures |old(mem)| <= |mem| && forall i | 0 <= i < |old(mem)| && i != index :: mem[i] == old(mem)[i]
    {
      if firstFree.Some? {
        index := PopFree();
      } else {
        index := TakeFresh();
      }
    }

    /** The reuse branch of `allocate_index`: unmark the head of the free list and move the list on. */
    method PopFree() returns (index: nat)
      requires Valid() && firstFree.Some?
      modifies this
      ensures Valid()
      ensures index == old(firstFree).value && freeList == old(freeList)[1..] && allocatedEnd == old(allocatedEnd)
      ensures 1 <= index < |old(mem)| && index !in old(View()) && View() == old(View())[index := LinkOf(index)]
      ensures mem == old(mem)[index := old(mem)[index].(isFree := 0)] && freeCount == old(freeCount) - 1
    {
      var free := firstFree.value;
      WfPop(mem, allocatedEnd, freeList);
      assert free == freeList[0] && 1 <= free < allocatedEnd < |mem|;
      var next := if free < |mem| then (if mem[free].source == 0 then None else Some(mem[free].source)) else None;
      if free < |mem| {
        mem := mem[free := mem[free].(isFree := 0)];
      }
      firstFree := next;
      freeCount := freeCount - 1;
      freeList := freeList[1..];
      return free;
    }

    /** The fresh branch of `allocate_index`: hand out `allocated`, growing the table when it is full. */
    method TakeFresh() returns (index: nat)
      requires Valid() && firstFree.None?
      modifies this
      ensures Valid()
      ensures index == old(allocatedEnd) && allocatedEnd == old(allocatedEnd) + 1 && freeList == old(freeList)
      ensures 1 <= index < |mem| && index !in old(View()) && View() == old(View())[index := LinkOf(index)]
      ensures mem[index] == Zeroed && freeCount == old(freeCount) && firstFree.None?
      ensures |old(mem)| <= |mem| && forall i | 0 <= i < |old(mem)| && i != index :: mem[i] == old(mem)[i]
    {
      index := allocatedEnd;
      allocatedEnd := allocatedEnd + 1;
      ghost var mem0 := mem;
      if allocatedEnd >= |mem| {
        var addition := |mem|;
        mem := mem + seq(addition, _ => Zeroed);
      }
      assert mem[..|mem0|] == mem0;
      WfFresh(mem0, mem, index);
      if index < |mem| {
        mem := mem[index := Zeroed];
      }
    }

    /**
     * `free_index`: the slot of `index` is marked free, chained to the old head of the
     * free list, and becomes the new head; the link is gone, no other changes.
     */
    method FreeIndex(index: nat)
      requires Valid() && Exists(index)
      modifies this
      ensures Valid()
      ensures View() == old(View()) - {index}
      ensures mem == old(mem)[index := RawLink(old(firstFree).UnwrapOr(0), 0, FreeMark)]
      ensures firstFree == Some(index) && freeList == [index] + old(freeList)
      ensures allocatedEnd == old(allocatedEnd) && freeCount == old(freeCount) + 1
    {
      var nextFree := firstFree.UnwrapOr(0);
      WfPush(mem, allocatedEnd, firstFree, freeList, index);
      if index < |mem| {
        mem := mem[index := RawLink(nextFree, 0, FreeMark)];
      }
      firstFree := Some(index);
      freeCount := freeCount + 1;
      freeList := [index] + freeList;
    }

    /**
     * `create`: a new link at the id `allocate_index` hands out (the last freed one
     * first), with the source and target the query gives; the handler sees nothing
     * before and the new link after.
     */
    method Create(q: seq<nat>, h: WriteFn) returns (res: Result<Flow>, before: Link<nat>, after: Link<nat>)
      requires Valid()
      modifies this
      ensures Valid()
      ensures before == NoLink && after == New(after.index, CreatedSource(q), CreatedTarget(q))
      ensures after.index != 0 && after.index !in old(View()) && View() == old(View())[after.index := after]
      ensures old(firstFree).Some? ==> after.index == old(firstFree).value && freeList == old(freeList)[1..]
      ensures old(firstFree).None? ==> after.index == old(allocatedEnd) && freeList == old(freeList)
      ensures res == Ok(WriteHandle(h, before, after))
    {
      var index := AllocateIndex();
      before := NoLink;
      var source, target;
      if |q| == 0 {
        source, target := 0, 0;
      } else if |q| == 1 {
        source, target := q[0], q[0];
      } else {
        source, target := q[0], q[1];
      }
      ghost var allocatedView := View();
      WfWrite(mem, allocatedEnd, freeCount, firstFree, freeList, index, RawLink(source, target, 0));
      if index < |mem| {
        mem := mem[index := RawLink(source, target, 0)];
      }
      after := New(index, source, target);
      assert View() == allocatedView[index := after];
      Overwrite(old(View()), index, allocatedView[index], after);
      res := Ok(WriteHandle(h, before, after));
    }

    /**
     * `update`: an empty query or change is invalid, a missing link does not exist;
     * otherwise the link keeps its id and takes the source and the target the change
     * gives (its first element is ignored), keeping the old ones it does not give.
     */
    method Update(q: seq<nat>, change: seq<nat>, h: WriteFn) returns (res: Result<Flow>, before: Link<nat>, after: Link<nat>)
      requires Valid()
      modifies this
      ensures Valid()
      ensures |q| == 0 || |change| == 0 ==> res == Err(InvalidQuery) && unchanged(this)
      ensures |q| > 0 && |change| > 0 && q[0] !in old(View()) ==> res == Err(NotExists(q[0])) && unchanged(this)
      ensures |q| > 0 && |change| > 0 && q[0] in old(View()) ==>
        && before == old(View())[q[0]]
        && after == New(q[0], if |change| >= 2 then change[1] else before.source,
                              if |change| >= 3 then change[2] else before.target)
        && View() == old(View())[q[0] := after]
        && res == Ok(WriteHandle(h, before, after))
      ensures allocatedEnd == old(allocatedEnd) && freeList == old(freeList)
    {
      before, after := NoLink, NoLink;
      if |q| == 0 || |change| == 0 {
        return Err(InvalidQuery), before, after;
      }
      var index := q[0];
      if !Exists(index) {
        return Err(NotExists(index)), before, after;
      }
      before := LinkOf(index);
      var newSource := if |change| >= 2 then change[1] else before.source;
      var newTarget := if |change| >= 3 then change[2] else before.target;
      WfWrite(mem, allocatedEnd, freeCount, firstFree, freeList, index,
        mem[index].(source := newSource, target := newTarget));
      if index < |mem| {
        mem := mem[index := mem[index].(source := newSource, target := newTarget)];
      }
      after := New(index, newSource, newTarget);
      res := Ok(WriteHandle(h, before, after));
    }

    /**
     * `delete`: an empty query is invalid, a missing link does not exist; otherwise the
     * link is gone and its id heads the free list; the handler sees the link before and
     * nothing after.
     */
    method Delete(q: seq<nat>, h: WriteFn) returns (res: Result<Flow>, before: Link<nat>, after: Link<nat>)
      requires Valid()
      modifies this
      ensures Valid()
      ensures |q| == 0 ==> res == Err(InvalidQuery) && unchanged(this)
      ensures |q| > 0 && q[0] !in old(View()) ==> res == Err(NotExists(q[0])) && unchanged(this)
      ensures |q| > 0 && q[0] in old(View()) ==>
        && before == old(View())[q[0]] && after == NoLink
        && View() == old(View()) - {q[0]}
        && firstFree == Some(q[0]) && freeList == [q[0]] + old(freeList)
        && res == Ok(WriteHandle(h, before, after))
    {
      before, after := NoLink, NoLink;
      if |q| == 0 {
        return Err(InvalidQuery), before, after;
      }
      var index := q[0];
      if !Exists(index) {
        return Err(NotExists(index)), before, after;
      }
      before := LinkOf(index);
      FreeIndex(index);
      res := Ok(WriteHandle(h, before, after));
    }
  }
}

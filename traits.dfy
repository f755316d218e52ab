/**
 * The `Doublets` operations every link store gets from `Links`: counting, creating
 * links and points, updating, deleting, searching by source and target, usage counts,
 * rebasing and collecting. Each is a method over the store of `store.dfy`; a
 * capturing closure becomes a handler whose capture is read back from what the
 * store operation reports it was given.
 */
module Doublets {
  import opened Wrappers
  import opened Errors
  import opened Handler
  import opened LinkIndex
  import opened Store

  /** The handler of the write calls: it only continues. */
  const Proceed: WriteFn := (before, after) => FlowValue(Continue)

  /** `count_all`: the number of links. */
  method CountAll(st: Store) returns (r: nat)
    requires st.Valid()
    ensures r == |st.View()|
  {
    r := st.Count([]);
    assert st.Selected([]) == st.View().Keys;
  }

  /** `count_by`: the number of links the query selects. */
  method CountBy(st: Store, q: seq<nat>) returns (r: nat)
    requires st.Valid()
    ensures r == |st.Selected(q)|
  {
    r := st.Count(q);
  }

  /** `create_link`: a new link from `source` to `target`, at the id `create` hands out. */
  method CreateLink(st: Store, source: nat, target: nat) returns (r: Result<nat>)
    requires st.Valid()
    modifies st
    ensures st.Valid() && r.Ok?
    ensures r.value != 0 && r.value !in old(st.View())
    ensures st.View() == old(st.View())[r.value := New(r.value, source, target)]
    ensures old(st.firstFree).Some? ==> r.value == old(st.firstFree).value
  {
    var res, before, after := st.Create([source, target], Proceed);
    match res
    case Err(e) =>
      return Err(e);
    case Ok(_) =>
      return Ok(after.index);
  }

  /** `create_point`: a new link whose source and target are its own id. */
  method CreatePoint(st: Store) returns (r: Result<nat>)
    requires st.Valid()
    modifies st
    ensures st.Valid() && r.Ok?
    ensures r.value != 0 && r.value !in old(st.View())
    ensures st.View() == old(st.View())[r.value := Point(r.value)]
  {
    var res, before, after := st.Create([], Proceed);
    match res
    case Err(e) =>
      return Err(e);
    case Ok(_) =>
    var index := after.index;
    ghost var created := st.View();
    var res', before', after' := st.Update([index], [index, index, index], Proceed);
    match res'
    case Err(e) =>
      return Err(e);
    case Ok(_) =>
    Overwrite(old(st.View()), index, created[index], Point(index));
    return Ok(index);
  }

  /** `update_link`: give an existing link a new source and target. */
  method UpdateLink(st: Store, index: nat, source: nat, target: nat) returns (r: Result<nat>)
    requires st.Valid()
    modifies st
    ensures st.Valid()
    ensures index !in old(st.View()) ==> r == Err(NotExists(index)) && unchanged(st)
    ensures index in old(st.View()) ==>
      r == Ok(index) && st.View() == old(st.View())[index := New(index, source, target)]
    ensures st.allocatedEnd == old(st.allocatedEnd) && st.freeList == old(st.freeList)
  {
    var res, before, after := st.Update([index], [index, source, target], Proceed);
    match res
    case Err(e) =>
      return Err(e);
    case Ok(_) =>
      return Ok(after.index);
  }

  /** `delete_link`: remove an existing link. */
  method DeleteLink(st: Store, index: nat) returns (r: Result<nat>)
    requires st.Valid()
    modifies st
    ensures st.Valid()
    ensures index !in old(st.View()) ==> r == Err(NotExists(index)) && unchanged(st)
    ensures index in old(st.View()) ==>
      r == Ok(index) && st.View() == old(st.View()) - {index} && st.firstFree == Some(index)
  {
    var res, before, after := st.Delete([index], Proceed);
    match res
    case Err(e) =>
      return Err(e);
    case Ok(_) =>
      return Ok(before.index);
  }

  /** The handler of `search`: it stops at the first link. */
  const StopAtFirst: ReadFn := (passed, link) => FlowValue(Break)

  /** A handler that stops at once is given the first link only. */
  lemma FeedFirst(links: seq<Link<nat>>)
    ensures Feed(StopAtFirst, links, []) == if links == [] then Fed(Continue, []) else Fed(Break, [links[0]])
  {
  }

  /**
   * `search`: the lowest id of a link from `source` to `target` (either given as
   * `ANY` matches every link), or nothing when there is none.
   */
  method Search(st: Store, source: nat, target: nat) returns (r: Option<nat>)
    ensures r.None? <==> st.Selected([Any, source, target]) == {}
    ensures r.Some? ==> r.value in st.Selected([Any, source, target])
    ensures r.Some? ==> forall j | j in st.Selected([Any, source, target]) :: r.value <= j
  {
    var q := [Any, source, target];
    var flow, given := st.Each(q, StopAtFirst);
    FeedFirst(st.Matching(q));
    st.MatchingSpec(q);
    r := if |given| == 0 then None else Some(given[|given| - 1].index);
    st.MatchingSize(q);
    if r.Some? {
      var m := st.Matching(q);
      forall j | j in st.Selected(q)
        ensures r.value <= j
      {
        var k :| 0 <= k < |m| && m[k] == st.View()[j];
        assert m[k].index == j;
        if k > 0 {
          assert m[0].index < m[k].index;
        }
      }
    }
  }

  /**
   * `get_or_create`: the lowest id of a link from `source` to `target` if there is one,
   * and otherwise a new such link. Afterwards the answer is that lowest id, so a second
   * call answers the same and changes nothing.
   */
  method GetOrCreate(st: Store, source: nat, target: nat) returns (r: Result<nat>)
    requires st.Valid()
    modifies st
    ensures st.Valid() && r.Ok?
    ensures old(st.Selected([Any, source, target])) != {} ==> unchanged(st)
    ensures old(st.Selected([Any, source, target])) == {} ==>
      r.value !in old(st.View()) && st.View() == old(st.View())[r.value := New(r.value, source, target)]
    ensures r.value in st.Selected([Any, source, target])
    ensures forall j | j in st.Selected([Any, source, target]) :: r.value <= j
  {
    var found := Search(st, source, target);
    if found.Some? {
      return Ok(found.value);
    }
    ghost var q := [Any, source, target];
    r := CreateLink(st, source, target);
    SelectedAdd(old(st.View()), r.value, New(r.value, source, target), q);
  }

  /** Two `get_or_create` calls in a row answer the same id; only the first may add a link. */
  method GetOrCreateTwice(st: Store, source: nat, target: nat) returns (first: Result<nat>, second: Result<nat>)
    requires st.Valid()
    modifies st
    ensures first.Ok? && second == first
    ensures |st.View()| == |old(st.View())| + if old(st.Selected([Any, source, target])) == {} then 1 else 0
  {
    first := GetOrCreate(st, source, target);
    ghost var q := [Any, source, target];
    assert first.value in st.Selected(q);
    second := GetOrCreate(st, source, target);
    assert second.value <= first.value && first.value <= second.value;
  }

  /**
   * `delete_link` and then `create_link`: the freed id is the one handed out next, so
   * the number of links is back where it was.
   */
  method DeleteThenCreate(st: Store, index: nat, source: nat, target: nat) returns (deleted: Result<nat>, created: Result<nat>)
    requires st.Valid() && index in st.View()
    modifies st
    ensures deleted == Ok(index) && created == Ok(index)
    ensures st.View() == old(st.View())[index := New(index, source, target)]
    ensures |st.View()| == |old(st.View())|
  {
    deleted := DeleteLink(st, index);
    created := CreateLink(st, source, target);
  }

  /** The other links that use `index` as their source. */
  function SourceUsers(v: map<nat, Link<nat>>, index: nat): set<nat> {
    set i | i in v && i != index && v[i].source == index
  }

  /** The other links that use `index` as their target. */
  function TargetUsers(v: map<nat, Link<nat>>, index: nat): set<nat> {
    set i | i in v && i != index && v[i].target == index
  }

  /** `usize::checked_sub_one(v).unwrap_or(v)`: one less, but 0 stays 0. */
  function SubOneOrKeep(v: nat): (r: nat)
    ensures v > 0 ==> r == v - 1
    ensures v == 0 ==> r == 0
  {
    if v >= 1 then v - 1 else v
  }

  /** Leaving `index` out of `all` drops one element exactly when `index` is in it. */
  lemma DropSelf(all: set<nat>, others: set<nat>, index: nat)
    requires others == all - {index}
    ensures |others| == if index in all then SubOneOrKeep(|all|) else |all|
  {
    if index in all {
      assert all == others + {index};
    } else {
      assert others == all;
    }
  }

  /** The links from `index`, `index` itself left out when it is one, use it as their source. */
  lemma SourceUsersCount(v: map<nat, Link<nat>>, index: nat)
    requires index in v && index != Any
    ensures |SourceUsers(v, index)| ==
      if v[index].source == index then SubOneOrKeep(|SelectedIn(v, [Any, index, Any])|)
      else |SelectedIn(v, [Any, index, Any])|
  {
    var sources := SelectedIn(v, [Any, index, Any]);
    assert SourceUsers(v, index) == sources - {index};
    assert index in sources <==> v[index].source == index;
    DropSelf(sources, SourceUsers(v, index), index);
  }

  /** The links to `index`, `index` itself left out when it is one, use it as their target. */
  lemma TargetUsersCount(v: map<nat, Link<nat>>, index: nat)
    requires index in v && index != Any
    ensures |TargetUsers(v, index)| ==
      if v[index].target == index then SubOneOrKeep(|SelectedIn(v, [Any, Any, index])|)
      else |SelectedIn(v, [Any, Any, index])|
  {
    var targets := SelectedIn(v, [Any, Any, index]);
    assert TargetUsers(v, index) == targets - {index};
    assert index in targets <==> v[index].target == index;
    DropSelf(targets, TargetUsers(v, index), index);
  }

  /**
   * `count_usages`: how many other links use `index` as their source, plus how many
   * use it as their target (a link naming itself is not a usage) — or `NotExists`.
   */
  method CountUsages(st: Store, index: nat) returns (r: Result<nat>)
    requires st.Valid()
    ensures index !in st.View() ==> r == Err(NotExists(index))
    ensures index in st.View() ==>
      r == Ok(|SourceUsers(st.View(), index)| + |TargetUsers(st.View(), index)|)
  {
    var got := st.Get(index);
    if got.None? {
      return Err(NotExists(index));
    }
    var link := got.value;
    SourceUsersCount(st.View(), index);
    TargetUsersCount(st.View(), index);
    var usageSource := st.Count([Any, index, Any]);
    if index == link.source {
      usageSource := SubOneOrKeep(usageSource);
    }
    var usageTarget := st.Count([Any, Any, index]);
    if index == link.target {
      usageTarget := SubOneOrKeep(usageTarget);
    }
    return Ok(usageSource + usageTarget);
  }

  /** `has_usages`: some other link uses `index` as source or target (false for a missing link). */
  method HasUsages(st: Store, index: nat) returns (b: bool)
    requires st.Valid()
    ensures b <==> index in st.View() && SourceUsers(st.View(), index) + TargetUsers(st.View(), index) != {}
  {
    var count := CountUsages(st, index);
    b := if count.Ok? then count.value != 0 else false;
    var users := SourceUsers(st.View(), index) + TargetUsers(st.View(), index);
    assert users == {} <==> SourceUsers(st.View(), index) == {} && TargetUsers(st.View(), index) == {};
  }

  /**
   * `collect_all`: every link, in ascending id order. The source also counts the links
   * first, only to size the vector.
   */
  method CollectAll(st: Store) returns (links: seq<Link<nat>>)
    requires st.Valid()
    ensures forall l :: l in links <==> l.index in st.View() && st.View()[l.index] == l
    ensures forall k, m | 0 <= k < m < |links| :: links[k].index < links[m].index
  {
    var count := CountAll(st);
    var collect: ReadFn := (passed, link) => FlowValue(Continue);
    var flow;
    flow, links := st.Each([], collect);
    FeedAll(collect, st.Matching([]), []);
    st.MatchingSpec([]);
    assert forall i :: i in st.Selected([]) <==> i in st.View();
  }

  /** One `update_link` that `rebase` queues: an id and its new source and target. */
  datatype Change = Change(index: nat, source: nat, target: nat)

  /** What a `rebase` closure pushes for the links of one scan: `f` of each link but `previous`. */
  function Pass(links: seq<Link<nat>>, previous: nat, f: Link<nat> -> Change): seq<Change>
    decreases |links|
  {
    if links == [] then []
    else
      var l := links[|links| - 1];
      Pass(links[..|links| - 1], previous, f) + if l.index != previous then [f(l)] else []
  }

  /** The first closure of `rebase`: a link from `previous` gets the source `replacement`. */
  function NewSource(replacement: nat): Link<nat> -> Change {
    (l: Link<nat>) => Change(l.index, replacement, l.target)
  }

  /** The second closure as written: a link to `previous` gets the target `replacement`, its source read from the scan. */
  function NewTargetAsWritten(replacement: nat): Link<nat> -> Change {
    (l: Link<nat>) => Change(l.index, l.source, replacement)
  }

  /** The second closure as intended: the source is replaced too when it is `previous`. */
  function NewTarget(previous: nat, replacement: nat): Link<nat> -> Change {
    (l: Link<nat>) => Change(l.index, Replace(l.source, previous, replacement), replacement)
  }

  /** The last change to id `k`. */
  function LastFor(changes: seq<Change>, k: nat): (r: Option<Change>)
    ensures r.Some? ==> r.value in changes && r.value.index == k
    ensures r.None? ==> forall c | c in changes :: c.index != k
    decreases |changes|
  {
    if changes == [] then None
    else if changes[|changes| - 1].index == k then Some(changes[|changes| - 1])
    else LastFor(changes[..|changes| - 1], k)
  }

  /** A link after change `c`, if there is one. */
  function Changed(l: Link<nat>, c: Option<Change>): Link<nat> {
    match c
    case None => l
    case Some(c) => New(c.index, c.source, c.target)
  }

  /** Running the changes in order on the links `v`; a change to a missing id does nothing. */
  function Apply(v: map<nat, Link<nat>>, changes: seq<Change>): map<nat, Link<nat>>
    decreases |changes|
  {
    if changes == [] then v
    else
      var before := Apply(v, changes[..|changes| - 1]);
      var c := changes[|changes| - 1];
      if c.index in before then before[c.index := New(c.index, c.source, c.target)] else before
  }

  /** Running changes keeps the ids, and each link ends as the last change to it made it. */
  lemma {:induction false} ApplyLast(v: map<nat, Link<nat>>, changes: seq<Change>)
    ensures Apply(v, changes).Keys == v.Keys
    ensures forall k | k in v :: Apply(v, changes)[k] == Changed(v[k], LastFor(changes, k))
    decreases |changes|
  {
    if changes != [] {
      ApplyLast(v, changes[..|changes| - 1]);
    }
  }

  /** The last change in `a + b` to an id is its last change in `b`, if any, else in `a`. */
  lemma {:induction false} LastForConcat(a: seq<Change>, b: seq<Change>, k: nat)
    ensures LastFor(a + b, k) == if LastFor(b, k).Some? then LastFor(b, k) else LastFor(a, k)
    decreases |b|
  {
    if b == [] {
      assert a + b == a;
    } else {
      assert (a + b)[..|a + b| - 1] == a + b[..|b| - 1];
      LastForConcat(a, b[..|b| - 1], k);
    }
  }

  /**
   * Over links that are links of `v`, the last change a pass makes to `k` is `f` of
   * `v[k]` when `v[k]` is one of them and `k` is not `previous`, and none otherwise.
   */
  lemma {:induction false} LastForPass(v: map<nat, Link<nat>>, links: seq<Link<nat>>, previous: nat, f: Link<nat> -> Change, k: nat)
    requires forall i | i in v :: v[i].index == i
    requires forall l | l in links :: l.index in v && v[l.index] == l
    requires forall l :: f(l).index == l.index
    ensures LastFor(Pass(links, previous, f), k) ==
      if k != previous && k in v && v[k] in links then Some(f(v[k])) else None
    decreases |links|
  {
    if links != [] {
      var init := links[..|links| - 1];
      var l := links[|links| - 1];
      assert links == init + [l];
      var tail := if l.index != previous then [f(l)] else [];
      LastForConcat(Pass(init, previous, f), tail, k);
      LastForPass(v, init, previous, f, k);
      assert k in v && v[k] in links ==> v[k] in init || v[k] == l;
    }
  }

  /** `e`, with `previous` replaced by `replacement`. */
  function Replace(e: nat, previous: nat, replacement: nat): nat {
    if e == previous then replacement else e
  }

  /** Every other link, every use of `previous` as source or target replaced by `replacement`. */
  function Rebased(v: map<nat, Link<nat>>, previous: nat, replacement: nat): map<nat, Link<nat>> {
    map k | k in v :: if k == previous then v[k]
      else New(k, Replace(v[k].source, previous, replacement), Replace(v[k].target, previous, replacement))
  }

  /**
   * What `rebase` as written leaves: the same, except that a link using `previous` as
   * both source and target keeps `previous` as its source.
   */
  function RebasedAsWritten(v: map<nat, Link<nat>>, previous: nat, replacement: nat): map<nat, Link<nat>> {
    map k | k in v :: if k == previous then v[k]
      else New(k, if v[k].target == previous then v[k].source else Replace(v[k].source, previous, replacement),
                  Replace(v[k].target, previous, replacement))
  }

  /** After a rebase to another id, no link but `previous` itself uses `previous`. */
  lemma RebasedFreesPrevious(v: map<nat, Link<nat>>, previous: nat, replacement: nat)
    requires previous != replacement
    ensures Rebased(v, previous, replacement).Keys == v.Keys
    ensures forall k | k in v && k != previous ::
      Rebased(v, previous, replacement)[k].source != previous && Rebased(v, previous, replacement)[k].target != previous
  {
  }

  /**
   * A link 2 from 1 to 1 next to the point 3: rebasing 1 onto 3 as written leaves
   * link 2 from 1 to 3, still using 1.
   */
  lemma RebasedAsWrittenKeepsPrevious()
    ensures var v := map[1 := Point(1), 2 := New(2, 1, 1), 3 := Point(3)];
      && RebasedAsWritten(v, 1, 3)[2] == New(2, 1, 3)
      && Rebased(v, 1, 3)[2] == New(2, 3, 3)
  {
  }

  /**
   * The two scans of `rebase` and its queue: `NewSource` of the links from `previous`,
   * then `g` of the links to it. Running the queue changes each link by its last change.
   */
  lemma PlanOutcome(v: map<nat, Link<nat>>, previous: nat, replacement: nat,
                    fromOld: seq<Link<nat>>, toOld: seq<Link<nat>>, g: Link<nat> -> Change)
    requires forall i | i in v :: v[i].index == i
    requires forall l :: l in fromOld <==> l.index in v && v[l.index] == l && l.source == previous
    requires forall l :: l in toOld <==> l.index in v && v[l.index] == l && l.target == previous
    requires forall l :: g(l).index == l.index && g(l).target == replacement
    ensures Apply(v, Pass(fromOld, previous, NewSource(replacement)) + Pass(toOld, previous, g)).Keys == v.Keys
    ensures forall k | k in v ::
      Apply(v, Pass(fromOld, previous, NewSource(replacement)) + Pass(toOld, previous, g))[k] ==
        if k == previous then v[k]
        else if v[k].target == previous then New(k, g(v[k]).source, replacement)
        else if v[k].source == previous then New(k, replacement, v[k].target)
        else v[k]
  {
    var f := NewSource(replacement);
    var a := Pass(fromOld, previous, f);
    var b := Pass(toOld, previous, g);
    ApplyLast(v, a + b);
    forall k | k in v
      ensures LastFor(a + b, k) ==
        if k == previous then None
        else if v[k].target == previous then Some(g(v[k]))
        else if v[k].source == previous then Some(f(v[k]))
        else None
    {
      LastForConcat(a, b, k);
      LastForPass(v, fromOld, previous, f, k);
      LastForPass(v, toOld, previous, g, k);
    }
  }

  /** The queue `rebase` builds as written leaves `RebasedAsWritten`. */
  lemma PlanIsRebasedAsWritten(v: map<nat, Link<nat>>, previous: nat, replacement: nat,
                               fromOld: seq<Link<nat>>, toOld: seq<Link<nat>>)
    requires forall i | i in v :: v[i].index == i
    requires forall l :: l in fromOld <==> l.index in v && v[l.index] == l && l.source == previous
    requires forall l :: l in toOld <==> l.index in v && v[l.index] == l && l.target == previous
    ensures Apply(v, Pass(fromOld, previous, NewSource(replacement)) + Pass(toOld, previous, NewTargetAsWritten(replacement)))
      == RebasedAsWritten(v, previous, replacement)
  {
    PlanOutcome(v, previous, replacement, fromOld, toOld, NewTargetAsWritten(replacement));
  }

  /** The corrected queue leaves `Rebased`. */
  lemma PlanIsRebased(v: map<nat, Link<nat>>, previous: nat, replacement: nat,
                      fromOld: seq<Link<nat>>, toOld: seq<Link<nat>>)
    requires forall i | i in v :: v[i].index == i
    requires forall l :: l in fromOld <==> l.index in v && v[l.index] == l && l.source == previous
    requires forall l :: l in toOld <==> l.index in v && v[l.index] == l && l.target == previous
    ensures Apply(v, Pass(fromOld, previous, NewSource(replacement)) + Pass(toOld, previous, NewTarget(previous, replacement)))
      == Rebased(v, previous, replacement)
  {
    PlanOutcome(v, previous, replacement, fromOld, toOld, NewTarget(previous, replacement));
  }

  /** Each change a pass queues is for one of the scanned links. */
  lemma {:induction false} PassWithin(v: map<nat, Link<nat>>, links: seq<Link<nat>>, previous: nat, f: Link<nat> -> Change)
    requires forall l | l in links :: l.index in v
    requires forall l :: f(l).index == l.index
    ensures forall c | c in Pass(links, previous, f) :: c.index in v
    decreases |links|
  {
    if links != [] {
      PassWithin(v, links[..|links| - 1], previous, f);
    }
  }

  /** One more change to an existing id updates that id. */
  lemma ApplyNext(v: map<nat, Link<nat>>, changes: seq<Change>, i: nat)
    requires i < |changes| && changes[i].index in v
    ensures Apply(v, changes[..i + 1]) ==
      Apply(v, changes[..i])[changes[i].index := New(changes[i].index, changes[i].source, changes[i].target)]
    ensures AllFor(v, changes[..i]) ==> AllFor(v, changes[..i + 1])
  {
    assert changes[..i + 1] == changes[..i] + [changes[i]];
    ApplyLast(v, changes[..i]);
  }

  /** The links a scan from (or to) `previous` visits: exactly the links from (or to) it. */
  lemma ScanOf(st: Store, previous: nat)
    requires previous != Any
    ensures forall l :: l in st.Matching([Any, previous, Any]) <==>
      l.index in st.View() && st.View()[l.index] == l && l.source == previous
    ensures forall l :: l in st.Matching([Any, Any, previous]) <==>
      l.index in st.View() && st.View()[l.index] == l && l.target == previous
  {
    st.MatchingSpec([Any, previous, Any]);
    st.MatchingSpec([Any, Any, previous]);
  }

  /** Every change in `changes` is for a link of `v`. */
  predicate AllFor(v: map<nat, Link<nat>>, changes: seq<Change>) {
    forall c | c in changes :: c.index in v
  }

  /**
   * The `update_link` loop of `rebase`: run the queued changes in order, stopping at the
   * first whose link does not exist. `done` changes have been run; the error, if any,
   * is that of change `done`.
   */
  method ApplyChanges(st: Store, changes: seq<Change>) returns (failure: Option<Error>, done: nat)
    requires st.Valid()
    modifies st
    ensures st.Valid()
    ensures done <= |changes| && st.View() == Apply(old(st.View()), changes[..done])
    ensures AllFor(old(st.View()), changes[..done])
    ensures failure.None? <==> done == |changes|
    ensures failure.Some? ==>
      failure == Some(NotExists(changes[done].index)) && changes[done].index !in old(st.View())
    ensures st.allocatedEnd == old(st.allocatedEnd) && st.freeList == old(st.freeList)
  {
    ghost var v := st.View();
    done := 0;
    while done < |changes|
      invariant st.Valid()
      invariant done <= |changes| && st.View() == Apply(v, changes[..done])
      invariant AllFor(v, changes[..done])
      invariant st.allocatedEnd == old(st.allocatedEnd) && st.freeList == old(st.freeList)
    {
      var c := changes[done];
      ApplyLast(v, changes[..done]);
      var r := UpdateLink(st, c.index, c.source, c.target);
      if r.Err? {
        return Some(r.error), done;
      }
      ApplyNext(v, changes, done);
      done := done + 1;
    }
    assert changes[..done] == changes;
    failure := None;
  }

  /**
   * `rebase` as written: the second scan queues its changes with the source the link had
   * before the first scan's, so a link from and to `previous` keeps `previous` as source.
   */
  method RebaseAsWritten(st: Store, previous: nat, replacement: nat) returns (r: Result<nat>)
    requires st.Valid()
    modifies st
    ensures st.Valid()
    ensures previous == replacement ==> r == Ok(replacement) && unchanged(st)
    ensures previous != replacement && previous !in old(st.View()) ==>
      r == Err(NotExists(previous)) && unchanged(st)
    ensures previous != replacement && previous in old(st.View()) ==>
      r == Ok(replacement) && st.View() == RebasedAsWritten(old(st.View()), previous, replacement)
    ensures st.allocatedEnd == old(st.allocatedEnd) && st.freeList == old(st.freeList)
  {
    if previous == replacement {
      return Ok(replacement);
    }
    var got := st.Get(previous);
    if got.None? {
      return Err(NotExists(previous));
    }
    ghost var v := st.View();
    var collect: ReadFn := (passed, link) => FlowValue(Continue);
    var flowFrom, fromOld := st.Each([Any, previous, Any], collect);
    var flowTo, toOld := st.Each([Any, Any, previous], collect);
    FeedAll(collect, st.Matching([Any, previous, Any]), []);
    FeedAll(collect, st.Matching([Any, Any, previous]), []);
    ScanOf(st, previous);
    var plan := Pass(fromOld, previous, NewSource(replacement)) + Pass(toOld, previous, NewTargetAsWritten(replacement));
    PlanIsRebasedAsWritten(v, previous, replacement, fromOld, toOld);
    PassWithin(v, fromOld, previous, NewSource(replacement));
    PassWithin(v, toOld, previous, NewTargetAsWritten(replacement));
    var failure, done := ApplyChanges(st, plan);
    match failure
    case Some(e) =>
      return Err(e);
    case None =>
      assert plan[..done] == plan;
      return Ok(replacement);
  }

  /**
   * `rebase`: every other link's uses of `previous`, as source or target, become
   * `replacement`; `previous` must exist, `replacement` need not.
   */
  method Rebase(st: Store, previous: nat, replacement: nat) returns (r: Result<nat>)
    requires st.Valid()
    modifies st
    ensures st.Valid()
    ensures previous == replacement ==> r == Ok(replacement) && unchanged(st)
    ensures previous != replacement && previous !in old(st.View()) ==>
      r == Err(NotExists(previous)) && unchanged(st)
    ensures previous != replacement && previous in old(st.View()) ==>
      r == Ok(replacement) && st.View() == Rebased(old(st.View()), previous, replacement)
    ensures st.allocatedEnd == old(st.allocatedEnd) && st.freeList == old(st.freeList)
  {
    if previous == replacement {
      return Ok(replacement);
    }
    var got := st.Get(previous);
    if got.None? {
      return Err(NotExists(previous));
    }
    ghost var v := st.View();
    var collect: ReadFn := (passed, link) => FlowValue(Continue);
    var flowFrom, fromOld := st.Each([Any, previous, Any], collect);
    var flowTo, toOld := st.Each([Any, Any, previous], collect);
    FeedAll(collect, st.Matching([Any, previous, Any]), []);
    FeedAll(collect, st.Matching([Any, Any, previous]), []);
    ScanOf(st, previous);
    var plan := Pass(fromOld, previous, NewSource(replacement)) + Pass(toOld, previous, NewTarget(previous, replacement));
    PlanIsRebased(v, previous, replacement, fromOld, toOld);
    PassWithin(v, fromOld, previous, NewSource(replacement));
    PassWithin(v, toOld, previous, NewTarget(previous, replacement));
    var failure, done := ApplyChanges(st, plan);
    match failure
    case Some(e) =>
      return Err(e);
    case None =>
      assert plan[..done] == plan;
      return Ok(replacement);
  }

  /**
   * What a rebase as written can leave behind: no link has `previous` as target any
   * more, and one still has it as source only if it was from and to `previous`.
   */
  lemma RebasedAsWrittenLeftovers(v: map<nat, Link<nat>>, previous: nat, replacement: nat)
    requires previous != replacement
    ensures RebasedAsWritten(v, previous, replacement).Keys == v.Keys
    ensures forall k | k in v && k != previous :: RebasedAsWritten(v, previous, replacement)[k].target != previous
    ensures forall k | k in v && k != previous && RebasedAsWritten(v, previous, replacement)[k].source == previous ::
      v[k].source == previous && v[k].target == previous
  {
  }

  /**
   * `rebase_and_delete` as written, on top of `rebase` as written: rebase onto
   * `replacement`, then delete `previous`. A link that went from and to `previous`
   * is left with the deleted id as its source.
   */
  method RebaseAndDeleteAsWritten(st: Store, previous: nat, replacement: nat) returns (r: Result<nat>)
    requires st.Valid()
    modifies st
    ensures st.Valid()
    ensures previous == replacement ==> r == Ok(replacement) && unchanged(st)
    ensures previous != replacement && previous !in old(st.View()) ==>
      r == Err(NotExists(previous)) && unchanged(st)
    ensures previous != replacement && previous in old(st.View()) ==>
      && r == Ok(previous)
      && st.View() == RebasedAsWritten(old(st.View()), previous, replacement) - {previous}
      && st.firstFree == Some(previous)
    ensures previous != replacement && previous in old(st.View()) ==>
      forall k | k in st.View() :: st.View()[k].target != previous &&
        (st.View()[k].source == previous ==> old(st.View())[k].source == previous && old(st.View())[k].target == previous)
  {
    if previous == replacement {
      return Ok(replacement);
    }
    ghost var v := st.View();
    var rebased := RebaseAsWritten(st, previous, replacement);
    match rebased
    case Err(e) =>
      return Err(e);
    case Ok(_) =>
      RebasedAsWrittenLeftovers(v, previous, replacement);
      r := DeleteLink(st, previous);
  }

  /**
   * Links 1 = (1,1,1), 2 = (2,1,1), 3 = (3,3,3): `rebase_and_delete(1, 3)` as written
   * deletes link 1 but leaves link 2 from 1 to 3, naming the deleted id.
   */
  lemma RebaseAndDeleteAsWrittenDangles()
    ensures var v := map[1 := Point(1), 2 := New(2, 1, 1), 3 := Point(3)];
      var w := RebasedAsWritten(v, 1, 3) - {1};
      && 1 !in w && 2 in w && w[2] == New(2, 1, 3)
      && var u := Rebased(v, 1, 3) - {1};
      2 in u && u[2] == New(2, 3, 3)
  {
    var v := map[1 := Point(1), 2 := New(2, 1, 1), 3 := Point(3)];
    RebasedAsWrittenKeepsPrevious();
    assert RebasedAsWritten(v, 1, 3).Keys == v.Keys;
    assert Rebased(v, 1, 3).Keys == v.Keys;
  }

  /**
   * `rebase_and_delete` on top of the corrected `rebase`: rebase onto `replacement`, then
   * delete `previous`; afterwards no link uses `previous`.
   */
  method RebaseAndDelete(st: Store, previous: nat, replacement: nat) returns (r: Result<nat>)
    requires st.Valid()
    modifies st
    ensures st.Valid()
    ensures previous == replacement ==> r == Ok(replacement) && unchanged(st)
    ensures previous != replacement && previous !in old(st.View()) ==>
      r == Err(NotExists(previous)) && unchanged(st)
    ensures previous != replacement && previous in old(st.View()) ==>
      && r == Ok(previous)
      && st.View() == Rebased(old(st.View()), previous, replacement) - {previous}
      && st.firstFree == Some(previous)
    ensures previous != replacement && previous in old(st.View()) ==>
      forall k | k in st.View() :: st.View()[k].source != previous && st.View()[k].target != previous
  {
    if previous == replacement {
      return Ok(replacement);
    }
    ghost var v := st.View();
    var rebased := Rebase(st, previous, replacement);
    match rebased
    case Err(e) =>
      return Err(e);
    case Ok(_) =>
      RebasedFreesPrevious(v, previous, replacement);
      r := DeleteLink(st, previous);
  }
}

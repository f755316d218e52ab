# dunes: arena trees and the doublets link store, in Dafny

This project models the core of the `dunes` workspace and proves properties of that model. The core has two halves.

**Trees** (`crates/trees`). The trees keep their nodes in an arena: one record per key, holding the key's left child, right child and a `size` field.
- `Tree` gives node access, the child setters and navigation: extreme nodes, in-order neighbours and search.
- `SizeBalanced` keeps each node's subtree size in `size`.
  - It inserts with rotations, in place, through `*mut` root slots.
  - It removes by walking down to the node. A node with two children is replaced by the leftmost node of its right subtree.
- `AdaptiveRadix` is a simplified radix tree.
  - It routes on the big-endian bytes of the key.
  - It keeps a node-type code (`Empty`, `Node4`, `Node16`, `Node48`, `Node256`) in `size`.

**Doublets** (`crates/doublets`). A link is a triple (index, source, target).
- `Store` keeps links in a growable table of raw slots. Freed ids go on a LIFO list threaded through the `source` field of their slots.
- `Links` gives count, create, each, update, delete and get over that table.
- `Doublets` builds on them: points, search, get-or-create, usage counts and rebase.
- `LinkIndex` gives the integer encodings of ids. `NonZero` types store each value shifted up by one.
- `Flow` and the handler adaptors control iteration.

## How the model is built

- **Separate files.** Each Rust file has its own Dafny file and module:
  - `tree.dfy` (`Trees`), `sbt.dfy` (`Sbt`), `art.dfy` (`Art`);
  - `store.dfy` (`Store`), `traits.dfy` (`Doublets`);
  - `link.dfy` (`LinkIndex`), `handler.dfy` (`Handler`).

  Shared parts live in their own modules:
  - `nodes.dfy`: the node record and the slot datatype;
  - `shapes.dfy`: the ghost tree and path a record array represents;
  - `sbt_lemmas.dfy`: the proofs behind each step of the size-balanced tree loops;
  - `errors.dfy`: the error values and the result type;
  - `wrappers.dfy`: the option type.
- **The arena** is the class `Trees.Arena`, holding an `array<Node>`. Its size is fixed when it is made, as `Store::new` of the test arenas does.
  - The tree algorithms are methods on it. They loop and write records in place, as the source does.
  - Their contracts relate the records to a ghost `Tree` through `Represents`.
  - `Represents` is the size invariant: each key's record names its children's roots and holds its subtree's node count.
- **A `*mut T` slot** is a `Slot`: the caller's root variable, or one child field of a record.
- **The ordering** `is_left_of` is `<` on keys, as in every arena the tests use.
- **Termination of `insert_impl`.** The loop does not always descend: it may rotate at the same slot. It terminates because every rotation toward the key and every descent shortens the key's search path in the subtree at the slot (`SbtLemmas.LiftDepth`, `SbtLemmas.DoubleLiftDepth`). Subtree sizes alone do not decrease across its double rotation.
- **The store** is the class `Store.Store`, with the fields `mem`, `allocatedEnd`, `freeCount` and `firstFree`, plus the ghost list of freed ids. Its abstract view is the map from existing ids to their links.
- **Handler closures** are Dafny functions.
  - A read handler receives the links it was already given together with the current one. A closure that counts or collects is therefore a function of that history.
  - Read operations return both the final `Flow` and the links the handler received. This captures what a capturing closure would have seen.
  - This history-taking `ReadFn` generalises `ReadHandler`: `Handler.ReadHandle` is the case of a closure that ignores the history. `Store.Feed` applies `IntoFlow` to the handler's answer, just as `ReadHandle` does.

**Where the prose description and the code disagree, the model follows the code.**
- The tree crate is described as keeping subtree sizes "within a bounded ratio of their siblings". The code compares sizes only to pick a rotation and keeps no ratio invariant, so the model proves none.
- `next` and `prev` are described as the in-order successor and predecessor. The code looks only inside the subtree of the given node, so with no right (left) child the answer is nothing.

## Model

| member | source | states |
|---|---|---|
| `Trees.Arena.constructor` | crates/trees/tests/common/mod.rs:11-13 | a new arena holds `capacity` default records (no children, size 0) |
| `Trees.Arena.Get` | crates/trees/tests/common/mod.rs:42-44 | a record exists exactly below the arena length and is the stored one |
| `Trees.Arena.Set` | crates/trees/tests/common/mod.rs:47-51 | only the record at `idx` is replaced; past the end nothing changes |
| `Trees.ChildMut` | crates/trees/tests/common/mod.rs:54-61 | `left_mut`/`right_mut` give a slot into the child field exactly when that child exists |
| `Trees.IsRightOf` | crates/trees/src/tree.rs:28-30 | under the `<` ordering, right-of is exactly `second < first`, so neither left nor right means equal |
| `Trees.Left` | crates/trees/src/tree.rs:33-36 | the left child of an existing record is its `left` field; a missing record has none |
| `Trees.Right` | crates/trees/src/tree.rs:39-42 | the right child of an existing record is its `right` field; a missing record has none |
| `Trees.WriteSlot` | crates/trees/src/sbt.rs:134 | writing through the root slot changes only the root variable; through a child slot, only that child field of that record |
| `Trees.SetLeft` | crates/trees/src/tree.rs:46-50 | only the `left` field of record `idx` changes; a missing record makes it a no-op |
| `Trees.SetRight` | crates/trees/src/tree.rs:54-58 | only the `right` field of record `idx` changes; a missing record makes it a no-op |
| `Trees.Clear` | crates/trees/src/tree.rs:109-111 | record `idx` becomes the default and no other record changes |
| `Trees.Leftest` | crates/trees/src/tree.rs:69-74 | the result is the node reached by left links, has no left child, and on a search tree is the minimum key |
| `Trees.Rightest` | crates/trees/src/tree.rs:61-66 | the result is the node reached by right links, has no right child, and on a search tree is the maximum key |
| `Trees.Next` | crates/trees/src/tree.rs:78-80 | nothing without a right child, else the leftmost node of the right subtree; on a search tree, the least key of the subtree above `idx` |
| `Trees.Prev` | crates/trees/src/tree.rs:84-86 | nothing without a left child, else the rightmost node of the left subtree; on a search tree, the greatest key of the subtree below `idx` |
| `Trees.Contains` | crates/trees/src/tree.rs:89-105 | the answer is the outcome of the comparison walk; on a search tree it is exactly membership |
| `Shapes.ReachesIsMembership` | crates/trees/src/tree.rs:89-105 | on a search tree the comparison walk finds `x` if and only if `x` is a key |
| `Shapes.LeftmostIsMin` | crates/trees/src/tree.rs:69-74 | the leftmost node of a search tree is a key no greater than any key |
| `Shapes.RightmostIsMax` | crates/trees/src/tree.rs:61-66 | the rightmost node of a search tree is a key no smaller than any key |
| `Shapes.BstCount` | crates/trees/src/sbt.rs:55-59 | in a search tree the node count equals the number of distinct keys |
| `Shapes.RotateRightShapeOk` | crates/trees/src/sbt.rs:72-79 | the right rotation keeps the keys, the node count and search-tree order |
| `Shapes.RotateLeftShapeOk` | crates/trees/src/sbt.rs:62-69 | the left rotation keeps the keys, the node count and search-tree order |
| `Shapes.LiftOk` | crates/trees/src/sbt.rs:61-79 | raising either child keeps keys, count and order, and puts that child at the root |
| `Sbt.LeftSize` | crates/trees/src/sbt.rs:22-26 | the size of the left child exactly when there is a left child inside the arena |
| `Sbt.RightSize` | crates/trees/src/sbt.rs:28-32 | the size of the right child exactly when there is a right child inside the arena |
| `Sbt.Size` | crates/trees/src/sbt.rs:10-12 | the size of an existing record, nothing past the end |
| `Sbt.SetSize` | crates/trees/src/sbt.rs:16-20 | only the `size` field of record `idx` changes; no-op past the end |
| `Sbt.SizesOf` | crates/trees/src/sbt.rs:24-32 | under the size invariant, `size`, `left_size` and `right_size` (missing children as 0) are the subtree node counts |
| `Sbt.IncSize` | crates/trees/src/sbt.rs:36-40 | the size of record `idx` goes up by one and nothing else changes |
| `Sbt.DecSize` | crates/trees/src/sbt.rs:44-51 | the size of record `idx` goes down by one, stopping at zero, and nothing else changes |
| `Sbt.FixSize` | crates/trees/src/sbt.rs:55-59 | the size of record `idx` becomes one plus its children's sizes, a missing child counting 0 |
| `Sbt.RotateLeft` | crates/trees/src/sbt.rs:62-69 | nothing without a right child; otherwise the right child is the new root, the records represent the rotated tree with correct sizes, and only the two nodes change |
| `Sbt.RotateRight` | crates/trees/src/sbt.rs:72-79 | nothing without a left child; otherwise the left child is the new root, the records represent the rotated tree with correct sizes, and only the two nodes change |
| `Sbt.Rotate` | crates/trees/src/sbt.rs:61-79 | either rotation by the side it raises: the records represent the lifted tree and only its two nodes change |
| `Sbt.SetChild` | crates/trees/src/tree.rs:46-58 | `set_left`/`set_right` by side: only that child field of record `idx` changes |
| `Sbt.InsertSbt` | crates/trees/src/sbt.rs:82-95 | the result represents a search tree with sizes of the old keys plus `idx`, whose root size is the key count; an empty tree becomes `idx` with size 1; a present key changes nothing; only tree records and `idx` change |
| `Sbt.InsertImpl` | crates/trees/src/sbt.rs:118-198 | the insert loop terminates and leaves a size-correct search tree holding the old keys plus `idx` |
| `Sbt.InsertLeft` | crates/trees/src/sbt.rs:120-157 | one pass of the loop for a key left of the slot's node: it either finishes the insert or keeps the loop invariant with a shorter search path |
| `Sbt.InsertRight` | crates/trees/src/sbt.rs:158-196 | the mirror pass for a key right of the slot's node, with the same outcome |
| `Sbt.AttachLeaf` | crates/trees/src/sbt.rs:121-126 | with no child on the key's side, `idx` becomes a size-1 leaf there and the whole tree holds `idx` with correct sizes |
| `Sbt.DescendInto` | crates/trees/src/sbt.rs:136-137 | counting `idx` at the node and moving the slot down keeps the loop invariant and shortens the search path |
| `Sbt.RaiseChild` | crates/trees/src/sbt.rs:133-134 | the single rotation at the slot keeps the loop invariant with the lifted subtree |
| `Sbt.SpliceIn` | crates/trees/src/sbt.rs:142-149 | when both other sizes are zero, `idx` becomes the slot's node with the two old nodes as its children, sizes correct |
| `Sbt.RaiseInner` | crates/trees/src/sbt.rs:151 | the inner rotation of the double rotation keeps the loop invariant and leaves a child to raise |
| `SbtLemmas.InsertDescend` | crates/trees/src/sbt.rs:136-137 | after the size increment the child subtree satisfies the insert invariant, on a shorter search path |
| `SbtLemmas.InsertAttach` | crates/trees/src/sbt.rs:121-126 | the leaf attach settles the records: the subtree grows by `idx` and the ancestors' sizes are right |
| `SbtLemmas.InsertLift` | crates/trees/src/sbt.rs:133-134 | a rotation written back through the slot keeps the insert invariant and the key set |
| `SbtLemmas.InsertInnerLift` | crates/trees/src/sbt.rs:151 | rotating the inside grandchild up keeps the insert invariant |
| `SbtLemmas.InsertSplice` | crates/trees/src/sbt.rs:142-149 | the three-node splice settles the records with `idx` added |
| `SbtLemmas.LiftDepth` | crates/trees/src/sbt.rs:132-134 | a single rotation toward the key shortens the key's search path (the loop's measure) |
| `SbtLemmas.DoubleLiftDepth` | crates/trees/src/sbt.rs:151-152 | the double rotation shortens the key's search path |
| `Sbt.FindNode` | crates/trees/src/sbt.rs:222-235 | the search loop of remove ends at the key's node with the remove invariant (sizes on the path taken down by one) and writes only records on its path |
| `Sbt.FindStep` | crates/trees/src/sbt.rs:223-230 | one step of that loop: one size taken off, parent and current move one level down |
| `SbtLemmas.RemoveDescend` | crates/trees/src/sbt.rs:222-230 | the decrement and descent keep the remove invariant, and the child field read is the subtree's root |
| `Sbt.Replacement` | crates/trees/src/sbt.rs:242-280 | the replacement subtree is a size-correct search tree of the subtree's keys without its root; with at most one child nothing is written |
| `Sbt.TakeSuccessor` | crates/trees/src/sbt.rs:243-276 | with both children present, the successor takes the root's place: the result is a size-correct search tree of the subtree's keys without its root |
| `Sbt.DetachLeftmost` | crates/trees/src/sbt.rs:250-259 | the leftmost node of the right subtree is found and detached, leaving a size-correct search tree of the other keys |
| `SbtLemmas.ReplaceWithSuccessor` | crates/trees/src/sbt.rs:262-273 | the successor record with the old left child, the detached right subtree and the summed size represents the subtree without its root |
| `SbtLemmas.SuccessorLinks` | crates/trees/src/sbt.rs:262-265 | the two child writes change only the successor's record, and the children's sizes are their counts |
| `SbtLemmas.SuccessorSized` | crates/trees/src/sbt.rs:266-273 | the size write completes the successor: the result represents the subtree without its root |
| `Sbt.DetachNode` | crates/trees/src/sbt.rs:309-385 | `detach_node` removes `idx` from the subtree under a child field, leaving a size-correct search tree of the other keys linked there; a subtree that is only the leaf `idx` is left as it is; only the subtree's records and the holder change |
| `Sbt.Relink` | crates/trees/src/sbt.rs:369-382 | the parent update of `detach_node`: the replacement is linked where the node was, and the subtree is size-correct without it |
| `Sbt.RemoveImpl` | crates/trees/src/sbt.rs:217-301 | removing a present key leaves a size-correct search tree of the other keys, reports empty exactly when it was the last key, and clears the node |
| `Sbt.RelinkRoot` | crates/trees/src/sbt.rs:283-291 | removing the root: the replacement becomes the root, or, when there is none, the tree is empty; the node is cleared |
| `Sbt.RelinkParent` | crates/trees/src/sbt.rs:292-300 | removing a non-root node: the tree keeps its root and becomes a size-correct search tree of the other keys, only records on the path written |
| `Sbt.RemoveSbt` | crates/trees/src/sbt.rs:103-110 | the result is a size-correct search tree of the other keys, with root size equal to the key count; empty exactly when the last key went; the removed record is cleared |
| `Art.FromSize` | crates/trees/src/art.rs:228-237 | a class exists exactly for sizes up to 256, and 0 alone is `Empty` |
| `Art.SizeRoundTrip` | crates/trees/src/art.rs:228-249 | reading back the stored code of a class gives the class |
| `Art.ToSizeIsCapacity` | crates/trees/src/art.rs:241-249 | the code of a class is the largest size in that class |
| `Art.ToSize` | crates/trees/src/art.rs:241-249 | the stored code of a class reads back as that class and is the largest size in it |
| `Art.KeyByteIsDigit` | crates/trees/src/art.rs:48-53 | the byte at a depth is base-256 digit `7 - depth % 8` of the key, `key / 256^(7 - depth % 8) % 256` |
| `Art.ChildCount` | crates/trees/src/art.rs:37-40 | the size field of an existing record, whose class is the node's type; 0 for a missing record |
| `Art.KeyBytePeriodic` | crates/trees/src/art.rs:48-53 | the byte read at a depth repeats every eight levels |
| `Art.KeyBytesRoundTrip` | crates/trees/src/art.rs:48-53 | the bytes read at depths 0 to 7, most significant first, denote the 64-bit key |
| `Art.TypeOf` | crates/trees/src/art.rs:23-26 | a class is read only from an existing record |
| `Art.Route` | crates/trees/src/art.rs:58-69 | small classes route by `byte < 128`, large ones by parity, an empty node nowhere |
| `Art.FindChild` | crates/trees/src/art.rs:56-70 | the child found by class and byte as routed; none for an empty node, an undefined code or a missing record |
| `Art.WithType` | crates/trees/src/art.rs:30-34 | only the size field of record `idx` changes, and it then reads back as class `t` |
| `Art.SetNodeType` | crates/trees/src/art.rs:30-34 | the arena afterwards is the records with the class of `idx` set |
| `Art.ChildInserted` | crates/trees/src/art.rs:73-90 | the child goes in the field `byte` selects, the other field stays, the class becomes that of one more child when defined, and a canonical code moves up one class |
| `Art.InsertChild` | crates/trees/src/art.rs:73-90 | it always answers true and leaves the records as `ChildInserted` describes |
| `Art.ChildRemoved` | crates/trees/src/art.rs:199-212 | the field `byte` selects is emptied, the other stays, the class is that of one fewer child (0 staying `Empty`), and a canonical code is left as it was |
| `Art.RemoveChild` | crates/trees/src/art.rs:199-212 | the arena afterwards is as `ChildRemoved` describes |
| `Art.Cleared` | crates/trees/src/tree.rs:109-111 | only record `idx` changes, to the default, whose class is `Empty` |
| `Art.SearchArt` | crates/trees/src/art.rs:93-117 | true exactly when the walk by the key's bytes meets the key within eight steps; the loop always ends |
| `Art.NeverVacant` | crates/trees/src/art.rs:136-147 | a walk that meets the key or runs past eight levels has no vacant step |
| `Art.OnlyVacant` | crates/trees/src/art.rs:148-153 | the walk for a key stops at a vacant node at most once |
| `Art.FindVacant` | crates/trees/src/art.rs:130-155 | the walk of `insert_art` reports the vacant step and its node, or that there is none |
| `Art.LinkVacant` | crates/trees/src/art.rs:148-153 | at the vacant step the key is made a `Node4` and linked under the node reached |
| `Art.InsertArtAsWritten` | crates/trees/src/art.rs:120-158 | an empty tree becomes the key as a `Node4`; otherwise the root is returned, the key is linked at the vacant step if any, and otherwise nothing changes |
| `Art.RootReinsertLoops` | crates/trees/src/art.rs:136-153 | if the first step from the key's own node is vacant, reinserting that key at the root links the root under itself |
| `Art.InsertArt` | crates/trees/src/art.rs:120-158 | the same as written, except that inserting the root's key changes nothing |
| `Art.InsertThenFind` | crates/trees/src/art.rs:148-153 | after inserting below a node with a size code under 16, the walk for the key reaches it one step after the vacant one |
| `Art.InsertKeepsWalk` | crates/trees/src/art.rs:133-153 | the insert does not change the walk for the key up to the vacant step |
| `Art.RemoveSite` | crates/trees/src/art.rs:176-196 | a reported site is a node whose child under the byte is the key |
| `Art.RemoveSiteIsFirstHit` | crates/trees/src/art.rs:176-196 | a site exists exactly when the walk meets the key within the depth bound, and it is the node just before the first meeting |
| `Art.RemoveArtImpl` | crates/trees/src/art.rs:176-196 | the answer says whether there was a site; there the key is unlinked and cleared, and otherwise nothing changes; recursion ends by depth |
| `Art.RemoveArt` | crates/trees/src/art.rs:161-173 | an empty tree stays empty; removing the root clears it and empties the tree; otherwise the root is returned and the key removed at its site |
| `Art.RemoveUnlinks` | crates/trees/src/art.rs:183-205 | under a small parent, removal leaves no child under that byte, clears the key and changes no other record |
| `Store.Store.constructor` | crates/doublets/src/store.rs:50-60 | a new store has no links, `allocated = 1`, no free ids and 1024 zeroed slots |
| `Store.Store.Exists` | crates/doublets/src/store.rs:77-88 | an id exists exactly when it is between 1 and `allocated` and not on the free list |
| `Store.Store.Get` | crates/doublets/src/store.rs:320-329 | the link at an existing id, with that id; nothing otherwise |
| `Store.Store.CountTotal` | crates/doublets/src/store.rs:142-144 | `allocated - free_count - 1` is the number of existing links |
| `Store.Store.FreeListSize` | crates/doublets/src/store.rs:142-144 | the counters agree with the number of existing links |
| `Store.ChainPop` | crates/doublets/src/store.rs:93-97 | taking the head off the free list leaves the rest chained through `source` |
| `Store.ChainPush` | crates/doublets/src/store.rs:129-137 | a slot whose `source` is the old head prepends its id to the chain |
| `Store.WfPop` | crates/doublets/src/store.rs:92-105 | popping the head keeps the store well formed and makes that id exist again |
| `Store.WfFresh` | crates/doublets/src/store.rs:108-123 | handing out `allocated` with its slot zeroed keeps the store well formed and adds that id |
| `Store.WfPush` | crates/doublets/src/store.rs:127-139 | freeing an existing id keeps the store well formed and removes exactly that id |
| `Store.Store.AllocateIndex` | crates/doublets/src/store.rs:91-124 | the most recently freed id is reused first, else `allocated` is handed out and incremented; either way a fresh id that now exists. A reused slot only has `is_free` cleared, keeping its chain link in `source`, and `free_count` drops by one; a fresh slot is zeroed |
| `Store.Store.PopFree` | crates/doublets/src/store.rs:92-105 | the head of the free list becomes an existing id again, the list moves on to the next freed id, and the slot changes only in `is_free` |
| `Store.Store.TakeFresh` | crates/doublets/src/store.rs:108-123 | with no freed id, `allocated` is handed out with its slot zeroed, the table growing when full, and `free_count` is unchanged |
| `Store.Store.FreeIndex` | crates/doublets/src/store.rs:127-139 | the id goes to the head of the free list, its slot marked free, `free_count` up by one, nothing else existing changes |
| `Store.Store.Create` | crates/doublets/src/store.rs:176-198 | a new link (0,0), (s,s) or (s,t) by query length at the allocated id; the handler sees nothing before and the new link after |
| `Store.FeedContinues` | crates/doublets/src/store.rs:206-219 | iteration ends with `Continue` exactly when the handler continues at every link, having seen them all |
| `Store.FeedBreaks` | crates/doublets/src/store.rs:214-216 | iteration stops at the first link where the handler breaks, having seen exactly the links up to it |
| `Store.FeedAll` | crates/doublets/src/store.rs:166-172 | a handler that always continues is given every link, in order, and the flow is `Continue` |
| `Store.Store.MatchingSpec` | crates/doublets/src/store.rs:240-264 | the links each visits are the selected ones, each once, in ascending id order |
| `Store.Store.MatchingSize` | crates/doublets/src/store.rs:240-264 | as many links are visited as the query selects |
| `Store.Store.MatchingFromIndex` | crates/doublets/src/store.rs:224-235 | a query for one non-wildcard id visits that link alone if it exists, else nothing |
| `Store.Store.MatchingFromAlike` | crates/doublets/src/store.rs:224-226 | two queries that select the same links scan to the same sequence, so a lone `ANY` scans as the empty query |
| `Store.Store.CountTotalIsMatching` | crates/doublets/src/store.rs:205-219 | `count_total` is the number of links `each([])` visits |
| `Store.Store.EachFrom` | crates/doublets/src/store.rs:240-266 | the scan from id `i` feeds the handler exactly the selected links from `i` on, in order |
| `Store.Store.Each` | crates/doublets/src/store.rs:200-267 | `each` runs the handler over the selected links in ascending id order and returns `Break` as soon as the handler does |
| `Store.Store.Count` | crates/doublets/src/store.rs:152-174 | `count` is the number of links the query selects, for every query length |
| `Store.Store.Update` | crates/doublets/src/store.rs:269-296 | `InvalidQuery` on an empty query or change, `NotExists` for a missing id (no change); otherwise source and target are replaced where given and no other link changes |
| `Store.Store.Delete` | crates/doublets/src/store.rs:298-318 | `InvalidQuery` on an empty query, `NotExists` for a missing id (no change); otherwise the link is gone, its id heads the free list and the handler sees it before and nothing after |
| `Handler.FromBool` | crates/doublets/src/handler.rs:12-16 | true converts to `Continue`, false to `Break`, and back |
| `Handler.IntoFlow` | crates/doublets/src/handler.rs:19-35 | a flow converts to itself, a bool as `Flow::from` does |
| `Handler.IntoFlowIdempotent` | crates/doublets/src/handler.rs:23-35 | converting a flow, or the bool "is it Continue", gives the flow back |
| `Handler.ReadHandle` | crates/doublets/src/handler.rs:45-54 | a read handler continues exactly when its closure returns `Continue` or `true` |
| `Handler.WriteHandle` | crates/doublets/src/handler.rs:64-73 | a write handler continues exactly when its closure returns `Continue` or `true` |
| `LinkIndex.Prim.Cast` | crates/doublets/src/link.rs:50-52 | `val as Self` stays in range and keeps every value the type holds |
| `LinkIndex.AsUsizeCast` | crates/doublets/src/link.rs:55-57 | `as usize` lands below 2^64 and keeps values already in range |
| `LinkIndex.Zero` | crates/doublets/src/link.rs:39-92 | zero is a value of the type that `is_zero` accepts |
| `LinkIndex.IsZeroIsZero` | crates/doublets/src/link.rs:44-92 | `is_zero` holds exactly for the type's zero |
| `LinkIndex.IsZero` | crates/doublets/src/link.rs:44-92 | a value `is_zero` accepts is a value of the type whose `as_usize` is 0 |
| `LinkIndex.FromUsize` | crates/doublets/src/link.rs:49-98 | `from_usize` of a `usize` the type can represent is a value of the type |
| `LinkIndex.AsUsize` | crates/doublets/src/link.rs:54-104 | `as_usize` of a value of the type lands below 2^64 |
| `LinkIndex.FromUsizeRoundTrip` | crates/doublets/src/link.rs:49-104 | `as_usize(from_usize(v)) == v` for every `v` up to the type's limit |
| `LinkIndex.AsUsizeRoundTrip` | crates/doublets/src/link.rs:49-104 | `from_usize(as_usize(v)) == v` for every value of the type from zero up |
| `LinkIndex.CheckedAddOne` | crates/doublets/src/link.rs:59-109 | the successor, or nothing exactly when the successor is not a value of the type |
| `LinkIndex.CheckedSubOne` | crates/doublets/src/link.rs:64-118 | the predecessor, a value of the type; nothing exactly when it leaves the type, and for `NonZero` types exactly at stored values up to 1 |
| `LinkIndex.New` | crates/doublets/src/link.rs:167-169 | the link holds its three arguments |
| `LinkIndex.Point` | crates/doublets/src/link.rs:174-176 | a point has all three parts equal to its argument |
| `LinkIndex.Nothing` | crates/doublets/src/link.rs:181-183 | `nothing()` is null |
| `LinkIndex.LinkShapes` | crates/doublets/src/link.rs:185-204 | null means exactly `nothing()`; a point is full; full implies partial; full means a point on its own id |
| `LinkIndex.IsNull` | crates/doublets/src/link.rs:185-190 | a null link is the point on the type's zero, so it is full |
| `LinkIndex.IsFull` | crates/doublets/src/link.rs:192-197 | full exactly when the link is the point on its own index |
| `LinkIndex.IsPartial` | crates/doublets/src/link.rs:199-204 | partial exactly when the source or the target is the index; every full link is partial |
| `Doublets.CountAll` | crates/doublets/src/traits.rs:58-60 | the number of existing links |
| `Doublets.CountBy` | crates/doublets/src/traits.rs:64-66 | the number of links the query selects |
| `Doublets.CreateLink` | crates/doublets/src/traits.rs:69-79 | a new id whose link is (id, source, target), a reused id first |
| `Doublets.CreatePoint` | crates/doublets/src/traits.rs:82-94 | a new id whose link is (id, id, id), and no other link changes |
| `Doublets.UpdateLink` | crates/doublets/src/traits.rs:97-108 | `NotExists` without change for a missing id; otherwise the link becomes (index, source, target) and the index is returned |
| `Doublets.DeleteLink` | crates/doublets/src/traits.rs:111-118 | `NotExists` without change for a missing id; otherwise the link is removed and its id returned |
| `Doublets.DeleteThenCreate` | crates/doublets/src/store.rs:92-105 | creating right after a delete reuses the freed id: that id now holds the new link and the link count is restored |
| `Doublets.FeedFirst` | crates/doublets/src/traits.rs:123-126 | a handler that breaks at once sees only the first link |
| `Doublets.Search` | crates/doublets/src/traits.rs:121-128 | nothing exactly when no link goes from source to target; otherwise the smallest such id |
| `Doublets.GetOrCreate` | crates/doublets/src/traits.rs:131-137 | an existing match leaves the store alone; otherwise one new link is made; the answer is afterwards the smallest matching id |
| `Doublets.GetOrCreateTwice` | crates/doublets/src/traits.rs:131-137 | a second call returns the same id; the number of links grows by one exactly when no link matched before |
| `Doublets.SubOneOrKeep` | crates/doublets/src/traits.rs:145 | the unsigned `checked_sub_one(v).unwrap_or(v)`: one less, 0 staying 0 |
| `Doublets.SourceUsersCount` | crates/doublets/src/traits.rs:143-146 | the source count minus the self-reference is the number of other links from `index` |
| `Doublets.TargetUsersCount` | crates/doublets/src/traits.rs:148-151 | the target count minus the self-reference is the number of other links to `index` |
| `Doublets.CountUsages` | crates/doublets/src/traits.rs:140-154 | `NotExists` for a missing id; otherwise the other links using it as source plus those using it as target |
| `Doublets.HasUsages` | crates/doublets/src/traits.rs:157-159 | true exactly when the id exists and another link uses it |
| `Doublets.CollectAll` | crates/doublets/src/traits.rs:200-208 | exactly the existing links, in ascending id order |
| `Doublets.ScanOf` | crates/doublets/src/traits.rs:169-180 | the two scans of `rebase` see exactly the links from, and the links to, the old id |
| `Doublets.LastFor` | crates/doublets/src/traits.rs:182-184 | the change chosen for an id is one queued for that id, and there is none exactly when none was queued |
| `Doublets.ApplyLast` | crates/doublets/src/traits.rs:182-184 | running the queued updates keeps the ids, and each link ends as its last change made it |
| `Doublets.LastForConcat` | crates/doublets/src/traits.rs:168-184 | across the two scans, the second scan's change to an id wins |
| `Doublets.LastForPass` | crates/doublets/src/traits.rs:169-180 | a scan queues one change for each scanned link but the old id |
| `Doublets.PlanOutcome` | crates/doublets/src/traits.rs:168-184 | after both scans' updates a link to the old id ends as the second closure made it, a link from it gets the new source, the old link is untouched |
| `Doublets.PlanIsRebasedAsWritten` | crates/doublets/src/traits.rs:168-184 | the two closures as written lead to `RebasedAsWritten` |
| `Doublets.PlanIsRebased` | crates/doublets/src/traits.rs:168-184 | with the second closure replacing the source too, the outcome is `Rebased` |
| `Doublets.ApplyChanges` | crates/doublets/src/traits.rs:182-184 | the update loop applies the queue in order and stops at the first `NotExists` |
| `Doublets.RebaseAsWritten` | crates/doublets/src/traits.rs:162-187 | `new` when old equals new; `NotExists` for a missing old; otherwise the store ends as `RebasedAsWritten` |
| `Doublets.RebasedAsWrittenKeepsPrevious` | crates/doublets/src/traits.rs:169-184 | a link from old to old ends as (old, new), not (new, new) |
| `Doublets.Rebase` | crates/doublets/src/traits.rs:162-187 | corrected `rebase`: every other use of old, as source or target, becomes new; old itself is untouched |
| `Doublets.RebasedFreesPrevious` | crates/doublets/src/traits.rs:161-187 | after a corrected rebase no link but old itself uses old |
| `Doublets.RebasedAsWrittenLeftovers` | crates/doublets/src/traits.rs:169-184 | after the rebase as written no other link targets old, and one still sourcing old was (old, old) before |
| `Doublets.RebaseAndDeleteAsWritten` | crates/doublets/src/traits.rs:190-197 | `rebase_and_delete` as written: `new` when equal, `NotExists` for a missing old; otherwise the store becomes `RebasedAsWritten` without old and old's id is returned; a link left pointing at old sources it and was (old, old) |
| `Doublets.RebaseAndDeleteAsWrittenDangles` | crates/doublets/src/traits.rs:169-197 | with links (1,1,1), (2,1,1), (3,3,3), `rebase_and_delete(1, 3)` deletes link 1 but leaves link 2 as (2,1,3), sourcing a deleted id; the corrected composition leaves (2,3,3) |
| `Doublets.RebaseAndDelete` | crates/doublets/src/traits.rs:190-197 | the same composition over the corrected `rebase`: `new` when equal; otherwise old's id is returned and afterwards no link uses old |

## Left out

- **Memory allocation and growth.** `crates/mem` (allocation, reallocation, mmap and file-backed memory) is not part of this model.
  - The store's memory is a growable sequence: `grow` appends zeroed slots.
  - An allocation failure, and the `AllocationFailed` error it would raise, cannot happen in the model.
- **Tree-backed store and `Treap`.** The tree strategies `SbtStrategy`, `ArtStrategy` and `TreeStrategy` that `crates/doublets/src/lib.rs` re-exports are not part of this model: the store modelled here scans its table. The `Treap` test tree, the `node` module (`Idx`, `Node`) and the `Index` trait are not part of this model either. `Node` is modelled as the record in `nodes.dfy`, and `ANY` is the constant 0.
- **Index types of the store.** The store and the `Doublets` operations are modelled for `T = usize`, where `from_usize` and `as_usize` are the identity.
  - The `LinkIndex` encodings of the other types are modelled on their own in `link.dfy`.
  - `usize` and `isize` are taken to be 64 bits wide.
- **Error variants no operation raises.** `HasUsages`, `AlreadyExists` and `Overflow` are declared in `Errors.Error` and raised by nothing, as in the code. No reference validation is added.
- **Marker traits.** `Send`/`Sync` bounds and the `bytemuck::Pod`/`Zeroable` impls are thread-safety and byte-layout markers, with no behaviour to model.
- **Slot reads and writes.** `repr_at`/`repr_mut_at` and `Tree::get`/`set` are model-level sequence reads and writes on `mem` and the arena.
- **Fixed arena.** The arena is fixed-size, as in the test arenas (`Vec` of default nodes that never grows). Records past the end read as missing.
- **Keys and ordering.** Tree keys are naturals and `is_left_of` is `<`, the order of every arena in the tests. A generic `Idx` with another order is not modelled.
- **No balance invariant.** The size-balanced tree keeps subtree sizes and uses them only to choose rotations. The code promises no balance ratio, and none is stated.
- **Handlers as history functions.** Handler closures are functions of the links already given and the current link. A closure's side effects are recovered from what the operation reports the handler was given; a closure with other effects is not modelled.
- **`iter`.** It is `collect_all().into_iter()`, so it yields the sequence `Doublets.CollectAll` returns. The iterator itself is not modelled.
- **`create_heap_store`.** It only passes a fresh heap allocation to `Store::new`, so it is the constructor.
- Sbt.RemoveSbt: requires the key to be present when the tree is non-empty, because the documented caller obligation of `remove_impl` (sbt.rs:213-216) says an absent key corrupts the size fields. The absent-key path of `remove_sbt` is therefore not modelled.
- Sbt.RemoveImpl: requires the key to be present, for the same reason. It returns `bool`: the `None` outcome needs an absent key.
- Sbt.DetachNode: requires its root slot to be a child field, which it is at its only call site (sbt.rs:255-257). The root-variable form of the slot is not modelled for it.
- Sbt.InsertSbt: requires the record of a new key to have no children, as it has after `clear` or in a fresh arena. Stale child fields are not modelled.
- Art.InsertThenFind: states that the inserted key is found only below a node whose size code is under 16, because larger codes route by parity and may pick the other field than `insert_child` wrote.
- Art.RemoveUnlinks: states unlinking only below a `Node4` or `Node16` parent, for the same routing reason.
- **Routing of large nodes.** `insert_child` (art.rs:77-81) writes the left field when the byte is below 128 for every class, but `find_child` on `Node48` and `Node256` picks the field by the byte's parity (art.rs:64-67). A node's code climbs from `Node4` to `Node48` after its second child insert, so the two disagree in reachable trees. The model keeps both as written, in `Art.Route` and `Art.InsertChild`, which is why `Art.InsertThenFind` and `Art.RemoveUnlinks` are stated below small nodes only.
- **Depth bound of the radix tree.** `insert_art` can still link a key when the vacant step is at depth 8, which puts the key at depth 9 (art.rs:143-152). `search_art` gives up once it passes depth 8 (art.rs:106-111), so it does not find that key. The model keeps both bounds as written. `Art.InsertThenFind` states that the walk reaches the key one step below the vacant one; `Art.SearchArt` finds the key only when the vacant step was above depth 8.
- LinkIndex.FromUsize: requires the shifted value to fit the `NonZero` type and not to be 0. `NonZeroU8::from_usize(255)` overflows in `+ 1` (link.rs:97), a panic in a debug build and 0 in a release build. `NonZeroI8::from_usize(255)` casts to -1, so the sum is 0. Both then reach `new_unchecked(0)`, which is undefined behaviour and has no value to model.
- LinkIndex.AsUsize: requires the stored value minus one to stay in the type. `as_usize` of a `NonZeroI8` holding -128 overflows in `get() - 1` (link.rs:103): a panic in a debug build and a wrap to 127 in a release build, so there is no single value to model.

## Findings

| source | as written | input that shows it | evidently intended | confidence | as-written member | corrected member |
|---|---|---|---|---|---|---|
| crates/trees/src/art.rs:133-153 | `insert_art` checks each child it finds against the key, but never the root itself, so inserting the root's own key walks on and links the key at the first vacant step | a tree whose only node is key `k` (a `Node4` after inserting into the empty tree); `insert_art(Some(k), k)` finds no child under the first byte and makes `k` its own child | inserting a key already present, the root's included, changes nothing (as `insert_sbt` does at sbt.rs:84-87) | high, not executed | `Art.InsertArtAsWritten` (`Art.RootReinsertLoops`) | `Art.InsertArt` |
| crates/doublets/src/traits.rs:169-184 | `rebase` queues updates from both scans of the same snapshot; for a link whose source and target are both `old`, the second scan's update `(index, old, new)` overwrites the first's `(index, new, old)` | links 1 = (1,1,1), 2 = (2,1,1), 3 = (3,3,3); `rebase(1, 3)` leaves link 2 as (2,1,3) | every use of `old` as source or target becomes `new`: link 2 ends as (2,3,3) | high, not executed | `Doublets.RebaseAsWritten` (`Doublets.RebasedAsWrittenKeepsPrevious`), and through it `Doublets.RebaseAndDeleteAsWritten` (`Doublets.RebaseAndDeleteAsWrittenDangles`): `rebase_and_delete(1, 3)` then deletes link 1 while link 2 still sources it | `Doublets.Rebase` (`Doublets.RebasedFreesPrevious`), and `Doublets.RebaseAndDelete` over it |

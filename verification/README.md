# Splay-tree ordered set

A model of `Set<ValueType>` from `SplayTree.cpp`, with `ValueType` taken as `int`.
`Set<ValueType>` is an ordered set of distinct values kept in a binary search tree.
On every `insert`, `find`, `lower_bound` and `erase`, the node it reached is splayed: zig, zig-zig and zig-zag rotations lift that node to the root.
The set caches pointers to its least node (`most_left`) and greatest node (`most_right`), and keeps a node count.
An iterator is a node plus a past-the-end flag.
`++` and `--` walk the tree through the parent links.

The model has three modules:

- `Trees` (`trees.dfy`) is the pure shape theory.
  - `Tree` is the datatype `Leaf | Fork(left, id, val, right)`.
  - `Order` is its symmetric-order sequence of entries `(id, val)`.
  - Paths into the tree are `At`, `Replace`, `Before` and `After`.
  - `Rotate` is a rotation. `LowerBoundIndex`/`LowerBoundId` give the lower bound of a value in a sequence.
  - The module also holds the lemmas about these.
- `Arena` (`arena.dfy`) lays a `Tree` out in an arena `seq<Node>`.
  - A `Node` has `left`, `right`, `parent` and `value`, with `Nil` (-1) standing for `nullptr`.
  - `Linked(t, p, a)` says the arena holds, at index `t.id`, the record with `t`'s child roots, the parent `p` and `t`'s value, and so on recursively.
  - The module also holds the frame lemmas for the pointer rewrites the set performs.
- `SplayTree` (`splay_set.dfy`) holds the two classes.
  - `SplaySet` has the source's fields: `nodes` (the heap, as an arena), `root`, `mostLeft`, `mostRight` and `nodeNumber`.
    - It also has a ghost `tree`, the shape that `nodes` lays out.
    - Its methods rewrite those fields as the C++ member functions do, with the same loops and branches.
  - `SetIterator` has `point` and `flag`.
  - `SplaySet.Valid()` holds these facts:
    - the arena lays out `tree` with no parent above the root, each node once, values strictly increasing in symmetric order;
    - `root` is the tree's root;
    - `nodeNumber` is the number of stored values;
    - `mostLeft` names the least node;
    - `mostRight` names the greatest node, or a node erased while it was the greatest, as explained below.

`Contents()` is the sequence of stored values in increasing order.
Every operation is proved against it.

When `erase` removes the greatest value, it refreshes `most_right` with `++iterator(node)` (`SplayTree.cpp:388-389`).
From the greatest node, `++` only sets the flag and keeps the node (`SplayTree.cpp:241-243`).
So `most_right` keeps naming the erased node.
The model keeps this behaviour.
`Valid()` therefore allows `mostRight` to be a record that is no longer in the tree, provided its value is at least every stored value.
`SplaySet.Erase` states outright that after the greatest value is erased, `mostRight` names no node of the tree.
An erased record stays in the arena where it was, and, while the arena lasts, no record is reused for a later node, as "## Left out" explains.

## Model

| member | source | states |
|---|---|---|
| SplayTree.SplaySet.constructor | SplayTree.cpp:19 | the new set is valid and holds nothing |
| SplayTree.SplaySet.Size | SplayTree.cpp:96-98 | `size()` is the number of stored values |
| SplayTree.SplaySet.Empty | SplayTree.cpp:100-102 | `empty()` holds exactly when no value is stored |
| SplayTree.SplaySet.RightRotate | SplayTree.cpp:104-121 | the arena becomes the rotation of the old arena at `node` towards its left child, and it lays out the tree rotated at that node; the symmetric order and every record's value are kept |
| SplayTree.SplaySet.LeftRotate | SplayTree.cpp:122-139 | the mirror of `RightRotate` |
| Arena.RotateLinked | SplayTree.cpp:104-139 | rewriting the node, its promoted child, the inner grandchild and the parent's link as the rotations do lays out the tree with that subtree rotated |
| Arena.RotateLayout | SplayTree.cpp:104-139 | a subtree whose records were rewritten as a rotation rewrites them is laid out as the rotated subtree under the same parent |
| Trees.RotateOrder | SplayTree.cpp:104-139 | a rotation keeps the symmetric order |
| Trees.RotateAtOrder | SplayTree.cpp:104-139 | a rotation anywhere in the tree keeps the whole tree's symmetric order |
| SplayTree.RotateStep | SplayTree.cpp:104-139 | a rotation keeps the arena laid out, the ids distinct and the values increasing |
| SplayTree.SplaySet.Zig | SplayTree.cpp:145-151 | when the parent is the root, one rotation makes the node the root, with the order unchanged |
| SplayTree.SplaySet.ZigZig | SplayTree.cpp:152-168 | rotating the grandparent and then the parent the same way lifts the same-side grandchild into the grandparent's slot, with the order unchanged |
| SplayTree.SplaySet.ZigZag | SplayTree.cpp:152-168 | rotating the parent one way and the grandparent the other way lifts the inner grandchild into the grandparent's slot, with the order unchanged |
| SplayTree.SplaySet.SplayStep | SplayTree.cpp:144-168 | one double step lifts the node two levels, into its grandparent's slot |
| Trees.ZigZigPath | SplayTree.cpp:153-155 | after the two same-side rotations, the grandchild stands at the grandparent's path |
| Trees.ZigZagPath | SplayTree.cpp:157-158 | after the two opposite rotations, the inner grandchild stands at the grandparent's path |
| SplayTree.Ancestry | SplayTree.cpp:142-153 | the parent and grandparent read through `parent` links are the nodes one and two steps up the path, and the `left` test tells which side the node hangs on |
| SplayTree.SplaySet.Splay | SplayTree.cpp:141-171 | the node becomes the root (`root == node`, no parent); the symmetric order, the records' values, the caches and the count stay as they were; validity is kept |
| SplayTree.SplaySet.Insert | SplayTree.cpp:172-215 | the contents become the old contents plus `value`; the count grows by one exactly when `value` was absent; a present `value` leaves the order as it was; the node holding `value` is the root; caches that were exact stay exact; inserting into an empty set makes both caches the new root |
| SplayTree.SplaySet.Place | SplayTree.cpp:180-213 | the descent ends on the node holding `value`, either found or newly hung, with the same effect on contents and count as `Insert` |
| SplayTree.SplaySet.AttachLeaf | SplayTree.cpp:186-195 | a new record holding `value` is appended and hung into the empty slot; the order becomes the entries before the slot, the new entry, then the entries after it; earlier records keep their values; validity is kept and caches that were exact stay exact |
| Trees.DescendStep | SplayTree.cpp:181-200 | stepping left when `value` is below the node, or right when it is above, keeps `value` between the bounds the path sets |
| Trees.InsertIncreasing | SplayTree.cpp:186-201 | an entry placed where its value is above everything before it and below everything after it keeps the order increasing |
| SplayTree.InsertedState | SplayTree.cpp:186-210 | a value hung at the slot where the search for it ended was not stored before; afterwards the stored values are the old ones plus it, and there is one entry more |
| SplayTree.AttachShape | SplayTree.cpp:186-208 | hanging the new node keeps the arena laid out, the ids distinct, the values increasing and the caches valid |
| SplayTree.CachedEndsInsert | SplayTree.cpp:188-193 | the two comparisons with the new value keep the least cache on the first entry, keep the greatest cache on the last entry or on a record not below it, and keep both exact when they were exact |
| Trees.InsertEnds | SplayTree.cpp:188-193 | the least and greatest entries after an insertion are the new entry or the old extremes, as the comparisons decide |
| SplayTree.SetIterator.constructor | SplayTree.cpp:219-220 | an iterator on the given node with the given flag |
| SplayTree.SetIterator.LeftFather | SplayTree.cpp:222-230 | the climb returns the node where the path last turned left, or no node |
| SplayTree.SetIterator.RightFather | SplayTree.cpp:253-261 | the climb returns the node where the path last turned right, or no node |
| SplayTree.Climb | SplayTree.cpp:222-230 | one step up the `parent` link leads to the node one step up the path, and the child test tells which side was left |
| SplayTree.SetIterator.Increment | SplayTree.cpp:231-246 | `++` moves to the next node in symmetric order; from the greatest node it keeps the node and sets the flag |
| SplayTree.SetIterator.PostIncrement | SplayTree.cpp:247-251 | `it++` returns a copy of the iterator as it was, and advances this one as `++` does |
| Trees.Successor | SplayTree.cpp:231-244 | the next entry after a node is the first of its right subtree; without a right subtree it exists exactly when the path to the node turned left, and it is the node where the path last did |
| SplayTree.SuccessorIndex | SplayTree.cpp:231-244 | the successor found through the right subtree or through the last left turn is the next entry of the order |
| SplayTree.SuccessorLinks | SplayTree.cpp:231-244 | the same, stated for the arena's links |
| SplayTree.SetIterator.Decrement | SplayTree.cpp:262-276 | `--` on a past-the-end iterator only clears the flag; otherwise it moves to the previous node in symmetric order, which from the least node is no node |
| Trees.Predecessor | SplayTree.cpp:267-274 | the entry before a node is the last of its left subtree; without a left subtree it exists exactly when the path to the node turned right, and it is the node where the path last did |
| SplayTree.PredecessorIndex | SplayTree.cpp:267-274 | the predecessor found either way is the previous entry of the order |
| SplayTree.PredecessorLinks | SplayTree.cpp:267-274 | the same, stated for the arena's links |
| SplayTree.SetIterator.Equals | SplayTree.cpp:283-285 | equal iterators have the same node and flag; iterators on nodes of two different sets are never equal; on nodes of one set without the flag, two iterators are equal exactly when they stand at the same rank |
| SplayTree.SetIterator.NotEquals | SplayTree.cpp:287-289 | `!=` is the negation of `==` |
| SplayTree.SetIterator.Get | SplayTree.cpp:291-293 | `*it` is the value at the iterator's rank in the order |
| SplayTree.SplaySet.Begin | SplayTree.cpp:312-314 | `begin()` names the least node, or no node when the set is empty |
| SplayTree.SplaySet.End | SplayTree.cpp:316-321 | `end()` is the cached greatest node with the flag set, or no node and no flag when the set is empty; when values are stored it carries the flag and names the last node of the order or a node no longer in the tree, and the last node whenever the caches are exact |
| SplayTree.LastStepReachesEnd | SplayTree.cpp:241-243 | with exact caches, `++` from the greatest node gives an iterator equal to `end()` |
| SplayTree.StaleEndUnreachable | SplayTree.cpp:241-243 | on {1, 5} after erasing 5, `++` from the greatest remaining node keeps that node and sets the flag, and the result is not equal to `end()` |
| SplayTree.SplaySet.Find | SplayTree.cpp:323-347 | contents, order, values and caches are unchanged; the new root splits the stored values around `value`; the iterator names the root exactly when `value` is stored and is `end()` otherwise, also on an empty set |
| SplayTree.SplaySet.Descend | SplayTree.cpp:326-341 | the descent stops on a node of the tree whose rank splits the order: everything before it is below `value` and everything after it is above |
| Trees.SearchStop | SplayTree.cpp:327-340 | a node where the search stops (it holds `value`, or the child it would take is missing) splits the order around `value` |
| SplayTree.AfterSearch | SplayTree.cpp:342-346 | once the stopping node is splayed to the root, the root splits the values around `value` and holds `value` exactly when it is stored |
| SplayTree.SplaySet.BiggerVertex | SplayTree.cpp:348-361 | `bigger_vertex` returns the node holding the least value not below `value` in the subtree, or no node when every value is below it |
| Trees.LowerBoundFork | SplayTree.cpp:349-360 | the lower bound in a subtree is its root when the root holds `value`, the right subtree's lower bound when the root is below `value`, and otherwise the left subtree's lower bound or the root |
| SplayTree.SplaySet.LowerBound | SplayTree.cpp:362-370 | contents and caches are unchanged; `end()` is returned only when every stored value is below `value`; otherwise the returned node is the root, holds a value not below `value`, and everything on its left is below `value` |
| SplayTree.EndBelow | SplayTree.cpp:363-364 | when the cached greatest record holds a value below `value`, every stored value is below `value` |
| SplayTree.LowerBoundRoot | SplayTree.cpp:366-368 | a root that is the lower bound holds a value not below `value`, with everything on its left below `value` |
| SplayTree.SplaySet.Erase | SplayTree.cpp:371-408 | the contents lose exactly `value`; the count drops by one exactly when `value` was stored; validity is kept; while values remain, `mostRight` is unchanged; erasing the greatest value leaves `mostRight` naming no node of the tree; erasing an absent value leaves the order and the caches as they were; erasing anything but the greatest value keeps exact caches exact |
| SplayTree.SplaySet.RemoveRoot | SplayTree.cpp:377-407 | taking the splayed root out removes exactly its value, drops the count by one and keeps validity; while values remain, `mostRight` is unchanged; when the root held the greatest value, `mostRight` names no node of the tree; when the root did not hold the greatest value, exact caches stay exact |
| Trees.RemoveValue | SplayTree.cpp:377-407 | removing an entry from an increasing order removes exactly its value |
| Trees.RemoveEntry | SplayTree.cpp:392-407 | the order without one entry stays unique and increasing, and loses exactly that entry's id |
| SplayTree.SplaySet.UpdateEnds | SplayTree.cpp:385-391 | an erased least node hands the least cache to its successor; the greatest cache is left as it was |
| SplayTree.EndRanks | SplayTree.cpp:385-389 | a root named by the least cache is first in the order, and one named by the greatest cache is last |
| SplayTree.CachedEndsErase | SplayTree.cpp:385-391 | the caches stay valid after the erase; when the erased value was the greatest, the greatest cache names no remaining node; when it was not, exact caches stay exact |
| SplayTree.SplaySet.Unlink | SplayTree.cpp:392-407 | the tree becomes the root's left subtree followed by its right subtree in order, laid out with no parent above the new root |
| SplayTree.SplaySet.Lift | SplayTree.cpp:393-398 | with no left subtree, the right subtree becomes the tree, laid out with no parent above its root, and the order becomes the right subtree's |
| SplayTree.LiftRight | SplayTree.cpp:393-395 | the right subtree, with its root's parent cleared, is laid out alone and keeps the rest of the order |
| SplayTree.SplaySet.Rightmost | SplayTree.cpp:399-400 | the walk down `right` links ends on the rightmost node of the left subtree |
| SplayTree.SplaySet.Splice | SplayTree.cpp:401-407 | the right subtree hung under the rightmost node of the left subtree gives a tree whose order is the left subtree's followed by the right subtree's |
| Trees.SpliceOrder | SplayTree.cpp:399-405 | hanging a tree in the empty right slot of the rightmost node appends its order |
| Arena.SpliceLinked | SplayTree.cpp:401-406 | the relinked arena lays out the spliced tree under no parent |
| SplayTree.SpliceShape | SplayTree.cpp:399-407 | the spliced tree keeps the ids distinct and the values increasing |
| SplayTree.SplaySet.DfsCreate | SplayTree.cpp:38-58 | the copy has the same shape and values as the source subtree; it is laid out in the newly appended records, each node once; earlier records are untouched; the caches stay on the extremes of all stored records |
| Arena.CopyStep | SplayTree.cpp:42-57 | a new record with its left and right copies and the parent links set lays out the copied subtree, which spans exactly the records appended for it |
| Arena.ExtremesAppend | SplayTree.cpp:43-48 | the two comparisons with each new record keep the caches on the least and greatest stored values |
| Trees.CopiedValues | SplayTree.cpp:38-58 | a copy of the same shape holds the same values in the same order |
| Trees.IncreasingByValues | SplayTree.cpp:38-58 | orders with the same values are increasing together |
| SplayTree.ExtremesCached | SplayTree.cpp:43-48 | in an arena holding exactly one search tree, records holding the least and greatest values are its first and last nodes |
| SplayTree.CopiedSet | SplayTree.cpp:59-65 | a copy laid out alone, with the root's parent cleared, is a valid set with exact caches and the copied values |
| SplayTree.SplaySet.CopyTree | SplayTree.cpp:60-64 | an emptied set rebuilt by `dfsCreate`, with its root's parent cleared and the count taken over, is a valid copy with exact caches |
| SplayTree.SplaySet.CopyValid | SplayTree.cpp:60-64 | the fields left by `dfsCreate` form a valid set holding the copied values, with exact caches |
| SplayTree.SplaySet.Copy | SplayTree.cpp:59-65 | the copy constructor gives a valid set with the same shape, values and count as `other`, whose caches name its least and greatest nodes |
| SplayTree.SplaySet.Assign | SplayTree.cpp:76-90 | after assignment the set has the shape, values and count `other` had; assigning a set to itself leaves the tree, the arena, the root and the caches as they were; otherwise the caches become exact |
| Trees.CopiedSelf | SplayTree.cpp:77 | a tree is a copy of itself, which covers self-assignment |

## Left out

- A pointer to a node is modelled as the owning set together with an index into that set's arena. So nodes of two sets are never the same node, while no node (`nullptr`) is the same in every set.
- Reuse of freed memory is not modelled. In the source, a later `new Node` may receive the address of an erased node. For example, take {1, 5}, erase 5, and insert 0 at 5's old address. The test `most_right->value < value` fails for 0, so `most_right` then names the live node 0. After that, `lower_bound(1)` returns `end()` although 1 is stored. In the model, within one arena's lifetime a new record always gets a fresh index. Two results depend on this: `Valid()`'s clause that a stale greatest record holds a value at least every stored value, and SplayTree.SplaySet.LowerBound's promise that it returns `end()` only when every stored value is below `value`.
- Memory management is left out: `new`, `delete`, the destructor and `dfsDel`. Allocation appends a record to the arena. Deletion unlinks a node and leaves its record where it was. `Assign` models `dfsDel` by emptying the arena, since the set itself never reaches the records it frees again. `Assign` restarts indices at 0, so an iterator taken before an assignment names a node of the copy, where the source's iterator dangles.
- Deep-copy independence is left out: that a copy shares no node with its source. Copies live in their own object's arena, so aliasing between the two sets does not arise in the model.
- The constructor over a pair of C++ iterators and the `initializer_list` constructor (`SplayTree.cpp:21-36`) are not modelled. They are loops of `insert`.
- Post-decrement `operator--(int)` (`SplayTree.cpp:277-281`) is not modelled. It returns a reference to a destroyed local.
- `operator->` (`SplayTree.cpp:294-296`) is not modelled. It returns the address of the value that `Get` returns.
- The accessors `point()` and `flag()` (`SplayTree.cpp:297-305`) are not modelled as members. They are the fields `point` and `flag`, read directly.
- The default iterator constructor (`SplayTree.cpp:219`) is the general constructor called with no node and no flag.
- Dereferencing or stepping past `end()` is undefined in the source. `Get`, `Increment` and `Decrement` require an iterator on a node of the tree, or a set flag for `Decrement`.
- Amortised logarithmic complexity is left out. It is a cost bound, not a functional property.
- The `Node(value)` constructor that `dfsCreate` uses leaves the node's links uninitialised. `DfsCreate` starts them at `Nil`, and every one is overwritten before the copy is used.
- SplayTree.SplaySet.LowerBound requires that `bigger_vertex` finds a node whenever the cached greatest record holds a value not below `value`. The source breaks this after erasing the greatest value, when every stored value is below `value` but the erased record's is not. `bigger_vertex` then returns `nullptr`, and `splay(nullptr)` is undefined. The guard `most_right->value < value` also reads freed memory in that state.
- SplayTree.SplaySet.Erase does not promise that `mostRight` names the greatest node after the greatest value is erased, because the source does not deliver it (`SplayTree.cpp:388-389`). The model states the opposite: `mostRight` then names no node of the tree. As a consequence, `end()` and `--end()` afterwards work from that erased record. Most importantly, `++` from the greatest remaining node gives that node with the flag set. That never equals `end()`, which names the erased record, so a walk from `begin()` to `end()` never stops. SplayTree.StaleEndUnreachable shows this on {1, 5}, and SplayTree.LastStepReachesEnd shows that with exact caches the walk does stop.
- SplayTree.SplaySet.Insert keeps exact caches exact, but does not repair a greatest cache that an earlier erase left stale. The source does not repair it either, unless the inserted value beats the stale record's value.
- SplayTree.SplaySet.DfsCreate is stated against ghost parameters for the source subtree and its parent. The C++ function reads them through the source set's pointers.
- Comparisons use `int`'s `<`. The source only requires `ValueType` to have `operator<`, and uses `!(a < b) && !(b < a)` for equality, which for `int` is `==`.
- `std::size_t` wrap-around of `node_number` is not modelled, because a set cannot hold more nodes than memory allows.

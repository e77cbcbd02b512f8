# Tree traversals over a k-ary tree: a Dafny model

This project models the core of a C++ library for k-ary trees whose nodes carry values of
different types: strings, integers, and pairs of numbers rendered as `a+bi`. It covers:

- `Tree`: a root pointer and a bound `maxDegree` on how many children a node may have.
  `add_sub_node` refuses a null argument and refuses a child beyond the bound.
- The `tree.cpp` iterators:
  - BFS and DFS.
  - Pre-order, post-order and in-order. When `maxDegree > 2`, pre-order and post-order fall back to
    depth-first order. In-order does so only once the constructor is corrected (see "## Findings").
  - A heap iterator that sorts the in-order nodes by the character-code sum of their text.
- The templated `tree.hpp` variant. It has no degree bound, and its pre-order, post-order and
  BFS iterators skip null child slots instead of throwing.
- `node.hpp`: `add_child`, which refuses null, and `get_value`'s dispatch on the payload type.
- `Complex.cpp`: the `to_string` sign rule, and the `get_ascii_value` character-code sum in an
  `unsigned int`.

Node memory is an arena:

- A `BaseNode*` is `Ptr = Null | Ref(id)`, and `id` indexes `Arena.nodes`.
- A child list is a `seq<Ptr>`, so null slots can be represented.
- Acyclicity is represented by `Ordered`: every child is allocated after its parent.
- A tree has no shared nodes: `OneParent` says no node sits in two child slots.
  Under these two invariants every walk visits each node below the root exactly once (module `Visits`).

The orders are recursive functions over a forest of node ids: `Pre`, `Post`, `In` and
`LevelOrder` in module `Orders`. Each iterator is a class:

- It holds the stack or queue the C++ class holds, with the top or front at index 0.
- It has a ghost `Pending()`: the rest of the walk, stated with those functions.
- `Current` returns `Pending()[0]`.
- `NotEqual` is true exactly while `Pending()` is non-empty.
- `Next` leaves `Pending()` equal to the old `Pending()[1..]`. In `tree.cpp`, `Next` instead reports
  `CorruptTree` when a null slot makes the C++ code throw.

Each `Tree` walk method is the caller's `for (it = begin; it != end; ++it)` loop, and its
`ensures` is the order it produces.

Modules:

- `Decimal`: integer numerals.
- `Complex`.
- `Nodes`: pointers, values and the arena.
- `Orders`: the traversal functions and the lemmas about them.
- `CppIterators` and `CppTree`: `tree.cpp`.
- `HppTree`: `tree.hpp`.
- `Visits`: each walk lists every node below the root exactly once.
- `Defects`: `tree.cpp` routines as written, with inputs on which they fail.
- `Samples`: trees built by the repository's tests, with their proved orders.

## Model

| member | source | states |
|---|---|---|
| Decimal.IntToString | node.hpp:35-36 | the `std::to_string` numeral of an integer: a leading '-' exactly for negatives, digits otherwise |
| Decimal.IntToStringRoundTrip | node.hpp:35-36 | parsing the numeral of any integer gives that integer back |
| Decimal.IntToStringInjective | node.hpp:35-36 | distinct integers have distinct numerals |
| Complex.ToString | Complex.cpp:12-18 | the rendering ends in 'i' and contains '+' exactly when the imaginary part is non-negative |
| Complex.ToStringRoundTrip | Complex.cpp:12-18 | the rendering can be parsed back into the same pair, so no information is lost |
| Complex.ToStringInjective | Complex.cpp:12-18 | distinct pairs render differently |
| Complex.ZeroRendering | Complex.cpp:4-18 | a default-constructed pair renders as "0+0i" |
| Complex.GetAsciiValue | Complex.cpp:21-29 | the loop's sum is the character-code sum of the rendering modulo 2^32 |
| Complex.CodeSumOfRendering | Complex.cpp:21-29 | the sum splits into the real numeral, the '+' when present, the imaginary numeral and the 'i' |
| Complex.AsciiValueExample | Complex.cpp:21-29 | (1, -2) renders as "1-2i" and its sum is '1'+'-'+'2'+'i' |
| Nodes.GetValue | node.hpp:32-40 | a string payload is returned as is, an integer as a numeral that parses back to it, any other payload as "Unsupported type" |
| Nodes.Arena.NewNode | node.hpp:29-30 | a fresh childless node is appended and the arena invariant is kept |
| Nodes.Arena.AddChild | node.hpp:15-21 | a non-null child is appended at the end of the parent's children; a null one changes nothing; the arena invariant is kept when the child is new and not yet linked |
| Nodes.OneParentLink | node.hpp:15-21 | linking a node that no slot holds yet keeps every node with at most one parent slot |
| Orders.PreOfNode | tree.cpp:92-105 | in pre-order a node comes before its children's subtrees |
| Orders.PostOfNode | tree.hpp:102-115 | in post-order a node comes after its children's subtrees |
| Orders.InOfBinaryNode | tree.cpp:224-260 | for a node with two children, in-order is left subtree, node, right subtree |
| Orders.InOfUnaryNode | tree.cpp:224-260 | a node with one child comes right after that child's subtree |
| Orders.PostSameNodesAsPre | tree.cpp:158-203 | post-order lists the same nodes as pre-order, each as often |
| Orders.InSameNodesAsPre | tree.cpp:218-260 | in-order lists the same nodes as pre-order, each as often |
| Orders.LevelOrderSameNodesAsPre | tree.cpp:37-59 | breadth-first order lists the same nodes as pre-order, each as often |
| Orders.PreStep | tree.cpp:92-105 | popping a node and pushing its children first-on-top yields the rest of the pre-order |
| Orders.PostExpandStep | tree.hpp:102-115 | marking the top entry expanded and pushing its children does not change what the stack still emits |
| Orders.PostPendingUnexpanded | tree.hpp:102-115 | unexpanded entries pushed on a stack emit their post-orders before the rest |
| Orders.InPushStep | tree.cpp:224-234 | pushing a node on the in-order stack and descending to its first child keeps what remains to be emitted |
| Orders.InPendingPop | tree.cpp:240-260 | popping the in-order top leaves its later children's in-orders in front of the rest |
| Orders.LevelQueueStep | tree.cpp:47-59 | popping the front and queueing its children continues the level order; the level moves on after its last node |
| Orders.LevelQueueFront | tree.cpp:43-63 | an empty queue owes nothing, and a non-empty one owes its front next |
| CppIterators.BfsIterator.constructor | tree.cpp:37-41 | the queue holds the root, or nothing for null, and the iterator owes the root's level order |
| CppIterators.BfsIterator.Current | tree.cpp:43-45 | the front is the next node of the level order |
| CppIterators.BfsIterator.NotEqual | tree.cpp:61-63 | true exactly while nodes remain, whatever the other iterator is |
| CppIterators.BfsIterator.Next | tree.cpp:47-59 | the children are queued left to right and the walk advances by one node; a null child throws after the children before it are queued |
| CppIterators.DfsIterator.constructor | tree.cpp:82-86 | the stack holds the root, or nothing, and the iterator owes the pre-order |
| CppIterators.DfsIterator.Current | tree.cpp:88-90 | the top is the next node of the pre-order |
| CppIterators.DfsIterator.NotEqual | tree.cpp:107-109 | true exactly while nodes remain |
| CppIterators.DfsIterator.Next | tree.cpp:92-105 | children are pushed last to first and the pre-order advances by one; a null child throws after the later children are pushed |
| CppIterators.PostOrderIterator.constructor | tree.cpp:158-165 | the root is pushed unexpanded; in DFS mode the iterator owes the pre-order, otherwise the post-order |
| CppIterators.PostOrderIterator.ExpandTop | tree.cpp:167-181 | corrected expansion: afterwards the top is expanded and the owed post-order is unchanged; it throws exactly when a null slot lies on the path it expands |
| CppIterators.PostOrderIterator.Current | tree.cpp:183-185 | the top is the next node owed |
| CppIterators.PostOrderIterator.NotEqual | tree.cpp:205-207 | true exactly while nodes remain |
| CppIterators.PostOrderIterator.Next | tree.cpp:187-203 | corrected: DFS mode pushes children like DFS; otherwise it pops and expands the new top; either way the walk advances by one node |
| CppIterators.InOrderIterator.constructor | tree.cpp:218-222 | corrected: DFS mode pushes only the root and owes the pre-order; otherwise the left spine is pushed and the in-order is owed |
| CppIterators.InOrderIterator.PushLeft | tree.cpp:224-234 | the pushed spine puts the in-order of the pushed slot in front of what was owed |
| CppIterators.InOrderIterator.Current | tree.cpp:236-238 | the top is the next node owed |
| CppIterators.InOrderIterator.NotEqual | tree.cpp:262-264 | true exactly while nodes remain |
| CppIterators.InOrderIterator.Next | tree.cpp:240-260 | corrected: DFS mode pushes children like DFS; otherwise the later children's spines are pushed; the walk advances by one node |
| CppIterators.InOrderIterator.PushLaterChildren | tree.cpp:255-259 | pushing the spines of children 1..n-1 puts the in-order of the node's later children in front of what was owed |
| CppIterators.HeapIterator.constructor | tree.cpp:278-280 | the heap holds the given nodes (same multiset), sorted by key, and the position is 0 |
| CppIterators.HeapIterator.Heapify | tree.cpp:282-288 | afterwards the array is sorted by key and is a permutation of what it held |
| CppIterators.HeapIterator.Insert | tree.cpp:282-288 | one round of the model's insertion sort, which stands in for the library's `make_heap` and `sort_heap`: it extends the sorted prefix by one and keeps the multiset |
| CppIterators.HeapIterator.Current | tree.cpp:290-292 | the node at the current position |
| CppIterators.HeapIterator.Next | tree.cpp:294-297 | the position moves on by one |
| CppIterators.HeapIterator.NotEqual | tree.cpp:299-301 | true exactly when the positions differ |
| CppIterators.QueueChildren | tree.cpp:51-57 | the children are queued left to right; a null slot throws after the slots before it |
| CppIterators.PushChildren | tree.cpp:97-103 | the children are pushed first-on-top; a null slot throws after the later slots |
| CppIterators.PushEntries | tree.cpp:170-178 | the children are pushed as unexpanded entries first-on-top; a null slot throws |
| CppTree.Tree.constructor | tree.cpp:6 | an empty tree with the default degree bound |
| CppTree.Tree.WithDegree | tree.cpp:8 | an empty tree with the given degree bound |
| CppTree.Tree.AddRoot | tree.cpp:15-18 | the node becomes the root |
| CppTree.Tree.GetRoot | tree.cpp:20-22 | the root, null or a node of the arena |
| CppTree.Tree.AddSubNode | tree.cpp:24-34 | null arguments give InvalidArgument, a full parent gives DegreeExceeded, both leave the nodes unchanged; otherwise the child is appended; the degree bound is kept, and so is the arena invariant when the child is new and not yet linked |
| CppTree.Tree.BeginBfs | tree.cpp:65-79 | `begin_bfs` and `begin()` owe the root's level order |
| CppTree.Tree.EndBfs | tree.cpp:69-79 | the end iterator owes nothing |
| CppTree.Tree.BfsWalk | tree.cpp:37-79 | the walk yields the level order of the tree, each node below the root exactly once |
| CppTree.Tree.BeginDfs | tree.cpp:111-113 | `begin_dfs` owes the pre-order |
| CppTree.Tree.EndDfs | tree.cpp:115-117 | the end iterator owes nothing |
| CppTree.Tree.DfsWalk | tree.cpp:82-155 | the DFS walk, and the pre-order walk in either mode, yield the pre-order, each node below the root exactly once |
| CppTree.Tree.BeginPostOrder | tree.cpp:209-211 | corrected: DFS mode exactly when maxDegree > 2; it owes the pre-order then and the post-order otherwise |
| CppTree.Tree.EndPostOrder | tree.cpp:213-215 | the end iterator owes nothing |
| CppTree.Tree.PostOrderWalk | tree.cpp:158-215 | corrected: the walk yields the pre-order when maxDegree > 2 and the post-order otherwise, each node below the root exactly once |
| CppTree.Tree.BeginInOrder | tree.cpp:269-271 | corrected: DFS mode exactly when maxDegree > 2; it owes the pre-order then and the in-order otherwise |
| CppTree.Tree.EndInOrder | tree.cpp:273-275 | the end iterator owes nothing |
| CppTree.Tree.InOrderWalk | tree.cpp:218-275 | corrected: the walk yields the pre-order when maxDegree > 2 and the in-order otherwise, each node below the root exactly once |
| CppTree.Tree.BeginHeap | tree.cpp:303-309 | corrected (it runs the corrected in-order walk): the heap holds exactly the tree's nodes, sorted by key, at position 0 |
| CppTree.Tree.EndHeapAsWritten | tree.cpp:311-313 | as written: the end iterator is also at position 0, over no nodes |
| CppTree.Tree.HeapWalkAsWritten | tree.cpp:299-313 | as written, for maxDegree ≤ 2 or a root without children (otherwise the in-order walk inside `begin_heap` underflows first, see `Defects.InOrderDfsTwoNodes`): begin and end compare equal at once, so the heap walk yields nothing |
| CppTree.Tree.EndHeap | tree.cpp:311-313 | corrected: the end position is one past the last of the tree's nodes |
| CppTree.Tree.HeapWalk | tree.cpp:278-313 | corrected: the heap walk yields each node below the root exactly once, keys never decreasing |
| CppTree.NoNullBelow | node.hpp:15-21 | in an arena built by `add_child`, which refuses null, no post-order expansion throws |
| HppTree.Tree.constructor | tree.hpp:14 | an empty tree |
| HppTree.Tree.AddRoot | tree.hpp:17-20 | the node becomes the root |
| HppTree.Tree.GetRoot | tree.hpp:23-25 | the root, null or a node of the arena |
| HppTree.Tree.AddSubNode | tree.hpp:28-35 | with both arguments non-null the child is appended whatever the parent's degree; otherwise nothing changes; the invariant is kept when the child is new and not yet linked |
| HppTree.Tree.BeginPreOrder | tree.hpp:79-81 | owes the pre-order |
| HppTree.Tree.EndPreOrder | tree.hpp:84-86 | owes nothing |
| HppTree.Tree.PreOrderWalk | tree.hpp:39-86 | the walk yields the pre-order, null slots skipped, each node below the root exactly once |
| HppTree.Tree.BeginPostOrder | tree.hpp:142-144 | owes the post-order, the top already expanded |
| HppTree.Tree.EndPostOrder | tree.hpp:147-149 | owes nothing |
| HppTree.Tree.PostOrderWalk | tree.hpp:90-149 | the walk yields the post-order, null slots skipped, each node below the root exactly once |
| HppTree.Tree.BeginBfs | tree.hpp:191-204 | `begin_bfs` and `begin()` owe the level order |
| HppTree.Tree.EndBfs | tree.hpp:196-209 | `end_bfs` and `end()` owe nothing |
| HppTree.Tree.BfsWalk | tree.hpp:153-209 | the walk yields the level order, null slots skipped, each node below the root exactly once |
| HppTree.PreOrderIterator.constructor | tree.hpp:44-49 | the stack holds the root, or nothing, and the iterator owes the pre-order |
| HppTree.PreOrderIterator.Current | tree.hpp:51-53 | the top is the next node of the pre-order |
| HppTree.PreOrderIterator.NotEqual | tree.hpp:73-75 | true exactly while nodes remain |
| HppTree.PreOrderIterator.Next | tree.hpp:55-71 | the non-null children are pushed first-on-top and the pre-order advances by one |
| HppTree.PostOrderIterator.constructor | tree.hpp:118-124 | after the root is pushed and expanded, the top is expanded and the post-order is owed |
| HppTree.PostOrderIterator.ExpandTop | tree.hpp:102-115 | the loop ends with an expanded top and leaves the owed post-order unchanged |
| HppTree.PostOrderIterator.Current | tree.hpp:126-128 | the top's node is the next node of the post-order |
| HppTree.PostOrderIterator.NotEqual | tree.hpp:136-138 | true exactly while nodes remain |
| HppTree.PostOrderIterator.Next | tree.hpp:130-134 | pop, then expand the new top if any: the top stays expanded and the post-order advances by one |
| HppTree.BfsIterator.constructor | tree.hpp:158-163 | the queue holds the root, or nothing, and the level order is owed |
| HppTree.BfsIterator.Current | tree.hpp:165-167 | the front is the next node of the level order |
| HppTree.BfsIterator.NotEqual | tree.hpp:185-187 | true exactly while nodes remain |
| HppTree.BfsIterator.Next | tree.hpp:169-183 | the non-null children are queued left to right and the level order advances by one |
| HppTree.QueueKids | tree.hpp:173-181 | the non-null children are queued in order |
| HppTree.PushKids | tree.hpp:61-69 | the non-null children are pushed first-on-top |
| HppTree.PushKidEntries | tree.hpp:106-113 | the non-null children are pushed as unexpanded entries, first-on-top |
| Visits.PreIsBelow | tree.cpp:92-105 | a node is in the pre-order of a root exactly when it can be reached from that root through child slots |
| Visits.PreDistinct | tree.cpp:92-105 | when no node has two parents, the pre-order of a forest whose roots lie in no subtree of one another lists no node twice |
| Visits.VisitsOnce | tree.cpp:278-313 | any sequence with the pre-order's nodes, such as the heap's, holds each node below the root exactly once |
| Visits.PreVisitsOnce | tree.cpp:82-113 | the depth-first walk visits each node below the root exactly once |
| Visits.PostVisitsOnce | tree.hpp:90-149 | the post-order walk visits each node below the root exactly once |
| Visits.InVisitsOnce | tree.cpp:218-275 | the in-order walk visits each node below the root exactly once |
| Visits.LevelOrderVisitsOnce | tree.cpp:37-79 | the breadth-first walk visits each node below the root exactly once |
| Defects.ExpandTopNeverStops | tree.cpp:167-181 | as written: once the top has children, after any number of passes the same node is on top and the guard still holds; the stack grows by the child count each pass |
| Defects.ExpandTopTwoNodes | tree.cpp:158-181 | as written, on a root with one leaf child: the guard holds after every pass |
| Defects.InOrderDfsStartsBelowRoot | tree.cpp:218-234 | as written, DFS mode first yields the deepest node of the left spine, never the root that pre-order yields first |
| Defects.InOrderDfsTwoNodes | tree.cpp:240-253 | as written, on a root with one leaf child: DFS mode yields leaf, root, leaf and then pops an empty `visited` |
| Samples.BinarySamplePre | Tests.cpp:185 | the degree-2 test tree's pre-order is root2 10 20.45 0.5 n2 n5 4.57i n6 3-1.2i |
| Samples.BinarySamplePost | Tests.cpp:186 | its post-order is 20.45 0.5 10 4.57i n5 3-1.2i n6 n2 root2 |
| Samples.BinarySampleIn | Tests.cpp:187 | its in-order is 20.45 10 0.5 root2 4.57i n5 n2 3-1.2i n6 |
| Samples.TernarySamplePre | Tests.cpp:177 | the degree-3 test tree's pre-order is root 1 0.25 n5 7-4.5i n2 n6 n7 12.35 |

## Left out

- Logging to `std::cout`/`std::cerr` is not modelled, including what is printed when `tree.hpp` skips a null slot.
- The GUI and `operator<<` rendering are not modelled.
- `Demo.cpp` and its `myHeap` are not modelled; `myHeap` is not defined in the core.
- The `node.cpp` destructor, copying and assignment are not modelled.
- Real-number payloads are left out, because of the floating-point formatting of `std::to_string` and of `ostream`. Pairs have integer parts only. The sample trees keep real values as their printed text.
- Node identity is an arena index, not a raw address. Aliasing between two trees is not represented.
- A node linked under two parents can be written in the arena, but the trees' invariant excludes it (`OneParent`). The exactly-once guarantee of the walks holds under that invariant. `add_sub_node` keeps it only when the child is not yet linked anywhere; the C++ code does not check this.
- An arena carries one tree: `Ordered`, `OneParent` and, in `tree.cpp`, the degree bound are required of every node in the arena, not only of the nodes below the root.
- Nodes.Key: sums the Unicode code points of the text. The C++ code sums the bytes of a `std::string` as `char`, which is signed, so a non-ASCII string payload gives a different key. Numerals and pair renderings are ASCII, and on ASCII the two agree.
- Nodes.Arena.AddChild: keeps the arena invariant only when the child was allocated after the parent and is not yet linked; `Ordered` and `OneParent` are how acyclicity and unshared nodes are represented.
- CppTree.Tree.AddSubNode: keeps `Valid` only when the child was allocated after the parent and is not yet linked, for the same reason.
- HppTree.Tree.AddSubNode: keeps `Valid` only when the child was allocated after the parent and is not yet linked, for the same reason.
- `add_sub_node` in `tree.hpp` passes its child through `static_cast<void*>` to `add_child(BaseNode*)`. The model takes the evident meaning, appending the child.
- `Integer` payloads are unbounded; the width of `int` is not modelled. Key sums are reduced modulo 2^32, as `unsigned int` wraps.
- `Tree()` in `tree.cpp` leaves `maxDegree` without an initialiser. The model uses 2, the documented default.
- CppIterators.PostOrderIterator.ExpandTop: when it throws, the stack left behind is not described.
- CppIterators.PostOrderIterator.Next: when it throws, the stack left behind is not described.
- CppIterators.InOrderIterator.Next: when it throws, the stack left behind is not described.
- In `tree.cpp`, C++ constructors cannot report an outcome here, so the expansion the post-order constructor runs is a separate `ExpandTop` call. `CppTree.Tree.BeginPostOrder` makes that call.
- The corrected in-order iterator drops `visited`, which is never read. `Defects` models it by its size, to show the underflow.
- `PreOrderIterator` in `tree.cpp` stores `useDFS` but never reads it, so it is modelled by `DfsIterator`.
- CppIterators.HeapIterator.Heapify: states sorted and a permutation, not the particular order `make_heap`/`sort_heap` leaves among equal keys.
- `get_ascii_value` is not declared on `BaseNode` in the core. The key of a node is the code sum of its value's text: a string's own text, an integer's numeral, a pair's `to_string`.
- Several `Tests.cpp` expectations for the degree-3 and degree-4 trees contradict the code, and are not modelled:
  - Post-order and in-order are expected to differ from pre-order, yet the code degrades both to depth-first order when `maxDegree > 2`.
  - Pair nodes are expected to print their rendering, not "Unsupported type".
- The level-order walk of the sample trees is not stated as a concrete lemma; `LevelOrder` itself is proved against the iterators.

## Findings

| source | as written | input that shows it | evidently intended | confidence | as-written member | corrected member |
|---|---|---|---|---|---|---|
| tree.cpp:167-181 | `expandTop` pops the top, pushes its children and pushes the node again; the node is still on top with children, so the loop never ends | a root with one leaf child and maxDegree 2: `begin_post_order()` never returns | mark a node as expanded, as `tree.hpp` does, and stop once the top is expanded | not executed | Defects.ExpandTopNeverStops | CppIterators.PostOrderIterator.ExpandTop |
| tree.cpp:218-253 | in DFS mode the constructor still pushes the whole left spine, and `operator++` pops `visited` without pushing to it | a root with one leaf child and maxDegree 3: the in-order walk yields leaf, root, leaf, then pops an empty `std::stack` | push only the root in DFS mode, so the walk is the pre-order, like the other DFS-mode iterators | not executed | Defects.InOrderDfsTwoNodes | CppIterators.InOrderIterator.constructor |
| tree.cpp:303-313 | `begin_heap()` and `end_heap()` both start at index 0, and `!=` compares indices | a tree with a root and maxDegree ≤ 2, e.g. a root with one leaf child and maxDegree 2 (or a lone root under any maxDegree): `it != end_heap()` is false at once, and the walk yields nothing; with maxDegree > 2 and a root that has a child, `begin_heap()` first hits the in-order underflow of the row above | the end iterator sits one past the last node, so the walk visits every node in key order | not executed | CppTree.Tree.HeapWalkAsWritten | CppTree.Tree.HeapWalk |

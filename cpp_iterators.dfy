// tree.cpp: the iterators of the non-templated `Tree`. Each iterator walks a
// snapshot of the node memory; a null child slot makes `operator++` throw
// (modelled as `Fail(CorruptTree)`), after which the iterator's state is
// described but no longer promised to be a well-formed walk.

module CppIterators {
  import opened Nodes
  import opened Orders

  /** `Tree::BFSIterator`: a FIFO queue of nodes, front at index 0. */
  class BfsIterator {
    const nodes: seq<Node>
    var queue: seq<nat>
    /** The level being popped and how many of its nodes are gone. */
    ghost var level: seq<nat>
    ghost var done: nat

    ghost predicate Valid()
      reads this
    {
      LevelQueue(nodes, queue, level, done)
    }

    /** What the iterator still yields, front first. */
    ghost function Pending(): seq<nat>
      reads this
      requires Valid()
    {
      LevelPending(nodes, level, done)
    }

    /** `BFSIterator(root)`: a queue holding the root, or empty for null. */
    constructor (nodes: seq<Node>, root: Ptr)
      requires Ordered(nodes) && (root.Ref? ==> root.id < |nodes|)
      ensures this.nodes == nodes && Valid()
      ensures queue == (if root.Ref? then [root.id] else [])
      ensures Pending() == (if root.Ref? then LevelOrder(nodes, [root.id]) else [])
    {
      this.nodes := nodes;
      if root.Ref? {
        queue := [root.id];
        level := [root.id];
        LevelQueueStart(nodes, root.id);
      } else {
        queue := [];
        level := [];
      }
      done := 0;
    }

    /** `operator*`: the front of the queue, the next node of the walk. */
    function Current(): (x: nat)
      reads this
      requires Valid() && queue != []
      ensures x < |nodes|
      ensures Pending() != [] && x == Pending()[0]
    {
      LevelQueueFront(nodes, queue, level, done);
      LevelQueueHead(nodes, queue, level, done);
      queue[0]
    }

    /** `operator!=`: true while the queue is non-empty, whatever `other` is. */
    function NotEqual(other: BfsIterator): (b: bool)
      reads this
      requires Valid()
      ensures b <==> Pending() != []
    {
      LevelQueueFront(nodes, queue, level, done);
      queue != []
    }

    /** `operator++`: pop the front and queue its children left to right,
        throwing at the first null slot. */
    method Next() returns (outcome: Outcome)
      requires Valid() && queue != []
      modifies this
      ensures old(queue[0]) < |nodes|
      ensures outcome == (if Null in nodes[old(queue[0])].children then Fail(CorruptTree) else Pass)
      ensures outcome.Pass? ==> queue == old(queue[1..]) + Kids(nodes, old(queue[0]))
      ensures outcome.Pass? ==> Valid() && Pending() == old(Pending()[1..])
      ensures outcome.Fail? ==>
        var ch := nodes[old(queue[0])].children;
        queue == old(queue[1..]) + IdsOf(ch[..RefPrefix(ch)])
    {
      ghost var level', done' := LevelQueueStep(nodes, queue, level, done);
      var x := queue[0];
      queue, outcome := QueueChildren(queue[1..], nodes[x].children);
      if outcome.Pass? {
        level, done := level', done';
      }
    }
  }

  /** `Tree::DFSIterator`, and `Tree::PreOrderIterator`, whose code is the
      same (its `useDFS` flag is stored and never read): a stack of nodes,
      top at index 0. */
  class DfsIterator {
    const nodes: seq<Node>
    var next: seq<nat>

    ghost predicate Valid()
      reads this
    {
      Ordered(nodes) && Within(nodes, next)
    }

    /** What the iterator still yields: the pre-order of the stack. */
    ghost function Pending(): seq<nat>
      reads this
      requires Valid()
    {
      Pre(nodes, next)
    }

    /** `DFSIterator(root)`: a stack holding the root, or empty for null. */
    constructor (nodes: seq<Node>, root: Ptr)
      requires Ordered(nodes) && (root.Ref? ==> root.id < |nodes|)
      ensures this.nodes == nodes && Valid()
      ensures next == (if root.Ref? then [root.id] else [])
      ensures Pending() == (if root.Ref? then Pre(nodes, [root.id]) else [])
    {
      this.nodes := nodes;
      next := if root.Ref? then [root.id] else [];
    }

    /** `operator*`: the top of the stack, the next node of the walk. */
    function Current(): (x: nat)
      reads this
      requires Valid() && next != []
      ensures x < |nodes|
      ensures Pending() != [] && x == Pending()[0]
    {
      PreStep(nodes, next);
      next[0]
    }

    /** `operator!=`: true while the stack is non-empty. */
    function NotEqual(other: DfsIterator): (b: bool)
      reads this
      requires Valid()
      ensures b <==> Pending() != []
    {
      if next != [] then PreStep(nodes, next); true else false
    }

    /** `operator++`: pop the top and push its children from last to first,
        so that the first child ends on top; throws at the last null slot. */
    method Next() returns (outcome: Outcome)
      requires Valid() && next != []
      modifies this
      ensures old(next[0]) < |nodes|
      ensures outcome == (if Null in nodes[old(next[0])].children then Fail(CorruptTree) else Pass)
      ensures outcome.Pass? ==> next == Kids(nodes, old(next[0])) + old(next[1..])
      ensures outcome.Pass? ==> Valid() && Pending() == old(Pending()[1..])
      ensures outcome.Fail? ==>
        var ch := nodes[old(next[0])].children;
        next == IdsOf(ch[|ch| - RefSuffix(ch)..]) + old(next[1..])
    {
      PreStep(nodes, next);
      var x := next[0];
      next, outcome := PushChildren(next[1..], nodes[x].children);
    }
  }

  /** Some node on the first-child path down from `x` has a null slot: the
      post-order expansion starting at `x` throws. */
  predicate NullBelow(nodes: seq<Node>, x: nat)
    requires Ordered(nodes) && x < |nodes|
    decreases |nodes| - x
  {
    Null in nodes[x].children
    || (Kids(nodes, x) != [] && NullBelow(nodes, Kids(nodes, x)[0]))
  }

  /** Expanding this stack throws: its top is unexpanded and has a null
      slot on its first-child path. */
  predicate ExpandFails(nodes: seq<Node>, es: seq<Entry>)
    requires Ordered(nodes) && EntriesWithin(nodes, es)
  {
    es != [] && !es[0].expanded && NullBelow(nodes, es[0].node)
  }

  /** `Tree::PostOrderIterator`, with `expandTop` corrected: the stack
      records for each node whether its children have been pushed, and the
      expansion stops at an expanded top. With `useDFS` it walks in pre-order
      like DFSIterator. */
  class PostOrderIterator {
    const nodes: seq<Node>
    const useDFS: bool
    var next: seq<Entry>

    /** The stack names nodes of a well-ordered arena. */
    ghost predicate Wf()
      reads this
    {
      Ordered(nodes) && EntriesWithin(nodes, next)
    }

    /** Between steps the top has been expanded. */
    ghost predicate Valid()
      reads this
    {
      Wf() && (!useDFS && next != [] ==> next[0].expanded)
    }

    ghost function Pending(): seq<nat>
      reads this
      requires Wf()
    {
      NodesWithin(nodes, next);
      if useDFS then Pre(nodes, NodesOf(next)) else PostPending(nodes, next)
    }

    /** The constructor's first half: a stack holding the root, unexpanded.
        Without `useDFS` the constructor then runs `ExpandTop`. */
    constructor (nodes: seq<Node>, root: Ptr, useDFS: bool)
      requires Ordered(nodes) && (root.Ref? ==> root.id < |nodes|)
      ensures this.nodes == nodes && this.useDFS == useDFS && Wf()
      ensures next == (if root.Ref? then [Entry(root.id, false)] else [])
      ensures useDFS ==> Valid()
      ensures Pending() == (if root.Ref? && useDFS then Pre(nodes, [root.id])
                            else if root.Ref? then Post(nodes, [root.id]) else [])
    {
      this.nodes := nodes;
      this.useDFS := useDFS;
      next := if root.Ref? then [Entry(root.id, false)] else [];
      if root.Ref? {
        assert NodesOf([Entry(root.id, false)]) == [root.id];
        PostPendingCons(nodes, Entry(root.id, false), []);
        assert [Entry(root.id, false)] + [] == [Entry(root.id, false)];
        EmptyConcat([], Post(nodes, [root.id]));
        assert Post(nodes, [root.id]) + [] == Post(nodes, [root.id]);
      }
    }

    /** `expandTop`, corrected: while the top is unexpanded, mark it and
        push its children, first child on top. It throws at a null slot
        on the way down. */
    method ExpandTop() returns (outcome: Outcome)
      requires Wf()
      modifies this
      ensures outcome == (if ExpandFails(nodes, old(next)) then Fail(CorruptTree) else Pass)
      ensures outcome.Pass? ==> Wf() && (next != [] ==> next[0].expanded)
      ensures outcome.Pass? ==> PostPending(nodes, next) == old(PostPending(nodes, next))
    {
      while next != [] && !next[0].expanded
        invariant Wf()
        invariant PostPending(nodes, next) == old(PostPending(nodes, next))
        invariant ExpandFails(nodes, next) == ExpandFails(nodes, old(next))
        decreases if next != [] && !next[0].expanded then |nodes| - next[0].node else 0
      {
        var x := next[0].node;
        var rest := next[1..];
        PostExpandStep(nodes, x, rest);
        HeadTail(next);
        var s;
        s, outcome := PushEntries([Entry(x, true)] + rest, nodes[x].children);
        next := s;
        if outcome.Fail? {
          return;
        }
        UnexpandedTop(Kids(nodes, x), [Entry(x, true)] + rest);
      }
      outcome := Pass;
    }

    /** `operator*`: the node on top. */
    function Current(): (x: nat)
      reads this
      requires Valid() && next != []
      ensures x < |nodes|
      ensures Pending() != [] && x == Pending()[0]
    {
      if useDFS then
        PreEntriesStep(nodes, next);
        next[0].node
      else
        PostPendingCons(nodes, next[0], next[1..]);
        HeadTail(next);
        next[0].node
    }

    /** `operator!=`: true while the stack is non-empty. */
    function NotEqual(other: PostOrderIterator): (b: bool)
      reads this
      requires Valid()
      ensures b <==> Pending() != []
    {
      if next == [] then false
      else if useDFS then PreEntriesStep(nodes, next); true
      else PostPendingCons(nodes, next[0], next[1..]); HeadTail(next); true
    }

    /** `operator++`: pop the top; with `useDFS` push its children as
        DFSIterator does, otherwise expand the new top. */
    method Next() returns (outcome: Outcome)
      requires Valid() && next != []
      modifies this
      ensures old(next[0].node) < |nodes|
      ensures useDFS ==> outcome == (if Null in nodes[old(next[0].node)].children then Fail(CorruptTree) else Pass)
      ensures !useDFS ==> outcome == (if ExpandFails(nodes, old(next[1..])) then Fail(CorruptTree) else Pass)
      ensures outcome.Pass? ==> Valid() && Pending() == old(Pending()[1..])
    {
      var x := next[0].node;
      if useDFS {
        PreEntriesStep(nodes, next);
        var s;
        s, outcome := PushEntries(next[1..], nodes[x].children);
        next := s;
      } else {
        PostPendingCons(nodes, next[0], next[1..]);
        HeadTail(next);
        next := next[1..];
        outcome := ExpandTop();
      }
    }
  }

  /** `Tree::InOrderIterator`, corrected: with `useDFS` the constructor
      pushes only the root and the walk is DFSIterator's pre-order;
      otherwise the stack holds left spines and the walk is the in-order.
      The `visited` stack of the source is written and never read. */
  class InOrderIterator {
    const nodes: seq<Node>
    const useDFS: bool
    var next: seq<nat>

    ghost predicate Valid()
      reads this
    {
      Ordered(nodes) && Within(nodes, next)
    }

    ghost function Pending(): seq<nat>
      reads this
      requires Valid()
    {
      if useDFS then Pre(nodes, next) else InPending(nodes, next)
    }

    /** `InOrderIterator(root, useDFS)`. */
    constructor (nodes: seq<Node>, root: Ptr, useDFS: bool)
      requires Ordered(nodes) && (root.Ref? ==> root.id < |nodes|)
      ensures this.nodes == nodes && this.useDFS == useDFS && Valid()
      ensures Pending() == (if root.Ref? && useDFS then Pre(nodes, [root.id])
                            else if root.Ref? then In(nodes, [root.id]) else [])
    {
      this.nodes := nodes;
      this.useDFS := useDFS;
      next := [];
      new;
      if useDFS {
        next := if root.Ref? then [root.id] else [];
      } else {
        InSlotAlone(nodes, root);
        PushLeft(root);
      }
    }

    /** `pushLeft`: push `p` and then its first child, its first child's
        first child, and so on down the left spine. */
    method PushLeft(p: Ptr)
      requires Valid() && (p.Ref? ==> p.id < |nodes|)
      modifies this
      ensures Valid()
      ensures InPending(nodes, next) == InSlot(nodes, p) + old(InPending(nodes, next))
    {
      var cur := p;
      while cur.Ref?
        invariant Valid() && (cur.Ref? ==> cur.id < |nodes|)
        invariant InSlot(nodes, cur) + InPending(nodes, next) == InSlot(nodes, p) + old(InPending(nodes, next))
        decreases if cur.Ref? then |nodes| + 1 - cur.id else 0
      {
        var x := cur.id;
        InPushStep(nodes, x, next);
        LeftSlot(nodes, x);
        next := [x] + next;
        var ch := nodes[x].children;
        cur := if ch != [] then ch[0] else Null;
      }
      EmptyConcat(InSlot(nodes, cur), InPending(nodes, next));
    }

    /** `operator*`: the node on top. */
    function Current(): (x: nat)
      reads this
      requires Valid() && next != []
      ensures x < |nodes|
      ensures Pending() != [] && x == Pending()[0]
    {
      if useDFS then PreStep(nodes, next); next[0]
      else InPendingPop(nodes, next); next[0]
    }

    /** `operator!=`: true while the stack is non-empty. */
    function NotEqual(other: InOrderIterator): (b: bool)
      reads this
      requires Valid()
      ensures b <==> Pending() != []
    {
      if next == [] then false
      else if useDFS then PreStep(nodes, next); true
      else InPendingPop(nodes, next); true
    }

    /** `operator++`: pop the top; with `useDFS` push its children as
        DFSIterator does, otherwise push the left spine of each of its
        children after the first, in order. */
    method Next() returns (outcome: Outcome)
      requires Valid() && next != []
      modifies this
      ensures old(next[0]) < |nodes|
      ensures outcome == (if useDFS && Null in nodes[old(next[0])].children then Fail(CorruptTree) else Pass)
      ensures outcome.Pass? ==> Valid() && Pending() == old(Pending()[1..])
    {
      var x := next[0];
      if useDFS {
        PreStep(nodes, next);
        next, outcome := PushChildren(next[1..], nodes[x].children);
      } else {
        InPendingPop(nodes, next);
        next := next[1..];
        PushLaterChildren(x);
        outcome := Pass;
      }
    }

    /** The non-DFS half of `operator++`: for each child of `x` after the
        first, in order, push its left spine. The last child's spine ends
        on top, so the later children are emitted first. */
    method PushLaterChildren(x: nat)
      requires Valid() && x < |nodes|
      modifies this
      ensures Valid()
      ensures InPending(nodes, next) == In(nodes, RightKids(nodes, x)) + old(InPending(nodes, next))
    {
      ghost var rest := InPending(nodes, next);
      var ch := nodes[x].children;
      if ch != [] {
        EmptyConcat(In(nodes, IdsOf(Reversed(ch[1..1]))), rest);
        var i := 1;
        while i < |ch|
          invariant 1 <= i <= |ch|
          invariant Valid()
          invariant Within(nodes, IdsOf(Reversed(ch[1..i])))
          invariant InPending(nodes, next) == In(nodes, IdsOf(Reversed(ch[1..i]))) + rest
        {
          SlotWithin(nodes, x, i);
          SlotsWithin(nodes, x, 1, i);
          SliceSnoc(ch, 1, i);
          InRightStep(nodes, ch[1..i], ch[i], InPending(nodes, next), rest);
          PushLeft(ch[i]);
          i := i + 1;
        }
        RightKidsOf(nodes, x, i);
      } else {
        EmptyConcat(In(nodes, RightKids(nodes, x)), rest);
      }
    }
  }

  /** The key `HeapIterator` orders nodes by: their `get_ascii_value`. */
  function KeyOf(nodes: seq<Node>, id: nat): nat
    requires id < |nodes|
  {
    Key(nodes[id].value)
  }

  /** Keys never decrease along `s`. */
  predicate SortedByKey(nodes: seq<Node>, s: seq<nat>)
    requires Within(nodes, s)
  {
    forall a, b :: 0 <= a < b < |s| ==> KeyOf(nodes, s[a]) <= KeyOf(nodes, s[b])
  }

  /** The first `n` entries of `s` are in `key` order. */
  predicate SortedUpTo(key: nat -> nat, s: seq<nat>, n: nat)
    requires n <= |s|
  {
    forall a, b :: 0 <= a < b < n ==> key(s[a]) <= key(s[b])
  }

  /** The first `i + 1` entries are in `key` order, except that the entry
      at `j`, still moving down, may be smaller than those in front of it. */
  predicate SortedExcept(key: nat -> nat, s: seq<nat>, i: nat, j: nat)
    requires i < |s|
  {
    forall a, b :: 0 <= a < b <= i && b != j ==> key(s[a]) <= key(s[b])
  }

  lemma {:induction false} SortedExceptEnd(key: nat -> nat, s: seq<nat>, i: nat, j: nat)
    requires j <= i < |s| && SortedExcept(key, s, i, j)
    requires j > 0 ==> key(s[j - 1]) <= key(s[j])
    ensures SortedUpTo(key, s, i + 1)
  {
    forall a, b | 0 <= a < b < i + 1
      ensures key(s[a]) <= key(s[b])
    {
      if b == j && a < j - 1 {
        assert key(s[a]) <= key(s[j - 1]);
      }
    }
  }

  /** Swapping the moving entry with the larger one in front of it moves
      the hole one place down and keeps the entries. */
  lemma {:induction false} SwapStep(key: nat -> nat, s: seq<nat>, i: nat, j: nat)
    requires 0 < j <= i < |s| && SortedExcept(key, s, i, j)
    requires key(s[j - 1]) > key(s[j])
    ensures var t := s[j - 1 := s[j]][j := s[j - 1]];
      SortedExcept(key, t, i, j - 1) && multiset(t) == multiset(s)
  {
    var t := s[j - 1 := s[j]][j := s[j - 1]];
    forall a, b | 0 <= a < b <= i && b != j - 1
      ensures key(t[a]) <= key(t[b])
    {
      if b == j && a < j - 1 {
        assert t[a] == s[a] && t[b] == s[j - 1];
      } else if a == j - 1 && b > j {
        assert key(s[j]) <= key(s[b]);
      } else if a == j && b > j {
        assert key(s[j - 1]) <= key(s[b]);
      }
    }
  }

  /** `get_ascii_value` as the comparator of `heapify` sees it. */
  function KeyFn(nodes: seq<Node>): (f: nat -> nat)
    ensures forall id: nat :: id < |nodes| ==> f(id) == KeyOf(nodes, id)
  {
    (id: nat) => if id < |nodes| then KeyOf(nodes, id) else 0
  }

  lemma {:induction false} SortedByKeyFn(nodes: seq<Node>, s: seq<nat>)
    requires Within(nodes, s) && SortedUpTo(KeyFn(nodes), s, |s|)
    ensures SortedByKey(nodes, s)
  {
    var f := KeyFn(nodes);
    forall a, b | 0 <= a < b < |s|
      ensures KeyOf(nodes, s[a]) <= KeyOf(nodes, s[b])
    {
      assert f(s[a]) <= f(s[b]);
    }
  }

  /** `Tree::HeapIterator`: the collected nodes, sorted by key, and a
      position in them. */
  class HeapIterator {
    const nodes: seq<Node>
    const heap: array<nat>
    var index: nat

    ghost predicate Valid()
      reads heap
    {
      Within(nodes, heap[..]) && SortedByKey(nodes, heap[..])
    }

    /** `HeapIterator(nodes)`: copy the nodes, `heapify`, start at 0. */
    constructor (nodes: seq<Node>, ids: seq<nat>)
      requires Within(nodes, ids)
      ensures this.nodes == nodes && index == 0 && fresh(heap) && Valid()
      ensures multiset(heap[..]) == multiset(ids)
    {
      this.nodes := nodes;
      var a := new nat[|ids|];
      for k := 0 to |ids|
        invariant a[..k] == ids[..k]
      {
        a[k] := ids[k];
      }
      assert a[..] == ids;
      heap := a;
      index := 0;
      new;
      Heapify(KeyFn(nodes));
      assert Within(nodes, heap[..]) by {
        assert forall k :: 0 <= k < |heap[..]| ==> heap[..][k] in multiset(ids);
      }
      SortedByKeyFn(nodes, heap[..]);
    }

    /** `heapify`: `make_heap` then `sort_heap` under "key less than", which
        leaves the entries in ascending key order. */
    method Heapify(key: nat -> nat)
      modifies heap
      ensures SortedUpTo(key, heap[..], heap.Length)
      ensures multiset(heap[..]) == old(multiset(heap[..]))
    {
      var i := 0;
      while i < heap.Length
        invariant i <= heap.Length && SortedUpTo(key, heap[..], i)
        invariant multiset(heap[..]) == old(multiset(heap[..]))
      {
        Insert(key, i);
        i := i + 1;
      }
    }

    /** One round of the sort: move `heap[i]` down past the larger keys in
        front of it, so that the first `i + 1` entries are in key order. */
    method Insert(key: nat -> nat, i: nat)
      requires i < heap.Length && SortedUpTo(key, heap[..], i)
      modifies heap
      ensures SortedUpTo(key, heap[..], i + 1)
      ensures multiset(heap[..]) == old(multiset(heap[..]))
    {
      var j: nat := i;
      while j > 0 && key(heap[j - 1]) > key(heap[j])
        invariant j <= i && SortedExcept(key, heap[..], i, j)
        invariant multiset(heap[..]) == old(multiset(heap[..]))
      {
        ghost var s := heap[..];
        heap[j - 1], heap[j] := heap[j], heap[j - 1];
        assert heap[..] == s[j - 1 := s[j]][j := s[j - 1]];
        SwapStep(key, s, i, j);
        j := j - 1;
      }
      SortedExceptEnd(key, heap[..], i, j);
    }

    /** `operator*`: the node at the current position. */
    function Current(): (x: nat)
      reads this, heap
      requires Valid() && index < heap.Length
      ensures x < |nodes| && x == heap[..][index]
    {
      heap[index]
    }

    /** `operator++`: move one position on. */
    method Next()
      modifies this
      ensures index == old(index) + 1
    {
      index := index + 1;
    }

    /** `operator!=`: the positions differ. */
    function NotEqual(other: HeapIterator): (b: bool)
      reads this, other
      ensures b <==> index != other.index
    {
      index != other.index
    }
  }

  /** The loop of `expandTop` and of post-order DFS mode: push entries for
      the children from last to first, throwing at the last null slot. */
  method PushEntries(stack: seq<Entry>, ch: seq<Ptr>) returns (s: seq<Entry>, outcome: Outcome)
    ensures outcome == (if Null in ch then Fail(CorruptTree) else Pass)
    ensures outcome.Pass? ==> s == Unexpanded(IdsOf(ch)) + stack
  {
    s := stack;
    var j := |ch|;
    while j > 0
      invariant 0 <= j <= |ch|
      invariant forall k :: j <= k < |ch| ==> ch[k].Ref?
      invariant s == Unexpanded(IdsOf(ch[j..])) + stack
    {
      if ch[j - 1].Null? {
        return s, Fail(CorruptTree);
      }
      IdsOfCons(ch, j - 1);
      UnexpandedCons(ch[j - 1].id, IdsOf(ch[j..]));
      s := [Entry(ch[j - 1].id, false)] + s;
      j := j - 1;
    }
    assert ch[0..] == ch;
    outcome := Pass;
  }

  /** The loop of `BFSIterator::operator++`: queue the children left to
      right, throwing at the first null slot. */
  method QueueChildren(queue: seq<nat>, ch: seq<Ptr>) returns (q: seq<nat>, outcome: Outcome)
    ensures outcome == (if Null in ch then Fail(CorruptTree) else Pass)
    ensures outcome.Pass? ==> q == queue + IdsOf(ch)
    ensures outcome.Fail? ==> q == queue + IdsOf(ch[..RefPrefix(ch)])
  {
    q := queue;
    var i := 0;
    while i < |ch|
      invariant i <= |ch|
      invariant forall j :: 0 <= j < i ==> ch[j].Ref?
      invariant q == queue + IdsOf(ch[..i])
    {
      if ch[i].Null? {
        RefPrefixAt(ch, i);
        return q, Fail(CorruptTree);
      }
      assert ch[..i + 1] == ch[..i] + [ch[i]];
      IdsOfSnoc(ch[..i], ch[i]);
      q := q + [ch[i].id];
      i := i + 1;
    }
    assert ch[..i] == ch;
    outcome := Pass;
  }

  /** The loop shared by the stack iterators' `operator++`: push the
      children from last to first, so that the first child ends on top;
      throws at the last null slot. */
  method PushChildren(stack: seq<nat>, ch: seq<Ptr>) returns (s: seq<nat>, outcome: Outcome)
    ensures outcome == (if Null in ch then Fail(CorruptTree) else Pass)
    ensures outcome.Pass? ==> s == IdsOf(ch) + stack
    ensures outcome.Fail? ==> s == IdsOf(ch[|ch| - RefSuffix(ch)..]) + stack
  {
    s := stack;
    var j := |ch|;
    while j > 0
      invariant 0 <= j <= |ch|
      invariant forall k :: j <= k < |ch| ==> ch[k].Ref?
      invariant s == IdsOf(ch[j..]) + stack
    {
      if ch[j - 1].Null? {
        RefSuffixAt(ch, j);
        return s, Fail(CorruptTree);
      }
      IdsOfCons(ch, j - 1);
      s := [ch[j - 1].id] + s;
      j := j - 1;
    }
    assert ch[0..] == ch;
    outcome := Pass;
  }
}

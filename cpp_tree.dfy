// tree.cpp: the non-templated `Tree`, a root pointer and a bound on the
// number of children, with `add_sub_node` and the `begin_*`/`end_*` pairs of
// its iterators. The `*Walk` methods are the range loops a caller writes,
// `for (auto it = begin_x(); it != end_x(); ++it)`, collecting `*it`.

module CppTree {
  import opened Nodes
  import opened Orders
  import opened CppIterators
  import opened Visits

  /** The degree bound of a default-constructed tree. */
  const DefaultDegree: nat := 2

  class Tree {
    /** The node memory the tree's pointers point into. */
    const arena: Arena
    var root: Ptr
    const maxDegree: nat

    ghost predicate Valid()
      reads this, arena
    {
      arena.Valid() && (root.Ref? ==> root.id < |arena.nodes|)
      && DegreeBounded(arena.nodes, maxDegree)
    }

    /** `Tree()`: no root, the default degree bound. */
    constructor (arena: Arena)
      requires arena.Valid() && DegreeBounded(arena.nodes, DefaultDegree)
      ensures this.arena == arena && root == Null && maxDegree == DefaultDegree && Valid()
    {
      this.arena := arena;
      root := Null;
      maxDegree := DefaultDegree;
    }

    /** `Tree(degree)`: no root, at most `degree` children per node. */
    constructor WithDegree(arena: Arena, degree: nat)
      requires arena.Valid() && DegreeBounded(arena.nodes, degree)
      ensures this.arena == arena && root == Null && maxDegree == degree && Valid()
    {
      this.arena := arena;
      root := Null;
      maxDegree := degree;
    }

    /** `add_root`: the node becomes the root; nothing else changes. */
    method AddRoot(p: Ptr)
      requires Valid() && p.Ref? && p.id < |arena.nodes|
      modifies this
      ensures root == p && Valid()
    {
      root := p;
    }

    /** `get_root`. */
    function GetRoot(): (p: Ptr)
      reads this, arena
      requires Valid()
      ensures p.Ref? ==> p.id < |arena.nodes|
    {
      root
    }

    /** `add_sub_node`: a null argument throws; a parent that already has
        `maxDegree` children throws; otherwise the child is appended to the
        parent's children. A throw changes nothing. */
    method AddSubNode(parent: Ptr, child: Ptr) returns (outcome: Outcome)
      requires Valid()
      requires parent.Ref? ==> parent.id < |arena.nodes|
      requires child.Ref? ==> child.id < |arena.nodes|
      modifies arena
      ensures outcome == (if parent.Null? || child.Null? then Fail(InvalidArgument)
                          else if |old(arena.nodes)[parent.id].children| >= maxDegree then Fail(DegreeExceeded)
                          else Pass)
      ensures outcome.Fail? ==> arena.nodes == old(arena.nodes)
      ensures outcome.Pass? ==>
        var n := old(arena.nodes)[parent.id];
        arena.nodes == old(arena.nodes)[parent.id := Node(n.value, n.children + [child])]
      ensures (outcome.Pass? ==> parent.id < child.id && Orphan(old(arena.nodes), child.id)) ==> Valid()
    {
      if parent.Ref? && child.Ref? {
        if |arena.nodes[parent.id].children| < maxDegree {
          arena.AddChild(parent.id, child);
          outcome := Pass;
        } else {
          outcome := Fail(DegreeExceeded);
        }
      } else {
        outcome := Fail(InvalidArgument);
      }
    }

    /** `begin_bfs`, and `begin()`, which returns it. */
    method BeginBfs() returns (it: BfsIterator)
      requires Valid()
      ensures fresh(it) && it.Valid() && it.nodes == arena.nodes
      ensures it.Pending() == LevelOrder(arena.nodes, Roots(root))
    {
      it := new BfsIterator(arena.nodes, root);
    }

    /** `end_bfs`, and `end()`: an iterator with an empty queue. */
    method EndBfs() returns (it: BfsIterator)
      requires Valid()
      ensures fresh(it) && it.Valid() && it.Pending() == []
    {
      it := new BfsIterator(arena.nodes, Null);
    }

    /** The nodes in breadth-first order, level by level, each level left
        to right. */
    method BfsWalk() returns (out: seq<nat>)
      requires Valid()
      ensures out == LevelOrder(arena.nodes, Roots(root))
      ensures EachOnce(arena.nodes, root, out)
    {
      ghost var level := LevelOrder(arena.nodes, Roots(root));
      var it := BeginBfs();
      var end := EndBfs();
      out := DrainBfs(it, end);
      assert out == level;
      LevelOrderVisitsOnce(arena.nodes, root);
    }

    /** `begin_dfs`. */
    method BeginDfs() returns (it: DfsIterator)
      requires Valid()
      ensures fresh(it) && it.Valid() && it.nodes == arena.nodes
      ensures it.Pending() == Pre(arena.nodes, Roots(root))
    {
      it := new DfsIterator(arena.nodes, root);
    }

    /** `end_dfs`: an iterator with an empty stack. */
    method EndDfs() returns (it: DfsIterator)
      requires Valid()
      ensures fresh(it) && it.Valid() && it.Pending() == []
    {
      it := new DfsIterator(arena.nodes, Null);
    }

    /** The nodes in depth-first pre-order. `begin_pre_order` and
        `end_pre_order` give the same walk: PreOrderIterator runs the same
        code whatever its `useDFS` flag says. */
    method DfsWalk() returns (out: seq<nat>)
      requires Valid()
      ensures out == Pre(arena.nodes, Roots(root))
      ensures EachOnce(arena.nodes, root, out)
    {
      ghost var pre := Pre(arena.nodes, Roots(root));
      var it := BeginDfs();
      var end := EndDfs();
      out := DrainDfs(it, end);
      assert out == pre;
      PreVisitsOnce(arena.nodes, root);
    }

    /** `begin_post_order`: DFS mode when `maxDegree > 2`; otherwise the
        root's first-child path is expanded (with `expandTop` corrected). */
    method BeginPostOrder() returns (it: PostOrderIterator)
      requires Valid()
      ensures fresh(it) && it.Valid() && it.nodes == arena.nodes && it.useDFS == (maxDegree > 2)
      ensures it.Pending() == (if maxDegree > 2 then Pre(arena.nodes, Roots(root)) else Post(arena.nodes, Roots(root)))
    {
      it := new PostOrderIterator(arena.nodes, root, maxDegree > 2);
      if !it.useDFS {
        NoNullBelow(arena.nodes, it.next);
        var outcome := it.ExpandTop();
      }
    }

    /** `end_post_order`: an iterator with an empty stack. */
    method EndPostOrder() returns (it: PostOrderIterator)
      requires Valid()
      ensures fresh(it) && it.Valid() && it.Pending() == []
    {
      it := new PostOrderIterator(arena.nodes, Null, maxDegree > 2);
    }

    /** The post-order walk: pre-order when `maxDegree > 2`, post-order
        (children's subtrees left to right, then the node) otherwise. */
    method PostOrderWalk() returns (out: seq<nat>)
      requires Valid()
      ensures out == (if maxDegree > 2 then Pre(arena.nodes, Roots(root)) else Post(arena.nodes, Roots(root)))
      ensures EachOnce(arena.nodes, root, out)
    {
      var it := BeginPostOrder();
      var end := EndPostOrder();
      out := DrainPostOrder(it, end);
      PreVisitsOnce(arena.nodes, root);
      PostVisitsOnce(arena.nodes, root);
    }

    /** `begin_in_order` (with the DFS-mode constructor corrected). */
    method BeginInOrder() returns (it: InOrderIterator)
      requires Valid()
      ensures fresh(it) && it.Valid() && it.nodes == arena.nodes && it.useDFS == (maxDegree > 2)
      ensures it.Pending() == (if maxDegree > 2 then Pre(arena.nodes, Roots(root)) else In(arena.nodes, Roots(root)))
    {
      it := new InOrderIterator(arena.nodes, root, maxDegree > 2);
    }

    /** `end_in_order`: an iterator with an empty stack. */
    method EndInOrder() returns (it: InOrderIterator)
      requires Valid()
      ensures fresh(it) && it.Valid() && it.Pending() == []
    {
      it := new InOrderIterator(arena.nodes, Null, maxDegree > 2);
    }

    /** The in-order walk: pre-order when `maxDegree > 2`, otherwise the
        first child's subtree, the node, then the other children's subtrees
        from the last to the second. */
    method InOrderWalk() returns (out: seq<nat>)
      requires Valid()
      ensures out == (if maxDegree > 2 then Pre(arena.nodes, Roots(root)) else In(arena.nodes, Roots(root)))
      ensures Within(arena.nodes, out)
      ensures EachOnce(arena.nodes, root, out)
    {
      var it := BeginInOrder();
      var end := EndInOrder();
      out := DrainInOrder(it, end);
      PreVisitsOnce(arena.nodes, root);
      InVisitsOnce(arena.nodes, root);
    }

    /** `begin_heap`: the in-order walk's nodes, sorted by key, position 0. */
    method BeginHeap() returns (it: HeapIterator)
      requires Valid()
      ensures fresh(it) && fresh(it.heap) && it.Valid() && it.nodes == arena.nodes && it.index == 0
      ensures multiset(it.heap[..]) == multiset(Pre(arena.nodes, Roots(root)))
    {
      var ids := InOrderWalk();
      ghost var pre := Pre(arena.nodes, Roots(root));
      assert multiset(ids) == multiset(pre) by {
        InSameNodesAsPre(arena.nodes, Roots(root));
      }
      it := new HeapIterator(arena.nodes, ids);
    }

    /** `end_heap` as written: an iterator over no nodes, at position 0. */
    method EndHeapAsWritten() returns (it: HeapIterator)
      ensures fresh(it) && it.index == 0 && it.heap.Length == 0
    {
      it := new HeapIterator(arena.nodes, []);
    }

    /** The heap walk as written: `begin_heap()` and `end_heap()` both stand
        at position 0, so `it != end` is false at once and the loop body
        never runs. This holds where the as-written `begin_heap` gets that
        far: with `maxDegree <= 2`, or a root without children. With
        `maxDegree > 2` and a root that has a child, the in-order walk inside
        `begin_heap` first pops an empty `visited` stack
        (`Defects.InOrderDfsTwoNodes`), so it is not described here. */
    method HeapWalkAsWritten() returns (out: seq<nat>, entered: bool)
      requires Valid()
      requires maxDegree <= 2 || root.Null? || |arena.nodes[root.id].children| == 0
      ensures !entered && out == []
    {
      var it := BeginHeap();
      var end := EndHeapAsWritten();
      out := [];
      entered := it.NotEqual(end);
    }

    /** `end_heap`, corrected: the position one past the last node. */
    method EndHeap() returns (it: HeapIterator)
      requires Valid()
      ensures fresh(it) && it.index == it.heap.Length
      ensures it.heap.Length == |Pre(arena.nodes, Roots(root))|
    {
      it := BeginHeap();
      while it.index < it.heap.Length
        invariant it.index <= it.heap.Length
        decreases it.heap.Length - it.index
      {
        it.Next();
      }
    }

    /** The heap walk with the corrected end: every node of the tree once,
        in ascending key order. */
    method HeapWalk() returns (out: seq<nat>)
      requires Valid()
      ensures Within(arena.nodes, out) && SortedByKey(arena.nodes, out)
      ensures multiset(out) == multiset(Pre(arena.nodes, Roots(root)))
      ensures EachOnce(arena.nodes, root, out)
    {
      ghost var pre := Pre(arena.nodes, Roots(root));
      var it := BeginHeap();
      ghost var h := it.heap[..];
      assert Within(arena.nodes, h) && SortedByKey(arena.nodes, h) && multiset(h) == multiset(pre);
      SameSize(h, pre);
      var end := EndHeap();
      out := DrainHeap(it, end);
      assert out == h;
      VisitsOnce(arena.nodes, root, out);
    }
  }

  // The caller's loop, `for (; it != end; ++it) out.push_back(*it)`, for
  // each iterator. In an arena without null slots no `++` throws.

  method DrainBfs(it: BfsIterator, end: BfsIterator) returns (out: seq<nat>)
    requires it.Valid() && end.Valid() && NoNulls(it.nodes)
    modifies it
    ensures out == old(it.Pending())
  {
    out := [];
    while it.NotEqual(end)
      invariant it.Valid() && out + it.Pending() == old(it.Pending())
      decreases |it.Pending()|
    {
      DrainStep(out, it.Pending());
      out := out + [it.Current()];
      var outcome := it.Next();
    }
  }

  method DrainDfs(it: DfsIterator, end: DfsIterator) returns (out: seq<nat>)
    requires it.Valid() && end.Valid() && NoNulls(it.nodes)
    modifies it
    ensures out == old(it.Pending())
  {
    out := [];
    while it.NotEqual(end)
      invariant it.Valid() && out + it.Pending() == old(it.Pending())
      decreases |it.Pending()|
    {
      DrainStep(out, it.Pending());
      out := out + [it.Current()];
      var outcome := it.Next();
    }
  }

  method DrainPostOrder(it: PostOrderIterator, end: PostOrderIterator) returns (out: seq<nat>)
    requires it.Valid() && end.Valid() && NoNulls(it.nodes)
    modifies it
    ensures out == old(it.Pending())
  {
    out := [];
    while it.NotEqual(end)
      invariant it.Valid() && out + it.Pending() == old(it.Pending())
      decreases |it.Pending()|
    {
      DrainStep(out, it.Pending());
      out := out + [it.Current()];
      if !it.useDFS {
        NoNullBelow(it.nodes, it.next[1..]);
      }
      var outcome := it.Next();
    }
  }

  method DrainInOrder(it: InOrderIterator, end: InOrderIterator) returns (out: seq<nat>)
    requires it.Valid() && end.Valid() && NoNulls(it.nodes)
    modifies it
    ensures out == old(it.Pending()) && Within(it.nodes, out)
  {
    out := [];
    while it.NotEqual(end)
      invariant it.Valid() && out + it.Pending() == old(it.Pending()) && Within(it.nodes, out)
      decreases |it.Pending()|
    {
      out := InOrderStep(it, out);
    }
  }

  /** One turn of the caller's loop over an in-order iterator: take the
      current node, then advance. */
  method InOrderStep(it: InOrderIterator, out: seq<nat>) returns (out': seq<nat>)
    requires it.Valid() && NoNulls(it.nodes) && it.Pending() != [] && Within(it.nodes, out)
    modifies it
    ensures it.Valid() && Within(it.nodes, out')
    ensures it.Pending() == old(it.Pending())[1..]
    ensures out' + it.Pending() == out + old(it.Pending())
  {
    ghost var p := it.Pending();
    var x := it.Current();
    NoNullChild(it.nodes, x);
    DrainStep(out, p);
    out' := out + [x];
    var outcome := it.Next();
  }

  method DrainHeap(it: HeapIterator, end: HeapIterator) returns (out: seq<nat>)
    requires it.Valid() && it.index == 0 && end.index == it.heap.Length && it != end
    modifies it
    ensures out == it.heap[..]
  {
    out := [];
    while it.NotEqual(end)
      invariant it.index <= it.heap.Length == end.index
      invariant out == it.heap[..it.index]
      decreases it.heap.Length - it.index
    {
      out := out + [it.Current()];
      it.Next();
    }
    assert out == it.heap[..];
  }

  lemma {:induction false} SameSize<T>(a: seq<T>, b: seq<T>)
    requires multiset(a) == multiset(b)
    ensures |a| == |b|
  {
    assert |multiset(a)| == |multiset(b)|;
  }

  /** In an arena without null slots, no expansion throws. */
  lemma {:induction false} NoNullBelow(nodes: seq<Node>, es: seq<Entry>)
    requires Ordered(nodes) && NoNulls(nodes) && EntriesWithin(nodes, es)
    ensures !ExpandFails(nodes, es)
  {
    if es != [] {
      NoNullOnPath(nodes, es[0].node);
    }
  }

  lemma {:induction false} NoNullOnPath(nodes: seq<Node>, x: nat)
    requires Ordered(nodes) && NoNulls(nodes) && x < |nodes|
    ensures !NullBelow(nodes, x)
    decreases |nodes| - x
  {
    if Kids(nodes, x) != [] {
      NoNullOnPath(nodes, Kids(nodes, x)[0]);
    }
  }
}

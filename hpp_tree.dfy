// tree.hpp: the templated `Tree`, with no degree bound, and its pre-order,
// post-order and breadth-first iterators. These iterators report a null
// child slot on the error stream and skip it, so `operator++` never fails.
// The payload type `T` is carried by the node values.

module HppTree {
  import opened Nodes
  import opened Orders
  import opened Visits

  class Tree {
    /** The node memory the tree's pointers point into. */
    const arena: Arena
    var root: Ptr

    ghost predicate Valid()
      reads this, arena
    {
      Ordered(arena.nodes) && OneParent(arena.nodes) && (root.Ref? ==> root.id < |arena.nodes|)
    }

    /** `Tree()`: no root. */
    constructor (arena: Arena)
      requires Ordered(arena.nodes) && OneParent(arena.nodes)
      ensures this.arena == arena && root == Null && Valid()
    {
      this.arena := arena;
      root := Null;
    }

    /** `add_root`: the node becomes the root. */
    method AddRoot(p: Ptr)
      requires Valid() && p.Ref? && p.id < |arena.nodes|
      modifies this
      ensures root == p && Valid()
    {
      root := p;
    }

    /** `get_root`. */
    function GetRoot(): (p: Ptr)
      reads this, arena
      requires Valid()
      ensures p.Ref? ==> p.id < |arena.nodes|
    {
      root
    }

    /** `add_sub_node`: with both pointers non-null the child is appended to
        the parent's children, however many it has; otherwise an error is
        reported and nothing changes. */
    method AddSubNode(parent: Ptr, child: Ptr)
      requires Valid()
      requires parent.Ref? ==> parent.id < |arena.nodes|
      modifies arena
      ensures parent.Null? || child.Null? ==> arena.nodes == old(arena.nodes)
      ensures parent.Ref? && child.Ref? ==>
        var n := old(arena.nodes)[parent.id];
        arena.nodes == old(arena.nodes)[parent.id := Node(n.value, n.children + [child])]
      ensures (parent.Ref? && child.Ref? ==> parent.id < child.id < |arena.nodes| && Orphan(old(arena.nodes), child.id))
              ==> Valid()
    {
      if parent.Ref? && child.Ref? {
        if OneParent(arena.nodes) && Orphan(arena.nodes, child.id) {
          OneParentLink(arena.nodes, parent.id, child.id);
        }
        arena.AddChild(parent.id, child);
      }
    }

    /** `begin_pre_order`. */
    method BeginPreOrder() returns (it: PreOrderIterator)
      requires Valid()
      ensures fresh(it) && it.Valid() && it.nodes == arena.nodes
      ensures it.Pending() == Pre(arena.nodes, Roots(root))
    {
      it := new PreOrderIterator(arena.nodes, root);
    }

    /** `end_pre_order`: an iterator with an empty stack. */
    method EndPreOrder() returns (it: PreOrderIterator)
      requires Valid()
      ensures fresh(it) && it.Valid() && it.Pending() == []
    {
      it := new PreOrderIterator(arena.nodes, Null);
    }

    /** The nodes in pre-order. */
    method PreOrderWalk() returns (out: seq<nat>)
      requires Valid()
      ensures out == Pre(arena.nodes, Roots(root))
      ensures EachOnce(arena.nodes, root, out)
    {
      ghost var order := Pre(arena.nodes, Roots(root));
      var it := BeginPreOrder();
      var end := EndPreOrder();
      out := DrainPreOrder(it, end);
      assert out == order;
      PreVisitsOnce(arena.nodes, root);
    }

    /** `begin_post_order`: the root's first-child path is expanded. */
    method BeginPostOrder() returns (it: PostOrderIterator)
      requires Valid()
      ensures fresh(it) && it.Valid() && it.nodes == arena.nodes
      ensures it.Pending() == Post(arena.nodes, Roots(root))
    {
      it := new PostOrderIterator(arena.nodes, root);
    }

    /** `end_post_order`: an iterator with an empty stack. */
    method EndPostOrder() returns (it: PostOrderIterator)
      requires Valid()
      ensures fresh(it) && it.Valid() && it.Pending() == []
    {
      it := new PostOrderIterator(arena.nodes, Null);
    }

    /** The nodes in post-order. */
    method PostOrderWalk() returns (out: seq<nat>)
      requires Valid()
      ensures out == Post(arena.nodes, Roots(root))
      ensures EachOnce(arena.nodes, root, out)
    {
      ghost var order := Post(arena.nodes, Roots(root));
      var it := BeginPostOrder();
      var end := EndPostOrder();
      out := DrainPostOrder(it, end);
      assert out == order;
      PostVisitsOnce(arena.nodes, root);
    }

    /** `begin_bfs`, and `begin()`, which returns it. */
    method BeginBfs() returns (it: BfsIterator)
      requires Valid()
      ensures fresh(it) && it.Valid() && it.nodes == arena.nodes
      ensures it.Pending() == LevelOrder(arena.nodes, Roots(root))
    {
      it := new BfsIterator(arena.nodes, root);
    }

    /** `end_bfs`, and `end()`: an iterator with an empty queue. */
    method EndBfs() returns (it: BfsIterator)
      requires Valid()
      ensures fresh(it) && it.Valid() && it.Pending() == []
    {
      it := new BfsIterator(arena.nodes, Null);
    }

    /** The nodes level by level, each level left to right: the walk of
        `for (auto it = begin(); it != end(); ++it)`. */
    method BfsWalk() returns (out: seq<nat>)
      requires Valid()
      ensures out == LevelOrder(arena.nodes, Roots(root))
      ensures EachOnce(arena.nodes, root, out)
    {
      ghost var order := LevelOrder(arena.nodes, Roots(root));
      var it := BeginBfs();
      var end := EndBfs();
      out := DrainBfs(it, end);
      assert out == order;
      LevelOrderVisitsOnce(arena.nodes, root);
    }
  }

  /** `Tree::PreOrderIterator<T>`: a stack of nodes, top at index 0. */
  class PreOrderIterator {
    const nodes: seq<Node>
    var next: seq<nat>

    ghost predicate Valid()
      reads this
    {
      Ordered(nodes) && Within(nodes, next)
    }

    ghost function Pending(): seq<nat>
      reads this
      requires Valid()
    {
      Pre(nodes, next)
    }

    /** `PreOrderIterator(root)`: a stack holding the root, or empty. */
    constructor (nodes: seq<Node>, root: Ptr)
      requires Ordered(nodes) && (root.Ref? ==> root.id < |nodes|)
      ensures this.nodes == nodes && Valid() && next == Roots(root)
      ensures Pending() == Pre(nodes, Roots(root))
    {
      this.nodes := nodes;
      next := Roots(root);
    }

    /** `operator*`: the node on top. */
    function Current(): (x: nat)
      reads this
      requires Valid() && next != []
      ensures x < |nodes|
      ensures Pending() != [] && x == Pending()[0]
    {
      PreStep(nodes, next);
      next[0]
    }

    /** `operator!=`: true while the stack is non-empty. */
    function NotEqual(other: PreOrderIterator): (b: bool)
      reads this
      requires Valid()
      ensures b <==> Pending() != []
    {
      if next != [] then PreStep(nodes, next); true else false
    }

    /** `operator++`: pop the top and push its non-null children from last
        to first, so that the first child ends on top. */
    method Next()
      requires Valid() && next != []
      modifies this
      ensures old(next[0]) < |nodes|
      ensures next == Kids(nodes, old(next[0])) + old(next[1..])
      ensures Valid() && Pending() == old(Pending()[1..])
    {
      PreStep(nodes, next);
      var x := next[0];
      next := PushKids(next[1..], nodes[x].children);
    }
  }

  /** `Tree::PostOrderIterator<T>`: a stack of `NodeInfo` entries, each a
      node and whether its children have been pushed. */
  class PostOrderIterator {
    const nodes: seq<Node>
    var next: seq<Entry>

    ghost predicate Wf()
      reads this
    {
      Ordered(nodes) && EntriesWithin(nodes, next)
    }

    /** Between steps the entry on top has been expanded. */
    ghost predicate Valid()
      reads this
    {
      Wf() && (next != [] ==> next[0].expanded)
    }

    ghost function Pending(): seq<nat>
      reads this
      requires Wf()
    {
      PostPending(nodes, next)
    }

    /** `PostOrderIterator(root)`: push the root unexpanded, then expand. */
    constructor (nodes: seq<Node>, root: Ptr)
      requires Ordered(nodes) && (root.Ref? ==> root.id < |nodes|)
      ensures this.nodes == nodes && Valid()
      ensures Pending() == Post(nodes, Roots(root))
    {
      this.nodes := nodes;
      next := if root.Ref? then [Entry(root.id, false)] else [];
      new;
      if root.Ref? {
        PostPendingCons(nodes, Entry(root.id, false), []);
        assert [Entry(root.id, false)] + [] == [Entry(root.id, false)];
        assert Post(nodes, [root.id]) + [] == Post(nodes, [root.id]);
        ExpandTop();
      }
    }

    /** `expandTop`: while the top is unexpanded, mark it and push its
        non-null children as unexpanded entries, first child on top. */
    method ExpandTop()
      requires Wf() && next != []
      modifies this
      ensures Valid() && next != []
      ensures Pending() == old(Pending())
    {
      while !next[0].expanded
        invariant Wf() && next != []
        invariant Pending() == old(Pending())
        decreases if !next[0].expanded then |nodes| - next[0].node else 0
      {
        var x := next[0].node;
        var rest := next[1..];
        PostExpandStep(nodes, x, rest);
        HeadTail(next);
        UnexpandedTop(Kids(nodes, x), [Entry(x, true)] + rest);
        next := PushKidEntries([Entry(x, true)] + rest, nodes[x].children);
      }
    }

    /** `operator*`: the node on top. */
    function Current(): (x: nat)
      reads this
      requires Valid() && next != []
      ensures x < |nodes|
      ensures Pending() != [] && x == Pending()[0]
    {
      PostPendingCons(nodes, next[0], next[1..]);
      HeadTail(next);
      next[0].node
    }

    /** `operator!=`: true while the stack is non-empty. */
    function NotEqual(other: PostOrderIterator): (b: bool)
      reads this
      requires Valid()
      ensures b <==> Pending() != []
    {
      if next == [] then false
      else PostPendingCons(nodes, next[0], next[1..]); HeadTail(next); true
    }

    /** `operator++`: pop the top and, unless the stack is now empty,
        expand the new top. */
    method Next()
      requires Valid() && next != []
      modifies this
      ensures Valid() && Pending() == old(Pending()[1..])
    {
      PostPendingCons(nodes, next[0], next[1..]);
      HeadTail(next);
      next := next[1..];
      if next != [] {
        ExpandTop();
      }
    }
  }

  /** `Tree::BFSIterator<T>`: a FIFO queue of nodes, front at index 0. */
  class BfsIterator {
    const nodes: seq<Node>
    var queue: seq<nat>
    /** The level being popped and how many of its nodes are gone. */
    ghost var level: seq<nat>
    ghost var done: nat

    ghost predicate Valid()
      reads this
    {
      LevelQueue(nodes, queue, level, done)
    }

    ghost function Pending(): seq<nat>
      reads this
      requires Valid()
    {
      LevelPending(nodes, level, done)
    }

    /** `BFSIterator(root)`: a queue holding the root, or empty. */
    constructor (nodes: seq<Node>, root: Ptr)
      requires Ordered(nodes) && (root.Ref? ==> root.id < |nodes|)
      ensures this.nodes == nodes && Valid() && queue == Roots(root)
      ensures Pending() == LevelOrder(nodes, Roots(root))
    {
      this.nodes := nodes;
      queue := Roots(root);
      level := Roots(root);
      done := 0;
      if root.Ref? {
        LevelQueueStart(nodes, root.id);
      }
    }

    /** `operator*`: the front of the queue. */
    function Current(): (x: nat)
      reads this
      requires Valid() && queue != []
      ensures x < |nodes|
      ensures Pending() != [] && x == Pending()[0]
    {
      LevelQueueFront(nodes, queue, level, done);
      LevelQueueHead(nodes, queue, level, done);
      queue[0]
    }

    /** `operator!=`: true while the queue is non-empty. */
    function NotEqual(other: BfsIterator): (b: bool)
      reads this
      requires Valid()
      ensures b <==> Pending() != []
    {
      LevelQueueFront(nodes, queue, level, done);
      queue != []
    }

    /** `operator++`: pop the front and queue its non-null children left
        to right. */
    method Next()
      requires Valid() && queue != []
      modifies this
      ensures old(queue[0]) < |nodes|
      ensures queue == old(queue[1..]) + Kids(nodes, old(queue[0]))
      ensures Valid() && Pending() == old(Pending()[1..])
    {
      level, done := LevelQueueStep(nodes, queue, level, done);
      var x := queue[0];
      queue := QueueKids(queue[1..], nodes[x].children);
    }
  }

  /** The loop of `BFSIterator::operator++`: queue the non-null children,
      left to right. */
  method QueueKids(queue: seq<nat>, ch: seq<Ptr>) returns (q: seq<nat>)
    ensures q == queue + IdsOf(ch)
  {
    q := queue;
    for i := 0 to |ch|
      invariant q == queue + IdsOf(ch[..i])
    {
      IdsOfPrefix(ch, i);
      if ch[i].Ref? {
        q := q + [ch[i].id];
      }
    }
    assert ch[..|ch|] == ch;
  }

  /** The loop of `PreOrderIterator::operator++`: push the non-null
      children from last to first. */
  method PushKids(stack: seq<nat>, ch: seq<Ptr>) returns (s: seq<nat>)
    ensures s == IdsOf(ch) + stack
  {
    s := stack;
    var j := |ch|;
    while j > 0
      invariant 0 <= j <= |ch|
      invariant s == IdsOf(ch[j..]) + stack
    {
      if ch[j - 1].Ref? {
        IdsOfCons(ch, j - 1);
        s := [ch[j - 1].id] + s;
      } else {
        IdsOfSkip(ch, j - 1);
      }
      j := j - 1;
    }
    assert ch[0..] == ch;
  }

  /** One back-to-front step of PushKidEntries: slot `j - 1` pushes an
      unexpanded entry when it is not null. */
  lemma {:induction false} EntryPushStep(ch: seq<Ptr>, j: nat, stack: seq<Entry>)
    requires 0 < j <= |ch|
    ensures ch[j - 1].Ref? ==>
              Unexpanded(IdsOf(ch[j - 1..])) + stack == [Entry(ch[j - 1].id, false)] + (Unexpanded(IdsOf(ch[j..])) + stack)
    ensures ch[j - 1].Null? ==> Unexpanded(IdsOf(ch[j - 1..])) + stack == Unexpanded(IdsOf(ch[j..])) + stack
  {
    if ch[j - 1].Ref? {
      IdsOfCons(ch, j - 1);
      UnexpandedCons(ch[j - 1].id, IdsOf(ch[j..]));
    } else {
      IdsOfSkip(ch, j - 1);
    }
  }

  /** The loop of `expandTop`: push unexpanded entries for the non-null
      children from last to first. */
  method PushKidEntries(stack: seq<Entry>, ch: seq<Ptr>) returns (s: seq<Entry>)
    ensures s == Unexpanded(IdsOf(ch)) + stack
  {
    s := stack;
    var j := |ch|;
    while j > 0
      invariant 0 <= j <= |ch|
      invariant s == Unexpanded(IdsOf(ch[j..])) + stack
    {
      EntryPushStep(ch, j, stack);
      if ch[j - 1].Ref? {
        s := [Entry(ch[j - 1].id, false)] + s;
      }
      j := j - 1;
    }
    assert ch[0..] == ch;
  }

  // The caller's loop, `for (; it != end; ++it) out.push_back(*it)`.

  method DrainPreOrder(it: PreOrderIterator, end: PreOrderIterator) returns (out: seq<nat>)
    requires it.Valid() && end.Valid()
    modifies it
    ensures out == old(it.Pending())
  {
    out := [];
    while it.NotEqual(end)
      invariant it.Valid() && out + it.Pending() == old(it.Pending())
      decreases |it.Pending()|
    {
      DrainStep(out, it.Pending());
      out := out + [it.Current()];
      it.Next();
    }
  }

  method DrainPostOrder(it: PostOrderIterator, end: PostOrderIterator) returns (out: seq<nat>)
    requires it.Valid() && end.Valid()
    modifies it
    ensures out == old(it.Pending())
  {
    out := [];
    while it.NotEqual(end)
      invariant it.Valid() && out + it.Pending() == old(it.Pending())
      decreases |it.Pending()|
    {
      DrainStep(out, it.Pending());
      out := out + [it.Current()];
      it.Next();
    }
  }

  method DrainBfs(it: BfsIterator, end: BfsIterator) returns (out: seq<nat>)
    requires it.Valid() && end.Valid()
    modifies it
    ensures out == old(it.Pending())
  {
    out := [];
    while it.NotEqual(end)
      invariant it.Valid() && out + it.Pending() == old(it.Pending())
      decreases |it.Pending()|
    {
      DrainStep(out, it.Pending());
      out := out + [it.Current()];
      it.Next();
    }
  }
}

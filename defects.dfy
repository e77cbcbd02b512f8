// Two iterator routines of tree.cpp as written, run on the arena model, with
// the inputs on which they go wrong. The corrected versions the rest of the
// model uses are CppIterators.PostOrderIterator.ExpandTop and the DFS branch
// of CppIterators.InOrderIterator.

module Defects {
  import opened Nodes
  import opened Orders
  import opened Decimal

  // ---- PostOrderIterator::expandTop as written (tree.cpp:167-181) ----

  /** The loop guard: the stack is non-empty and its top has children. */
  predicate ExpandGuard(nodes: seq<Node>, next: seq<nat>)
    requires Within(nodes, next)
  {
    next != [] && nodes[next[0]].children != []
  }

  /** One pass of the loop body on a tree without null slots: pop the top,
      push its children from last to first, push the popped node again. */
  function ExpandPass(nodes: seq<Node>, next: seq<nat>): (r: seq<nat>)
    requires Ordered(nodes) && Within(nodes, next) && next != []
    ensures Within(nodes, r)
    ensures r != [] && r[0] == next[0]
    ensures |r| == |next| + |Kids(nodes, next[0])|
  {
    var x := next[0];
    var r := [x] + Kids(nodes, x) + next[1..];
    assert r[0] == x;
    r
  }

  /** The stack after `k` passes. */
  function ExpandPasses(nodes: seq<Node>, next: seq<nat>, k: nat): (r: seq<nat>)
    requires Ordered(nodes) && Within(nodes, next) && next != []
    ensures Within(nodes, r) && r != []
    decreases k
  {
    if k == 0 then next else ExpandPass(nodes, ExpandPasses(nodes, next, k - 1))
  }

  /** Once the top has children the guard never becomes false: after any
      number of passes the same node is on top and the stack has grown by
      that many copies of its children, so the loop does not terminate. */
  lemma {:induction false} ExpandTopNeverStops(nodes: seq<Node>, next: seq<nat>, k: nat)
    requires Ordered(nodes) && NoNulls(nodes) && Within(nodes, next)
    requires ExpandGuard(nodes, next)
    ensures ExpandPasses(nodes, next, k)[0] == next[0]
    ensures ExpandGuard(nodes, ExpandPasses(nodes, next, k))
    ensures |ExpandPasses(nodes, next, k)| == |next| + k * |nodes[next[0]].children|
    decreases k
  {
    KidsOfFull(nodes, next[0]);
    if k > 0 {
      ExpandTopNeverStops(nodes, next, k - 1);
    }
  }

  /** Without null slots every child is kept. */
  lemma {:induction false} IdsOfFull(ps: seq<Ptr>)
    requires forall j :: 0 <= j < |ps| ==> ps[j].Ref?
    ensures |IdsOf(ps)| == |ps|
  {
    if ps != [] {
      IdsOfFull(ps[1..]);
    }
  }

  lemma {:induction false} KidsOfFull(nodes: seq<Node>, x: nat)
    requires NoNulls(nodes) && x < |nodes|
    ensures |Kids(nodes, x)| == |nodes[x].children|
  {
    IdsOfFull(nodes[x].children);
  }

  /** A root with one leaf child: `begin_post_order` of a binary tree holding
      it never returns. */
  function TwoNodes(): (nodes: seq<Node>)
    ensures Ordered(nodes) && NoNulls(nodes)
  {
    [Node(Text("root"), [Ref(1)]), Node(Text("leaf"), [])]
  }

  lemma {:induction false} ExpandTopTwoNodes(k: nat)
    ensures ExpandGuard(TwoNodes(), ExpandPasses(TwoNodes(), [0], k))
    ensures |ExpandPasses(TwoNodes(), [0], k)| == 1 + k
  {
    ExpandTopNeverStops(TwoNodes(), [0], k);
  }

  // ---- InOrderIterator in DFS mode as written (tree.cpp:218-253) ----

  /** The iterator's two stacks; `visited` is modelled by its size, since its
      values are never read. */
  datatype InOrderState = InOrderState(next: seq<nat>, visited: nat)

  /** The nodes `pushLeft` visits: `x`, then down the first child while it
      is non-null. */
  function LeftChain(nodes: seq<Node>, x: nat): (r: seq<nat>)
    requires Ordered(nodes) && x < |nodes|
    ensures r != [] && r[0] == x && Within(nodes, r)
    ensures |r| > 1 ==> r[|r| - 1] > x
    decreases |nodes| - x
  {
    var ch := nodes[x].children;
    if ch != [] && ch[0].Ref? then
      var rest := LeftChain(nodes, ch[0].id);
      assert ([x] + rest)[|rest|] == rest[|rest| - 1];
      [x] + rest
    else [x]
  }

  /** The constructor as written: `pushLeft(root)` in both modes, one
      `visited` entry per node pushed. */
  function InOrderStartAsWritten(nodes: seq<Node>, root: Ptr): (st: InOrderState)
    requires Ordered(nodes) && (root.Ref? ==> root.id < |nodes|)
    ensures Within(nodes, st.next) && st.visited == |st.next|
  {
    if root.Ref? then
      var chain := LeftChain(nodes, root.id);
      InOrderState(Reversed(chain), |chain|)
    else InOrderState([], 0)
  }

  /** `operator++` in DFS mode as written, on a tree without null slots:
      pop `next`, pop `visited` (None when `visited` is already empty, where
      `std::stack::pop` has undefined behaviour), push the children from
      last to first. */
  function DfsStepAsWritten(nodes: seq<Node>, st: InOrderState): (r: Option<InOrderState>)
    requires Ordered(nodes) && Within(nodes, st.next) && st.next != []
    ensures r.Some? ==> Within(nodes, r.value.next)
    ensures r.None? <==> st.visited == 0
  {
    if st.visited == 0 then None
    else
      PreStep(nodes, st.next);
      Some(InOrderState(Kids(nodes, st.next[0]) + st.next[1..], st.visited - 1))
  }

  /** What `for (it = begin; it != end; ++it) out.push_back(*it)` collects in
      at most `fuel` rounds, and whether a round popped an empty `visited`. */
  function DfsRunAsWritten(nodes: seq<Node>, st: InOrderState, fuel: nat): (r: (seq<nat>, bool))
    requires Ordered(nodes) && Within(nodes, st.next)
    ensures |r.0| <= fuel
    decreases fuel
  {
    if fuel == 0 || st.next == [] then ([], false)
    else
      match DfsStepAsWritten(nodes, st)
      case None => ([st.next[0]], true)
      case Some(s) =>
        var (out, underflow) := DfsRunAsWritten(nodes, s, fuel - 1);
        ([st.next[0]] + out, underflow)
  }

  /** Whenever the root has a non-null first child, the node the DFS-mode
      iterator yields first is not the root, which a pre-order yields first. */
  lemma {:induction false} InOrderDfsStartsBelowRoot(nodes: seq<Node>, root: nat)
    requires Ordered(nodes) && root < |nodes|
    requires nodes[root].children != [] && nodes[root].children[0].Ref?
    ensures InOrderStartAsWritten(nodes, Ref(root)).next != []
    ensures InOrderStartAsWritten(nodes, Ref(root)).next[0] != Pre(nodes, [root])[0]
  {
    var chain := LeftChain(nodes, root);
    var c := nodes[root].children[0].id;
    assert chain == [root] + LeftChain(nodes, c);
    PreStep(nodes, [root]);
  }

  /** On the two-node tree the DFS-mode iterator yields the leaf, the root,
      the leaf again, and then pops an empty `visited`; a pre-order walk
      yields the root and then the leaf. */
  lemma {:induction false} InOrderDfsTwoNodes()
    ensures DfsRunAsWritten(TwoNodes(), InOrderStartAsWritten(TwoNodes(), Ref(0)), 10) == ([1, 0, 1], true)
    ensures Pre(TwoNodes(), [0]) == [0, 1]
  {
    var nodes := TwoNodes();
    InOrderStartTwoNodes();
    InOrderRunTwoNodes();
    assert Kids(nodes, 1) == [];
    assert Kids(nodes, 0) == [1] by {
      assert nodes[0].children[1..] == [];
    }
    PreStep(nodes, [0]);
    PreStep(nodes, [1]);
    assert Pre(nodes, []) == [];
  }

  lemma {:induction false} InOrderStartTwoNodes()
    ensures InOrderStartAsWritten(TwoNodes(), Ref(0)) == InOrderState([1, 0], 2)
  {
    var nodes := TwoNodes();
    assert LeftChain(nodes, 1) == [1];
    assert LeftChain(nodes, 0) == [0, 1];
  }

  lemma {:induction false} InOrderRunTwoNodes()
    ensures DfsRunAsWritten(TwoNodes(), InOrderState([1, 0], 2), 10) == ([1, 0, 1], true)
  {
    var nodes := TwoNodes();
    assert Kids(nodes, 1) == [];
    assert Kids(nodes, 0) == [1] by {
      assert nodes[0].children[1..] == [];
    }
    var s0 := InOrderState([1, 0], 2);
    var s1 := InOrderState([0], 1);
    var s2 := InOrderState([1], 0);
    assert s0.next[1..] == [0] && Kids(nodes, 1) + [0] == [0];
    assert DfsStepAsWritten(nodes, s0) == Some(s1);
    assert s1.next[1..] == [] && Kids(nodes, 0) + [] == [1];
    assert DfsStepAsWritten(nodes, s1) == Some(s2);
    assert DfsStepAsWritten(nodes, s2) == None;
    assert DfsRunAsWritten(nodes, s2, 8) == ([1], true);
    assert DfsRunAsWritten(nodes, s1, 9) == ([0] + [1], true);
    assert [1] + ([0] + [1]) == [1, 0, 1];
  }
}

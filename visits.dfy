// Every walk of a tree visits each node below the root exactly once. In an
// arena where no node has two parents, the pre-order of a root lists no
// node twice and holds exactly the nodes below the root; the other orders
// hold the same nodes as the pre-order, so the same is true of them.

module Visits {
  import opened Nodes
  import opened Orders

  /** No value occurs twice in `s`. */
  predicate Distinct(s: seq<nat>) {
    forall i, j :: 0 <= i < j < |s| ==> s[i] != s[j]
  }

  /** Node `y` lies below node `r`: it is `r`, or it sits in a child slot
      of a node below `r`. A parent is allocated before its children, so
      the search for a parent only looks at smaller indices. */
  ghost predicate Below(nodes: seq<Node>, r: nat, y: nat)
    requires y < |nodes|
    decreases y
  {
    y == r
    || exists p, k :: r <= p < y && 0 <= k < |nodes[p].children| && nodes[p].children[k] == Ref(y)
                      && Below(nodes, r, p)
  }

  /** `s` holds each node below the root once and nothing else. */
  ghost predicate EachOnce(nodes: seq<Node>, root: Ptr, s: seq<nat>) {
    Distinct(s)
    && (forall y :: y in s ==> y < |nodes|)
    && (forall y :: 0 <= y < |nodes| ==> (y in s <==> root.Ref? && Below(nodes, root.id, y)))
  }

  /** No root of the forest lies in the subtree of another. */
  ghost predicate Apart(nodes: seq<Node>, ids: seq<nat>)
    requires Ordered(nodes) && Within(nodes, ids)
  {
    forall i, j :: 0 <= i < |ids| && 0 <= j < |ids| && i != j ==> ids[i] !in Pre(nodes, [ids[j]])
  }

  // ---- Sequences without repetition ----

  lemma {:induction false} DistinctConcat(a: seq<nat>, b: seq<nat>)
    requires Distinct(a) && Distinct(b)
    requires forall y :: y in a ==> y !in b
    ensures Distinct(a + b)
  {
    var s := a + b;
    forall i, j | 0 <= i < j < |s| ensures s[i] != s[j] {
      if j >= |a| && i < |a| {
        assert s[i] == a[i] && s[j] == b[j - |a|];
        assert b[j - |a|] in b;
      } else if i >= |a| {
        assert s[i] == b[i - |a|] && s[j] == b[j - |a|];
      }
    }
  }

  /** A repeated value occurs at least twice in the multiset. */
  lemma {:induction false} RepeatCounted(a: seq<nat>, i: nat, j: nat)
    requires i < j < |a|
    ensures a[i] == a[j] ==> multiset(a)[a[i]] >= 2
  {
    assert a == a[..j] + a[j..];
    assert a[i] in a[..j] && a[j] in a[j..];
  }

  /** In a sequence without repetition every value occurs at most once. */
  lemma {:induction false} DistinctCounted(b: seq<nat>, v: nat)
    requires Distinct(b)
    ensures multiset(b)[v] <= 1
    decreases |b|
  {
    if b != [] {
      assert b == [b[0]] + b[1..];
      assert Distinct(b[1..]) by {
        forall i, j | 0 <= i < j < |b[1..]| ensures b[1..][i] != b[1..][j] {
          assert b[1..][i] == b[i + 1] && b[1..][j] == b[j + 1];
        }
      }
      DistinctCounted(b[1..], v);
      assert b[0] !in b[1..] by {
        forall k | 0 <= k < |b[1..]| ensures b[1..][k] != b[0] {
          assert b[1..][k] == b[k + 1];
        }
      }
    }
  }

  /** A permutation of a sequence without repetition has none either. */
  lemma {:induction false} DistinctPermutation(a: seq<nat>, b: seq<nat>)
    requires multiset(a) == multiset(b) && Distinct(b)
    ensures Distinct(a)
  {
    forall i, j | 0 <= i < j < |a| ensures a[i] != a[j] {
      RepeatCounted(a, i, j);
      DistinctCounted(b, a[i]);
    }
  }

  /** A parent that lists each child slot's node once has distinct kids. */
  lemma {:induction false} IdsOfDistinct(ps: seq<Ptr>)
    requires forall k, l :: 0 <= k < l < |ps| && ps[k].Ref? ==> ps[k] != ps[l]
    ensures Distinct(IdsOf(ps))
    decreases |ps|
  {
    if ps != [] {
      var rest := ps[1..];
      assert forall k, l :: 0 <= k < l < |rest| && rest[k].Ref? ==> rest[k] != rest[l] by {
        forall k, l | 0 <= k < l < |rest| && rest[k].Ref? ensures rest[k] != rest[l] {
          assert rest[k] == ps[k + 1] && rest[l] == ps[l + 1];
        }
      }
      IdsOfDistinct(rest);
      var r := IdsOf(rest);
      if ps[0].Ref? {
        forall j | 0 <= j < |r| ensures r[j] != ps[0].id {
          assert Ref(r[j]) in rest;
        }
        DistinctConcat([ps[0].id], r);
      }
    }
  }

  // ---- Where the nodes of a pre-order come from ----

  /** A root of a forest appears in its pre-order. */
  lemma {:induction false} PreHoldsRoot(nodes: seq<Node>, ids: seq<nat>, y: nat)
    requires Ordered(nodes) && Within(nodes, ids) && y in ids
    ensures y in Pre(nodes, ids)
    decreases |ids|
  {
    if ids[0] != y {
      PreHoldsRoot(nodes, ids[1..], y);
    }
  }

  /** Every node of a pre-order is a node of the arena at or after the
      forest's smallest root. */
  lemma {:induction false} PreBounds(nodes: seq<Node>, ids: seq<nat>, y: nat)
    requires Ordered(nodes) && Within(nodes, ids) && y in Pre(nodes, ids)
    ensures Low(|nodes|, ids) <= y < |nodes|
    decreases |nodes| - Low(|nodes|, ids), |ids|
  {
    var x, kids, rest := ids[0], Kids(nodes, ids[0]), ids[1..];
    if y != x {
      if y in Pre(nodes, kids) {
        PreBounds(nodes, kids, y);
      } else {
        PreBounds(nodes, rest, y);
      }
    }
  }

  /** The nodes of a pre-order after node `x`'s own come after `x`. */
  lemma {:induction false} KidsAbove(nodes: seq<Node>, x: nat, y: nat)
    requires Ordered(nodes) && x < |nodes| && y in Pre(nodes, Kids(nodes, x))
    ensures x < y
  {
    PreBounds(nodes, Kids(nodes, x), y);
  }

  /** A node of a forest's pre-order is in the pre-order of one root. */
  lemma {:induction false} PreMember(nodes: seq<Node>, ids: seq<nat>, y: nat) returns (j: nat)
    requires Ordered(nodes) && Within(nodes, ids) && y in Pre(nodes, ids)
    ensures j < |ids| && y in Pre(nodes, [ids[j]])
    decreases |ids|
  {
    assert [ids[0]] + ids[1..] == ids;
    PreConcat(nodes, [ids[0]], ids[1..]);
    if y in Pre(nodes, [ids[0]]) {
      j := 0;
    } else {
      var j' := PreMember(nodes, ids[1..], y);
      j := j' + 1;
    }
  }

  /** A node of a pre-order that is not a root of the forest sits in a
      child slot of another node of the same pre-order. */
  lemma {:induction false} ParentIn(nodes: seq<Node>, ids: seq<nat>, y: nat) returns (p: nat, k: nat)
    requires Ordered(nodes) && Within(nodes, ids) && y in Pre(nodes, ids) && y !in ids
    ensures p < |nodes| && k < |nodes[p].children| && nodes[p].children[k] == Ref(y)
    ensures p in Pre(nodes, ids)
    decreases |nodes| - Low(|nodes|, ids), |ids|
  {
    var x, kids, rest := ids[0], Kids(nodes, ids[0]), ids[1..];
    if y in Pre(nodes, kids) {
      if y in kids {
        var ch := nodes[x].children;
        assert Ref(y) in ch;
        p := x;
        k :| 0 <= k < |ch| && ch[k] == Ref(y);
      } else {
        p, k := ParentIn(nodes, kids, y);
      }
    } else {
      p, k := ParentIn(nodes, rest, y);
    }
  }

  /** When one parent holds `c` and a pre-order holds that parent, it holds `c`. */
  lemma {:induction false} PreClosed(nodes: seq<Node>, ids: seq<nat>, y: nat, c: nat)
    requires Ordered(nodes) && Within(nodes, ids) && y in Pre(nodes, ids)
    requires y < |nodes| && c in Kids(nodes, y)
    ensures c in Pre(nodes, ids)
    decreases |nodes| - Low(|nodes|, ids), |ids|
  {
    var x, kids, rest := ids[0], Kids(nodes, ids[0]), ids[1..];
    if y == x {
      PreHoldsRoot(nodes, kids, c);
    } else if y in Pre(nodes, kids) {
      PreClosed(nodes, kids, y, c);
    } else {
      PreClosed(nodes, rest, y, c);
    }
  }

  /** A filled slot's node is one of the kids. */
  lemma {:induction false} SlotIsKid(nodes: seq<Node>, p: nat, k: nat)
    requires p < |nodes| && k < |nodes[p].children| && nodes[p].children[k].Ref?
    ensures nodes[p].children[k].id in Kids(nodes, p)
  {
    var ch := nodes[p].children;
    assert ch == ch[..k] + ch[k..];
    IdsOfConcat(ch[..k], ch[k..]);
    IdsOfCons(ch, k);
  }

  /** The pre-order of `r` holds exactly the nodes below `r`. */
  lemma {:induction false} PreIsBelow(nodes: seq<Node>, r: nat, y: nat)
    requires Ordered(nodes) && r < |nodes| && y < |nodes|
    ensures y in Pre(nodes, [r]) <==> Below(nodes, r, y)
    decreases y
  {
    if y == r {
      PreHoldsRoot(nodes, [r], r);
    } else if y in Pre(nodes, [r]) {
      var p, k := ParentIn(nodes, [r], y);
      PreBounds(nodes, [r], p);
      PreIsBelow(nodes, r, p);
    } else if Below(nodes, r, y) {
      var p, k :| r <= p < y && 0 <= k < |nodes[p].children| && nodes[p].children[k] == Ref(y)
                  && Below(nodes, r, p);
      PreIsBelow(nodes, r, p);
      SlotIsKid(nodes, p, k);
      PreClosed(nodes, [r], p, y);
    }
  }

  // ---- No node twice ----

  /** Two subtrees sharing a node are nested: without a second parent the
      way up from a shared node meets one root on the way to the other. */
  lemma {:induction false} SharedNested(nodes: seq<Node>, a: nat, b: nat, y: nat)
    requires Ordered(nodes) && OneParent(nodes) && a < |nodes| && b < |nodes|
    requires y in Pre(nodes, [a]) && y in Pre(nodes, [b])
    ensures a in Pre(nodes, [b]) || b in Pre(nodes, [a])
    decreases y
  {
    if y != a && y != b {
      var p, k := ParentIn(nodes, [a], y);
      var q, l := ParentIn(nodes, [b], y);
      assert p == q;
      SharedNested(nodes, a, b, p);
    }
  }

  /** The children of a node lie in no subtree of one another. */
  lemma {:induction false} KidsApart(nodes: seq<Node>, x: nat)
    requires Ordered(nodes) && OneParent(nodes) && x < |nodes|
    ensures Apart(nodes, Kids(nodes, x))
  {
    var kids := Kids(nodes, x);
    var ch := nodes[x].children;
    IdsOfDistinct(ch);
    forall i, j | 0 <= i < |kids| && 0 <= j < |kids| && i != j
      ensures kids[i] !in Pre(nodes, [kids[j]])
    {
      if kids[i] in Pre(nodes, [kids[j]]) {
        var p, k := ParentIn(nodes, [kids[j]], kids[i]);
        assert Ref(kids[i]) in ch;
        var s :| 0 <= s < |ch| && ch[s] == Ref(kids[i]);
        PreBounds(nodes, [kids[j]], p);
        assert false;
      }
    }
  }

  /** A forest after its first root is still apart. */
  lemma {:induction false} ApartRest(nodes: seq<Node>, ids: seq<nat>)
    requires Ordered(nodes) && Within(nodes, ids) && ids != [] && Apart(nodes, ids)
    ensures Apart(nodes, ids[1..])
  {
    var rest := ids[1..];
    forall i, j | 0 <= i < |rest| && 0 <= j < |rest| && i != j
      ensures rest[i] !in Pre(nodes, [rest[j]])
    {
      assert rest[i] == ids[i + 1] && rest[j] == ids[j + 1];
    }
  }

  /** The first root's subtree shares no node with the later roots'. */
  lemma {:induction false} FirstApart(nodes: seq<Node>, ids: seq<nat>)
    requires Ordered(nodes) && OneParent(nodes) && Within(nodes, ids) && ids != [] && Apart(nodes, ids)
    ensures forall y :: y in Pre(nodes, [ids[0]]) ==> y !in Pre(nodes, ids[1..])
  {
    var x, rest := ids[0], ids[1..];
    forall y | y in Pre(nodes, [x]) ensures y !in Pre(nodes, rest) {
      if y in Pre(nodes, rest) {
        var j := PreMember(nodes, rest, y);
        assert rest[j] == ids[j + 1];
        SharedNested(nodes, x, rest[j], y);
        assert false;
      }
    }
  }

  /** In an arena without second parents, the pre-order of a forest whose
      roots are apart lists no node twice. */
  lemma {:induction false} PreDistinct(nodes: seq<Node>, ids: seq<nat>)
    requires Ordered(nodes) && OneParent(nodes) && Within(nodes, ids) && Apart(nodes, ids)
    ensures Distinct(Pre(nodes, ids))
    decreases |nodes| - Low(|nodes|, ids), |ids|
  {
    if ids != [] {
      var x, kids, rest := ids[0], Kids(nodes, ids[0]), ids[1..];
      KidsApart(nodes, x);
      PreDistinct(nodes, kids);
      NodeDistinct(nodes, x);
      ApartRest(nodes, ids);
      PreDistinct(nodes, rest);
      FirstApart(nodes, ids);
      assert [x] + rest == ids;
      PreConcat(nodes, [x], rest);
      DistinctConcat(Pre(nodes, [x]), Pre(nodes, rest));
    }
  }

  /** A node comes before its subtree's other nodes, so when those are
      distinct, so is the node's whole pre-order. */
  lemma {:induction false} NodeDistinct(nodes: seq<Node>, x: nat)
    requires Ordered(nodes) && x < |nodes| && Distinct(Pre(nodes, Kids(nodes, x)))
    ensures Distinct(Pre(nodes, [x]))
  {
    var below := Pre(nodes, Kids(nodes, x));
    forall y | y in [x] ensures y !in below {
      if y in below {
        KidsAbove(nodes, x, y);
        assert false;
      }
    }
    DistinctConcat([x], below);
    PreOfNode(nodes, x);
  }

  // ---- Each walk of a tree ----

  /** Any sequence with the pre-order's nodes holds each node below the
      root exactly once. */
  lemma {:induction false} VisitsOnce(nodes: seq<Node>, root: Ptr, s: seq<nat>)
    requires Ordered(nodes) && OneParent(nodes) && (root.Ref? ==> root.id < |nodes|)
    requires multiset(s) == multiset(Pre(nodes, Roots(root)))
    ensures EachOnce(nodes, root, s)
  {
    var pre := Pre(nodes, Roots(root));
    if root.Ref? {
      PreDistinct(nodes, [root.id]);
      forall y | 0 <= y < |nodes| ensures y in s <==> Below(nodes, root.id, y) {
        assert y in s <==> y in multiset(pre);
        PreIsBelow(nodes, root.id, y);
      }
      forall y | y in s ensures y < |nodes| {
        assert y in multiset(pre);
        PreBounds(nodes, [root.id], y);
      }
    }
    DistinctPermutation(s, pre);
  }

  /** The pre-order walk visits each node of the tree once. */
  lemma {:induction false} PreVisitsOnce(nodes: seq<Node>, root: Ptr)
    requires Ordered(nodes) && OneParent(nodes) && (root.Ref? ==> root.id < |nodes|)
    ensures EachOnce(nodes, root, Pre(nodes, Roots(root)))
  {
    VisitsOnce(nodes, root, Pre(nodes, Roots(root)));
  }

  /** The post-order walk visits each node of the tree once. */
  lemma {:induction false} PostVisitsOnce(nodes: seq<Node>, root: Ptr)
    requires Ordered(nodes) && OneParent(nodes) && (root.Ref? ==> root.id < |nodes|)
    ensures EachOnce(nodes, root, Post(nodes, Roots(root)))
  {
    PostSameNodesAsPre(nodes, Roots(root));
    VisitsOnce(nodes, root, Post(nodes, Roots(root)));
  }

  /** The in-order walk visits each node of the tree once. */
  lemma {:induction false} InVisitsOnce(nodes: seq<Node>, root: Ptr)
    requires Ordered(nodes) && OneParent(nodes) && (root.Ref? ==> root.id < |nodes|)
    ensures EachOnce(nodes, root, In(nodes, Roots(root)))
  {
    InSameNodesAsPre(nodes, Roots(root));
    VisitsOnce(nodes, root, In(nodes, Roots(root)));
  }

  /** The level-order walk visits each node of the tree once. */
  lemma {:induction false} LevelOrderVisitsOnce(nodes: seq<Node>, root: Ptr)
    requires Ordered(nodes) && OneParent(nodes) && (root.Ref? ==> root.id < |nodes|)
    ensures EachOnce(nodes, root, LevelOrder(nodes, Roots(root)))
  {
    LevelOrderSameNodesAsPre(nodes, Roots(root));
    VisitsOnce(nodes, root, LevelOrder(nodes, Roots(root)));
  }
}

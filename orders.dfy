// The traversal orders the iterators of tree.cpp and tree.hpp produce, as
// recursive functions over the arena. Null child slots contribute nothing.
// A forest is a sequence of node indices, emitted left to right.

module Orders {
  import opened Nodes

  /** Smallest index in `ids`, or `n` when `ids` is empty. */
  function Low(n: nat, ids: seq<nat>): (r: nat)
    ensures r <= n
    ensures forall j :: 0 <= j < |ids| ==> r <= ids[j]
    ensures r == n || r in ids
  {
    if ids == [] then n
    else
      var m := Low(n, ids[1..]);
      if ids[0] < m then ids[0] else m
  }

  /** Pre-order of a forest: each node, then its children's subtrees left to right. */
  function Pre(nodes: seq<Node>, ids: seq<nat>): seq<nat>
    requires Ordered(nodes) && Within(nodes, ids)
    decreases |nodes| - Low(|nodes|, ids), |ids|
  {
    if ids == [] then []
    else [ids[0]] + Pre(nodes, Kids(nodes, ids[0])) + Pre(nodes, ids[1..])
  }

  /** Post-order of a forest: each node after its children's subtrees. */
  function Post(nodes: seq<Node>, ids: seq<nat>): seq<nat>
    requires Ordered(nodes) && Within(nodes, ids)
    decreases |nodes| - Low(|nodes|, ids), |ids|
  {
    if ids == [] then []
    else Post(nodes, Kids(nodes, ids[0])) + [ids[0]] + Post(nodes, ids[1..])
  }

  /** `s` back to front. */
  function Reversed<T>(s: seq<T>): (r: seq<T>)
    ensures |r| == |s|
    ensures forall j :: 0 <= j < |s| ==> r[j] == s[|s| - 1 - j]
  {
    if s == [] then [] else [s[|s| - 1]] + Reversed(s[..|s| - 1])
  }

  /** The node the in-order descends into first: node `x`'s first child,
      when there is one and it is not null. */
  function LeftKids(nodes: seq<Node>, x: nat): (r: seq<nat>)
    requires x < |nodes|
    ensures |r| <= 1
    ensures Ordered(nodes) ==> forall j :: 0 <= j < |r| ==> x < r[j] < |nodes|
  {
    var ch := nodes[x].children;
    if ch == [] || ch[0].Null? then [] else [ch[0].id]
  }

  /** The other non-null children of `x`, in the order their subtrees are
      emitted: the last child's subtree first. */
  function RightKids(nodes: seq<Node>, x: nat): (r: seq<nat>)
    requires x < |nodes|
    ensures Ordered(nodes) ==> forall j :: 0 <= j < |r| ==> x < r[j] < |nodes|
  {
    var ch := nodes[x].children;
    if ch == [] then []
    else
      var rev := Reversed(ch[1..]);
      var r := IdsOf(rev);
      assert forall j :: 0 <= j < |r| ==> Ref(r[j]) in ch by {
        forall j | 0 <= j < |r|
          ensures Ref(r[j]) in ch
        {
          var k :| 0 <= k < |rev| && rev[k] == Ref(r[j]);
          assert rev[k] == ch[|ch| - 1 - k];
        }
      }
      r
  }

  /** In-order of a forest: for each node, the in-order of its first child,
      the node, then the in-order of its other children from the last to the
      second. */
  function In(nodes: seq<Node>, ids: seq<nat>): seq<nat>
    requires Ordered(nodes) && Within(nodes, ids)
    decreases |nodes| - Low(|nodes|, ids), |ids|
  {
    if ids == [] then []
    else
      In(nodes, LeftKids(nodes, ids[0])) + [ids[0]] + In(nodes, RightKids(nodes, ids[0]))
      + In(nodes, ids[1..])
  }

  /** What a node still owes the in-order once the subtree of its first
      child has been emitted: the node itself, then its other children. */
  function InTail(nodes: seq<Node>, x: nat): seq<nat>
    requires Ordered(nodes) && x < |nodes|
  {
    [x] + In(nodes, RightKids(nodes, x))
  }

  /** The children of every node of `F`, left to right: the next level. */
  function NextLevel(nodes: seq<Node>, F: seq<nat>): (r: seq<nat>)
    requires Ordered(nodes) && Within(nodes, F)
    ensures Within(nodes, r)
  {
    if F == [] then [] else Kids(nodes, F[0]) + NextLevel(nodes, F[1..])
  }

  lemma {:induction false} NextLevelAbove(nodes: seq<Node>, F: seq<nat>, b: int)
    requires Ordered(nodes) && Within(nodes, F)
    requires forall j :: 0 <= j < |F| ==> b <= F[j]
    ensures forall j :: 0 <= j < |NextLevel(nodes, F)| ==> b < NextLevel(nodes, F)[j]
  {
    if F != [] {
      NextLevelAbove(nodes, F[1..], b);
    }
  }

  /** Level order: a level, then the level order of the next one. */
  function LevelOrder(nodes: seq<Node>, F: seq<nat>): seq<nat>
    requires Ordered(nodes) && Within(nodes, F)
    decreases |nodes| - Low(|nodes|, F)
  {
    if F == [] then []
    else
      NextLevelAbove(nodes, F, Low(|nodes|, F));
      F + LevelOrder(nodes, NextLevel(nodes, F))
  }

  // ---- Sequence facts, proved apart from the tree functions ----

  lemma {:induction false} Assoc<T>(a: seq<T>, b: seq<T>, c: seq<T>)
    ensures a + b + c == a + (b + c)
  {
  }

  lemma {:induction false} EmptyConcat<T>(a: seq<T>, b: seq<T>)
    requires a == []
    ensures a + b == b
  {
  }

  lemma {:induction false} SplitFirst<T>(a: seq<T>, b: seq<T>)
    requires a != []
    ensures (a + b)[0] == a[0] && (a + b)[1..] == a[1..] + b
  {
  }

  /** Moving the head of what is pending to the end of what was emitted. */
  lemma {:induction false} DrainStep<T>(out: seq<T>, p: seq<T>)
    requires p != []
    ensures (out + [p[0]]) + p[1..] == out + p
  {
    assert p == [p[0]] + p[1..];
  }

  lemma {:induction false} HeadTail<T>(s: seq<T>)
    requires s != []
    ensures s == [s[0]] + s[1..]
  {
  }

  // ---- How the orders split over concatenated forests ----

  lemma {:induction false} PreConcat(nodes: seq<Node>, a: seq<nat>, b: seq<nat>)
    requires Ordered(nodes) && Within(nodes, a) && Within(nodes, b)
    ensures Within(nodes, a + b)
    ensures Pre(nodes, a + b) == Pre(nodes, a) + Pre(nodes, b)
    decreases |a|
  {
    if a == [] {
      EmptyConcat(a, b);
    } else {
      SplitFirst(a, b);
      PreConcat(nodes, a[1..], b);
      Assoc([a[0]] + Pre(nodes, Kids(nodes, a[0])), Pre(nodes, a[1..]), Pre(nodes, b));
    }
  }

  lemma {:induction false} PostConcat(nodes: seq<Node>, a: seq<nat>, b: seq<nat>)
    requires Ordered(nodes) && Within(nodes, a) && Within(nodes, b)
    ensures Within(nodes, a + b)
    ensures Post(nodes, a + b) == Post(nodes, a) + Post(nodes, b)
    decreases |a|
  {
    if a == [] {
      EmptyConcat(a, b);
    } else {
      SplitFirst(a, b);
      PostConcat(nodes, a[1..], b);
      Assoc(Post(nodes, Kids(nodes, a[0])) + [a[0]], Post(nodes, a[1..]), Post(nodes, b));
    }
  }

  lemma {:induction false} InConcat(nodes: seq<Node>, a: seq<nat>, b: seq<nat>)
    requires Ordered(nodes) && Within(nodes, a) && Within(nodes, b)
    ensures Within(nodes, a + b)
    ensures In(nodes, a + b) == In(nodes, a) + In(nodes, b)
    decreases |a|
  {
    if a == [] {
      EmptyConcat(a, b);
    } else {
      SplitFirst(a, b);
      InConcat(nodes, a[1..], b);
      Assoc(In(nodes, LeftKids(nodes, a[0])) + [a[0]] + In(nodes, RightKids(nodes, a[0])),
            In(nodes, a[1..]), In(nodes, b));
    }
  }

  lemma {:induction false} NextLevelConcat(nodes: seq<Node>, a: seq<nat>, b: seq<nat>)
    requires Ordered(nodes) && Within(nodes, a) && Within(nodes, b)
    ensures Within(nodes, a + b)
    ensures NextLevel(nodes, a + b) == NextLevel(nodes, a) + NextLevel(nodes, b)
    decreases |a|
  {
    if a == [] {
      EmptyConcat(a, b);
    } else {
      SplitFirst(a, b);
      NextLevelConcat(nodes, a[1..], b);
      Assoc(Kids(nodes, a[0]), NextLevel(nodes, a[1..]), NextLevel(nodes, b));
    }
  }

  // ---- The orders of a single node ----

  /** A node comes first in its own pre-order, then its children's subtrees. */
  lemma {:induction false} PreOfNode(nodes: seq<Node>, x: nat)
    requires Ordered(nodes) && x < |nodes|
    ensures Within(nodes, [x])
    ensures Pre(nodes, [x]) == [x] + Pre(nodes, Kids(nodes, x))
  {
    assert [x][1..] == [];
  }

  /** A node comes last in its own post-order, after its children's subtrees. */
  lemma {:induction false} PostOfNode(nodes: seq<Node>, x: nat)
    requires Ordered(nodes) && x < |nodes|
    ensures Within(nodes, [x])
    ensures Post(nodes, [x]) == Post(nodes, Kids(nodes, x)) + [x]
  {
    assert [x][1..] == [];
  }

  lemma {:induction false} InSingle(nodes: seq<Node>, x: nat)
    requires Ordered(nodes) && x < |nodes|
    ensures Within(nodes, [x])
    ensures In(nodes, [x])
         == In(nodes, LeftKids(nodes, x)) + [x] + In(nodes, RightKids(nodes, x))
  {
    assert [x][1..] == [];
  }

  /** The in-order of a node is the in-order of its first child followed by
      what the node owes once that child is done. */
  lemma {:induction false} InOfNode(nodes: seq<Node>, x: nat)
    requires Ordered(nodes) && x < |nodes|
    ensures Within(nodes, [x]) && Within(nodes, LeftKids(nodes, x))
    ensures In(nodes, [x]) == In(nodes, LeftKids(nodes, x)) + InTail(nodes, x)
  {
    InSingle(nodes, x);
    Assoc(In(nodes, LeftKids(nodes, x)), [x], In(nodes, RightKids(nodes, x)));
  }


  /** For a node with exactly two children the in-order is the textbook one:
      left subtree, node, right subtree. */
  lemma {:induction false} InOfBinaryNode(nodes: seq<Node>, x: nat, l: nat, r: nat)
    requires Ordered(nodes) && x < |nodes|
    requires nodes[x].children == [Ref(l), Ref(r)]
    ensures x < l < |nodes| && x < r < |nodes|
    ensures In(nodes, [x]) == In(nodes, [l]) + [x] + In(nodes, [r])
  {
    var ch := nodes[x].children;
    assert ch[0] == Ref(l) && ch[1] == Ref(r);
    assert ch[1..] == [Ref(r)];
    assert Reversed(ch[1..]) == [Ref(r)];
    assert IdsOf([Ref(r)]) == [r];
    assert LeftKids(nodes, x) == [l];
    assert RightKids(nodes, x) == [r];
    InSingle(nodes, x);
  }

  /** A node with a single child comes right after that child's subtree. */
  lemma {:induction false} InOfUnaryNode(nodes: seq<Node>, x: nat, l: nat)
    requires Ordered(nodes) && x < |nodes|
    requires nodes[x].children == [Ref(l)]
    ensures x < l < |nodes|
    ensures In(nodes, [x]) == In(nodes, [l]) + [x]
  {
    var ch := nodes[x].children;
    assert ch[0] == Ref(l);
    assert ch[1..] == [];
    assert LeftKids(nodes, x) == [l];
    assert RightKids(nodes, x) == [];
    InSingle(nodes, x);
  }

  // ---- Every order lists the same nodes ----

  /** Pre-order and post-order list the same nodes, each as often. */
  lemma {:induction false} PostSameNodesAsPre(nodes: seq<Node>, ids: seq<nat>)
    requires Ordered(nodes) && Within(nodes, ids)
    ensures multiset(Post(nodes, ids)) == multiset(Pre(nodes, ids))
    decreases |nodes| - Low(|nodes|, ids), |ids|
  {
    if ids != [] {
      PostSameNodesAsPre(nodes, Kids(nodes, ids[0]));
      PostSameNodesAsPre(nodes, ids[1..]);
    }
  }

  /** In-order and pre-order list the same nodes, each as often. */
  lemma {:induction false} InSameNodesAsPre(nodes: seq<Node>, ids: seq<nat>)
    requires Ordered(nodes) && Within(nodes, ids)
    ensures multiset(In(nodes, ids)) == multiset(Pre(nodes, ids))
    decreases |nodes| - Low(|nodes|, ids), |ids|
  {
    if ids != [] {
      NodeInSameNodesAsPre(nodes, ids[0]);
      InSameNodesAsPre(nodes, ids[1..]);
      HeadTail(ids);
      InConcat(nodes, [ids[0]], ids[1..]);
      PreConcat(nodes, [ids[0]], ids[1..]);
    }
  }

  lemma {:induction false} NodeInSameNodesAsPre(nodes: seq<Node>, x: nat)
    requires Ordered(nodes) && x < |nodes|
    ensures Within(nodes, [x])
    ensures multiset(In(nodes, [x])) == multiset(Pre(nodes, [x]))
    decreases |nodes| - x, 0
  {
    InSameNodesAsPre(nodes, LeftKids(nodes, x));
    InSameNodesAsPre(nodes, RightKids(nodes, x));
    SameNodesFromChildren(nodes, x);
  }

  lemma {:induction false} SameNodesFromChildren(nodes: seq<Node>, x: nat)
    requires Ordered(nodes) && x < |nodes|
    requires multiset(In(nodes, LeftKids(nodes, x))) == multiset(Pre(nodes, LeftKids(nodes, x)))
    requires multiset(In(nodes, RightKids(nodes, x))) == multiset(Pre(nodes, RightKids(nodes, x)))
    ensures Within(nodes, [x])
    ensures multiset(In(nodes, [x])) == multiset(Pre(nodes, [x]))
  {
    KidsSplit(nodes, x);
    InSingle(nodes, x);
    PreOfNode(nodes, x);
    MultisetOfThree(In(nodes, LeftKids(nodes, x)), [x], In(nodes, RightKids(nodes, x)));
  }

  lemma {:induction false} MultisetOfThree<T>(a: seq<T>, b: seq<T>, c: seq<T>)
    ensures multiset(a + b + c) == multiset(a) + multiset(b) + multiset(c)
  {
  }

  /** The pre-orders of the first child and of the other children together
      list the same nodes as the pre-order of all the children. */
  lemma {:induction false} KidsSplit(nodes: seq<Node>, x: nat)
    requires Ordered(nodes) && x < |nodes|
    ensures multiset(Pre(nodes, LeftKids(nodes, x))) + multiset(Pre(nodes, RightKids(nodes, x)))
         == multiset(Pre(nodes, Kids(nodes, x)))
  {
    var ch := nodes[x].children;
    if ch != [] {
      HeadTail(ch);
      IdsOfConcat([ch[0]], ch[1..]);
      assert IdsOf([ch[0]]) == LeftKids(nodes, x) by {
        assert [ch[0]][1..] == [];
      }
      assert forall j :: 0 <= j < |ch[1..]| && ch[1..][j].Ref? ==> ch[1..][j].id < |nodes| by {
        forall j | 0 <= j < |ch[1..]| && ch[1..][j].Ref?
          ensures ch[1..][j].id < |nodes|
        {
          assert ch[1..][j] == ch[j + 1];
        }
      }
      PreOfReversedSlots(nodes, ch[1..]);
      PreConcat(nodes, LeftKids(nodes, x), IdsOf(ch[1..]));
    }
  }

  /** Reading slots back to front lists the same nodes in pre-order. */
  lemma {:induction false} PreOfReversedSlots(nodes: seq<Node>, ps: seq<Ptr>)
    requires Ordered(nodes)
    requires forall j :: 0 <= j < |ps| && ps[j].Ref? ==> ps[j].id < |nodes|
    ensures Within(nodes, IdsOf(ps)) && Within(nodes, IdsOf(Reversed(ps)))
    ensures multiset(Pre(nodes, IdsOf(Reversed(ps)))) == multiset(Pre(nodes, IdsOf(ps)))
    decreases |ps|
  {
    IdsWithin(nodes, ps);
    IdsWithin(nodes, Reversed(ps));
    if ps != [] {
      var last := ps[|ps| - 1];
      var front := ps[..|ps| - 1];
      LastFront(ps);
      IdsOfConcat([last], Reversed(front));
      IdsOfConcat(front, [last]);
      IdsWithin(nodes, [last]);
      IdsWithin(nodes, front);
      IdsWithin(nodes, Reversed(front));
      PreOfReversedSlots(nodes, front);
      PreConcat(nodes, IdsOf([last]), IdsOf(Reversed(front)));
      PreConcat(nodes, IdsOf(front), IdsOf([last]));
    }
  }

  lemma {:induction false} LastFront<T>(s: seq<T>)
    requires s != []
    ensures s == s[..|s| - 1] + [s[|s| - 1]]
    ensures Reversed(s) == [s[|s| - 1]] + Reversed(s[..|s| - 1])
    ensures forall j :: 0 <= j < |s| - 1 ==> s[..|s| - 1][j] == s[j]
  {
  }

  /** The pre-order of a forest holds the forest's own nodes and the
      pre-order of the next level. */
  lemma {:induction false} PreByLevels(nodes: seq<Node>, F: seq<nat>)
    requires Ordered(nodes) && Within(nodes, F)
    ensures multiset(Pre(nodes, F)) == multiset(F) + multiset(Pre(nodes, NextLevel(nodes, F)))
    decreases |F|
  {
    if F != [] {
      var k := Kids(nodes, F[0]);
      var nl := NextLevel(nodes, F[1..]);
      PreByLevels(nodes, F[1..]);
      PreConcat(nodes, k, nl);
      HeadTail(F);
      assert NextLevel(nodes, F) == k + nl;
      assert Pre(nodes, F) == [F[0]] + Pre(nodes, k) + Pre(nodes, F[1..]);
    }
  }

  /** Level order and pre-order list the same nodes, each as often. */
  lemma {:induction false} LevelOrderSameNodesAsPre(nodes: seq<Node>, F: seq<nat>)
    requires Ordered(nodes) && Within(nodes, F)
    ensures multiset(LevelOrder(nodes, F)) == multiset(Pre(nodes, F))
    decreases |nodes| - Low(|nodes|, F)
  {
    if F != [] {
      NextLevelAbove(nodes, F, Low(|nodes|, F));
      LevelOrderSameNodesAsPre(nodes, NextLevel(nodes, F));
      PreByLevels(nodes, F);
    }
  }

  // ---- Stack and queue states of the iterators ----

  /** Popping the first node of a forest and putting its children in front
      of the rest leaves the pre-order of the rest unchanged. */
  lemma {:induction false} PreStep(nodes: seq<Node>, ids: seq<nat>)
    requires Ordered(nodes) && Within(nodes, ids) && ids != []
    ensures Within(nodes, Kids(nodes, ids[0]) + ids[1..])
    ensures Pre(nodes, ids) == [ids[0]] + Pre(nodes, Kids(nodes, ids[0]) + ids[1..])
  {
    var k, rest := Kids(nodes, ids[0]), ids[1..];
    PreConcat(nodes, k, rest);
    Assoc([ids[0]], Pre(nodes, k), Pre(nodes, rest));
  }

  /** A stack entry: a node and whether its children have been pushed. */
  datatype Entry = Entry(node: nat, expanded: bool)

  predicate EntriesWithin(nodes: seq<Node>, es: seq<Entry>) {
    forall j :: 0 <= j < |es| ==> es[j].node < |nodes|
  }

  /** Unexpanded entries for `ids`, in the same order. */
  function Unexpanded(ids: seq<nat>): (es: seq<Entry>)
    ensures |es| == |ids|
    ensures forall j :: 0 <= j < |ids| ==> es[j] == Entry(ids[j], false)
  {
    if ids == [] then [] else [Entry(ids[0], false)] + Unexpanded(ids[1..])
  }

  /** What a post-order stack still emits: an expanded entry only its node
      (its children are above it), an unexpanded one its whole post-order. */
  function PostPending(nodes: seq<Node>, es: seq<Entry>): seq<nat>
    requires Ordered(nodes) && EntriesWithin(nodes, es)
  {
    if es == [] then []
    else (if es[0].expanded then [es[0].node] else Post(nodes, [es[0].node])) + PostPending(nodes, es[1..])
  }

  lemma {:induction false} PostPendingUnexpanded(nodes: seq<Node>, ids: seq<nat>, es: seq<Entry>)
    requires Ordered(nodes) && Within(nodes, ids) && EntriesWithin(nodes, es)
    ensures EntriesWithin(nodes, Unexpanded(ids) + es)
    ensures PostPending(nodes, Unexpanded(ids) + es) == Post(nodes, ids) + PostPending(nodes, es)
    decreases |ids|
  {
    if ids == [] {
      EmptyConcat(Unexpanded(ids), es);
    } else {
      var e := Entry(ids[0], false);
      var tail := Unexpanded(ids[1..]) + es;
      Assoc([e], Unexpanded(ids[1..]), es);
      PostPendingUnexpanded(nodes, ids[1..], es);
      PostPendingCons(nodes, e, tail);
      HeadTail(ids);
      PostConcat(nodes, [ids[0]], ids[1..]);
      Assoc(Post(nodes, [ids[0]]), Post(nodes, ids[1..]), PostPending(nodes, es));
    }
  }

  /** The top entry of a post-order stack contributes first. */
  lemma {:induction false} PostPendingCons(nodes: seq<Node>, e: Entry, rest: seq<Entry>)
    requires Ordered(nodes) && e.node < |nodes| && EntriesWithin(nodes, rest)
    ensures EntriesWithin(nodes, [e] + rest)
    ensures PostPending(nodes, [e] + rest)
         == (if e.expanded then [e.node] else Post(nodes, [e.node])) + PostPending(nodes, rest)
  {
    var es := [e] + rest;
    assert es[0] == e && es[1..] == rest;
  }

  lemma {:induction false} PostExpandedSide(nodes: seq<Node>, x: nat, rest: seq<Entry>)
    requires Ordered(nodes) && x < |nodes| && EntriesWithin(nodes, rest)
    ensures EntriesWithin(nodes, Unexpanded(Kids(nodes, x)) + ([Entry(x, true)] + rest))
    ensures PostPending(nodes, Unexpanded(Kids(nodes, x)) + ([Entry(x, true)] + rest))
         == (Post(nodes, Kids(nodes, x)) + [x]) + PostPending(nodes, rest)
  {
    var p := Post(nodes, Kids(nodes, x));
    var q := PostPending(nodes, rest);
    PostPendingCons(nodes, Entry(x, true), rest);
    PostPendingUnexpanded(nodes, Kids(nodes, x), [Entry(x, true)] + rest);
    Assoc(p, [x], q);
  }

  lemma {:induction false} PostUnexpandedSide(nodes: seq<Node>, x: nat, rest: seq<Entry>)
    requires Ordered(nodes) && x < |nodes| && EntriesWithin(nodes, rest)
    ensures EntriesWithin(nodes, [Entry(x, false)] + rest)
    ensures PostPending(nodes, [Entry(x, false)] + rest)
         == (Post(nodes, Kids(nodes, x)) + [x]) + PostPending(nodes, rest)
  {
    PostPendingCons(nodes, Entry(x, false), rest);
    PostOfNode(nodes, x);
  }

  /** Expanding an unexpanded top entry (marking it and pushing its
      children, leftmost on top) does not change what the stack still emits. */
  lemma {:induction false} PostExpandStep(nodes: seq<Node>, x: nat, rest: seq<Entry>)
    requires Ordered(nodes) && x < |nodes| && EntriesWithin(nodes, rest)
    ensures EntriesWithin(nodes, Unexpanded(Kids(nodes, x)) + ([Entry(x, true)] + rest))
    ensures PostPending(nodes, Unexpanded(Kids(nodes, x)) + ([Entry(x, true)] + rest))
         == PostPending(nodes, [Entry(x, false)] + rest)
  {
    PostExpandedSide(nodes, x, rest);
    PostUnexpandedSide(nodes, x, rest);
  }

  /** What an in-order stack still emits: for each entry, top first, the
      node and then its other children. */
  function InPending(nodes: seq<Node>, stack: seq<nat>): seq<nat>
    requires Ordered(nodes) && Within(nodes, stack)
  {
    if stack == [] then [] else InTail(nodes, stack[0]) + InPending(nodes, stack[1..])
  }

  /** The in-order a child slot stands for: nothing for a null slot. */
  function InSlot(nodes: seq<Node>, p: Ptr): seq<nat>
    requires Ordered(nodes) && (p.Ref? ==> p.id < |nodes|)
  {
    if p.Null? then [] else In(nodes, [p.id])
  }

  /** Pushing the left spine of `p` on an empty stack leaves the in-order
      of `p`'s subtree to emit. */
  lemma {:induction false} InSlotAlone(nodes: seq<Node>, p: Ptr)
    requires Ordered(nodes) && (p.Ref? ==> p.id < |nodes|)
    ensures InPending(nodes, []) == []
    ensures InSlot(nodes, p) + InPending(nodes, []) == (if p.Ref? then In(nodes, [p.id]) else [])
  {
  }

  /** Pushing a node on an in-order stack and descending to its first child
      keeps what remains to be emitted. */
  lemma {:induction false} InPushStep(nodes: seq<Node>, x: nat, stack: seq<nat>)
    requires Ordered(nodes) && x < |nodes| && Within(nodes, stack)
    ensures Within(nodes, [x] + stack)
    ensures In(nodes, [x]) + InPending(nodes, stack)
         == In(nodes, LeftKids(nodes, x)) + InPending(nodes, [x] + stack)
  {
    var s := [x] + stack;
    assert s[0] == x && s[1..] == stack;
    InOfNode(nodes, x);
    Assoc(In(nodes, LeftKids(nodes, x)), InTail(nodes, x), InPending(nodes, stack));
  }

  /** The indices of slots that name arena nodes name arena nodes. */
  lemma {:induction false} IdsWithin(nodes: seq<Node>, ps: seq<Ptr>)
    requires forall j :: 0 <= j < |ps| && ps[j].Ref? ==> ps[j].id < |nodes|
    ensures Within(nodes, IdsOf(ps))
  {
    var r := IdsOf(ps);
    forall j | 0 <= j < |r|
      ensures r[j] < |nodes|
    {
      var k :| 0 <= k < |ps| && ps[k] == Ref(r[j]);
    }
  }

  /** Slots read from the back: the in-order of the last slot comes first. */
  lemma {:induction false} InSlotsBack(nodes: seq<Node>, ps: seq<Ptr>, p: Ptr)
    requires Ordered(nodes) && (p.Ref? ==> p.id < |nodes|)
    requires forall j :: 0 <= j < |ps| && ps[j].Ref? ==> ps[j].id < |nodes|
    ensures Within(nodes, IdsOf(Reversed(ps)))
    ensures Within(nodes, IdsOf(Reversed(ps + [p])))
    ensures In(nodes, IdsOf(Reversed(ps + [p]))) == InSlot(nodes, p) + In(nodes, IdsOf(Reversed(ps)))
  {
    var r := Reversed(ps + [p]);
    assert r == [p] + Reversed(ps) by {
      assert (ps + [p])[..|ps|] == ps;
    }
    IdsOfConcat([p], Reversed(ps));
    assert IdsOf([p]) == (if p.Ref? then [p.id] else []) by {
      assert [p][1..] == [];
    }
    IdsWithin(nodes, Reversed(ps));
    IdsWithin(nodes, r);
    InConcat(nodes, IdsOf([p]), IdsOf(Reversed(ps)));
  }

  /** A left-spine descent continues into the first slot, or stops when
      there is none; either way it accounts for the left subtree. */
  lemma {:induction false} LeftSlot(nodes: seq<Node>, x: nat)
    requires Ordered(nodes) && x < |nodes|
    ensures var ch := nodes[x].children;
      var p := if ch != [] then ch[0] else Null;
      (p.Ref? ==> x < p.id < |nodes|) && InSlot(nodes, p) == In(nodes, LeftKids(nodes, x))
  {
    var ch := nodes[x].children;
    if ch != [] && ch[0].Ref? {
      assert 0 < |ch|;
    }
  }

  /** One round of the in-order `operator++` loop: the descent into slot
      `i` puts that slot's in-order in front of the later slots' ones. */
  lemma {:induction false} InRightStep(nodes: seq<Node>, ps: seq<Ptr>, p: Ptr, pending: seq<nat>, rest: seq<nat>)
    requires Ordered(nodes) && (p.Ref? ==> p.id < |nodes|)
    requires forall j :: 0 <= j < |ps| && ps[j].Ref? ==> ps[j].id < |nodes|
    requires Within(nodes, IdsOf(Reversed(ps)))
    requires pending == In(nodes, IdsOf(Reversed(ps))) + rest
    ensures Within(nodes, IdsOf(Reversed(ps + [p])))
    ensures InSlot(nodes, p) + pending == In(nodes, IdsOf(Reversed(ps + [p]))) + rest
  {
    InSlotsBack(nodes, ps, p);
    Assoc(InSlot(nodes, p), In(nodes, IdsOf(Reversed(ps))), rest);
  }

  /** A non-null child slot names a node after its parent. */
  lemma {:induction false} SlotWithin(nodes: seq<Node>, x: nat, i: nat)
    requires Ordered(nodes) && x < |nodes| && i < |nodes[x].children|
    ensures nodes[x].children[i].Ref? ==> x < nodes[x].children[i].id < |nodes|
  {
  }

  /** Every non-null slot of a run of a node's children names a node. */
  lemma {:induction false} SlotsWithin(nodes: seq<Node>, x: nat, lo: nat, hi: nat)
    requires Ordered(nodes) && x < |nodes| && lo <= hi <= |nodes[x].children|
    ensures var ps := nodes[x].children[lo..hi];
      forall j :: 0 <= j < |ps| && ps[j].Ref? ==> ps[j].id < |nodes|
  {
    var ch := nodes[x].children;
    assert forall j :: 0 <= j < hi - lo ==> ch[lo..hi][j] == ch[lo + j];
  }

  lemma {:induction false} SliceSnoc<T>(s: seq<T>, lo: nat, i: nat)
    requires lo <= i < |s|
    ensures s[lo..i] + [s[i]] == s[lo..i + 1]
  {
  }

  lemma {:induction false} RightKidsOf(nodes: seq<Node>, x: nat, i: nat)
    requires x < |nodes| && i == |nodes[x].children| >= 1
    ensures RightKids(nodes, x) == IdsOf(Reversed(nodes[x].children[1..i]))
  {
    assert nodes[x].children[1..i] == nodes[x].children[1..];
  }

  /** Popping the top of an in-order stack leaves the in-order of the
      node's later children in front of the rest. */
  lemma {:induction false} InPendingPop(nodes: seq<Node>, stack: seq<nat>)
    requires Ordered(nodes) && Within(nodes, stack) && stack != []
    ensures InPending(nodes, stack) != [] && InPending(nodes, stack)[0] == stack[0]
    ensures Within(nodes, RightKids(nodes, stack[0]))
    ensures InPending(nodes, stack)[1..] == In(nodes, RightKids(nodes, stack[0])) + InPending(nodes, stack[1..])
  {
    var x := stack[0];
    SplitFirst([x], In(nodes, RightKids(nodes, x)));
    SplitFirst(InTail(nodes, x), InPending(nodes, stack[1..]));
  }

  /** The nodes of a stack of entries, top first. */
  function NodesOf(es: seq<Entry>): (r: seq<nat>)
    ensures |r| == |es|
    ensures forall j :: 0 <= j < |es| ==> r[j] == es[j].node
  {
    if es == [] then [] else [es[0].node] + NodesOf(es[1..])
  }

  lemma {:induction false} NodesWithin(nodes: seq<Node>, es: seq<Entry>)
    requires EntriesWithin(nodes, es)
    ensures Within(nodes, NodesOf(es))
  {
  }

  lemma {:induction false} NodesOfUnexpanded(ids: seq<nat>, es: seq<Entry>)
    ensures NodesOf(Unexpanded(ids) + es) == ids + NodesOf(es)
    decreases |ids|
  {
    if ids == [] {
      EmptyConcat(Unexpanded(ids), es);
      EmptyConcat(ids, NodesOf(es));
    } else {
      var tail := Unexpanded(ids[1..]) + es;
      assert Unexpanded(ids) == [Entry(ids[0], false)] + Unexpanded(ids[1..]);
      Assoc([Entry(ids[0], false)], Unexpanded(ids[1..]), es);
      var all := [Entry(ids[0], false)] + tail;
      assert all[0] == Entry(ids[0], false) && all[1..] == tail;
      NodesOfUnexpanded(ids[1..], es);
      HeadTail(ids);
      Assoc([ids[0]], ids[1..], NodesOf(es));
    }
  }

  lemma {:induction false} UnexpandedCons(k: nat, ids: seq<nat>)
    ensures Unexpanded([k] + ids) == [Entry(k, false)] + Unexpanded(ids)
  {
    assert ([k] + ids)[1..] == ids;
  }

  /** The entry on top after pushing `ids`: the first of them, if any. */
  lemma {:induction false} UnexpandedTop(ids: seq<nat>, es: seq<Entry>)
    ensures ids != [] ==> (Unexpanded(ids) + es)[0] == Entry(ids[0], false)
    ensures ids == [] ==> Unexpanded(ids) + es == es
  {
    if ids == [] {
      EmptyConcat(Unexpanded(ids), es);
    }
  }

  /** A stack used as a plain pre-order stack: popping the top and pushing
      its children leaves the rest of the pre-order. */
  lemma {:induction false} PreEntriesStep(nodes: seq<Node>, es: seq<Entry>)
    requires Ordered(nodes) && EntriesWithin(nodes, es) && es != []
    ensures es[0].node < |nodes|
    ensures EntriesWithin(nodes, Unexpanded(Kids(nodes, es[0].node)) + es[1..])
    ensures Within(nodes, NodesOf(es))
    ensures Within(nodes, NodesOf(Unexpanded(Kids(nodes, es[0].node)) + es[1..]))
    ensures Pre(nodes, NodesOf(es)) != [] && Pre(nodes, NodesOf(es))[0] == es[0].node
    ensures Pre(nodes, NodesOf(Unexpanded(Kids(nodes, es[0].node)) + es[1..]))
         == Pre(nodes, NodesOf(es))[1..]
  {
    var x := es[0].node;
    var ids := NodesOf(es);
    NodesWithin(nodes, es);
    NodesWithin(nodes, es[1..]);
    NodesOfUnexpanded(Kids(nodes, x), es[1..]);
    assert ids[1..] == NodesOf(es[1..]);
    PreStep(nodes, ids);
    var pushed := Unexpanded(Kids(nodes, x)) + es[1..];
    assert EntriesWithin(nodes, pushed) by {
      assert forall j :: 0 <= j < |pushed| ==> pushed[j].node == NodesOf(pushed)[j];
    }
  }

  // ---- Level-order queues (BFSIterator) ----

  lemma {:induction false} NextLevelSnoc(nodes: seq<Node>, F: seq<nat>, x: nat)
    requires Ordered(nodes) && Within(nodes, F) && x < |nodes|
    ensures Within(nodes, F + [x])
    ensures NextLevel(nodes, F + [x]) == NextLevel(nodes, F) + Kids(nodes, x)
  {
    NextLevelConcat(nodes, F, [x]);
    assert NextLevel(nodes, [x]) == Kids(nodes, x) + NextLevel(nodes, []) by {
      assert [x][1..] == [];
    }
    EmptyConcat([], Kids(nodes, x));
    assert Kids(nodes, x) + [] == Kids(nodes, x);
  }

  /** A queue in the middle of a level-order walk: the first `done` nodes of
      `level` have been popped, and their children queued behind the rest of
      the level. */
  predicate LevelQueue(nodes: seq<Node>, queue: seq<nat>, level: seq<nat>, done: nat) {
    Ordered(nodes) && Within(nodes, level) && done <= |level|
    && (done == |level| ==> level == [])
    && queue == level[done..] + NextLevel(nodes, level[..done])
  }

  /** What such a queue still emits: the rest of the level, then the level
      order of the next level. */
  function LevelPending(nodes: seq<Node>, level: seq<nat>, done: nat): seq<nat>
    requires Ordered(nodes) && Within(nodes, level) && done <= |level|
  {
    level[done..] + LevelOrder(nodes, NextLevel(nodes, level))
  }

  /** A queue holding only the root starts the level order of the root. */
  lemma {:induction false} LevelQueueStart(nodes: seq<Node>, r: nat)
    requires Ordered(nodes) && r < |nodes|
    ensures LevelQueue(nodes, [r], [r], 0)
    ensures LevelPending(nodes, [r], 0) == LevelOrder(nodes, [r])
  {
    assert [r][..0] == [];
    assert [r][0..] == [r];
  }

  /** An empty queue owes nothing, and a non-empty one owes its front next. */
  lemma {:induction false} LevelQueueFront(nodes: seq<Node>, queue: seq<nat>, level: seq<nat>, done: nat)
    requires LevelQueue(nodes, queue, level, done)
    ensures queue == [] <==> LevelPending(nodes, level, done) == []
    ensures queue != [] ==> done < |level| && queue[0] == level[done]
    ensures queue != [] ==> LevelPending(nodes, level, done)[0] == queue[0]
  {
    if done == |level| {
      assert level[..done] == [];
      assert NextLevel(nodes, level) == [];
    }
  }

  /** Popping the front of a level queue and queueing its children moves
      the boundary one node along the level. */
  lemma {:induction false} LevelQueuePop(nodes: seq<Node>, queue: seq<nat>, level: seq<nat>, done: nat)
    requires LevelQueue(nodes, queue, level, done) && queue != []
    ensures done < |level| && queue[0] == level[done] && queue[0] < |nodes|
    ensures queue[1..] + Kids(nodes, queue[0]) == level[done + 1..] + NextLevel(nodes, level[..done + 1])
  {
    LevelQueueHead(nodes, queue, level, done);
    var x := level[done];
    PopAppend(level, done, NextLevel(nodes, level[..done]), Kids(nodes, x));
    NextLevelPrefix(nodes, level, done);
  }

  lemma {:induction false} NextLevelPrefix(nodes: seq<Node>, level: seq<nat>, done: nat)
    requires Ordered(nodes) && Within(nodes, level) && done < |level|
    ensures NextLevel(nodes, level[..done + 1]) == NextLevel(nodes, level[..done]) + Kids(nodes, level[done])
  {
    assert level[..done] + [level[done]] == level[..done + 1];
    NextLevelSnoc(nodes, level[..done], level[done]);
  }

  lemma {:induction false} LevelQueueHead(nodes: seq<Node>, queue: seq<nat>, level: seq<nat>, done: nat)
    requires LevelQueue(nodes, queue, level, done) && queue != []
    ensures done < |level| && queue[0] == level[done] && level[done] < |nodes|
  {
  }

  lemma {:induction false} PopAppend<T>(level: seq<T>, done: nat, b: seq<T>, k: seq<T>)
    requires done < |level|
    ensures (level[done..] + b)[1..] + k == level[done + 1..] + (b + k)
  {
    assert (level[done..] + b)[1..] == level[done + 1..] + b;
  }

  /** Popping the front of the queue and queueing its children continues the
      walk: the new queue is a level queue again and owes the rest of what
      the old one owed. The level moves on when its last node is popped. */
  lemma {:induction false} LevelQueueStep(nodes: seq<Node>, queue: seq<nat>, level: seq<nat>, done: nat)
      returns (level': seq<nat>, done': nat)
    requires LevelQueue(nodes, queue, level, done) && queue != []
    ensures queue[0] < |nodes|
    ensures LevelQueue(nodes, queue[1..] + Kids(nodes, queue[0]), level', done')
    ensures LevelPending(nodes, level', done') == LevelPending(nodes, level, done)[1..]
    ensures done + 1 < |level| ==> level' == level && done' == done + 1
    ensures done + 1 >= |level| ==> level' == NextLevel(nodes, level) && done' == 0
  {
    LevelQueuePop(nodes, queue, level, done);
    SplitFirst(level[done..], LevelOrder(nodes, NextLevel(nodes, level)));
    assert level[done..][1..] == level[done + 1..];
    if done + 1 < |level| {
      level', done' := level, done + 1;
    } else {
      level', done' := NextLevel(nodes, level), 0;
      LevelQueueWrap(nodes, queue[1..] + Kids(nodes, queue[0]), level);
    }
  }

  /** When the last node of a level is popped, the queue holds exactly the
      next level. */
  lemma {:induction false} LevelQueueWrap(nodes: seq<Node>, q: seq<nat>, level: seq<nat>)
    requires Ordered(nodes) && Within(nodes, level) && level != []
    requires q == level[|level|..] + NextLevel(nodes, level[..|level|])
    ensures LevelQueue(nodes, q, NextLevel(nodes, level), 0)
    ensures LevelPending(nodes, NextLevel(nodes, level), 0) == level[|level|..] + LevelOrder(nodes, NextLevel(nodes, level))
  {
    var next := NextLevel(nodes, level);
    assert level[..|level|] == level;
    EmptyConcat(level[|level|..], next);
    LevelRestart(nodes, next);
    EmptyConcat(level[|level|..], LevelOrder(nodes, next));
  }

  /** A queue holding exactly a level, none of it popped. */
  lemma {:induction false} LevelRestart(nodes: seq<Node>, next: seq<nat>)
    requires Ordered(nodes) && Within(nodes, next)
    ensures LevelQueue(nodes, next, next, 0)
    ensures LevelPending(nodes, next, 0) == LevelOrder(nodes, next)
  {
    assert next[..0] == [] && next[0..] == next;
    assert NextLevel(nodes, []) == [];
    EmptyConcat(next[..0], next);
    if next == [] {
      assert NextLevel(nodes, next) == [];
    }
  }
}

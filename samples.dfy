// Two of the sample trees the repository's own tests build, as arenas
// (nodes numbered in allocation order), and the orders the traversal
// functions give them. Real payloads are kept as their printed text.

module Samples {
  import opened Nodes
  import opened Orders

  // ---- Single-node steps, one per shape of children, given the orders
  // ---- of the children's subtrees ----

  /** The non-null children of a node, as indices, for one to three slots. */
  lemma {:induction false} KidsOfOne(nodes: seq<Node>, x: nat, a: nat)
    requires x < |nodes| && nodes[x].children == [Ref(a)]
    ensures Kids(nodes, x) == [a]
  {
    var ch := nodes[x].children;
    IdsOfCons(ch, 0);
    assert ch[0..] == ch && ch[1..] == [];
  }

  lemma {:induction false} KidsOfTwo(nodes: seq<Node>, x: nat, a: nat, b: nat)
    requires x < |nodes| && nodes[x].children == [Ref(a), Ref(b)]
    ensures Kids(nodes, x) == [a, b]
  {
    var ch := nodes[x].children;
    IdsOfCons(ch, 0);
    IdsOfCons(ch, 1);
    assert ch[0..] == ch && ch[2..] == [];
  }

  lemma {:induction false} KidsOfThree(nodes: seq<Node>, x: nat, a: nat, b: nat, c: nat)
    requires x < |nodes| && nodes[x].children == [Ref(a), Ref(b), Ref(c)]
    ensures Kids(nodes, x) == [a, b, c]
  {
    var ch := nodes[x].children;
    IdsOfCons(ch, 0);
    IdsOfCons(ch, 1);
    IdsOfCons(ch, 2);
    assert ch[0..] == ch && ch[3..] == [];
  }

  lemma {:induction false} PreLeaf(nodes: seq<Node>, x: nat)
    requires Ordered(nodes) && x < |nodes| && nodes[x].children == []
    ensures Within(nodes, [x]) && Pre(nodes, [x]) == [x]
  {
    PreOfNode(nodes, x);
  }

  lemma {:induction false} PreOfOne(nodes: seq<Node>, x: nat, a: nat, la: seq<nat>)
    requires Ordered(nodes) && x < |nodes| && nodes[x].children == [Ref(a)]
    requires a < |nodes| && Pre(nodes, [a]) == la
    ensures Within(nodes, [x]) && Pre(nodes, [x]) == [x] + la
  {
    KidsOfOne(nodes, x, a);
    PreOfNode(nodes, x);
  }

  /** The pre-order of two sibling subtrees, given each one's. */
  lemma {:induction false} PreOfSiblings(nodes: seq<Node>, a: nat, b: nat, la: seq<nat>, lb: seq<nat>)
    requires Ordered(nodes) && a < |nodes| && b < |nodes|
    requires Pre(nodes, [a]) == la && Pre(nodes, [b]) == lb
    ensures Within(nodes, [a, b]) && Pre(nodes, [a, b]) == la + lb
  {
    assert [a] + [b] == [a, b];
    PreConcat(nodes, [a], [b]);
  }

  lemma {:induction false} PreOfTwo(nodes: seq<Node>, x: nat, a: nat, b: nat, la: seq<nat>, lb: seq<nat>)
    requires Ordered(nodes) && x < |nodes| && nodes[x].children == [Ref(a), Ref(b)]
    requires a < |nodes| && b < |nodes| && Pre(nodes, [a]) == la && Pre(nodes, [b]) == lb
    ensures Within(nodes, [x]) && Pre(nodes, [x]) == [x] + la + lb
  {
    KidsOfTwo(nodes, x, a, b);
    PreOfNode(nodes, x);
    PreOfSiblings(nodes, a, b, la, lb);
  }

  /** The pre-order of three sibling subtrees, given each one's. */
  lemma {:induction false} PreOfTriple(nodes: seq<Node>, a: nat, b: nat, c: nat,
                                       la: seq<nat>, lb: seq<nat>, lc: seq<nat>)
    requires Ordered(nodes) && a < |nodes| && b < |nodes| && c < |nodes|
    requires Pre(nodes, [a]) == la && Pre(nodes, [b]) == lb && Pre(nodes, [c]) == lc
    ensures Within(nodes, [a, b, c]) && Pre(nodes, [a, b, c]) == la + (lb + lc)
  {
    PreOfSiblings(nodes, b, c, lb, lc);
    assert [a] + [b, c] == [a, b, c];
    PreConcat(nodes, [a], [b, c]);
  }

  lemma {:induction false} PreOfThree(nodes: seq<Node>, x: nat, a: nat, b: nat, c: nat,
                                      la: seq<nat>, lb: seq<nat>, lc: seq<nat>)
    requires Ordered(nodes) && x < |nodes| && nodes[x].children == [Ref(a), Ref(b), Ref(c)]
    requires a < |nodes| && b < |nodes| && c < |nodes|
    requires Pre(nodes, [a]) == la && Pre(nodes, [b]) == lb && Pre(nodes, [c]) == lc
    ensures Within(nodes, [x]) && Pre(nodes, [x]) == [x] + la + lb + lc
  {
    assert [x] + (la + (lb + lc)) == [x] + la + lb + lc;
    KidsOfThree(nodes, x, a, b, c);
    PreOfTriple(nodes, a, b, c, la, lb, lc);
    PreOfNode(nodes, x);
  }

  lemma {:induction false} PostLeaf(nodes: seq<Node>, x: nat)
    requires Ordered(nodes) && x < |nodes| && nodes[x].children == []
    ensures Within(nodes, [x]) && Post(nodes, [x]) == [x]
  {
    PostOfNode(nodes, x);
  }

  lemma {:induction false} PostOfOne(nodes: seq<Node>, x: nat, a: nat, la: seq<nat>)
    requires Ordered(nodes) && x < |nodes| && nodes[x].children == [Ref(a)]
    requires a < |nodes| && Post(nodes, [a]) == la
    ensures Within(nodes, [x]) && Post(nodes, [x]) == la + [x]
  {
    KidsOfOne(nodes, x, a);
    PostOfNode(nodes, x);
  }

  lemma {:induction false} PostOfTwo(nodes: seq<Node>, x: nat, a: nat, b: nat, la: seq<nat>, lb: seq<nat>)
    requires Ordered(nodes) && x < |nodes| && nodes[x].children == [Ref(a), Ref(b)]
    requires a < |nodes| && b < |nodes| && Post(nodes, [a]) == la && Post(nodes, [b]) == lb
    ensures Within(nodes, [x]) && Post(nodes, [x]) == la + lb + [x]
  {
    KidsOfTwo(nodes, x, a, b);
    PostOfNode(nodes, x);
    assert [a] + [b] == [a, b];
    PostConcat(nodes, [a], [b]);
  }

  lemma {:induction false} InLeaf(nodes: seq<Node>, x: nat)
    requires Ordered(nodes) && x < |nodes| && nodes[x].children == []
    ensures Within(nodes, [x]) && In(nodes, [x]) == [x]
  {
    InSingle(nodes, x);
  }

  lemma {:induction false} InOfOne(nodes: seq<Node>, x: nat, a: nat, la: seq<nat>)
    requires Ordered(nodes) && x < |nodes| && nodes[x].children == [Ref(a)]
    requires a < |nodes| && In(nodes, [a]) == la
    ensures Within(nodes, [x]) && In(nodes, [x]) == la + [x]
  {
    InOfUnaryNode(nodes, x, a);
  }

  lemma {:induction false} InOfTwo(nodes: seq<Node>, x: nat, a: nat, b: nat, la: seq<nat>, lb: seq<nat>)
    requires Ordered(nodes) && x < |nodes| && nodes[x].children == [Ref(a), Ref(b)]
    requires a < |nodes| && b < |nodes| && In(nodes, [a]) == la && In(nodes, [b]) == lb
    ensures Within(nodes, [x]) && In(nodes, [x]) == la + [x] + lb
  {
    InOfBinaryNode(nodes, x, a, b);
  }

  // ---- The binary sample tree (degree 2) ----

  /** The shape of the binary sample: which node has which children. */
  predicate BinaryShape(n: seq<Node>) {
    |n| == 9 &&
    n[0].children == [Ref(1), Ref(2)] && n[1].children == [Ref(3), Ref(4)] &&
    n[2].children == [Ref(5), Ref(6)] && n[5].children == [Ref(7)] &&
    n[6].children == [Ref(8)] && n[3].children == [] && n[4].children == [] &&
    n[7].children == [] && n[8].children == []
  }

  /** root2 with children 10 and n2; 10 with 20.45 and 0.5; n2 with n5 and
      n6; n5 with 4.57i; n6 with 3-1.2i. */
  function BinarySample(): (nodes: seq<Node>)
    ensures Ordered(nodes) && NoNulls(nodes) && DegreeBounded(nodes, 2)
    ensures BinaryShape(nodes)
  {
    [ Node(Text("root2"), [Ref(1), Ref(2)]),
      Node(Integer(10), [Ref(3), Ref(4)]),
      Node(Text("n2"), [Ref(5), Ref(6)]),
      Node(Text("20.45"), []),
      Node(Text("0.5"), []),
      Node(Text("n5"), [Ref(7)]),
      Node(Text("n6"), [Ref(8)]),
      Node(Text("4.57i"), []),
      Node(Text("3-1.2i"), []) ]
  }

  // The sequence arithmetic of each walk comes first, while the context
  // holds no facts about the orders yet.

  /** The pre-order the tests expect: root2 10 20.45 0.5 n2 n5 4.57i n6 3-1.2i. */
  lemma {:induction false} BinarySamplePre(n: seq<Node>)
    requires Ordered(n) && BinaryShape(n)
    ensures Pre(n, [0]) == [0, 1, 3, 4, 2, 5, 7, 6, 8]
  {
    var p1: seq<nat>, p2: seq<nat> := [1, 3, 4], [2, 5, 7, 6, 8];
    assert [1] + [3] + [4] == p1 && [2] + [5, 7] + [6, 8] == p2;
    assert [0] + p1 + p2 == [0, 1, 3, 4, 2, 5, 7, 6, 8];
    assert [5] + [7] == [5, 7] && [6] + [8] == [6, 8];
    PreLeaf(n, 3); PreLeaf(n, 4); PreLeaf(n, 7); PreLeaf(n, 8);
    PreOfOne(n, 5, 7, [7]); PreOfOne(n, 6, 8, [8]);
    PreOfTwo(n, 1, 3, 4, [3], [4]);
    PreOfTwo(n, 2, 5, 6, [5, 7], [6, 8]);
    PreOfTwo(n, 0, 1, 2, p1, p2);
  }

  /** The post-order the tests expect: 20.45 0.5 10 4.57i n5 3-1.2i n6 n2 root2. */
  lemma {:induction false} BinarySamplePost(n: seq<Node>)
    requires Ordered(n) && BinaryShape(n)
    ensures Post(n, [0]) == [3, 4, 1, 7, 5, 8, 6, 2, 0]
  {
    var p1: seq<nat>, p2: seq<nat> := [3, 4, 1], [7, 5, 8, 6, 2];
    assert [3] + [4] + [1] == p1 && [7, 5] + [8, 6] + [2] == p2;
    assert p1 + p2 + [0] == [3, 4, 1, 7, 5, 8, 6, 2, 0];
    assert [7] + [5] == [7, 5] && [8] + [6] == [8, 6];
    PostLeaf(n, 3); PostLeaf(n, 4); PostLeaf(n, 7); PostLeaf(n, 8);
    PostOfOne(n, 5, 7, [7]); PostOfOne(n, 6, 8, [8]);
    PostOfTwo(n, 1, 3, 4, [3], [4]);
    PostOfTwo(n, 2, 5, 6, [7, 5], [8, 6]);
    PostOfTwo(n, 0, 1, 2, p1, p2);
  }

  /** The in-order the tests expect: 20.45 10 0.5 root2 4.57i n5 n2 3-1.2i n6. */
  lemma {:induction false} BinarySampleIn(n: seq<Node>)
    requires Ordered(n) && BinaryShape(n)
    ensures In(n, [0]) == [3, 1, 4, 0, 7, 5, 2, 8, 6]
  {
    var p1: seq<nat>, p2: seq<nat> := [3, 1, 4], [7, 5, 2, 8, 6];
    assert [3] + [1] + [4] == p1 && [7, 5] + [2] + [8, 6] == p2;
    assert p1 + [0] + p2 == [3, 1, 4, 0, 7, 5, 2, 8, 6];
    assert [7] + [5] == [7, 5] && [8] + [6] == [8, 6];
    InLeaf(n, 3); InLeaf(n, 4); InLeaf(n, 7); InLeaf(n, 8);
    InOfOne(n, 5, 7, [7]); InOfOne(n, 6, 8, [8]);
    InOfTwo(n, 1, 3, 4, [3], [4]);
    InOfTwo(n, 2, 5, 6, [7, 5], [8, 6]);
    InOfTwo(n, 0, 1, 2, p1, p2);
  }

  // ---- The first sample tree (degree 3) ----

  /** The shape of the first sample. */
  predicate TernaryShape(n: seq<Node>) {
    |n| == 9 &&
    n[0].children == [Ref(1), Ref(2), Ref(3)] && n[1].children == [Ref(4), Ref(5)] &&
    n[2].children == [Ref(6), Ref(7)] && n[5].children == [Ref(8)] &&
    n[3].children == [] && n[4].children == [] && n[6].children == [] &&
    n[7].children == [] && n[8].children == []
  }

  /** root with children 1, n2 and 12.35; 1 with 0.25 and n5; n2 with n6
      and n7; n5 with 7-4.5i. */
  function TernarySample(): (nodes: seq<Node>)
    ensures Ordered(nodes) && NoNulls(nodes) && DegreeBounded(nodes, 3)
    ensures TernaryShape(nodes)
  {
    [ Node(Text("root"), [Ref(1), Ref(2), Ref(3)]),
      Node(Integer(1), [Ref(4), Ref(5)]),
      Node(Text("n2"), [Ref(6), Ref(7)]),
      Node(Text("12.35"), []),
      Node(Text("0.25"), []),
      Node(Text("n5"), [Ref(8)]),
      Node(Text("n6"), []),
      Node(Text("n7"), []),
      Node(Text("7-4.5i"), []) ]
  }

  /** The pre-order the tests expect of a degree-3 tree, which is the
      depth-first order: root 1 0.25 n5 7-4.5i n2 n6 n7 12.35. */
  lemma {:induction false} TernarySamplePre(n: seq<Node>)
    requires Ordered(n) && TernaryShape(n)
    ensures Pre(n, [0]) == [0, 1, 4, 5, 8, 2, 6, 7, 3]
  {
    var p1: seq<nat>, p2: seq<nat> := [1, 4, 5, 8], [2, 6, 7];
    assert [1] + [4] + [5, 8] == p1 && [2] + [6] + [7] == p2;
    assert [0] + p1 + p2 + [3] == [0, 1, 4, 5, 8, 2, 6, 7, 3];
    assert [5] + [8] == [5, 8];
    PreLeaf(n, 3); PreLeaf(n, 4); PreLeaf(n, 6); PreLeaf(n, 7); PreLeaf(n, 8);
    PreOfOne(n, 5, 8, [8]);
    PreOfTwo(n, 1, 4, 5, [4], [5, 8]);
    PreOfTwo(n, 2, 6, 7, [6], [7]);
    PreOfThree(n, 0, 1, 2, 3, p1, p2, [3]);
  }
}

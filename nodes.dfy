// node.hpp: nodes holding a value and an ordered list of child pointers.
// Node memory is an arena: a pointer is an index into `Arena.nodes`.

module Nodes {
  import opened Decimal
  import Complex

  /** A `BaseNode*`: null or the index of a live node. */
  datatype Ptr = Null | Ref(id: nat)

  /** The payload of a `Node<T>` for the payload types the model covers. */
  datatype Value = Text(s: string) | Integer(n: int) | Pair(c: Complex.Complex)

  datatype Node = Node(value: Value, children: seq<Ptr>)

  /** Errors thrown (as `std::runtime_error`) by the tree and its iterators. */
  datatype Error = InvalidArgument | DegreeExceeded | CorruptTree

  datatype Outcome = Pass | Fail(error: Error)

  /** `get_value`: a string node returns its string, an arithmetic node its
      `std::to_string`, any other payload (a `Complex`) "Unsupported type". */
  function GetValue(v: Value): (r: string)
    ensures v.Text? ==> r == v.s
    ensures v.Integer? ==> ParseInt(r) == Some(v.n)
    ensures v.Pair? ==> r == "Unsupported type"
  {
    match v
    case Text(s) => s
    case Integer(n) => IntToStringRoundTrip(n); IntToString(n)
    case Pair(_) => "Unsupported type"
  }

  /** Acyclicity, as the arena represents it: every non-null child slot
      points to a node allocated after its parent. */
  predicate Ordered(nodes: seq<Node>) {
    forall i, k :: 0 <= i < |nodes| && 0 <= k < |nodes[i].children| && nodes[i].children[k].Ref? ==>
      i < nodes[i].children[k].id < |nodes|
  }

  /** No child slot anywhere in the arena is null. */
  predicate NoNulls(nodes: seq<Node>) {
    forall i, k :: 0 <= i < |nodes| && 0 <= k < |nodes[i].children| ==> nodes[i].children[k].Ref?
  }

  /** Under NoNulls, no slot of node `x` is null. */
  lemma {:induction false} NoNullChild(nodes: seq<Node>, x: nat)
    requires NoNulls(nodes) && x < |nodes|
    ensures Null !in nodes[x].children
  {
    var ch := nodes[x].children;
    assert forall k :: 0 <= k < |ch| ==> ch[k].Ref?;
  }

  /** No node is held by two child slots: a node has at most one parent,
      and a parent lists it once. */
  predicate OneParent(nodes: seq<Node>) {
    forall i, k, j, l ::
      0 <= i < |nodes| && 0 <= k < |nodes[i].children| && 0 <= j < |nodes| && 0 <= l < |nodes[j].children|
      && nodes[i].children[k].Ref? && nodes[i].children[k] == nodes[j].children[l]
      ==> i == j && k == l
  }

  /** No child slot holds node `c` yet. */
  predicate Orphan(nodes: seq<Node>, c: nat) {
    forall i, k :: 0 <= i < |nodes| && 0 <= k < |nodes[i].children| ==> nodes[i].children[k] != Ref(c)
  }

  /** Linking an orphan below a node keeps every node's parent unique. */
  lemma {:induction false} OneParentLink(nodes: seq<Node>, p: nat, c: nat)
    requires OneParent(nodes) && p < |nodes| && Orphan(nodes, c)
    ensures OneParent(nodes[p := Node(nodes[p].value, nodes[p].children + [Ref(c)])])
  {
    var m := nodes[p := Node(nodes[p].value, nodes[p].children + [Ref(c)])];
    assert forall i, k :: 0 <= i < |m| && 0 <= k < |m[i].children| ==>
      m[i].children[k] == if i == p && k == |nodes[p].children| then Ref(c) else nodes[i].children[k];
  }

  /** The forest a root pointer stands for: the root alone, or nothing. */
  function Roots(p: Ptr): seq<nat> {
    if p.Ref? then [p.id] else []
  }

  /** Every index in `ids` names a node of the arena. */
  predicate Within(nodes: seq<Node>, ids: seq<nat>) {
    forall j :: 0 <= j < |ids| ==> ids[j] < |nodes|
  }

  /** The indices of the non-null pointers of `ps`, in order. */
  function IdsOf(ps: seq<Ptr>): (r: seq<nat>)
    ensures |r| <= |ps|
    ensures forall j :: 0 <= j < |r| ==> Ref(r[j]) in ps
  {
    if ps == [] then []
    else (if ps[0].Ref? then [ps[0].id] else []) + IdsOf(ps[1..])
  }

  lemma {:induction false} IdsOfConcat(a: seq<Ptr>, b: seq<Ptr>)
    ensures IdsOf(a + b) == IdsOf(a) + IdsOf(b)
  {
    if a == [] {
      assert a + b == b;
    } else {
      assert (a + b)[1..] == a[1..] + b;
      IdsOfConcat(a[1..], b);
    }
  }

  /** The non-null children of node `i`, left to right. */
  function Kids(nodes: seq<Node>, i: nat): (r: seq<nat>)
    requires i < |nodes|
    ensures Ordered(nodes) ==> forall j :: 0 <= j < |r| ==> i < r[j] < |nodes|
  {
    var r := IdsOf(nodes[i].children);
    assert forall j :: 0 <= j < |r| ==> Ref(r[j]) in nodes[i].children;
    r
  }

  /** Length of the longest prefix of `ps` without a null slot: the slot a
      front-to-back loop that throws on null stops at. */
  function RefPrefix(ps: seq<Ptr>): (k: nat)
    ensures k <= |ps|
    ensures forall j :: 0 <= j < k ==> ps[j].Ref?
    ensures k < |ps| ==> ps[k].Null?
  {
    if ps == [] || ps[0].Null? then 0 else 1 + RefPrefix(ps[1..])
  }

  /** Length of the longest suffix of `ps` without a null slot: where a
      back-to-front loop that throws on null stops. */
  function RefSuffix(ps: seq<Ptr>): (k: nat)
    ensures k <= |ps|
    ensures forall j :: |ps| - k <= j < |ps| ==> ps[j].Ref?
    ensures k < |ps| ==> ps[|ps| - 1 - k].Null?
  {
    if ps == [] || ps[|ps| - 1].Null? then 0 else 1 + RefSuffix(ps[..|ps| - 1])
  }

  /** A loop that stops at the first null slot stops where RefPrefix says. */
  lemma {:induction false} RefPrefixAt(ps: seq<Ptr>, i: nat)
    requires i <= |ps| && (forall j :: 0 <= j < i ==> ps[j].Ref?)
    requires i < |ps| ==> ps[i].Null?
    ensures RefPrefix(ps) == i
    decreases i
  {
    if i > 0 {
      RefPrefixAt(ps[1..], i - 1);
    }
  }

  /** A back-to-front loop that stops at the last null slot stops where
      RefSuffix says. */
  lemma {:induction false} RefSuffixAt(ps: seq<Ptr>, i: nat)
    requires i <= |ps| && (forall j :: i <= j < |ps| ==> ps[j].Ref?)
    requires i > 0 ==> ps[i - 1].Null?
    ensures RefSuffix(ps) == |ps| - i
    decreases |ps| - i
  {
    if i < |ps| {
      var front := ps[..|ps| - 1];
      assert forall j :: i <= j < |front| ==> front[j] == ps[j];
      RefSuffixAt(front, i);
    }
  }

  /** Appending a non-null slot appends its index. */
  lemma {:induction false} IdsOfSnoc(ps: seq<Ptr>, p: Ptr)
    requires p.Ref?
    ensures IdsOf(ps + [p]) == IdsOf(ps) + [p.id]
  {
    IdsOfConcat(ps, [p]);
    assert IdsOf([p]) == [p.id] by {
      assert [p][1..] == [];
    }
  }

  /** Extending a prefix by one slot adds that slot's index, if any. */
  lemma {:induction false} IdsOfPrefix(ps: seq<Ptr>, i: nat)
    requires i < |ps|
    ensures IdsOf(ps[..i + 1]) == IdsOf(ps[..i]) + (if ps[i].Ref? then [ps[i].id] else [])
  {
    assert ps[..i + 1] == ps[..i] + [ps[i]];
    IdsOfConcat(ps[..i], [ps[i]]);
    assert [ps[i]][1..] == [];
  }

  /** Prepending a non-null slot prepends its index. */
  lemma {:induction false} IdsOfCons(ps: seq<Ptr>, k: nat)
    requires k < |ps| && ps[k].Ref?
    ensures IdsOf(ps[k..]) == [ps[k].id] + IdsOf(ps[k + 1..])
  {
    assert ps[k..][1..] == ps[k + 1..];
  }

  /** A null slot contributes nothing. */
  lemma {:induction false} IdsOfSkip(ps: seq<Ptr>, k: nat)
    requires k < |ps| && ps[k].Null?
    ensures IdsOf(ps[k..]) == IdsOf(ps[k + 1..])
  {
    assert ps[k..][1..] == ps[k + 1..];
  }

  /** No node has more than `d` children. */
  predicate DegreeBounded(nodes: seq<Node>, d: nat) {
    forall i :: 0 <= i < |nodes| ==> |nodes[i].children| <= d
  }

  /** The text a node's key is computed from: the value's own rendering;
      for a pair, the "<re><sign><im>i" rendering of Complex.cpp. */
  function KeyText(v: Value): (r: string)
    ensures !v.Pair? ==> r == GetValue(v)
  {
    match v
    case Text(s) => s
    case Integer(n) => IntToString(n)
    case Pair(c) => Complex.ToString(c)
  }

  /** `get_ascii_value`: the character-code sum of the key text, in an
      `unsigned int`. */
  function Key(v: Value): (k: nat)
    ensures k < Complex.WordSize
  {
    Complex.CodeSum(KeyText(v)) % Complex.WordSize
  }

  /** The node memory: `new Node<T>(v)` allocates, `add_child` links. */
  class Arena {
    var nodes: seq<Node>

    constructor ()
      ensures nodes == []
    {
      nodes := [];
    }

    /** The invariant the arena's own operations keep. */
    predicate Valid()
      reads this
    {
      Ordered(nodes) && NoNulls(nodes) && OneParent(nodes)
    }

    /** `new Node<T>(v)`: a fresh node with no children. */
    method NewNode(v: Value) returns (p: Ptr)
      modifies this
      ensures p == Ref(|old(nodes)|)
      ensures nodes == old(nodes) + [Node(v, [])]
      ensures old(Valid()) ==> Valid()
    {
      p := Ref(|nodes|);
      nodes := nodes + [Node(v, [])];
    }

    /** `BaseNode::add_child`: a non-null child is appended at the end of
        the parent's children; a null one is refused and nothing changes.
        The invariant is kept when the child is a node allocated after the
        parent that no slot holds yet. */
    method AddChild(parent: nat, child: Ptr)
      requires parent < |nodes|
      modifies this
      ensures child.Null? ==> nodes == old(nodes)
      ensures child.Ref? ==>
        nodes == old(nodes)[parent := Node(old(nodes)[parent].value, old(nodes)[parent].children + [child])]
      ensures old(Valid()) && (child.Ref? ==> parent < child.id < |nodes| && Orphan(old(nodes), child.id)) ==> Valid()
    {
      if child.Ref? {
        if OneParent(nodes) && Orphan(nodes, child.id) {
          OneParentLink(nodes, parent, child.id);
        }
        var n := nodes[parent];
        nodes := nodes[parent := Node(n.value, n.children + [child])];
      }
    }
  }
}

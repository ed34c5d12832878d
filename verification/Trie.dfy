/** Merkle Patricia trie: nodes and the recursive operations on them. */
module Trie {
  import opened Bytes

  type nibble = x: int | 0 <= x < 16

  type Nibbles = seq<nibble>

  datatype Kind = Empty | Leaf | Extension | Branch

  /** A reference to a node, or none. Every node carries all four fields whatever its kind, as in the source;
      the children of a branch are 17 pointers, of which the last is never used. */
  datatype NodePtr =
    | Null
    | Node(kind: Kind, path: Nibbles, value: Bytes, children: seq<NodePtr>)

  const EMPTY_NODE: NodePtr := Node(Empty, [], [], [])
  const NO_CHILDREN: seq<NodePtr> :=
    [Null, Null, Null, Null, Null, Null, Null, Null, Null, Null, Null, Null, Null, Null, Null, Null, Null]

  /** How a branch with one remaining child is collapsed: as the code does it (always an
      extension that takes over the child's path, value and children) or as the comment above
      that code describes it (a merged leaf or extension). */
  datatype Collapsing = AsWritten | AsDocumented

  /** What a lookup observes; a fault is an access past the end of a children vector. */
  datatype Outcome = Fault | Missing | Found(value: Bytes)

  function OneChild(at: nibble, child: NodePtr): (children: seq<NodePtr>)
    ensures |children| == 17
    ensures forall i | 0 <= i < 17 :: children[i] == if i == at then child else Null
  {
    NO_CHILDREN[at := child]
  }

  predicate Live(n: NodePtr) {
    n.Node? && n.kind != Empty
  }

  function LeafNode(path: Nibbles, value: Bytes): NodePtr {
    Node(Leaf, path, value, [])
  }

  function ExtensionNode(path: Nibbles, child: NodePtr): NodePtr {
    Node(Extension, path, [], [child])
  }

  /** Key bytes to hex digits, high nibble first. */
  function ToNibbles(key: Bytes): (n: Nibbles)
    ensures |n| == 2 * |key|
  {
    if key == [] then [] else [key[0] / 16, key[0] % 16] + ToNibbles(key[1..])
  }

  /** Length of the longest common prefix. */
  function CommonPrefix(a: Nibbles, b: Nibbles): (n: nat)
    ensures n <= |a| && n <= |b|
    ensures n < |a| && n < |b| ==> a[n] != b[n]
  {
    if a != [] && b != [] && a[0] == b[0] then 1 + CommonPrefix(a[1..], b[1..]) else 0
  }

  lemma {:induction false} CommonPrefixAgrees(a: Nibbles, b: Nibbles)
    ensures a[..CommonPrefix(a, b)] == b[..CommonPrefix(a, b)]
  {
    if a != [] && b != [] && a[0] == b[0] {
      CommonPrefixAgrees(a[1..], b[1..]);
      var n := CommonPrefix(a[1..], b[1..]);
      assert a[..n + 1] == [a[0]] + a[1..][..n] && b[..n + 1] == [b[0]] + b[1..][..n];
    }
  }

  /** Memory safety of Insert and Remove: the children they index exist. */
  predicate Shaped(n: NodePtr) {
    n.Node? ==>
      && (forall c | c in n.children :: Shaped(c))
      && (n.kind == Extension ==> |n.children| >= 1 && n.children[0].Node?)
      && (n.kind == Branch ==> |n.children| == 17)
  }

  /** A key longer than a leaf's path: a branch that takes over the leaf's value. */
  function GrowLeaf(node: NodePtr, rest: Nibbles, value: Bytes): (r: NodePtr)
    requires node.Node? && |node.path| < |rest|
    ensures r.Node?
  {
    var common := |node.path|;
    var branch := Node(Branch, [], node.value, OneChild(rest[common], FreshLeaf(rest[common + 1..], value)));
    if common > 0 then ExtensionNode(node.path, branch) else branch
  }

  /** The branch at a digit where a key leaves the path of a leaf or extension. */
  function Fork(node: NodePtr, rest: Nibbles, common: nat, value: Bytes): (r: NodePtr)
    requires node.Node? && common < |node.path| && common <= |rest|
  {
    var lower := Node(node.kind, node.path[common + 1..], node.value, node.children);
    var withLower := OneChild(node.path[common], lower);
    if common < |rest| then
      Node(Branch, [], [], withLower[rest[common] := FreshLeaf(rest[common + 1..], value)])
    else
      Node(Branch, [], value, withLower)
  }

  /** Split a leaf or extension whose path leaves the key after `common` digits. */
  function Split(node: NodePtr, rest: Nibbles, common: nat, value: Bytes): (r: NodePtr)
    requires node.Node? && common < |node.path| && common <= |rest|
    ensures r.Node?
  {
    var branch := Fork(node, rest, common, value);
    if common > 0 then ExtensionNode(node.path[..common], branch) else branch
  }

  /** Insert below `node`; `rest` is the part of the key from the current index on. */
  function Insert(node: NodePtr, rest: Nibbles, value: Bytes): (r: NodePtr)
    requires node.Node? && Shaped(node)
    ensures r.Node?
    decreases node
  {
    if rest == [] then
      if node.kind == Empty then LeafNode([], value)
      else if node.kind == Branch then node.(value := value)
      else Node(Branch, [], value, NO_CHILDREN)
    else if node.kind == Empty then
      LeafNode(rest, value)
    else if node.kind == Branch then
      node.(children := node.children[rest[0] := InsertChild(node, rest[0], rest[1..], value)])
    else if CommonPrefix(rest, node.path) < |node.path| then
      Split(node, rest, CommonPrefix(rest, node.path), value)
    else if node.kind == Extension then
      node.(children := node.children[0 := Insert(node.children[0], rest[|node.path|..], value)])
    else if |node.path| == |rest| then
      node.(value := value)
    else
      GrowLeaf(node, rest, value)
  }

  /** Insert below child `at` of a branch, or below a new empty node if there is no such child. */
  function InsertChild(node: NodePtr, at: nibble, rest: Nibbles, value: Bytes): (r: NodePtr)
    requires node.Node? && Shaped(node) && |node.children| == 17
    ensures r.Node?
    decreases node, 0
  {
    if node.children[at].Null? then FreshLeaf(rest, value) else Insert(node.children[at], rest, value)
  }

  /** Insert into a freshly made empty node. */
  function FreshLeaf(rest: Nibbles, value: Bytes): NodePtr {
    LeafNode(rest, value)
  }

  function Lookup(node: NodePtr, rest: Nibbles): Outcome
    decreases node
  {
    if !Live(node) then Missing
    else if rest == [] then
      if node.kind != Extension && node.value != [] then Found(node.value) else Missing
    else
      match node.kind
      case Leaf => if node.path == rest then Found(node.value) else Missing
      case Extension =>
        if node.path <= rest then
          if node.children == [] then Fault else Lookup(node.children[0], rest[|node.path|..])
        else Missing
      case Branch =>
        if |node.children| <= rest[0] then Fault else Lookup(node.children[rest[0]], rest[1..])
      case Empty => Missing
  }

  /** The children that are live: how many, and the last one. */
  function Survey(children: seq<NodePtr>): (r: (nat, int))
    ensures r.0 >= 1 ==> 0 <= r.1 < |children| && Live(children[r.1])
  {
    if children == [] then (0, -1)
    else
      var k := |children| - 1;
      var (count, last) := Survey(children[..k]);
      if Live(children[k]) then (count + 1, k) else (count, last)
  }

  lemma {:induction false} SurveyCounts(children: seq<NodePtr>)
    ensures var r := Survey(children);
            && (r.0 == 0 <==> forall i | 0 <= i < |children| :: !Live(children[i]))
            && (r.0 == 1 ==> forall i | 0 <= i < |children| :: i != r.1 ==> !Live(children[i]))
            && (r.0 >= 2 ==> exists i | 0 <= i < |children| :: i != r.1 && Live(children[i]))
  {
    if children != [] {
      var k := |children| - 1;
      SurveyCounts(children[..k]);
      assert forall i | 0 <= i < k :: children[..k][i] == children[i];
    }
  }

  /** The survey of a branch: the place for a value is not looked at. */
  function Remaining(children: seq<NodePtr>): (r: (nat, int))
    requires |children| == 17
    ensures r.0 >= 1 ==> 0 <= r.1 < 16 && Live(children[r.1])
  {
    Survey(children[..16])
  }

  lemma RemainingCounts(children: seq<NodePtr>)
    requires |children| == 17
    ensures var r := Remaining(children);
            && (r.0 == 0 <==> forall i | 0 <= i < 16 :: !Live(children[i]))
            && (r.0 == 1 ==> forall i | 0 <= i < 16 :: i != r.1 ==> !Live(children[i]))
            && (r.0 >= 2 ==> exists i | 0 <= i < 16 :: i != r.1 && Live(children[i]))
  {
    SurveyCounts(children[..16]);
    assert forall i | 0 <= i < 16 :: children[..16][i] == children[i];
  }

  predicate Barren(n: NodePtr)
    requires n.Node?
  {
    forall c | c in n.children :: !Live(c)
  }

  /** The node that replaces a branch whose last remaining child is `child`, at digit `at`. The
      documented form needs a case of its own for a branch that only carries a value: it becomes a
      leaf, or nothing at all once that value has been removed. */
  function Collapse(how: Collapsing, at: nibble, child: NodePtr): NodePtr
    requires Live(child)
  {
    if how == AsWritten then Node(Extension, [at] + child.path, child.value, child.children)
    else if child.kind != Branch then child.(path := [at] + child.path)
    else if !Barren(child) then ExtensionNode([at], child)
    else if child.value == [] then EMPTY_NODE
    else LeafNode([at], child.value)
  }

  /** The tail of Remove at a branch, after the removal in the child. */
  function Tidy(how: Collapsing, node: NodePtr): NodePtr
    requires node.Node? && |node.children| == 17
  {
    var (remaining, at) := Remaining(node.children);
    if remaining == 0 && node.value == [] then EMPTY_NODE
    else if remaining == 1 && node.value == [] then Collapse(how, at, node.children[at])
    else node
  }

  /** The tail of Remove at an extension: an extension without a child disappears. */
  function Rehang(node: NodePtr, child: NodePtr): NodePtr
    requires node.Node? && |node.children| >= 1
  {
    if Live(child) then node.(children := node.children[0 := child]) else EMPTY_NODE
  }

  function Remove(how: Collapsing, node: NodePtr, rest: Nibbles): NodePtr
    requires Shaped(node)
    decreases node
  {
    if !Live(node) then node
    else if rest == [] then
      if node.kind == Leaf then EMPTY_NODE else node.(value := [])
    else
      match node.kind
      case Leaf => if node.path == rest then EMPTY_NODE else node
      case Branch =>
        Tidy(how, node.(children := node.children[rest[0] := Remove(how, node.children[rest[0]], rest[1..])]))
      case Extension =>
        if node.path <= rest then
          Rehang(node, Remove(how, node.children[0], rest[|node.path|..]))
        else node
      case Empty => node
  }
}

/** The trie as the source keeps it: nodes on the heap, updated in place. */
module TrieHeap {
  import opened Bytes
  import opened Trie
  import TrieBinding

  class TrieNode {
    var kind: Kind
    var path: Nibbles
    var value: Bytes
    var children: seq<TrieNode?>
    ghost var repr: set<TrieNode>

    constructor (kind: Kind, path: Nibbles, value: Bytes, children: seq<TrieNode?>)
      ensures this.kind == kind && this.path == path && this.value == value && this.children == children
      ensures repr == {this} + Reach(children)
    {
      this.kind, this.path, this.value, this.children := kind, path, value, children;
      this.repr := {this} + Reach(children);
    }

    /** A tree: no node is reached twice. */
    ghost predicate Valid()
      reads this, repr
      decreases repr
    {
      && this in repr
      && (forall c | c in children :: c != null ==>
           c in repr && c.repr <= repr && this !in c.repr && c.Valid())
      && Separate(children)
    }

    /** The value the operations are specified on. */
    ghost function Model(): (m: NodePtr)
      requires Valid()
      reads this, repr
      ensures m.Node? && m.kind == kind && m.path == path && m.value == value
      ensures |m.children| == |children|
      ensures forall i | 0 <= i < |children| ::
                m.children[i] == if children[i] == null then Null else children[i].Model()
      decreases repr
    {
      Node(kind, path, value,
           seq(|children|, i requires 0 <= i < |children| && Valid() reads this, repr =>
             if children[i] == null then Null else children[i].Model()))
    }
  }

  ghost predicate Separate(children: seq<TrieNode?>)
    reads children
  {
    forall i, j | 0 <= i < j < |children| && children[i] != null && children[j] != null ::
      children[i].repr !! children[j].repr
  }

  /** All the nodes below a list of children. */
  ghost function Reach(children: seq<TrieNode?>): set<TrieNode>
    reads children
  {
    set c, d | c in children && c != null && d in c.repr :: d
  }

  method CommonPrefixLength(a: Nibbles, b: Nibbles) returns (length: nat)
    ensures length == CommonPrefix(a, b)
  {
    length := 0;
    while length < |a| && length < |b| && a[length] == b[length]
      invariant length <= |a| && length <= |b| && a[..length] == b[..length]
    {
      length := length + 1;
    }
    LongestIsUnique(a, b, length);
  }

  lemma LongestIsUnique(a: Nibbles, b: Nibbles, n: nat)
    requires n <= |a| && n <= |b| && a[..n] == b[..n]
    requires n < |a| && n < |b| ==> a[n] != b[n]
    ensures n == CommonPrefix(a, b)
  {
    var c := CommonPrefix(a, b);
    CommonPrefixAgrees(a, b);
    assert forall i | 0 <= i < c :: a[..c][i] == b[..c][i];
    assert forall i | 0 <= i < n :: a[..n][i] == b[..n][i];
  }

  method NewLeaf(path: Nibbles, value: Bytes) returns (r: TrieNode)
    ensures r.Valid() && fresh(r.repr) && r.Model() == LeafNode(path, value)
  {
    r := new TrieNode(Leaf, path, value, []);
  }

  /** Hang `child` at position `at` of `node`, whose other children are intact. */
  method SetChild(node: TrieNode, at: nat, child: TrieNode, ghost m: NodePtr)
    requires m.Node? && |m.children| == |node.children| && at < |node.children|
    requires node.kind == m.kind && node.path == m.path && node.value == m.value
    requires child.Valid() && node in node.repr && node !in child.repr
    requires forall j | 0 <= j < |node.children| && j != at ::
               if node.children[j] == null then m.children[j] == Null
               else Intact(node, node.children[j], m.children[j]) && node.children[j].repr !! child.repr
    requires forall i, j | 0 <= i < j < |node.children| && i != at && j != at
                           && node.children[i] != null && node.children[j] != null ::
               node.children[i].repr !! node.children[j].repr
    modifies node
    ensures node.Valid() && node.repr == old(node.repr) + child.repr
    ensures node.Model() == m.(children := m.children[at := child.Model()])
  {
    node.children := node.children[at := child];
    node.repr := node.repr + child.repr;
    assert node.Valid();
    assert node.Model().children == m.children[at := child.Model()];
  }

  /** A child that still is what it was. */
  ghost predicate Intact(node: TrieNode, child: TrieNode, m: NodePtr)
    reads node, child, child.repr
  {
    child in node.repr && child.repr <= node.repr && node !in child.repr && child.Valid() && child.Model() == m
  }

  method Insert(node: TrieNode, rest: Nibbles, value: Bytes) returns (r: TrieNode)
    requires node.Valid() && Shaped(node.Model())
    modifies node.repr
    ensures r.Valid() && fresh(r.repr - old(node.repr))
    ensures r.Model() == Trie.Insert(old(node.Model()), rest, value)
    decreases node.repr, 2
  {
    ghost var m := node.Model();
    if rest == [] {
      r := InsertAtEnd(node, value);
    } else if node.kind == Empty {
      r := NewLeaf(rest, value);
    } else if node.kind == Branch {
      r := InsertAtBranch(node, rest, value);
    } else {
      var common := CommonPrefixLength(rest, node.path);
      CommonPrefixAgrees(rest, node.path);
      if common < |node.path| {
        r := Split(node, rest, common, value, m);
      } else if node.kind == Extension {
        r := InsertAtExtension(node, rest, value, m);
      } else if common == |rest| {
        SetValue(node, value, m);
        r := node;
      } else {
        r := GrowLeaf(node, rest, value, m);
      }
    }
  }

  method SetValue(node: TrieNode, value: Bytes, ghost m: NodePtr)
    requires node.Valid() && m == node.Model()
    modifies node
    ensures node.Valid() && node.repr == old(node.repr) && node.Model() == m.(value := value)
  {
    node.value := value;
    assert node.Model().children == m.children;
  }

  method InsertAtExtension(node: TrieNode, rest: Nibbles, value: Bytes, ghost m: NodePtr) returns (r: TrieNode)
    requires node.Valid() && m == node.Model() && Shaped(m) && m.kind == Extension && m.path <= rest
    modifies node.repr
    ensures r.Valid() && fresh(r.repr - old(node.repr))
    ensures r.Model() == m.(children := m.children[0 := Trie.Insert(m.children[0], rest[|m.path|..], value)])
    decreases node.repr, 1
  {
    InsertBelow(node, 0, rest[|node.path|..], value, m);
    r := node;
  }

  method InsertBelow(node: TrieNode, at: nat, rest: Nibbles, value: Bytes, ghost m: NodePtr)
    requires node.Valid() && m == node.Model() && at < |m.children| && m.children[at].Node? && Shaped(m.children[at])
    modifies node.repr
    ensures node.Valid() && fresh(node.repr - old(node.repr))
    ensures node.Model() == m.(children := m.children[at := Trie.Insert(m.children[at], rest, value)])
    decreases node.repr, 0
  {
    var child := Insert(node.children[at], rest, value);
    SetChild(node, at, child, m);
  }

  method InsertAtEnd(node: TrieNode, value: Bytes) returns (r: TrieNode)
    requires node.Valid() && Shaped(node.Model())
    modifies node
    ensures r.Valid() && fresh(r.repr - old(node.repr))
    ensures r.Model() == Trie.Insert(old(node.Model()), [], value)
  {
    ghost var m := node.Model();
    if node.kind == Empty {
      r := NewLeaf([], value);
    } else if node.kind == Branch {
      node.value := value;
      r := node;
      assert r.Model().children == m.children;
    } else {
      r := new TrieNode(Branch, [], value, seq(17, _ => null));
      assert r.Model().children == NO_CHILDREN;
    }
  }

  method NewBranch(value: Bytes, at: nibble, child: TrieNode) returns (r: TrieNode)
    requires child.Valid()
    ensures r.Valid() && fresh(r) && fresh(r.repr - child.repr)
    ensures r.Model() == Node(Branch, [], value, OneChild(at, child.Model()))
  {
    var children: seq<TrieNode?> := seq(17, _ => null);
    r := new TrieNode(Branch, [], value, children[at := child]);
    assert r.Model().children == OneChild(at, child.Model());
  }

  method GrowLeaf(node: TrieNode, rest: Nibbles, value: Bytes, ghost m: NodePtr) returns (r: TrieNode)
    requires m.Node? && node.path == m.path && node.value == m.value && |m.path| < |rest|
    ensures r.Valid() && fresh(r.repr)
    ensures r.Model() == Trie.GrowLeaf(m, rest, value)
  {
    var common := |node.path|;
    var leaf := NewLeaf(rest[common + 1..], value);
    r := NewBranch(node.value, rest[common], leaf);
    if common > 0 {
      r := NewExtension(node.path, r);
    }
  }

  method NewExtension(path: Nibbles, child: TrieNode) returns (r: TrieNode)
    requires child.Valid()
    ensures r.Valid() && fresh(r.repr - child.repr)
    ensures r.Model() == ExtensionNode(path, child.Model())
  {
    r := new TrieNode(Extension, path, [], [child]);
    assert r.Model().children == [child.Model()];
  }

  /** A new node that takes over the children of `node`. */
  method TakeOver(kind: Kind, path: Nibbles, node: TrieNode, ghost m: NodePtr) returns (r: TrieNode)
    requires node.Valid() && m == node.Model()
    ensures r.Valid() && fresh(r) && r.repr <= {r} + node.repr
    ensures r.Model() == Node(kind, path, m.value, m.children)
  {
    r := new TrieNode(kind, path, node.value, node.children);
    assert r.Model().children == m.children;
  }

  method Split(node: TrieNode, rest: Nibbles, common: nat, value: Bytes, ghost m: NodePtr) returns (r: TrieNode)
    requires node.Valid() && m == node.Model() && common < |node.path| && common <= |rest|
    requires common < |rest| ==> node.path[common] != rest[common]
    ensures r.Valid() && fresh(r.repr - node.repr)
    ensures r.Model() == Trie.Split(m, rest, common, value)
  {
    r := NewFork(node, rest, common, value, m);
    if common > 0 {
      r := NewExtension(node.path[..common], r);
    }
  }

  method NewFork(node: TrieNode, rest: Nibbles, common: nat, value: Bytes, ghost m: NodePtr) returns (r: TrieNode)
    requires node.Valid() && m == node.Model() && common < |node.path| && common <= |rest|
    requires common < |rest| ==> node.path[common] != rest[common]
    ensures r.Valid() && fresh(r.repr - node.repr)
    ensures r.Model() == Fork(m, rest, common, value)
  {
    var lower := TakeOver(node.kind, node.path[common + 1..], node, m);
    if common < |rest| {
      var leaf := NewLeaf(rest[common + 1..], value);
      r := NewTwoWay(node.path[common], lower, rest[common], leaf);
    } else {
      r := NewBranch(value, node.path[common], lower);
    }
  }

  method NewTwoWay(at: nibble, child: TrieNode, other: nibble, leaf: TrieNode) returns (r: TrieNode)
    requires at != other && child.Valid() && leaf.Valid() && child.repr !! leaf.repr
    ensures r.Valid() && fresh(r.repr - child.repr - leaf.repr)
    ensures r.Model() == Node(Branch, [], [], OneChild(at, child.Model())[other := leaf.Model()])
  {
    var children := TwoSlots(at, child, other, leaf);
    r := new TrieNode(Branch, [], [], children);
    assert r.Valid();
    assert r.Model().children == OneChild(at, child.Model())[other := leaf.Model()];
  }

  function TwoSlots(at: nibble, child: TrieNode, other: nibble, leaf: TrieNode): (children: seq<TrieNode?>)
    ensures |children| == 17
    ensures forall i | 0 <= i < 17 :: children[i] == if i == other then leaf else if i == at then child else null
  {
    seq(17, i requires 0 <= i < 17 => if i == other then leaf else if i == at then child else null)
  }

  method InsertAtBranch(node: TrieNode, rest: Nibbles, value: Bytes) returns (r: TrieNode)
    requires node.Valid() && Shaped(node.Model()) && node.kind == Branch && rest != []
    modifies node.repr
    ensures r.Valid() && fresh(r.repr - old(node.repr))
    ensures r.Model() == Trie.Insert(old(node.Model()), rest, value)
    decreases node.repr, 1
  {
    ghost var m := node.Model();
    if node.children[rest[0]] == null {
      var leaf := NewLeaf(rest[1..], value);
      SetChild(node, rest[0], leaf, m);
    } else {
      InsertBelow(node, rest[0], rest[1..], value, m);
    }
    r := node;
  }

  method Lookup(node: TrieNode?, rest: Nibbles) returns (r: Outcome)
    requires node != null ==> node.Valid()
    ensures r == Trie.Lookup(if node == null then Null else node.Model(), rest)
    decreases if node == null then {} else node.repr
  {
    if node == null || node.kind == Empty {
      return Missing;
    }
    if rest == [] {
      if (node.kind == Leaf || node.kind == Branch) && node.value != [] {
        return Found(node.value);
      }
      return Missing;
    }
    match node.kind
    case Leaf =>
      return if node.path == rest then Found(node.value) else Missing;
    case Extension =>
      if node.path <= rest {
        if node.children == [] {
          return Fault;
        }
        r := Lookup(node.children[0], rest[|node.path|..]);
      } else {
        return Missing;
      }
    case Branch =>
      if |node.children| <= rest[0] {
        return Fault;
      }
      r := Lookup(node.children[rest[0]], rest[1..]);
  }

  method NewEmpty() returns (r: TrieNode)
    ensures r.Valid() && fresh(r.repr) && r.Model() == EMPTY_NODE
  {
    r := new TrieNode(Empty, [], [], []);
  }

  method Remove(node: TrieNode, rest: Nibbles) returns (r: TrieNode)
    requires node.Valid() && Shaped(node.Model())
    modifies node.repr
    ensures r.Valid() && fresh(r.repr - old(node.repr))
    ensures r.Model() == Trie.Remove(AsWritten, old(node.Model()), rest)
    decreases node.repr, 2
  {
    ghost var m := node.Model();
    if node.kind == Empty {
      r := node;
    } else if rest == [] {
      r := RemoveAtEnd(node, m);
    } else if node.kind == Leaf {
      if node.path == rest {
        r := NewEmpty();
      } else {
        r := node;
      }
    } else if node.kind == Branch {
      r := RemoveAtBranch(node, rest, m);
    } else if node.path <= rest {
      r := RemoveAtExtension(node, rest, m);
    } else {
      r := node;
    }
  }

  method RemoveAtEnd(node: TrieNode, ghost m: NodePtr) returns (r: TrieNode)
    requires node.Valid() && m == node.Model() && m.kind != Empty
    modifies node
    ensures r.Valid() && fresh(r.repr - old(node.repr))
    ensures r.Model() == if m.kind == Leaf then EMPTY_NODE else m.(value := [])
  {
    node.value := [];
    if node.kind == Leaf {
      r := NewEmpty();
    } else {
      r := node;
      assert r.Model().children == m.children;
    }
  }

  method RemoveAtBranch(node: TrieNode, rest: Nibbles, ghost m: NodePtr) returns (r: TrieNode)
    requires node.Valid() && m == node.Model() && Shaped(m) && m.kind == Branch && rest != []
    modifies node.repr
    ensures r.Valid() && fresh(r.repr - old(node.repr))
    ensures r.Model() == Trie.Tidy(AsWritten, m.(children :=
              m.children[rest[0] := Trie.Remove(AsWritten, m.children[rest[0]], rest[1..])]))
    decreases node.repr, 1
  {
    RemoveBelow(node, rest[0], rest[1..], m);
    r := Tidy(node);
  }

  method RemoveBelow(node: TrieNode, at: nat, rest: Nibbles, ghost m: NodePtr)
    requires node.Valid() && m == node.Model() && at < |m.children|
    requires m.children[at].Node? ==> Shaped(m.children[at])
    modifies node.repr
    ensures node.Valid() && fresh(node.repr - old(node.repr))
    ensures node.Model() == m.(children := m.children[at := Trie.Remove(AsWritten, m.children[at], rest)])
    decreases node.repr, 0
  {
    if node.children[at] == null {
      NothingBelow(m, at, rest);
    } else {
      var child := Remove(node.children[at], rest);
      SetChild(node, at, child, m);
    }
  }

  lemma NothingBelow(m: NodePtr, at: nat, rest: Nibbles)
    requires m.Node? && at < |m.children| && m.children[at].Null?
    ensures m.(children := m.children[at := Trie.Remove(AsWritten, m.children[at], rest)]) == m
  {
    assert m.children[at := Null] == m.children;
  }

  method RemoveAtExtension(node: TrieNode, rest: Nibbles, ghost m: NodePtr) returns (r: TrieNode)
    requires node.Valid() && m == node.Model() && Shaped(m) && m.kind == Extension && m.path <= rest
    modifies node.repr
    ensures r.Valid() && fresh(r.repr - old(node.repr))
    ensures r.Model() == Rehang(m, Trie.Remove(AsWritten, m.children[0], rest[|m.path|..]))
    decreases node.repr, 1
  {
    RemoveBelow(node, 0, rest[|node.path|..], m);
    if node.children[0].kind == Empty {
      r := NewEmpty();
    } else {
      r := node;
    }
  }

  /** The models are live where the children are there and not empty. */
  ghost predicate LiveAlike(children: seq<TrieNode?>, m: seq<NodePtr>)
    reads children
  {
    |m| == |children|
    && forall i | 0 <= i < |m| :: Live(m[i]) <==> children[i] != null && children[i].kind != Empty
  }

  method CountLive(children: seq<TrieNode?>, ghost m: seq<NodePtr>, limit: nat) returns (remaining: nat, at: int)
    requires LiveAlike(children, m) && limit <= |m|
    ensures (remaining, at) == Survey(m[..limit])
  {
    remaining, at := 0, -1;
    for i := 0 to limit
      invariant (remaining, at) == Survey(m[..i])
    {
      assert m[..i + 1][..i] == m[..i];
      if children[i] != null && children[i].kind != Empty {
        remaining := remaining + 1;
        at := i;
      }
    }
  }

  /** The collapse of a branch after a removal below it. */
  method Tidy(node: TrieNode) returns (r: TrieNode)
    requires node.Valid() && |node.children| == 17
    ensures r.Valid() && fresh(r.repr - node.repr)
    ensures r.Model() == Trie.Tidy(AsWritten, node.Model())
  {
    var remaining, at := CountLive(node.children, node.Model().children, 16);
    if remaining == 0 && node.value == [] {
      r := NewEmpty();
    } else if remaining == 1 && node.value == [] {
      var child := node.children[at];
      r := TakeOver(Extension, [at] + child.path, child, child.Model());
    } else {
      r := node;
    }
  }

  // ---------------------------------------------------------------- hashing

  method HashNode(h: Hash, node: TrieNode?) returns (d: Digest)
    requires node != null ==> node.Valid() && Shaped(node.Model())
    ensures d == TrieBinding.HashNode(h, if node == null then Null else node.Model())
    decreases if node == null then {} else node.repr, 2
  {
    if node == null || node.kind == Empty {
      return ZERO_DIGEST;
    }
    var encoded := EncodeNode(h, node);
    return h(encoded);
  }

  method EncodeNode(h: Hash, node: TrieNode) returns (encoded: Bytes)
    requires node.Valid() && node.kind != Empty && Shaped(node.Model())
    ensures encoded == TrieBinding.EncodeNode(h, node.Model())
    decreases node.repr, 1
  {
    encoded := [TrieBinding.KindByte(node.kind)];
    if node.kind == Leaf || node.kind == Extension {
      encoded := encoded + ([|node.path| % 256] + node.path);
    }
    if node.value != [] {
      encoded := encoded + ([|node.value| / 256 % 256, |node.value| % 256] + node.value);
    } else {
      encoded := encoded + [0, 0];
      assert TrieBinding.ValuePart([]) == [0, 0];
    }
    if node.kind == Branch {
      var digests := HashChildren(h, node);
      encoded := encoded + digests;
    } else if node.kind == Extension {
      var d := HashNode(h, node.children[0]);
      encoded := encoded + d;
    }
  }

  method HashChildren(h: Hash, node: TrieNode) returns (digests: Bytes)
    requires node.Valid() && node.kind == Branch && Shaped(node.Model())
    ensures (forall c | c in node.Model().children[..16] :: Shaped(c))
            && digests == TrieBinding.ChildDigests(h, node.Model().children[..16])
    decreases node.repr, 0
  {
    ghost var children := node.Model().children;
    digests := [];
    for i := 0 to 16
      invariant AllShaped(children[..i]) && digests == TrieBinding.ChildDigests(h, children[..i])
    {
      NextDigest(h, children, i);
      var d := HashNode(h, node.children[i]);
      digests := digests + d;
    }
  }

  ghost predicate AllShaped(children: seq<NodePtr>) {
    forall c | c in children :: Shaped(c)
  }

  lemma NextDigest(h: Hash, children: seq<NodePtr>, i: nat)
    requires i < |children| && AllShaped(children)
    ensures AllShaped(children[..i]) && AllShaped(children[..i + 1])
    ensures TrieBinding.ChildDigests(h, children[..i + 1])
         == TrieBinding.ChildDigests(h, children[..i]) + TrieBinding.HashNode(h, children[i])
  {
    assert children[..i + 1][..i] == children[..i] && children[..i + 1][i] == children[i];
  }
}

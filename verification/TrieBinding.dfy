/** The root hash commits to the contents of the trie. */
module TrieBinding {
  import opened Bytes
  import opened Trie

  function KindByte(kind: Kind): byte {
    match kind
    case Empty => 0
    case Leaf => 1
    case Extension => 2
    case Branch => 3
  }

  /** Path length in one byte, then the digits; nothing for a branch. */
  function PathPart(n: NodePtr): Bytes
    requires n.Node?
  {
    if n.kind == Leaf || n.kind == Extension then [|n.path| % 256] + n.path else []
  }

  /** Value length in two bytes, high byte first, then the value. */
  function ValuePart(value: Bytes): Bytes {
    [|value| / 256 % 256, |value| % 256] + value
  }

  function HashNode(h: Hash, n: NodePtr): (d: Digest)
    requires Shaped(n)
    decreases n, 2
  {
    if Live(n) then h(EncodeNode(h, n)) else ZERO_DIGEST
  }

  function EncodeNode(h: Hash, n: NodePtr): Bytes
    requires Live(n) && Shaped(n)
    decreases n, 1
  {
    [KindByte(n.kind)] + PathPart(n) + ValuePart(n.value) + ChildPart(h, n)
  }

  function ChildPart(h: Hash, n: NodePtr): Bytes
    requires Live(n) && Shaped(n)
    decreases n, 0
  {
    match n.kind
    case Branch => ChildDigests(h, n.children[..16])
    case Extension => HashNode(h, n.children[0])
    case _ => []
  }

  function ChildDigests(h: Hash, children: seq<NodePtr>): (r: Bytes)
    requires forall c | c in children :: Shaped(c)
    ensures |r| == 32 * |children|
    decreases children
  {
    if children == [] then []
    else
      var last := |children| - 1;
      assert forall c | c in children[..last] :: c in children;
      ChildDigests(h, children[..last]) + HashNode(h, children[last])
  }

  /** Everything that is hashed on the way to the digest of `n`. */
  ghost function Encodings(h: Hash, n: NodePtr): set<Bytes>
    requires Shaped(n)
    decreases n
  {
    if !Live(n) then {}
    else {EncodeNode(h, n)} + set c, x | c in n.children && x in Encodings(h, c) :: x
  }

  /** Every path length fits the byte that stores it. */
  ghost predicate Bounded(n: NodePtr)
    decreases n
  {
    n.Node? ==> |n.path| < 256 && forall c | c in n.children :: Bounded(c)
  }

  /** No two of the strings hashed for one trie and for the other share a digest, and none of them
      hashes to the digest that stands for an empty trie. */
  ghost predicate CollisionFree(h: Hash, xs: set<Bytes>, ys: set<Bytes>) {
    && (forall x, y | x in xs && y in ys && h(x) == h(y) :: x == y)
    && (forall x | x in xs + ys :: h(x) != ZERO_DIGEST)
  }

  /** What follows the value has a length that the kind fixes. */
  lemma ChildPartLength(h: Hash, n: NodePtr)
    requires Live(n) && Shaped(n)
    ensures |ChildPart(h, n)| == if n.kind == Branch then 512 else if n.kind == Extension then 32 else 0
  {
    if n.kind == Branch {
      assert forall c | c in n.children[..16] :: c in n.children;
    }
  }

  /** An encoding determines its parts. The two bytes for the length of the value are cut short from 65536
      bytes on, but are not needed to find its end. */
  lemma EncodingParts(h: Hash, a: NodePtr, b: NodePtr)
    requires Live(a) && Live(b) && Shaped(a) && Shaped(b) && Bounded(a) && Bounded(b)
    requires EncodeNode(h, a) == EncodeNode(h, b)
    ensures a.kind == b.kind && a.value == b.value && ChildPart(h, a) == ChildPart(h, b)
    ensures a.kind != Branch ==> a.path == b.path
  {
    EncodeRegrouped(h, a);
    EncodeRegrouped(h, b);
    var va, vb := ValuePart(a.value) + ChildPart(h, a), ValuePart(b.value) + ChildPart(h, b);
    SplitConcat([KindByte(a.kind)], PathPart(a) + va, [KindByte(b.kind)], PathPart(b) + vb);
    assert [KindByte(a.kind)][0] == [KindByte(b.kind)][0];
    if a.kind == Leaf || a.kind == Extension {
      PathParts(a.path, va, b.path, vb);
    } else {
      assert [] + va == va && [] + vb == vb;
    }
    ChildPartLength(h, a);
    ChildPartLength(h, b);
    ValueParts(a.value, ChildPart(h, a), b.value, ChildPart(h, b));
  }

  lemma {:induction false} EncodeRegrouped(h: Hash, n: NodePtr)
    requires Live(n) && Shaped(n)
    ensures EncodeNode(h, n) == [KindByte(n.kind)] + (PathPart(n) + (ValuePart(n.value) + ChildPart(h, n)))
  {
    var k, p, v, c := [KindByte(n.kind)], PathPart(n), ValuePart(n.value), ChildPart(h, n);
    assert k + p + v + c == k + (p + (v + c));
  }

  lemma PathParts(p: Nibbles, rest: Bytes, q: Nibbles, rest': Bytes)
    requires |p| < 256 && |q| < 256 && [|p| % 256] + p + rest == [|q| % 256] + q + rest'
    ensures p == q && rest == rest'
  {
    var x, y := [|p| % 256] + p, [|q| % 256] + q;
    assert (x + rest)[0] == |p| && (y + rest')[0] == |q|;
    SplitConcat(x, rest, y, rest');
    SplitConcat([|p| % 256], p, [|q| % 256], q);
  }

  lemma ValueParts(v: Bytes, rest: Bytes, w: Bytes, rest': Bytes)
    requires |rest| == |rest'| && ValuePart(v) + rest == ValuePart(w) + rest'
    ensures v == w && rest == rest'
  {
    assert |ValuePart(v) + rest| == |ValuePart(w) + rest'|;
    SplitConcat(ValuePart(v), rest, ValuePart(w), rest');
    SplitConcat([|v| / 256 % 256, |v| % 256], v, [|w| / 256 % 256, |w| % 256], w);
  }

  lemma {:induction false} ChildDigestsDetermine(h: Hash, a: seq<NodePtr>, b: seq<NodePtr>, i: nat)
    requires forall c | c in a :: Shaped(c)
    requires forall c | c in b :: Shaped(c)
    requires |a| == |b| && ChildDigests(h, a) == ChildDigests(h, b) && i < |a|
    ensures HashNode(h, a[i]) == HashNode(h, b[i])
    decreases |a|
  {
    var last := |a| - 1;
    assert forall c | c in a[..last] :: c in a;
    assert forall c | c in b[..last] :: c in b;
    SplitConcat(ChildDigests(h, a[..last]), HashNode(h, a[last]),
                ChildDigests(h, b[..last]), HashNode(h, b[last]));
    if i < last {
      ChildDigestsDetermine(h, a[..last], b[..last], i);
      assert a[..last][i] == a[i] && b[..last][i] == b[i];
    }
  }

  /** Collision-free tries with one root hash answer every lookup alike. */
  lemma {:induction false} EqualRootsEqualLookups(h: Hash, a: NodePtr, b: NodePtr, q: Nibbles)
    requires Shaped(a) && Shaped(b) && Bounded(a) && Bounded(b)
    requires HashNode(h, a) == HashNode(h, b)
    requires CollisionFree(h, Encodings(h, a), Encodings(h, b))
    ensures Lookup(a, q) == Lookup(b, q)
    decreases a
  {
    OwnEncoding(h, a);
    OwnEncoding(h, b);
    if Live(a) && Live(b) {
      EncodingParts(h, a, b);
      if a.kind == Extension && q != [] && a.path <= q {
        ChildrenCollisionFree(h, a, b, 0);
        EqualRootsEqualLookups(h, a.children[0], b.children[0], q[|a.path|..]);
      } else if a.kind == Branch && q != [] {
        BranchChildDigest(h, a, b, q[0]);
        ChildrenCollisionFree(h, a, b, q[0]);
        EqualRootsEqualLookups(h, a.children[q[0]], b.children[q[0]], q[1..]);
      }
    }
  }

  lemma OwnEncoding(h: Hash, n: NodePtr)
    requires Shaped(n)
    ensures Live(n) ==> EncodeNode(h, n) in Encodings(h, n)
  {
  }

  lemma BranchChildDigest(h: Hash, a: NodePtr, b: NodePtr, i: nibble)
    requires Live(a) && Live(b) && Shaped(a) && Shaped(b) && a.kind == b.kind == Branch
    requires ChildPart(h, a) == ChildPart(h, b)
    ensures a.children[i] in a.children && b.children[i] in b.children
    ensures HashNode(h, a.children[i]) == HashNode(h, b.children[i])
  {
    assert forall c | c in a.children[..16] :: c in a.children;
    assert forall c | c in b.children[..16] :: c in b.children;
    ChildDigestsDetermine(h, a.children[..16], b.children[..16], i);
    assert a.children[..16][i] == a.children[i] && b.children[..16][i] == b.children[i];
  }

  lemma ChildrenCollisionFree(h: Hash, a: NodePtr, b: NodePtr, i: nat)
    requires Live(a) && Live(b) && Shaped(a) && Shaped(b) && i < |a.children| && i < |b.children|
    requires CollisionFree(h, Encodings(h, a), Encodings(h, b))
    ensures CollisionFree(h, Encodings(h, a.children[i]), Encodings(h, b.children[i]))
  {
    assert a.children[i] in a.children && b.children[i] in b.children;
    assert Encodings(h, a.children[i]) <= Encodings(h, a);
    assert Encodings(h, b.children[i]) <= Encodings(h, b);
  }

  /** Two tries with one root hash hold the same contents, or the strings hashed for them contain
      two different ones with one digest, or one that hashes to the all-zero digest. */
  lemma RootBindsContents(h: Hash, a: NodePtr, b: NodePtr)
    requires Shaped(a) && Shaped(b) && Bounded(a) && Bounded(b)
    requires HashNode(h, a) == HashNode(h, b)
    ensures (forall q :: Lookup(a, q) == Lookup(b, q))
            || (exists x, y :: x in Encodings(h, a) && y in Encodings(h, b) && x != y && h(x) == h(y))
            || (exists x :: x in Encodings(h, a) + Encodings(h, b) && h(x) == ZERO_DIGEST)
  {
    if CollisionFree(h, Encodings(h, a), Encodings(h, b)) {
      forall q ensures Lookup(a, q) == Lookup(b, q) {
        EqualRootsEqualLookups(h, a, b, q);
      }
    }
  }

  // ---------------------------------------------------------------- a path too long for its byte

  function Zeros(k: nat): (z: Nibbles)
    ensures |z| == k
  {
    if k == 0 then [] else Zeros(k - 1) + [0]
  }

  /** At 256 digits the byte for the length is zero, and the path reads as a value: a leaf for one key and a
      leaf for the empty key have one encoding, hence one root under every hash. */
  lemma LongPathsUnbound(h: Hash, x: byte, k: nat)
    requires k == 254
    ensures var path := [1, 1] + Zeros(k);
            var a, b := LeafNode(path, [x]), LeafNode([], Zeros(k) + [0, 1, x]);
            && Shaped(a) && Shaped(b) && |path| == 256
            && HashNode(h, a) == HashNode(h, b)
            && Lookup(a, path) == Found([x]) && Lookup(b, path) == Missing
  {
    var z := Zeros(k);
    var path, value := [1, 1] + z, z + [0, 1, x];
    LengthReadAsValue(z, path, value, x);
    var a, b := LeafNode(path, [x]), LeafNode([], value);
    SameLeafEncoding(h, a, b);
  }

  lemma SameLeafEncoding(h: Hash, a: NodePtr, b: NodePtr)
    requires Live(a) && Live(b) && a.kind == b.kind == Leaf && Shaped(a) && Shaped(b)
    requires PathPart(a) + ValuePart(a.value) == PathPart(b) + ValuePart(b.value)
    ensures HashNode(h, a) == HashNode(h, b)
  {
    LeafEncoding(h, a, PathPart(a), ValuePart(a.value));
    LeafEncoding(h, b, PathPart(b), ValuePart(b.value));
  }

  lemma LeafEncoding(h: Hash, n: NodePtr, path: Bytes, value: Bytes)
    requires Live(n) && n.kind == Leaf && Shaped(n) && path == PathPart(n) && value == ValuePart(n.value)
    ensures EncodeNode(h, n) == [KindByte(Leaf)] + (path + value)
  {
    assert ChildPart(h, n) == [];
    assert [KindByte(Leaf)] + path + value + [] == [KindByte(Leaf)] + (path + value);
  }

  lemma LengthReadAsValue(z: Nibbles, path: Nibbles, value: Bytes, x: byte)
    requires |z| == 254 && path == [1, 1] + z && value == z + [0, 1, x]
    ensures PathPart(LeafNode(path, [x])) + ValuePart([x]) == PathPart(LeafNode([], value)) + ValuePart(value)
  {
    assert PathPart(LeafNode(path, [x])) == [0] + path && ValuePart([x]) == [0, 1, x];
    assert PathPart(LeafNode([], value)) == [0] && ValuePart(value) == [1, 1] + value;
  }
}

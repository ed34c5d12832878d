/** Positional binary Merkle trees with the last node of an odd layer duplicated. */
module Merkle {
  import opened Bytes

  /** A sibling on the way to the root, and whether it is the right one of the two. */
  datatype Sibling = Sibling(digest: Digest, isRight: bool)

  function HashPair(h: Hash, left: Digest, right: Digest): Digest {
    h(left + right)
  }

  /** The node paired with number `i`: an odd layer's last node pairs with itself. */
  function Partner(layer: seq<Digest>, i: nat): Digest
    requires i < |layer|
  {
    if i + 1 < |layer| then layer[i + 1] else layer[i]
  }

  function NextLayer(h: Hash, layer: seq<Digest>): (next: seq<Digest>)
    ensures |next| == (|layer| + 1) / 2
    decreases |layer|
  {
    if layer == [] then []
    else [HashPair(h, layer[0], Partner(layer, 0))] + NextLayer(h, if |layer| == 1 then [] else layer[2..])
  }

  lemma {:induction false} NextLayerAt(h: Hash, layer: seq<Digest>, i: nat)
    requires 2 * i < |layer|
    ensures NextLayer(h, layer)[i] == HashPair(h, layer[2 * i], Partner(layer, 2 * i))
    decreases i
  {
    if i > 0 {
      NextLayerAt(h, layer[2..], i - 1);
      assert layer[2..][2 * i - 2] == layer[2 * i];
    }
  }

  function Root(h: Hash, layer: seq<Digest>): Digest
    decreases |layer|
  {
    if layer == [] then ZERO_DIGEST
    else if |layer| == 1 then layer[0]
    else Root(h, NextLayer(h, layer))
  }

  function Height(n: nat): nat
    decreases n
  {
    if n <= 1 then 0 else 1 + Height((n + 1) / 2)
  }

  function SiblingOf(layer: seq<Digest>, i: nat): Sibling
    requires i < |layer|
  {
    if i % 2 == 0 then Sibling(Partner(layer, i), true) else Sibling(layer[i - 1], false)
  }

  function Proof(h: Hash, layer: seq<Digest>, i: nat): (proof: seq<Sibling>)
    requires i < |layer|
    decreases |layer|
  {
    if |layer| == 1 then [] else [SiblingOf(layer, i)] + Proof(h, NextLayer(h, layer), i / 2)
  }

  function Join(h: Hash, d: Digest, s: Sibling): Digest {
    if s.isRight then HashPair(h, d, s.digest) else HashPair(h, s.digest, d)
  }

  function Fold(h: Hash, d: Digest, proof: seq<Sibling>): Digest
    decreases |proof|
  {
    if proof == [] then d else Fold(h, Join(h, d, proof[0]), proof[1..])
  }

  // ---------------------------------------------------------------- honest proofs verify

  lemma SiblingLeadsUp(h: Hash, layer: seq<Digest>, i: nat)
    requires i < |layer|
    ensures Join(h, layer[i], SiblingOf(layer, i)) == NextLayer(h, layer)[i / 2]
  {
    var k := i / 2;
    assert i == 2 * k || i == 2 * k + 1;
    NextLayerAt(h, layer, k);
    assert i == 2 * k + 1 ==> Partner(layer, 2 * k) == layer[i];
  }

  /** The proof built for any leaf leads to the root, and is as long as the tree is high. */
  lemma {:induction false} HonestProofReachesRoot(h: Hash, leaves: seq<Digest>, i: nat)
    requires i < |leaves|
    ensures Fold(h, leaves[i], Proof(h, leaves, i)) == Root(h, leaves)
    ensures |Proof(h, leaves, i)| == Height(|leaves|)
    decreases |leaves|
  {
    if |leaves| > 1 {
      SiblingLeadsUp(h, leaves, i);
      HonestProofReachesRoot(h, NextLayer(h, leaves), i / 2);
      var rest := Proof(h, NextLayer(h, leaves), i / 2);
      assert ([SiblingOf(leaves, i)] + rest)[1..] == rest;
    }
  }

  // ---------------------------------------------------------------- only listed leaves have proofs

  /** The strings hashed while building the tree. */
  ghost function TreeStrings(h: Hash, layer: seq<Digest>): set<Bytes>
    decreases |layer|
  {
    if |layer| <= 1 then {}
    else (set i | 0 <= i < |layer| && i % 2 == 0 :: layer[i] + Partner(layer, i)) + TreeStrings(h, NextLayer(h, layer))
  }

  /** The strings hashed while folding a proof. */
  ghost function PathStrings(h: Hash, d: Digest, proof: seq<Sibling>): set<Bytes>
    decreases |proof|
  {
    if proof == [] then {}
    else {Joined(d, proof[0])} + PathStrings(h, Join(h, d, proof[0]), proof[1..])
  }

  ghost predicate Collide(h: Hash, xs: set<Bytes>, ys: set<Bytes>) {
    exists x, y :: x in xs && y in ys && x != y && h(x) == h(y)
  }

  /** A proof of full height that reaches the root starts from a listed leaf, or the strings hashed
      for it collide with the strings hashed for the tree. */
  lemma {:induction false} ProofStartsAtLeaf(h: Hash, leaves: seq<Digest>, d: Digest, proof: seq<Sibling>)
    requires leaves != [] && |proof| == Height(|leaves|)
    requires Fold(h, d, proof) == Root(h, leaves)
    ensures d in leaves || Collide(h, PathStrings(h, d, proof), TreeStrings(h, leaves))
    decreases |leaves|
  {
    if |leaves| > 1 {
      var up := Join(h, d, proof[0]);
      var next := NextLayer(h, leaves);
      ProofStartsAtLeaf(h, next, up, proof[1..]);
      if up in next {
        var j :| 0 <= j < |next| && next[j] == up;
        NextLayerAt(h, leaves, j);
        PairedFromLeaves(h, leaves, d, proof, j);
      }
    }
  }

  lemma TreeString(h: Hash, layer: seq<Digest>, j: nat)
    requires |layer| > 1 && 2 * j < |layer|
    ensures layer[2 * j] + Partner(layer, 2 * j) in TreeStrings(h, layer)
  {
    var i := 2 * j;
    assert i % 2 == 0 && layer[i] + Partner(layer, i) in TreeStrings(h, layer);
  }

  function Joined(d: Digest, s: Sibling): Bytes {
    if s.isRight then d + s.digest else s.digest + d
  }

  lemma PairedFromLeaves(h: Hash, leaves: seq<Digest>, d: Digest, proof: seq<Sibling>, j: nat)
    requires proof != [] && |leaves| > 1 && 2 * j < |leaves|
    requires Join(h, d, proof[0]) == HashPair(h, leaves[2 * j], Partner(leaves, 2 * j))
    ensures d in leaves || Collide(h, PathStrings(h, d, proof), TreeStrings(h, leaves))
  {
    TreeString(h, leaves, j);
    assert Joined(d, proof[0]) in PathStrings(h, d, proof);
    SamePairOrCollision(h, d, proof[0], leaves[2 * j], Partner(leaves, 2 * j),
                        PathStrings(h, d, proof), TreeStrings(h, leaves));
  }

  lemma SamePairOrCollision(h: Hash, d: Digest, s: Sibling, a: Digest, b: Digest, xs: set<Bytes>, ys: set<Bytes>)
    requires Join(h, d, s) == HashPair(h, a, b) && Joined(d, s) in xs && a + b in ys
    ensures d == a || d == b || Collide(h, xs, ys)
  {
    if Joined(d, s) == a + b {
      EqualPairs(d, s, a, b);
    }
  }

  lemma EqualPairs(d: Digest, s: Sibling, a: Digest, b: Digest)
    requires Joined(d, s) == a + b
    ensures d == a || d == b
  {
    if s.isRight {
      SplitConcat(d, s.digest, a, b);
    } else {
      SplitConcat(s.digest, d, a, b);
    }
  }

  // ---------------------------------------------------------------- proofs of any length

  /** The layer `k` steps above the leaves. */
  function LayerAt(h: Hash, layer: seq<Digest>, k: nat): seq<Digest>
    decreases k
  {
    if k == 0 then layer else LayerAt(h, NextLayer(h, layer), k - 1)
  }

  lemma {:induction false} LayerHeight(h: Hash, leaves: seq<Digest>, k: nat)
    requires leaves != [] && k <= Height(|leaves|)
    ensures var layer := LayerAt(h, leaves, k);
            && layer != [] && Height(|layer|) == Height(|leaves|) - k && Root(h, layer) == Root(h, leaves)
            && TreeStrings(h, layer) <= TreeStrings(h, leaves)
    decreases k
  {
    if k > 0 {
      LayerHeight(h, NextLayer(h, leaves), k - 1);
    }
  }

  /** Every digest above the leaves is that of a string hashed for the tree. */
  lemma {:induction false} UpperDigest(h: Hash, leaves: seq<Digest>, k: nat, d: Digest) returns (x: Bytes)
    requires leaves != [] && 0 < k <= Height(|leaves|) && d in LayerAt(h, leaves, k)
    ensures x in TreeStrings(h, leaves) && h(x) == d
    decreases k
  {
    var next := NextLayer(h, leaves);
    if k == 1 {
      assert LayerAt(h, next, 0) == next;
      var j :| 0 <= j < |next| && next[j] == d;
      NextLayerAt(h, leaves, j);
      TreeString(h, leaves, j);
      x := leaves[2 * j] + Partner(leaves, 2 * j);
    } else {
      x := UpperDigest(h, next, k - 1, d);
    }
  }

  lemma {:induction false} FoldInTwo(h: Hash, d: Digest, proof: seq<Sibling>, k: nat)
    requires k <= |proof|
    ensures Fold(h, d, proof) == Fold(h, Fold(h, d, proof[..k]), proof[k..])
    ensures PathStrings(h, Fold(h, d, proof[..k]), proof[k..]) <= PathStrings(h, d, proof)
    decreases k
  {
    if k == 0 {
      assert proof[..0] == [] && proof[0..] == proof;
    } else {
      FoldInTwo(h, Join(h, d, proof[0]), proof[1..], k - 1);
      assert proof[..k][1..] == proof[1..][..k - 1] && proof[1..][k - 1..] == proof[k..];
    }
  }

  /** After at least one step the digest is that of a string of 64 bytes hashed on the way. */
  lemma {:induction false} FoldedString(h: Hash, d: Digest, proof: seq<Sibling>, k: nat) returns (x: Bytes)
    requires 0 < k <= |proof|
    ensures x in PathStrings(h, d, proof) && |x| == 64 && h(x) == Fold(h, d, proof[..k])
    decreases k
  {
    var next := Join(h, d, proof[0]);
    if k == 1 {
      assert proof[..1][1..] == [];
      x := Joined(d, proof[0]);
    } else {
      x := FoldedString(h, next, proof[1..], k - 1);
      assert proof[..k][1..] == proof[1..][..k - 1];
    }
  }

  lemma CollideMore(h: Hash, xs: set<Bytes>, ys: set<Bytes>, xs': set<Bytes>, ys': set<Bytes>)
    requires Collide(h, xs, ys) && xs <= xs' && ys <= ys'
    ensures Collide(h, xs', ys')
  {
    var x, y :| x in xs && y in ys && x != y && h(x) == h(y);
    assert x in xs' && y in ys';
  }

  /** A proof no longer than the tree is high starts from a leaf or from the digest of a string hashed inside
      the tree. */
  lemma ShortProofStarts(h: Hash, leaves: seq<Digest>, d: Digest, proof: seq<Sibling>)
    requires leaves != [] && |proof| <= Height(|leaves|) && Fold(h, d, proof) == Root(h, leaves)
    ensures || d in leaves
            || (exists x :: x in TreeStrings(h, leaves) && h(x) == d)
            || Collide(h, PathStrings(h, d, proof), TreeStrings(h, leaves))
  {
    var k := Height(|leaves|) - |proof|;
    LayerHeight(h, leaves, k);
    StartsInLayer(h, leaves, LayerAt(h, leaves, k), d, proof, k);
  }

  lemma StartsInLayer(h: Hash, leaves: seq<Digest>, layer: seq<Digest>, d: Digest, proof: seq<Sibling>, k: nat)
    requires leaves != [] && k <= Height(|leaves|) && layer == LayerAt(h, leaves, k)
    requires layer != [] && |proof| == Height(|layer|) && Fold(h, d, proof) == Root(h, layer)
    requires TreeStrings(h, layer) <= TreeStrings(h, leaves)
    ensures || d in leaves
            || (exists x :: x in TreeStrings(h, leaves) && h(x) == d)
            || Collide(h, PathStrings(h, d, proof), TreeStrings(h, leaves))
  {
    ProofStartsAtLeaf(h, layer, d, proof);
    if d !in layer {
      CollideMore(h, PathStrings(h, d, proof), TreeStrings(h, layer), PathStrings(h, d, proof), TreeStrings(h, leaves));
    } else if k > 0 {
      var x := UpperDigest(h, leaves, k, d);
    }
  }

  /** A longer one comes by a leaf on its way. */
  lemma LongProofPassesLeaf(h: Hash, leaves: seq<Digest>, d: Digest, proof: seq<Sibling>)
    requires leaves != [] && |proof| > Height(|leaves|) && Fold(h, d, proof) == Root(h, leaves)
    ensures (exists x :: x in PathStrings(h, d, proof) && |x| == 64 && h(x) in leaves)
            || Collide(h, PathStrings(h, d, proof), TreeStrings(h, leaves))
  {
    var k := |proof| - Height(|leaves|);
    FoldInTwo(h, d, proof, k);
    var x := FoldedString(h, d, proof, k);
    ProofStartsAtLeaf(h, leaves, h(x), proof[k..]);
    if h(x) !in leaves {
      CollideMore(h, PathStrings(h, h(x), proof[k..]), TreeStrings(h, leaves), PathStrings(h, d, proof),
                  TreeStrings(h, leaves));
    }
  }

  /** Every string hashed for the tree has a proof of its own: the proof of its digest, one layer up or more. */
  lemma {:induction false} TreeStringHasProof(h: Hash, leaves: seq<Digest>, x: Bytes) returns (proof: seq<Sibling>)
    requires x in TreeStrings(h, leaves)
    ensures Fold(h, h(x), proof) == Root(h, leaves) && |proof| < Height(|leaves|)
    decreases |leaves|
  {
    var next := NextLayer(h, leaves);
    if x in TreeStrings(h, next) {
      proof := TreeStringHasProof(h, next, x);
    } else {
      var i :| 0 <= i < |leaves| && i % 2 == 0 && x == leaves[i] + Partner(leaves, i);
      PairHasProof(h, leaves, x, i / 2);
      proof := Proof(h, next, i / 2);
    }
  }

  lemma PairHasProof(h: Hash, leaves: seq<Digest>, x: Bytes, j: nat)
    requires |leaves| > 1 && 2 * j < |leaves| && x == leaves[2 * j] + Partner(leaves, 2 * j)
    ensures var next := NextLayer(h, leaves);
            Fold(h, h(x), Proof(h, next, j)) == Root(h, leaves) && |Proof(h, next, j)| < Height(|leaves|)
  {
    NextLayerAt(h, leaves, j);
    HonestProofReachesRoot(h, NextLayer(h, leaves), j);
  }

  // ---------------------------------------------------------------- the loops of the rollup

  method ComputeMerkleRoot(h: Hash, leaves: seq<Digest>) returns (root: Digest)
    ensures root == Root(h, leaves)
  {
    if leaves == [] {
      return ZERO_DIGEST;
    }
    var layer: seq<Digest> := leaves;
    while |layer| > 1
      invariant layer != [] && Root(h, layer) == Root(h, leaves)
      decreases |layer|
    {
      layer := PadAndHash(h, layer);
    }
    return layer[0];
  }

  /** A layer of odd length gets its last digest twice. */
  method PadAndHash(h: Hash, layer: seq<Digest>) returns (next: seq<Digest>)
    requires |layer| > 1
    ensures next == NextLayer(h, layer) && 0 < |next| < |layer| && Root(h, next) == Root(h, layer)
  {
    var padded := layer;
    if |layer| % 2 != 0 {
      padded := layer + [layer[|layer| - 1]];
    }
    next := HashLayer(h, padded, layer);
  }

  /** Hash the pairs of a layer that has been padded to even length. */
  method HashLayer(h: Hash, layer: seq<Digest>, ghost before: seq<Digest>) returns (next: seq<Digest>)
    requires |layer| % 2 == 0 && Padded(before, layer)
    ensures next == NextLayer(h, before)
  {
    assert 2 * |NextLayer(h, before)| == |layer|;
    next := [];
    ghost var whole := NextLayer(h, before);
    var i := 0;
    while i < |layer|
      invariant i <= |layer| && i % 2 == 0 && next == whole[..i / 2]
    {
      PaddedPair(h, layer, before, whole, i);
      next := next + [HashPair(h, layer[i], layer[i + 1])];
      i := i + 2;
    }
  }

  lemma PaddedPair(h: Hash, layer: seq<Digest>, before: seq<Digest>, whole: seq<Digest>, i: nat)
    requires |layer| % 2 == 0 && Padded(before, layer) && whole == NextLayer(h, before)
    requires i % 2 == 0 && i < |layer|
    ensures i / 2 < |whole| && whole[..i / 2 + 1] == whole[..i / 2] + [HashPair(h, layer[i], layer[i + 1])]
  {
    NextLayerAt(h, before, i / 2);
    assert 2 * (i / 2) == i;
  }

  ghost predicate Padded(before: seq<Digest>, layer: seq<Digest>) {
    before != [] && layer == if |before| % 2 == 0 then before else before + [before[|before| - 1]]
  }

  method BuildMerkleProof(h: Hash, leaves: seq<Digest>, index: nat) returns (proof: seq<Sibling>)
    ensures proof == if index < |leaves| then Proof(h, leaves, index) else []
  {
    proof := [];
    if leaves == [] || index >= |leaves| {
      return [];
    }
    var layer: seq<Digest>, i: nat := leaves, index;
    while |layer| > 1
      invariant i < |layer| && proof + Proof(h, layer, i) == Proof(h, leaves, index)
      decreases |layer|
    {
      layer, proof := ClimbOne(h, layer, i, proof);
      i := i / 2;
    }
  }

  /** One layer up: note the sibling, then hash the pairs. */
  method ClimbOne(h: Hash, layer: seq<Digest>, i: nat, proof: seq<Sibling>)
    returns (next: seq<Digest>, longer: seq<Sibling>)
    requires i < |layer| && |layer| > 1
    ensures i / 2 < |next| < |layer|
    ensures longer + Proof(h, next, i / 2) == proof + Proof(h, layer, i)
  {
    var padded := layer;
    if |layer| % 2 != 0 {
      padded := layer + [layer[|layer| - 1]];
    }
    var siblings := FindSibling(padded, i, layer);
    next := HashLayer(h, padded, layer);
    longer := proof + siblings;
    ExtendProof(h, layer, i, proof);
  }

  lemma ExtendProof(h: Hash, layer: seq<Digest>, i: nat, proof: seq<Sibling>)
    requires i < |layer| && |layer| > 1
    ensures proof + Proof(h, layer, i) == proof + [SiblingOf(layer, i)] + Proof(h, NextLayer(h, layer), i / 2)
  {
    assert Proof(h, layer, i) == [SiblingOf(layer, i)] + Proof(h, NextLayer(h, layer), i / 2);
  }

  /** The sibling at one layer; after padding there always is one. */
  method FindSibling(layer: seq<Digest>, i: nat, ghost before: seq<Digest>) returns (siblings: seq<Sibling>)
    requires i < |before| && Padded(before, layer)
    ensures siblings == [SiblingOf(before, i)]
  {
    siblings := [];
    if i % 2 == 0 {
      if i + 1 < |layer| {
        siblings := [Sibling(layer[i + 1], true)];
      }
    } else {
      siblings := [Sibling(layer[i - 1], false)];
    }
  }

  method FoldProof(h: Hash, d: Digest, proof: seq<Sibling>) returns (current: Digest)
    ensures current == Fold(h, d, proof)
  {
    current := d;
    for i := 0 to |proof|
      invariant Fold(h, current, proof[i..]) == Fold(h, d, proof)
    {
      current := if proof[i].isRight then HashPair(h, current, proof[i].digest)
                 else HashPair(h, proof[i].digest, current);
    }
  }

  // ---------------------------------------------------------------- Plasma's own versions

  /** Plasma duplicates by indexing instead of padding; the root is the same. */
  method BuildMerkleRoot(h: Hash, hashes: seq<Digest>) returns (root: Digest)
    ensures root == Root(h, hashes)
  {
    if hashes == [] {
      return ZERO_DIGEST;
    }
    var level := hashes;
    while |level| > 1
      invariant level != [] && Root(h, level) == Root(h, hashes)
      decreases |level|
    {
      level := HashLevel(h, level);
    }
    return level[0];
  }

  method HashLevel(h: Hash, level: seq<Digest>) returns (next: seq<Digest>)
    ensures next == NextLayer(h, level)
  {
    next := [];
    var i := 0;
    while i < |level|
      invariant i <= |level| + 1 && i % 2 == 0 && i / 2 <= |NextLayer(h, level)|
      invariant next == NextLayer(h, level)[..i / 2]
    {
      NextLayerAt(h, level, i / 2);
      var right := if i + 1 < |level| then level[i + 1] else level[i];
      next := next + [HashPair(h, level[i], right)];
      i := i + 2;
    }
    assert NextLayer(h, level)[..i / 2] == NextLayer(h, level);
  }

  /** Plasma's wire form of a proof: a direction byte, 0 for a right sibling, then the sibling. */
  function EncodeProof(proof: seq<Sibling>): (r: Bytes)
    ensures |r| == 33 * |proof|
    decreases |proof|
  {
    if proof == [] then [] else [if proof[0].isRight then 0 else 1] + proof[0].digest + EncodeProof(proof[1..])
  }

  /** The levels of a wire-form proof; any non-zero direction means a left sibling. */
  function DecodeProof(bytes: Bytes): (r: seq<Sibling>)
    requires |bytes| % 33 == 0
    ensures |r| == |bytes| / 33
    decreases |bytes|
  {
    if bytes == [] then [] else [Sibling(bytes[1..33], bytes[0] == 0)] + DecodeProof(bytes[33..])
  }

  lemma {:induction false} DecodeEncode(proof: seq<Sibling>)
    ensures DecodeProof(EncodeProof(proof)) == proof
    decreases |proof|
  {
    if proof != [] {
      var bytes := EncodeProof(proof);
      assert bytes[1..33] == proof[0].digest && bytes[33..] == EncodeProof(proof[1..]);
      DecodeEncode(proof[1..]);
    }
  }

  method VerifyPlasmaProof(h: Hash, txHash: Digest, root: Digest, proof: Bytes) returns (ok: bool)
    ensures ok <==> proof != [] && |proof| % 33 == 0 && Fold(h, txHash, DecodeProof(proof)) == root
  {
    if proof == [] || |proof| % 33 != 0 {
      return false;
    }
    var current: Digest := txHash;
    var levels := |proof| / 33;
    for i := 0 to levels
      invariant Fold(h, current, DecodeProof(proof[33 * i..])) == Fold(h, txHash, DecodeProof(proof))
    {
      var rest := proof[33 * i..];
      assert rest[33..] == proof[33 * (i + 1)..];
      var direction := proof[i * 33];
      var sibling: Digest := proof[i * 33 + 1..i * 33 + 33];
      assert rest[1..33] == sibling && rest[0] == direction;
      assert DecodeProof(rest)[1..] == DecodeProof(rest[33..]);
      current := if direction == 0 then HashPair(h, current, sibling) else HashPair(h, sibling, current);
    }
    return current == root;
  }

  /** Plasma accepts the wire form of an honest proof exactly when the block holds more than one
      transaction: the proof of a lone transaction is empty, and empty proofs are refused. */
  lemma PlasmaAcceptsHonestProof(h: Hash, leaves: seq<Digest>, i: nat)
    requires i < |leaves|
    ensures var bytes := EncodeProof(Proof(h, leaves, i));
            (bytes != [] && |bytes| % 33 == 0 && Fold(h, leaves[i], DecodeProof(bytes)) == Root(h, leaves))
            <==> |leaves| > 1
  {
    DecodeEncode(Proof(h, leaves, i));
    HonestProofReachesRoot(h, leaves, i);
  }
}

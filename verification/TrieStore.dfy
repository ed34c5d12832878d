/** The public trie, and its agreement with a map over whole runs. */
module TrieStore {
  import opened Bytes
  import opened Trie
  import opened TrieMap
  import opened TrieDelete
  import TrieBinding
  import TrieHeap

  class MerklePatriciaTrie {
    var root: TrieHeap.TrieNode

    ghost predicate Valid()
      reads this, root, root.repr
    {
      root.Valid()
    }

    ghost function Model(): (m: NodePtr)
      requires Valid()
      reads this, root, root.repr
      ensures m.Node?
    {
      root.Model()
    }

    constructor ()
      ensures Valid() && fresh(root.repr) && Model() == EMPTY_NODE
    {
      var empty := TrieHeap.NewEmpty();
      root := empty;
    }

    method Put(key: Bytes, value: Bytes)
      requires Valid() && Shaped(Model())
      modifies this, root.repr
      ensures Valid() && fresh(root.repr - old(root.repr))
      ensures Model() == Apply(AsWritten, old(Model()), Op.Put(key, value))
    {
      if value == [] {
        Delete(key);
      } else {
        root := TrieHeap.Insert(root, ToNibbles(key), value);
      }
    }

    method Delete(key: Bytes)
      requires Valid() && Shaped(Model())
      modifies this, root.repr
      ensures Valid() && fresh(root.repr - old(root.repr))
      ensures Model() == Apply(AsWritten, old(Model()), Op.Delete(key))
    {
      root := TrieHeap.Remove(root, ToNibbles(key));
    }

    method Get(key: Bytes) returns (r: Outcome)
      requires Valid()
      ensures r == Lookup(Model(), ToNibbles(key))
    {
      r := TrieHeap.Lookup(root, ToNibbles(key));
    }

    method GetRootHash(h: Hash) returns (d: Digest)
      requires Valid() && Shaped(Model())
      ensures d == TrieBinding.HashNode(h, Model())
    {
      d := TrieHeap.HashNode(h, root);
    }
  }

  datatype Op = Put(key: Bytes, value: Bytes) | Delete(key: Bytes)

  function Apply(how: Collapsing, n: NodePtr, op: Op): NodePtr
    requires n.Node? && Shaped(n)
  {
    if op.Put? && op.value != [] then Insert(n, ToNibbles(op.key), op.value)
    else Remove(how, n, ToNibbles(op.key))
  }

  function ApplyToMap(m: map<Bytes, Bytes>, op: Op): map<Bytes, Bytes> {
    if op.Put? && op.value != [] then m[op.key := op.value] else m - {op.key}
  }

  function ReadMap(m: map<Bytes, Bytes>, key: Bytes): Outcome {
    if key in m then Found(m[key]) else Missing
  }

  /** The trie is well formed for keys of `width` bytes and answers as the map does. */
  ghost predicate Represents(n: NodePtr, m: map<Bytes, Bytes>, width: nat) {
    && n.Node? && WellFormed(n, 2 * width)
    && forall key: Bytes | |key| == width :: Lookup(n, ToNibbles(key)) == ReadMap(m, key)
  }

  lemma {:induction false} ToNibblesInjective(a: Bytes, b: Bytes)
    requires |a| == |b| && ToNibbles(a) == ToNibbles(b)
    ensures a == b
  {
    if a != [] {
      assert ToNibbles(a)[0] == ToNibbles(b)[0] && ToNibbles(a)[1] == ToNibbles(b)[1];
      assert ToNibbles(a)[2..] == ToNibbles(a[1..]) && ToNibbles(b)[2..] == ToNibbles(b[1..]);
      ToNibblesInjective(a[1..], b[1..]);
      assert a == [a[0]] + a[1..] && b == [b[0]] + b[1..];
    }
  }

  /** An operation the trie performs as a map does: its key has the common width and, under the
      code's collapse, a deletion collapses no branch onto a leaf or branch. */
  predicate Admissible(how: Collapsing, n: NodePtr, op: Op, width: nat) {
    && |op.key| == width
    && (how == AsDocumented || (op.Put? && op.value != []) || CollapseSafe(n, ToNibbles(op.key)))
  }

  lemma StepRepresents(how: Collapsing, n: NodePtr, m: map<Bytes, Bytes>, op: Op, width: nat)
    requires Represents(n, m, width) && Admissible(how, n, op, width)
    ensures Shaped(n) && Represents(Apply(how, n, op), ApplyToMap(m, op), width)
  {
    WellFormedIsShaped(n, 2 * width);
    var rest := ToNibbles(op.key);
    var n' := Apply(how, n, op);
    if op.Put? && op.value != [] {
      InsertWellFormed(n, rest, op.value);
    } else {
      RemoveWellFormed(how, n, rest);
      RemoveKeepsNode(how, n, rest);
    }
    forall key: Bytes | |key| == width
      ensures Lookup(n', ToNibbles(key)) == ReadMap(ApplyToMap(m, op), key)
    {
      if key != op.key && ToNibbles(key) == rest {
        ToNibblesInjective(key, op.key);
      }
      if op.Put? && op.value != [] {
        InsertThenLookup(n, rest, op.value, ToNibbles(key));
      } else {
        RemoveThenLookup(how, n, rest, ToNibbles(key));
      }
    }
  }

  lemma RemoveKeepsNode(how: Collapsing, n: NodePtr, rest: Nibbles)
    requires n.Node? && Shaped(n) && WellFormed(n, |rest|)
    ensures Remove(how, n, rest).Node?
  {
  }

  /** Every operation of the run is admissible when its turn comes. */
  ghost predicate AdmissibleRun(how: Collapsing, n: NodePtr, ops: seq<Op>, width: nat)
    decreases |ops|
  {
    ops == [] ||
    (Admissible(how, n, ops[0], width) && n.Node? && Shaped(n)
     && AdmissibleRun(how, Apply(how, n, ops[0]), ops[1..], width))
  }

  ghost function RunTrie(how: Collapsing, n: NodePtr, ops: seq<Op>, width: nat): NodePtr
    requires AdmissibleRun(how, n, ops, width)
    decreases |ops|
  {
    if ops == [] then n else RunTrie(how, Apply(how, n, ops[0]), ops[1..], width)
  }

  function RunMap(m: map<Bytes, Bytes>, ops: seq<Op>): map<Bytes, Bytes>
    decreases |ops|
  {
    if ops == [] then m else RunMap(ApplyToMap(m, ops[0]), ops[1..])
  }

  /** After any run of admissible operations on keys of one width, the trie is the map. */
  lemma {:induction false} RunRepresents(how: Collapsing, n: NodePtr, m: map<Bytes, Bytes>,
                                         ops: seq<Op>, width: nat)
    requires Represents(n, m, width) && AdmissibleRun(how, n, ops, width)
    ensures Represents(RunTrie(how, n, ops, width), RunMap(m, ops), width)
    decreases |ops|
  {
    if ops != [] {
      StepRepresents(how, n, m, ops[0], width);
      RunRepresents(how, Apply(how, n, ops[0]), ApplyToMap(m, ops[0]), ops[1..], width);
    }
  }

  /** Before every operation of the run and after the last, the trie is well formed and answers as the map. */
  ghost predicate InStep(n: NodePtr, m: map<Bytes, Bytes>, ops: seq<Op>, width: nat)
    decreases |ops|
  {
    && Represents(n, m, width)
    && (ops == [] || (Shaped(n) && InStep(Apply(AsWritten, n, ops[0]), ApplyToMap(m, ops[0]), ops[1..], width)))
  }

  /** The code's runs on keys of one width that stay in step with a map are the admissible ones, and no others. */
  lemma {:induction false} InStepExactly(n: NodePtr, m: map<Bytes, Bytes>, ops: seq<Op>, width: nat)
    requires Represents(n, m, width)
    requires forall op | op in ops :: |op.key| == width
    ensures InStep(n, m, ops, width) <==> AdmissibleRun(AsWritten, n, ops, width)
    decreases |ops|
  {
    if ops != [] {
      WellFormedIsShaped(n, 2 * width);
      assert ops[0] in ops;
      if Admissible(AsWritten, n, ops[0], width) {
        StepRepresents(AsWritten, n, m, ops[0], width);
        InStepExactly(Apply(AsWritten, n, ops[0]), ApplyToMap(m, ops[0]), ops[1..], width);
      } else {
        ShapeKeptExactly(n, ToNibbles(ops[0].key));
      }
    }
  }

  // ---------------------------------------------------------------- answers alone

  /** The trie answers as the map does, whatever its shape. */
  ghost predicate Answers(n: NodePtr, m: map<Bytes, Bytes>, width: nat) {
    forall key: Bytes | |key| == width :: Lookup(n, ToNibbles(key)) == ReadMap(m, key)
  }

  lemma {:induction false} DigitsAreKey(q: Nibbles, width: nat) returns (key: Bytes)
    requires |q| == 2 * width
    ensures |key| == width && ToNibbles(key) == q
    decreases width
  {
    if width == 0 {
      key := [];
    } else {
      var rest := DigitsAreKey(q[2..], width - 1);
      var first: byte := (q[0] as int) * 16 + q[1];
      key := [first] + rest;
      assert key[1..] == rest && first / 16 == q[0] && first % 16 == q[1];
      assert q == [q[0], q[1]] + q[2..];
    }
  }

  lemma DeletionAnswersExactly(n: NodePtr, m: map<Bytes, Bytes>, key: Bytes, width: nat)
    requires Represents(n, m, width) && Shaped(n) && |key| == width
    ensures Answers(Remove(AsWritten, n, ToNibbles(key)), m - {key}, width) <==> DeletesOnly(n, ToNibbles(key))
  {
    var rest := ToNibbles(key);
    var n' := Remove(AsWritten, n, rest);
    if Answers(n', m - {key}, width) {
      forall q: Nibbles | |q| == |rest| ensures Lookup(n', q) == if q == rest then Missing else Lookup(n, q) {
        var k := DigitsAreKey(q, width);
        assert Lookup(n', ToNibbles(k)) == ReadMap(m - {key}, k) && Lookup(n, ToNibbles(k)) == ReadMap(m, k);
        if k != key && q == rest {
          ToNibblesInjective(k, key);
        }
      }
    }
    if DeletesOnly(n, rest) {
      forall k: Bytes | |k| == width ensures Lookup(n', ToNibbles(k)) == ReadMap(m - {key}, k) {
        if k != key && ToNibbles(k) == rest {
          ToNibblesInjective(k, key);
        }
      }
    }
  }

  /** One operation of the code on a trie in step with a map keeps the answers right if and only if it stores,
      or collapses no branch onto a leaf or branch, or collapses one onto a node that holds no value. */
  lemma StepAnswersExactly(n: NodePtr, m: map<Bytes, Bytes>, op: Op, width: nat)
    requires Represents(n, m, width) && |op.key| == width
    ensures Shaped(n)
    ensures Answers(Apply(AsWritten, n, op), ApplyToMap(m, op), width)
            <==> || (op.Put? && op.value != [])
                 || CollapseSafe(n, ToNibbles(op.key))
                 || Void(Survivor(n, ToNibbles(op.key)))
  {
    WellFormedIsShaped(n, 2 * width);
    if op.Put? && op.value != [] {
      StepRepresents(AsWritten, n, m, op, width);
    } else {
      DeletionAnswersExactly(n, m, op.key, width);
      DeleteExactly(n, ToNibbles(op.key));
    }
  }

  /** Before every operation of the run and after the last, the trie answers as the map. */
  ghost predicate AnswersThroughout(n: NodePtr, m: map<Bytes, Bytes>, ops: seq<Op>, width: nat)
    decreases |ops|
  {
    && n.Node? && Answers(n, m, width)
    && (ops == []
        || (Shaped(n) && AnswersThroughout(Apply(AsWritten, n, ops[0]), ApplyToMap(m, ops[0]), ops[1..], width)))
  }

  lemma {:induction false} BreakAnswersExactly(n: NodePtr, m: map<Bytes, Bytes>, last: Op, width: nat)
    requires Represents(n, m, width) && |last.key| == width && !Admissible(AsWritten, n, last, width)
    ensures AnswersThroughout(n, m, [last], width) <==> Void(Survivor(n, ToNibbles(last.key)))
  {
    StepAnswersExactly(n, m, last, width);
    RemoveKeepsNode(AsWritten, n, ToNibbles(last.key));
    AnswersAfter(n, m, [last], width, last, []);
  }

  lemma AnswersAfter(n: NodePtr, m: map<Bytes, Bytes>, ops: seq<Op>, width: nat, first: Op, rest: seq<Op>)
    requires Represents(n, m, width) && Shaped(n) && ops == [first] + rest
    ensures AnswersThroughout(n, m, ops, width)
            <==> AnswersThroughout(Apply(AsWritten, n, first), ApplyToMap(m, first), rest, width)
  {
    assert ops[1..] == rest;
  }

  /** A run of the code up to and including its first inadmissible operation: the answers are right throughout
      if and only if the node that operation collapses a branch onto holds no value. */
  lemma {:induction false} FirstBreakAnswersExactly(n: NodePtr, m: map<Bytes, Bytes>, ops: seq<Op>, last: Op,
                                                    width: nat)
    requires Represents(n, m, width) && AdmissibleRun(AsWritten, n, ops, width)
    requires |last.key| == width && !Admissible(AsWritten, RunTrie(AsWritten, n, ops, width), last, width)
    ensures AnswersThroughout(n, m, ops + [last], width)
            <==> Void(Survivor(RunTrie(AsWritten, n, ops, width), ToNibbles(last.key)))
    decreases |ops|
  {
    if ops == [] {
      assert ops + [last] == [last];
      BreakAnswersExactly(n, m, last, width);
    } else {
      var n', m' := FirstStep(n, m, ops, width);
      FirstBreakAnswersExactly(n', m', ops[1..], last, width);
      FirstOpInFront(ops, last);
      AnswersAfter(n, m, ops + [last], width, ops[0], ops[1..] + [last]);
    }
  }

  lemma FirstOpInFront(ops: seq<Op>, last: Op)
    requires ops != []
    ensures ops + [last] == [ops[0]] + (ops[1..] + [last])
  {
  }

  lemma FirstStep(n: NodePtr, m: map<Bytes, Bytes>, ops: seq<Op>, width: nat)
    returns (n': NodePtr, m': map<Bytes, Bytes>)
    requires Represents(n, m, width) && ops != [] && AdmissibleRun(AsWritten, n, ops, width)
    ensures Shaped(n) && n' == Apply(AsWritten, n, ops[0]) && m' == ApplyToMap(m, ops[0])
    ensures Represents(n', m', width) && AdmissibleRun(AsWritten, n', ops[1..], width)
    ensures RunTrie(AsWritten, n, ops, width) == RunTrie(AsWritten, n', ops[1..], width)
  {
    StepRepresents(AsWritten, n, m, ops[0], width);
    n', m' := Apply(AsWritten, n, ops[0]), ApplyToMap(m, ops[0]);
  }

  /** Storing below this node follows a null or missing child. */
  predicate StoreFaults(n: NodePtr, rest: Nibbles)
    decreases n
  {
    n.Null? ||
    (rest != [] &&
     if n.kind == Branch then
       |n.children| == 17 && n.children[rest[0]].Node? && StoreFaults(n.children[rest[0]], rest[1..])
     else
       n.kind == Extension && n.path <= rest
       && (n.children == [] || StoreFaults(n.children[0], rest[|n.path|..])))
  }

  /** A shaped trie never does that. */
  lemma {:induction false} ShapedStores(n: NodePtr, rest: Nibbles)
    requires n.Node? && Shaped(n)
    ensures !StoreFaults(n, rest)
    decreases n
  {
    if rest != [] && n.kind == Branch && n.children[rest[0]].Node? {
      ShapedStores(n.children[rest[0]], rest[1..]);
    } else if rest != [] && n.kind == Extension && n.path <= rest {
      ShapedStores(n.children[0], rest[|n.path|..]);
    }
  }

  /** Right answers are not the end of it: store two keys, overwrite the first, and delete both. The trie
      then answers as the empty map, but storing the first key again follows a null child. */
  lemma ValuelessSurvivorFaults(value: Bytes)
    requires value != []
    ensures Shaped(TwoStored(value)) && Shaped(Apply(AsWritten, TwoStored(value), Put([0x11], value)))
    ensures var three := Apply(AsWritten, TwoStored(value), Put([0x11], value));
            var four := Apply(AsWritten, three, Delete([0x11]));
            && Shaped(four)
            && var five := Apply(AsWritten, four, Delete([0x12]));
               Answers(five, map[], 1) && StoreFaults(five, ToNibbles([0x11]))
  {
    assert ToNibbles([0x11]) == [1, 1] && ToNibbles([0x12]) == [1, 2];
    StoreSecond(value);
    StoreFirstAgain(value);
    DeleteFirst(value);
    DeleteSecond(value);
    NothingFound(Under(Node(Extension, [1], [], NO_CHILDREN)));
  }

  function TwoStored(value: Bytes): (n: NodePtr)
    ensures n.Node?
  {
    Insert(LeafNode(ToNibbles([0x11]), value), ToNibbles([0x12]), value)
  }

  /** A node below an extension by the digit 1, and a branch with children at 1 and 2. */
  function Under(n: NodePtr): NodePtr {
    ExtensionNode([1], n)
  }

  function PairOf(first: NodePtr, second: NodePtr): NodePtr {
    Node(Branch, [], [], OneChild(1, first)[2 := second])
  }

  lemma PairShaped(first: NodePtr, second: NodePtr)
    requires Shaped(first) && Shaped(second)
    ensures Shaped(PairOf(first, second)) && Shaped(Under(PairOf(first, second)))
  {
    assert Under(PairOf(first, second)).children == [PairOf(first, second)];
  }

  lemma StoreSecond(value: Bytes)
    requires value != []
    ensures Shaped(LeafNode([1, 1], value))
    ensures Insert(LeafNode([1, 1], value), [1, 2], value) == Under(PairOf(LeafNode([], value), LeafNode([], value)))
  {
    var one: NodePtr, n: Nibbles, k: Nibbles := LeafNode([1, 1], value), [1, 1], [1, 2];
    assert CommonPrefix(k, n) == 1 by {
      assert CommonPrefix(k[1..], n[1..]) == 0;
    }
    assert n[1 + 1..] == [] && k[1 + 1..] == [] && n[..1] == [1];
    assert Fork(one, k, 1, value) == PairOf(LeafNode([], value), LeafNode([], value));
  }

  lemma StoreFirstAgain(value: Bytes)
    requires value != []
    ensures var two := Under(PairOf(LeafNode([], value), LeafNode([], value)));
            && Shaped(two)
            && Insert(two, [1, 1], value) == Under(PairOf(Node(Branch, [], value, NO_CHILDREN), LeafNode([], value)))
  {
    var pair := PairOf(LeafNode([], value), LeafNode([], value));
    PairShaped(LeafNode([], value), LeafNode([], value));
    var n: Nibbles := [1, 1];
    var p: Nibbles := [1];
    assert CommonPrefix(n, p) == 1 by {
      assert n[0] == p[0] && p[1..] == [] && CommonPrefix(n[1..], p[1..]) == 0;
    }
    assert n[1..] == p && p[1..] == [];
    var used := Node(Branch, [], value, NO_CHILDREN);
    assert InsertChild(pair, 1, [], value) == used;
    assert pair.children[1 := used] == PairOf(used, LeafNode([], value)).children;
    assert Insert(pair, p, value) == PairOf(used, LeafNode([], value));
  }

  lemma DeleteFirst(value: Bytes)
    requires value != []
    ensures var three := Under(PairOf(Node(Branch, [], value, NO_CHILDREN), LeafNode([], value)));
            && Shaped(three)
            && Remove(AsWritten, three, [1, 1])
               == Under(PairOf(Node(Branch, [], [], NO_CHILDREN), LeafNode([], value)))
  {
    var used, spent := Node(Branch, [], value, NO_CHILDREN), Node(Branch, [], [], NO_CHILDREN);
    PairShaped(used, LeafNode([], value));
    var pair := PairOf(spent, LeafNode([], value));
    var n: Nibbles := [1, 1];
    assert n[1..] == [1] && n[1..][1..] == [] && [1] <= n;
    assert PairOf(used, LeafNode([], value)).children[1 := spent] == pair.children;
    RemainingCounts(pair.children);
    assert Live(pair.children[1]) && Live(pair.children[2]);
    assert Remove(AsWritten, PairOf(used, LeafNode([], value)), [1]) == pair;
  }

  lemma DeleteSecond(value: Bytes)
    requires value != []
    ensures var four := Under(PairOf(Node(Branch, [], [], NO_CHILDREN), LeafNode([], value)));
            && Shaped(four)
            && Remove(AsWritten, four, [1, 2]) == Under(Node(Extension, [1], [], NO_CHILDREN))
  {
    var spent := Node(Branch, [], [], NO_CHILDREN);
    var pair, gone := PairOf(spent, LeafNode([], value)), PairOf(spent, EMPTY_NODE);
    PairShaped(spent, LeafNode([], value));
    var k: Nibbles := [1, 2];
    assert k[1..] == [2] && k[1..][1..] == [] && [1] <= k;
    assert pair.children[2 := EMPTY_NODE] == gone.children;
    RemainingCounts(gone.children);
    assert Live(gone.children[1]) && !Live(gone.children[2]);
    assert [1] + [] == [1];
    assert Remove(AsWritten, pair, [2]) == Node(Extension, [1], [], NO_CHILDREN);
  }

  lemma NothingFound(n: NodePtr)
    requires n == Under(Node(Extension, [1], [], NO_CHILDREN))
    ensures Answers(n, map[], 1) && StoreFaults(n, [1, 1])
  {
    forall key: Bytes | |key| == 1 ensures Lookup(n, ToNibbles(key)) == Missing {
      var q := ToNibbles(key);
      assert q[1..] != [];
      if [1] <= q {
        var below := Node(Extension, [1], [], NO_CHILDREN);
        assert n.children[0] == below && q[1..][1..] == [];
        assert Lookup(below, q[1..]) == Missing;
      }
    }
    var rest: Nibbles := [1, 1];
    assert rest[1..] == [1] && [1] <= rest;
    assert StoreFaults(Node(Extension, [1], [], NO_CHILDREN), [1]);
  }

  /** With the collapse the comment describes, no run on keys of one width is excluded. */
  lemma {:induction false} DocumentedRunIsAdmissible(n: NodePtr, m: map<Bytes, Bytes>, ops: seq<Op>, width: nat)
    requires Represents(n, m, width)
    requires forall op | op in ops :: |op.key| == width
    ensures AdmissibleRun(AsDocumented, n, ops, width)
    decreases |ops|
  {
    if ops != [] {
      StepRepresents(AsDocumented, n, m, ops[0], width);
      DocumentedRunIsAdmissible(Apply(AsDocumented, n, ops[0]), ApplyToMap(m, ops[0]), ops[1..], width);
    }
  }

  lemma EmptyRepresents(width: nat)
    ensures Represents(EMPTY_NODE, map[], width)
  {
  }

  /** The shortest run on which the written collapse shows: store two keys that differ in the last
      digit and delete one; the other then makes the lookup read past the end of a vector. */
  lemma WrittenCollapseLosesKey(value: Bytes)
    requires value != []
    ensures var one := LeafNode(ToNibbles([0x11]), value);
            var two := Apply(AsWritten, one, Put([0x12], value));
            && one == Apply(AsWritten, EMPTY_NODE, Put([0x11], value))
            && Shaped(two) && Lookup(two, ToNibbles([0x12])) == Found(value)
            && Lookup(Apply(AsWritten, two, Delete([0x11])), ToNibbles([0x12])) == Fault
  {
    var n, k := ToNibbles([0x11]), ToNibbles([0x12]);
    assert n == [1, 1] && k == [1, 2];
    var two := OverOneDigit(n, k, value);
    assert n[1..] == [1] && k[1..] == [2];
    WrittenCollapseOfTwo(two.children[0], value);
    var e := Node(Extension, [2], value, []);
    assert Remove(AsWritten, two, n) == two.(children := [e]);
  }

  /** Two keys that differ in their second digit: an extension over a branch over two bare leaves. */
  lemma {:induction false} OverOneDigit(n: Nibbles, k: Nibbles, value: Bytes) returns (two: NodePtr)
    requires n == [1, 1] && k == [1, 2] && value != []
    ensures two == Insert(LeafNode(n, value), k, value) && Shaped(two) && Lookup(two, k) == Found(value)
    ensures two == ExtensionNode([1], Node(Branch, [], [], OneChild(1, LeafNode([], value))[2 := LeafNode([], value)]))
  {
    var one := LeafNode(n, value);
    assert CommonPrefix(k, n) == 1 by {
      assert CommonPrefix(k[1..], n[1..]) == 0;
    }
    InsertWellFormed(one, k, value);
    InsertThenLookup(one, k, value, k);
    two := Insert(one, k, value);
    WellFormedIsShaped(two, 2);
    assert two == ExtensionNode([1], Fork(one, k, 1, value));
  }

  /** Of a branch over two bare leaves, the collapse leaves an extension without a child. */
  lemma WrittenCollapseOfTwo(branch: NodePtr, value: Bytes)
    requires value != []
    requires branch == Node(Branch, [], [], OneChild(1, LeafNode([], value))[2 := LeafNode([], value)])
    ensures Shaped(branch) && Remove(AsWritten, branch, [1]) == Node(Extension, [2], value, [])
    ensures Lookup(Node(Extension, [2], value, []), [2]) == Fault
  {
    var gone := branch.(children := OneChild(1, EMPTY_NODE)[2 := LeafNode([], value)]);
    assert branch.children[1 := EMPTY_NODE] == gone.children;
    RemainingCounts(gone.children);
    assert Live(gone.children[2]) && !Live(gone.children[1]);
    assert [2] + [] == [2];
  }

  /** Keys of different lengths: storing a key that ends inside a leaf's path drops the leaf. */
  lemma MixedLengthsLoseKey(value: Bytes)
    requires value != []
    ensures var one := Apply(AsWritten, EMPTY_NODE, Put([0x11], value));
            Shaped(one) &&
            var two := Apply(AsWritten, one, Put([], value));
            Lookup(one, ToNibbles([0x11])) == Found(value) && Lookup(two, ToNibbles([0x11])) == Missing
  {
    var n := ToNibbles([0x11]);
    assert n == [1, 1];
    assert Apply(AsWritten, EMPTY_NODE, Put([0x11], value)) == LeafNode([1, 1], value);
    assert Insert(LeafNode([1, 1], value), [], value) == Node(Branch, [], value, NO_CHILDREN);
  }
}

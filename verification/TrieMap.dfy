/** The trie agrees with a plain map on keys of one fixed length. */
module TrieMap {
  import opened Bytes
  import opened Trie

  /** A trie all of whose keys have exactly `h` digits left at node `n`. Overwriting a value below
      the last branch turns the leaf into a branch without children, so those occur at height 0. */
  ghost predicate WellFormed(n: NodePtr, h: nat)
    decreases n
  {
    n.Node? ==>
      match n.kind
      case Empty => n == EMPTY_NODE
      case Leaf => |n.path| == h && n.value != [] && n.children == []
      case Extension => |n.path| < h && |n.children| == 1 && Live(n.children[0])
                        && WellFormed(n.children[0], h - |n.path|)
      case Branch => n.path == [] && |n.children| == 17 && n.children[16].Null?
                     && (if h == 0 then forall i | 0 <= i < 16 :: n.children[i].Null?
                         else n.value == [] && TwoLive(n.children)
                              && forall i | 0 <= i < 16 :: WellFormed(n.children[i], h - 1))
  }

  ghost predicate TwoLive(children: seq<NodePtr>) {
    exists i, j :: 0 <= i < j < 16 && j < |children| && Live(children[i]) && Live(children[j])
  }

  lemma {:induction false} WellFormedIsShaped(n: NodePtr, h: nat)
    requires WellFormed(n, h)
    ensures Shaped(n)
    decreases n
  {
    if n.Node? {
      forall c | c in n.children ensures Shaped(c) {
        var i :| 0 <= i < |n.children| && n.children[i] == c;
        if n.kind == Extension {
          WellFormedIsShaped(c, h - |n.path|);
        } else if n.kind == Branch && i < 16 && h > 0 {
          WellFormedIsShaped(c, h - 1);
        }
      }
    }
  }

  // ---------------------------------------------------------------- insertion

  lemma {:induction false} InsertWellFormed(n: NodePtr, rest: Nibbles, value: Bytes)
    requires n.Node? && Shaped(n) && WellFormed(n, |rest|) && value != []
    ensures Live(Insert(n, rest, value)) && WellFormed(Insert(n, rest, value), |rest|)
    decreases n
  {
    if rest == [] || n.kind == Empty {
    } else if n.kind == Branch {
      var child := n.children[rest[0]];
      if child.Node? {
        InsertWellFormed(child, rest[1..], value);
      }
      BranchKeepsTwoLive(n.children, rest[0], InsertChild(n, rest[0], rest[1..], value));
    } else if CommonPrefix(rest, n.path) < |n.path| {
      SplitWellFormed(n, rest, value);
    } else if n.kind == Extension {
      InsertWellFormed(n.children[0], rest[|n.path|..], value);
    }
  }

  lemma BranchKeepsTwoLive(children: seq<NodePtr>, at: nibble, child: NodePtr)
    requires |children| == 17 && TwoLive(children) && Live(child)
    ensures TwoLive(children[at := child])
  {
    var i, j :| 0 <= i < j < 16 && Live(children[i]) && Live(children[j]);
    assert Live(children[at := child][i]) && Live(children[at := child][j]);
  }

  lemma SplitWellFormed(n: NodePtr, rest: Nibbles, value: Bytes)
    requires n.Node? && (n.kind == Leaf || n.kind == Extension)
    requires WellFormed(n, |rest|) && CommonPrefix(rest, n.path) < |n.path| && value != []
    ensures WellFormed(Split(n, rest, CommonPrefix(rest, n.path), value), |rest|)
  {
    SplitAtWellFormed(n, rest, CommonPrefix(rest, n.path), value);
  }

  lemma SplitAtWellFormed(n: NodePtr, rest: Nibbles, c: nat, value: Bytes)
    requires n.Node? && (n.kind == Leaf || n.kind == Extension) && WellFormed(n, |rest|)
    requires c < |n.path| && c < |rest| && n.path[c] != rest[c] && value != []
    ensures WellFormed(Split(n, rest, c, value), |rest|)
  {
    ForkWellFormed(n, rest, c, value);
    PrefixedWellFormed(n, rest, c, value, Fork(n, rest, c, value));
  }

  lemma {:induction false} PrefixedWellFormed(n: NodePtr, rest: Nibbles, c: nat, value: Bytes, fork: NodePtr)
    requires n.Node? && c < |n.path| && c < |rest| && fork == Fork(n, rest, c, value)
    requires Live(fork) && fork.kind == Branch && WellFormed(fork, |rest| - c)
    ensures WellFormed(Split(n, rest, c, value), |rest|)
  {
    if c > 0 {
      ExtensionWellFormed(n.path[..c], fork, |rest|);
    }
  }

  lemma ExtensionWellFormed(path: Nibbles, child: NodePtr, h: nat)
    requires 0 < |path| < h && Live(child) && child.kind == Branch && WellFormed(child, h - |path|)
    ensures WellFormed(ExtensionNode(path, child), h)
  {
  }

  lemma ForkWellFormed(n: NodePtr, rest: Nibbles, c: nat, value: Bytes)
    requires n.Node? && (n.kind == Leaf || n.kind == Extension) && WellFormed(n, |rest|)
    requires c < |n.path| && c < |rest| && n.path[c] != rest[c] && value != []
    ensures Live(Fork(n, rest, c, value)) && WellFormed(Fork(n, rest, c, value), |rest| - c)
  {
    var lower := Node(n.kind, n.path[c + 1..], n.value, n.children);
    assert WellFormed(lower, |rest| - c - 1);
    var children := Fork(n, rest, c, value).children;
    assert Live(children[n.path[c]]) && Live(children[rest[c]]);
    assert TwoLive(children) by {
      if n.path[c] < rest[c] {
        assert 0 <= n.path[c] < rest[c] < 16;
      } else {
        assert 0 <= rest[c] < n.path[c] < 16;
      }
    }
  }

  lemma UpdatedBranchLookup(n: NodePtr, at: nibble, child: NodePtr, q: Nibbles)
    requires n.Node? && n.kind == Branch && |n.children| == 17 && q != []
    ensures Lookup(n.(children := n.children[at := child]), q)
            == if q[0] == at then Lookup(child, q[1..]) else Lookup(n, q)
  {
  }

  lemma UpdatedExtensionLookup(n: NodePtr, child: NodePtr, q: Nibbles)
    requires n.Node? && n.kind == Extension && |n.children| >= 1 && q != []
    ensures Lookup(n.(children := n.children[0 := child]), q)
            == if n.path <= q then Lookup(child, q[|n.path|..]) else Missing
  {
  }

  lemma {:induction false} InsertThenLookup(n: NodePtr, rest: Nibbles, value: Bytes, q: Nibbles)
    requires n.Node? && Shaped(n) && WellFormed(n, |rest|) && value != [] && |q| == |rest|
    ensures Lookup(Insert(n, rest, value), q) == if q == rest then Found(value) else Lookup(n, q)
    decreases n
  {
    if rest == [] || n.kind == Empty || n.kind == Leaf {
      ShallowInsertThenLookup(n, rest, value, q);
    } else if n.kind == Branch {
      var child := n.children[rest[0]];
      if q[0] == rest[0] && child.Node? {
        InsertThenLookup(child, rest[1..], value, q[1..]);
      }
      if q[0] == rest[0] && child.Null? {
        LeafLookup(rest[1..], value, q[1..]);
      }
      BranchStep(n, InsertChild(n, rest[0], rest[1..], value), rest, value, q);
    } else if CommonPrefix(rest, n.path) < |n.path| {
      SplitThenLookup(n, rest, value, q);
    } else {
      CommonPrefixAgrees(rest, n.path);
      var p := |n.path|;
      if n.path <= q {
        InsertThenLookup(n.children[0], rest[p..], value, q[p..]);
      }
      ExtensionStep(n, Insert(n.children[0], rest[p..], value), rest, value, q);
    }
  }

  /** A new child that answers for the shorter key makes the branch answer for the whole one. */
  lemma BranchStep(n: NodePtr, child: NodePtr, rest: Nibbles, value: Bytes, q: Nibbles)
    requires n.Node? && n.kind == Branch && |n.children| == 17 && rest != [] && |q| == |rest|
    requires q[0] == rest[0] ==>
               Lookup(child, q[1..])
               == if q[1..] == rest[1..] then Found(value) else Lookup(n.children[rest[0]], q[1..])
    ensures Lookup(n.(children := n.children[rest[0] := child]), q)
            == if q == rest then Found(value) else Lookup(n, q)
  {
    UpdatedBranchLookup(n, rest[0], child, q);
    if q[0] == rest[0] {
      assert q[..1] == [q[0]] && rest[..1] == [rest[0]];
      SameTail(q, rest, 1);
    }
  }

  lemma {:induction false} ExtensionStep(n: NodePtr, child: NodePtr, rest: Nibbles, value: Bytes, q: Nibbles)
    requires n.Node? && n.kind == Extension && |n.children| >= 1 && rest != [] && |q| == |rest| && n.path <= rest
    requires n.path <= q ==>
               Lookup(child, q[|n.path|..])
               == if q[|n.path|..] == rest[|n.path|..] then Found(value) else Lookup(n.children[0], q[|n.path|..])
    ensures Lookup(n.(children := n.children[0 := child]), q) == if q == rest then Found(value) else Lookup(n, q)
  {
    UpdatedExtensionLookup(n, child, q);
    if n.path <= q {
      assert q[..|n.path|] == n.path == rest[..|n.path|];
      SameTail(q, rest, |n.path|);
    }
  }

  lemma {:induction false} ShallowInsertThenLookup(n: NodePtr, rest: Nibbles, value: Bytes, q: Nibbles)
    requires n.Node? && Shaped(n) && WellFormed(n, |rest|) && value != [] && |q| == |rest|
    requires rest == [] || n.kind == Empty || n.kind == Leaf
    ensures Lookup(Insert(n, rest, value), q) == if q == rest then Found(value) else Lookup(n, q)
  {
    if rest == [] {
      InsertAtEnd(n, value);
      assert q == rest;
    } else if n.kind == Empty {
      LeafLookup(rest, value, q);
    } else {
      InsertAtLeaf(n, rest, value, q);
    }
  }

  lemma {:induction false} InsertAtLeaf(n: NodePtr, rest: Nibbles, value: Bytes, q: Nibbles)
    requires n.Node? && Shaped(n) && WellFormed(n, |rest|) && value != [] && |q| == |rest|
    requires rest != [] && n.kind == Leaf
    ensures Lookup(Insert(n, rest, value), q) == if q == rest then Found(value) else Lookup(n, q)
  {
    var r := Insert(n, rest, value);
    LeafInserted(n, rest, value, r);
    if n.path == rest {
      SameLeafLookup(n, rest, value, q);
    } else {
      SplitThenLookup(n, rest, value, q);
    }
  }

  lemma {:induction false} LeafInserted(n: NodePtr, rest: Nibbles, value: Bytes, r: NodePtr)
    requires n.Node? && Shaped(n) && WellFormed(n, |rest|) && rest != [] && n.kind == Leaf
    requires r == Insert(n, rest, value)
    ensures if n.path == rest then r == LeafNode(rest, value)
            else CommonPrefix(rest, n.path) < |n.path| && r == Split(n, rest, CommonPrefix(rest, n.path), value)
  {
    CommonPrefixAgrees(rest, n.path);
  }

  lemma SameLeafLookup(n: NodePtr, rest: Nibbles, value: Bytes, q: Nibbles)
    requires n.Node? && n == LeafNode(rest, n.value) && n.value != [] && value != [] && |q| == |rest|
    ensures Lookup(LeafNode(rest, value), q) == if q == rest then Found(value) else Lookup(n, q)
  {
    LeafLookup(rest, value, q);
    LeafLookup(rest, n.value, q);
  }

  lemma InsertAtEnd(n: NodePtr, value: Bytes)
    requires n.Node? && Shaped(n) && WellFormed(n, 0) && value != []
    ensures Lookup(Insert(n, [], value), []) == Found(value)
  {
  }

  lemma LeafLookup(path: Nibbles, value: Bytes, q: Nibbles)
    requires |q| == |path| && value != []
    ensures Lookup(LeafNode(path, value), q) == if q == path then Found(value) else Missing
  {
  }

  lemma SplitThenLookup(n: NodePtr, rest: Nibbles, value: Bytes, q: Nibbles)
    requires n.Node? && (n.kind == Leaf || n.kind == Extension)
    requires WellFormed(n, |rest|) && CommonPrefix(rest, n.path) < |n.path| && value != [] && |q| == |rest|
    ensures Lookup(Split(n, rest, CommonPrefix(rest, n.path), value), q)
            == if q == rest then Found(value) else Lookup(n, q)
  {
    CommonPrefixAgrees(rest, n.path);
    SplitAtThenLookup(n, rest, CommonPrefix(rest, n.path), value, q);
  }

  lemma SplitAtThenLookup(n: NodePtr, rest: Nibbles, c: nat, value: Bytes, q: Nibbles)
    requires n.Node? && (n.kind == Leaf || n.kind == Extension) && WellFormed(n, |rest|)
    requires |q| == |rest| && c < |n.path| && c < |rest| && n.path[c] != rest[c] && value != []
    requires n.path[..c] == rest[..c]
    ensures Lookup(Split(n, rest, c, value), q) == if q == rest then Found(value) else Lookup(n, q)
  {
    SplitLookup(n, rest, c, value, q);
    if n.path[..c] <= q {
      ForkThenLookup(n, rest, c, value, q);
    } else {
      PrefixMissed(n, c, q);
      assert rest[..c] <= rest;
    }
  }

  lemma PrefixMissed(n: NodePtr, c: nat, q: Nibbles)
    requires n.Node? && (n.kind == Leaf || n.kind == Extension) && q != []
    requires c <= |n.path| && !(n.path[..c] <= q)
    ensures Lookup(n, q) == Missing
  {
    assert n.path[..c] <= n.path;
    assert !(n.path <= q);
  }

  lemma SplitLookup(n: NodePtr, rest: Nibbles, c: nat, value: Bytes, q: Nibbles)
    requires n.Node? && c < |n.path| && c < |rest| && q != []
    ensures Lookup(Split(n, rest, c, value), q)
            == if n.path[..c] <= q then Lookup(Fork(n, rest, c, value), q[c..]) else Missing
  {
    assert c == 0 ==> q[c..] == q;
  }

  lemma ForkThenLookup(n: NodePtr, rest: Nibbles, c: nat, value: Bytes, q: Nibbles)
    requires n.Node? && (n.kind == Leaf || n.kind == Extension) && WellFormed(n, |rest|)
    requires |q| == |rest| && c < |n.path| && c < |rest| && n.path[c] != rest[c] && value != []
    requires n.path[..c] == rest[..c] == q[..c]
    ensures Lookup(Fork(n, rest, c, value), q[c..]) == if q == rest then Found(value) else Lookup(n, q)
  {
    ForkLookup(n, rest, c, value, q[c..]);
    assert q[c..][1..] == q[c + 1..];
    SameTail(q, rest, c);
    if q[c] == n.path[c] {
      assert n.path[..c + 1] == n.path[..c] + [n.path[c]] && q[..c + 1] == q[..c] + [q[c]];
      LowerLookup(n, c, q);
    } else {
      OffPathLookup(n, c, q);
    }
  }

  lemma SameTail(q: Nibbles, rest: Nibbles, c: nat)
    requires c <= |q| == |rest| && q[..c] == rest[..c]
    ensures q == rest <==> q[c..] == rest[c..]
  {
    assert q == q[..c] + q[c..] && rest == rest[..c] + rest[c..];
  }

  lemma ForkLookup(n: NodePtr, rest: Nibbles, c: nat, value: Bytes, q: Nibbles)
    requires n.Node? && c < |n.path| && c < |rest| && n.path[c] != rest[c] && value != [] && |q| == |rest| - c
    ensures Lookup(Fork(n, rest, c, value), q)
            == if q[0] == n.path[c] then
                 Lookup(Node(n.kind, n.path[c + 1..], n.value, n.children), q[1..])
               else if q == rest[c..] then Found(value)
               else Missing
  {
    assert rest[c..] == [rest[c]] + rest[c + 1..] && q == [q[0]] + q[1..];
    var branch := Fork(n, rest, c, value);
    assert Lookup(branch, q) == Lookup(branch.children[q[0]], q[1..]);
  }

  lemma OffPathLookup(n: NodePtr, c: nat, q: Nibbles)
    requires n.Node? && (n.kind == Leaf || n.kind == Extension)
    requires WellFormed(n, |q|) && c < |n.path| && q[c] != n.path[c]
    ensures Lookup(n, q) == Missing
  {
    assert !(n.path <= q);
  }

  /** Below a split, the shortened node answers as the whole node did. */
  lemma {:induction false} LowerLookup(n: NodePtr, c: nat, q: Nibbles)
    requires n.Node? && (n.kind == Leaf || n.kind == Extension)
    requires WellFormed(n, |q|) && c < |n.path| && n.path[..c + 1] <= q
    ensures Lookup(Node(n.kind, n.path[c + 1..], n.value, n.children), q[c + 1..]) == Lookup(n, q)
  {
    var lower := n.path[c + 1..];
    assert n.path == n.path[..c + 1] + lower && q == n.path[..c + 1] + q[c + 1..];
    if n.kind == Extension {
      assert lower <= q[c + 1..] <==> n.path <= q;
      if n.path <= q {
        assert q[c + 1..][|lower|..] == q[|n.path|..];
      }
    } else {
      assert lower == q[c + 1..] <==> n.path == q;
    }
  }

  // ---------------------------------------------------------------- removal

  /** Removing `rest` takes the whole of node `n` away. */
  predicate Vanishes(n: NodePtr, rest: Nibbles)
    decreases n
  {
    n.Node? &&
    if n.kind == Leaf then rest == [] || n.path == rest
    else n.kind == Extension && rest != [] && n.path <= rest && n.children != []
         && Vanishes(n.children[0], rest[|n.path|..])
  }

  /** The child that is left alone in its branch when `rest` is removed, so that the branch
      collapses onto it; null if no branch on the way collapses. */
  function Survivor(n: NodePtr, rest: Nibbles): (s: NodePtr)
    ensures s.Node? ==> Live(s)
    decreases n
  {
    if !Live(n) || rest == [] then Null
    else if n.kind == Branch && |n.children| == 17 then
      if Vanishes(n.children[rest[0]], rest[1..]) then
        var (count, at) := Remaining(n.children[rest[0] := EMPTY_NODE]);
        if count == 1 then n.children[rest[0] := EMPTY_NODE][at] else Null
      else Survivor(n.children[rest[0]], rest[1..])
    else if n.kind == Extension && n.path <= rest && n.children != [] then
      Survivor(n.children[0], rest[|n.path|..])
    else Null
  }

  /** The removal is one whose collapse, if any, the code performs correctly. */
  predicate CollapseSafe(n: NodePtr, rest: Nibbles) {
    var s := Survivor(n, rest);
    s.Node? ==> s.kind == Extension
  }

  lemma CollapseWellFormed(how: Collapsing, at: nibble, child: NodePtr, h: nat)
    requires Live(child) && WellFormed(child, h)
    requires how == AsDocumented || child.kind == Extension
    ensures WellFormed(Collapse(how, at, child), h + 1)
  {
    if child.kind == Branch {
      BranchIsBarrenAtEnd(child, h);
    }
  }

  lemma BranchIsBarrenAtEnd(n: NodePtr, h: nat)
    requires Live(n) && WellFormed(n, h) && n.kind == Branch
    ensures Barren(n) <==> h == 0
  {
    if h != 0 {
      var i, j :| 0 <= i < j < 16 && Live(n.children[i]) && Live(n.children[j]);
      assert n.children[i] in n.children;
    }
  }

  lemma CollapseLookup(how: Collapsing, at: nibble, child: NodePtr, q: Nibbles)
    requires q != [] && Live(child) && WellFormed(child, |q| - 1)
    requires how == AsDocumented || child.kind == Extension
    ensures Lookup(Collapse(how, at, child), q) == if q[0] == at then Lookup(child, q[1..]) else Missing
  {
    assert q == [q[0]] + q[1..];
    if child.kind == Branch {
      CollapsedBranchLookup(at, child, q);
    } else if child.kind == Extension {
      CollapsedExtensionLookup(at, child, q);
    } else {
      CollapsedLeafLookup(at, child, q);
    }
  }

  lemma CollapsedLeafLookup(at: nibble, child: NodePtr, q: Nibbles)
    requires q != [] && Live(child) && WellFormed(child, |q| - 1) && child.kind == Leaf
    ensures Lookup(child.(path := [at] + child.path), q)
            == if q[0] == at then Lookup(child, q[1..]) else Missing
  {
    assert q == [q[0]] + q[1..];
    LeafLookup([at] + child.path, child.value, q);
    LeafLookup(child.path, child.value, q[1..]);
  }

  lemma CollapsedExtensionLookup(at: nibble, child: NodePtr, q: Nibbles)
    requires q != [] && Live(child) && WellFormed(child, |q| - 1) && child.kind == Extension
    ensures Lookup(Node(Extension, [at] + child.path, child.value, child.children), q)
            == if q[0] == at then Lookup(child, q[1..]) else Missing
  {
    assert q == [q[0]] + q[1..];
    var path := [at] + child.path;
    assert path <= q <==> q[0] == at && child.path <= q[1..];
    assert path <= q ==> q[|path|..] == q[1..][|child.path|..];
  }

  lemma CollapsedBranchLookup(at: nibble, child: NodePtr, q: Nibbles)
    requires q != [] && Live(child) && WellFormed(child, |q| - 1) && child.kind == Branch
    ensures Lookup(Collapse(AsDocumented, at, child), q)
            == if q[0] == at then Lookup(child, q[1..]) else Missing
  {
    BranchIsBarrenAtEnd(child, |q| - 1);
    assert q == [q[0]] + q[1..];
    if |q| == 1 {
      assert q[0] == at <==> q == [at];
    } else {
      assert [at] <= q <==> q[0] == at;
    }
  }

  ghost predicate TidyReady(how: Collapsing, n: NodePtr, h: nat)
    requires h > 0
  {
    && n.Node? && n.kind == Branch && n.path == [] && n.value == []
    && |n.children| == 17 && n.children[16].Null?
    && (forall i | 0 <= i < 16 :: WellFormed(n.children[i], h - 1))
    && Remaining(n.children).0 >= 1
    && (how == AsWritten ==> LoneIsExtension(n.children))
  }

  /** If only one child is left, the code collapses onto it correctly. */
  ghost predicate LoneIsExtension(children: seq<NodePtr>)
    requires |children| == 17
  {
    var (count, at) := Remaining(children);
    count == 1 ==> children[at].kind == Extension
  }

  lemma TidyWellFormed(how: Collapsing, n: NodePtr, h: nat)
    requires h > 0 && TidyReady(how, n, h)
    ensures WellFormed(Tidy(how, n), h)
  {
    var (count, at) := Remaining(n.children);
    RemainingCounts(n.children);
    if count == 1 {
      CollapseWellFormed(how, at, n.children[at], h - 1);
    } else {
      var i :| 0 <= i < 16 && i != at && Live(n.children[i]);
      assert TwoLive(n.children) by {
        if i < at { assert 0 <= i < at < 16; } else { assert 0 <= at < i < 16; }
      }
    }
  }

  lemma TidyLookup(how: Collapsing, n: NodePtr, q: Nibbles)
    requires q != [] && TidyReady(how, n, |q|)
    ensures Lookup(Tidy(how, n), q) == Lookup(n, q)
  {
    var (count, at) := Remaining(n.children);
    RemainingCounts(n.children);
    if count == 1 {
      CollapseLookup(how, at, n.children[at], q);
    }
  }

  /** Under the code's collapse, a node disappears exactly when the leaf at its end matches. */
  lemma {:induction false} RemoveVanishes(n: NodePtr, rest: Nibbles)
    requires Live(n) && Shaped(n) && WellFormed(n, |rest|)
    ensures if Vanishes(n, rest) then Remove(AsWritten, n, rest) == EMPTY_NODE
            else Live(Remove(AsWritten, n, rest))
    decreases n
  {
    if rest == [] || n.kind == Leaf {
    } else if n.kind == Extension {
      if n.path <= rest {
        RemoveVanishes(n.children[0], rest[|n.path|..]);
      }
    } else {
      var child' := Remove(AsWritten, n.children[rest[0]], rest[1..]);
      OneChildGone(n.children, rest[0], child');
    }
  }

  lemma OneChildGone(children: seq<NodePtr>, at: nibble, child: NodePtr)
    requires |children| == 17 && TwoLive(children)
    ensures Remaining(children[at := child]).0 >= 1
    ensures Remaining(children[at := child]).0 == 1 ==> !Live(child)
  {
    var i, j :| 0 <= i < j < 16 && Live(children[i]) && Live(children[j]);
    var s := children[at := child];
    var other := if i == at then j else i;
    RemainingCounts(s);
    assert Live(s[other]) && other != at;
    assert s[at] == child;
  }

  lemma {:induction false} RemoveWellFormed(how: Collapsing, n: NodePtr, rest: Nibbles)
    requires Shaped(n) && WellFormed(n, |rest|)
    requires how == AsDocumented || CollapseSafe(n, rest)
    ensures WellFormed(Remove(how, n, rest), |rest|)
    decreases n, 2
  {
    if !Live(n) || rest == [] || n.kind == Leaf {
    } else if n.kind == Extension {
      if n.path <= rest {
        RemoveWellFormed(how, n.children[0], rest[|n.path|..]);
      }
    } else {
      RemoveAtBranchReady(how, n, rest);
      TidyWellFormed(how, WithoutInChild(how, n, rest), |rest|);
    }
  }

  /** A branch after the removal in its child and before it is tidied. */
  function WithoutInChild(how: Collapsing, n: NodePtr, rest: Nibbles): NodePtr
    requires n.Node? && Shaped(n) && |n.children| == 17 && rest != []
  {
    n.(children := n.children[rest[0] := Remove(how, n.children[rest[0]], rest[1..])])
  }

  lemma {:induction false} RemoveAtBranchReady(how: Collapsing, n: NodePtr, rest: Nibbles)
    requires n.Node? && n.kind == Branch && Shaped(n) && rest != [] && WellFormed(n, |rest|)
    requires how == AsDocumented || CollapseSafe(n, rest)
    ensures TidyReady(how, WithoutInChild(how, n, rest), |rest|)
    decreases n, 1
  {
    var child := RemovedChild(how, n, rest, |rest| - 1);
    WithChildReady(how, n, rest[0], child, |rest|);
  }

  lemma {:induction false} RemovedChild(how: Collapsing, n: NodePtr, rest: Nibbles, below: nat) returns (child: NodePtr)
    requires n.Node? && n.kind == Branch && Shaped(n) && rest != [] && WellFormed(n, |rest|) && below == |rest| - 1
    requires how == AsDocumented || CollapseSafe(n, rest)
    ensures child == Remove(how, n.children[rest[0]], rest[1..]) && WellFormed(child, below)
    ensures how == AsWritten ==> LoneIsExtension(n.children[rest[0] := child])
    decreases n, 0
  {
    BranchSafe(how, n, rest);
    RemoveWellFormed(how, n.children[rest[0]], rest[1..]);
    child := Remove(how, n.children[rest[0]], rest[1..]);
    if how == AsWritten {
      LoneSurvivorIsExtension(n, rest, child);
    }
  }

  lemma {:induction false} WithChildReady(how: Collapsing, n: NodePtr, at: nibble, child: NodePtr, h: nat)
    requires n.Node? && n.kind == Branch && h > 0 && WellFormed(n, h) && WellFormed(child, h - 1)
    requires how == AsWritten ==> LoneIsExtension(n.children[at := child])
    ensures TidyReady(how, n.(children := n.children[at := child]), h)
  {
    OneChildGone(n.children, at, child);
  }

  lemma {:induction false} LoneSurvivorIsExtension(n: NodePtr, rest: Nibbles, child: NodePtr)
    requires n.Node? && n.kind == Branch && Shaped(n) && rest != [] && WellFormed(n, |rest|)
    requires CollapseSafe(n, rest) && child == Remove(AsWritten, n.children[rest[0]], rest[1..])
    ensures LoneIsExtension(n.children[rest[0] := child])
  {
    ChildRemoved(n.children[rest[0]], rest[1..], child);
    if Vanishes(n.children[rest[0]], rest[1..]) {
      SurvivorIsExtension(n, rest);
    } else {
      StillTwo(n.children, rest[0], child);
    }
  }

  lemma {:induction false} ChildRemoved(n: NodePtr, rest: Nibbles, child: NodePtr)
    requires Shaped(n) && WellFormed(n, |rest|) && child == Remove(AsWritten, n, rest)
    ensures if Vanishes(n, rest) then child == EMPTY_NODE else Live(child) || child == n
  {
    if Live(n) {
      RemoveVanishes(n, rest);
    }
  }

  lemma {:induction false} SurvivorIsExtension(n: NodePtr, rest: Nibbles)
    requires Live(n) && n.kind == Branch && |n.children| == 17 && rest != []
    requires CollapseSafe(n, rest) && Vanishes(n.children[rest[0]], rest[1..])
    ensures LoneIsExtension(n.children[rest[0] := EMPTY_NODE])
  {
  }

  lemma {:induction false} StillTwo(children: seq<NodePtr>, at: nibble, child: NodePtr)
    requires |children| == 17 && TwoLive(children) && (Live(child) || child == children[at])
    ensures LoneIsExtension(children[at := child])
  {
    if Live(child) {
      BranchKeepsTwoLive(children, at, child);
    } else {
      assert children[at := child] == children;
    }
    LiveCount(children[at := child]);
  }

  lemma LiveCount(children: seq<NodePtr>)
    requires |children| == 17 && TwoLive(children)
    ensures Remaining(children).0 >= 2
  {
    RemainingCounts(children);
    var i, j :| 0 <= i < j < 16 && Live(children[i]) && Live(children[j]);
  }

  lemma {:induction false} RemoveThenLookup(how: Collapsing, n: NodePtr, rest: Nibbles, q: Nibbles)
    requires Shaped(n) && WellFormed(n, |rest|) && |q| == |rest|
    requires how == AsDocumented || CollapseSafe(n, rest)
    ensures Lookup(Remove(how, n, rest), q) == if q == rest then Missing else Lookup(n, q)
    decreases n
  {
    if !Live(n) || rest == [] || n.kind == Leaf {
      ShallowRemoveThenLookup(how, n, rest, q);
    } else if n.kind == Extension {
      RemoveAtExtensionThenLookup(how, n, rest, q);
    } else {
      var child := n.children[rest[0]];
      RemoveAtBranchReady(how, n, rest);
      TidyLookup(how, WithoutInChild(how, n, rest), q);
      UpdatedBranchLookup(n, rest[0], Remove(how, child, rest[1..]), q);
      assert q == [q[0]] + q[1..] && rest == [rest[0]] + rest[1..];
      BranchSafe(how, n, rest);
      RemoveThenLookup(how, child, rest[1..], q[1..]);
    }
  }

  lemma BranchSafe(how: Collapsing, n: NodePtr, rest: Nibbles)
    requires n.Node? && n.kind == Branch && rest != [] && WellFormed(n, |rest|)
    requires how == AsDocumented || CollapseSafe(n, rest)
    ensures how == AsDocumented || CollapseSafe(n.children[rest[0]], rest[1..])
  {
    if Vanishes(n.children[rest[0]], rest[1..]) {
      VanishingHasNoSurvivor(n.children[rest[0]], rest[1..]);
    }
  }

  lemma {:induction false} VanishingHasNoSurvivor(n: NodePtr, rest: Nibbles)
    requires Vanishes(n, rest)
    ensures Survivor(n, rest) == Null
    decreases n
  {
    if n.kind == Extension {
      VanishingHasNoSurvivor(n.children[0], rest[|n.path|..]);
    }
  }

  lemma ShallowRemoveThenLookup(how: Collapsing, n: NodePtr, rest: Nibbles, q: Nibbles)
    requires Shaped(n) && WellFormed(n, |rest|) && |q| == |rest|
    requires !Live(n) || rest == [] || n.kind == Leaf
    ensures Lookup(Remove(how, n, rest), q) == if q == rest then Missing else Lookup(n, q)
  {
    if rest == [] {
      assert q == rest;
    }
  }

  lemma {:induction false} RemoveAtExtensionThenLookup(how: Collapsing, n: NodePtr, rest: Nibbles, q: Nibbles)
    requires Live(n) && Shaped(n) && WellFormed(n, |rest|) && |q| == |rest|
    requires rest != [] && n.kind == Extension
    requires how == AsDocumented || CollapseSafe(n, rest)
    ensures Lookup(Remove(how, n, rest), q) == if q == rest then Missing else Lookup(n, q)
    decreases n, 0
  {
    var p := |n.path|;
    if n.path <= rest {
      assert rest == n.path + rest[p..];
      var child' := Remove(how, n.children[0], rest[p..]);
      UpdatedExtensionLookup(n, child', q);
      if n.path <= q {
        assert q == n.path + q[p..];
        RemoveThenLookup(how, n.children[0], rest[p..], q[p..]);
      }
    }
  }
}

/** When the collapse the code performs keeps the trie in step with a map, exactly. */
module TrieDelete {
  import opened Trie
  import opened TrieMap

  /** The node holds no value at all; overwritten and then deleted keys leave such nodes behind. */
  predicate Void(n: NodePtr)
    decreases n
  {
    Live(n) ==>
      && n.kind != Leaf
      && (n.kind == Branch ==> n.value == [])
      && forall c | c in n.children :: Void(c)
  }

  lemma {:induction false} VoidLookup(n: NodePtr, q: Nibbles)
    requires WellFormed(n, |q|) && Void(n)
    ensures Lookup(n, q) == Missing
    decreases n
  {
    if Live(n) && q != [] {
      if n.kind == Extension {
        assert n.children[0] in n.children;
        if n.path <= q {
          VoidLookup(n.children[0], q[|n.path|..]);
        }
      } else {
        assert n.children[q[0]] in n.children;
        VoidLookup(n.children[q[0]], q[1..]);
      }
    }
  }

  lemma {:induction false} NonVoidHoldsKey(n: NodePtr, h: nat) returns (q: Nibbles)
    requires WellFormed(n, h) && !Void(n)
    ensures |q| == h && Lookup(n, q).Found?
    decreases n
  {
    if n.kind == Leaf {
      q := n.path;
      LeafLookup(q, n.value, q);
    } else if n.kind == Extension {
      q := NonVoidHoldsKey(n.children[0], h - |n.path|);
      assert (n.path + q)[|n.path|..] == q;
      q := n.path + q;
    } else if h == 0 {
      q := [];
    } else {
      var c :| c in n.children && !Void(c);
      var i :| 0 <= i < 17 && n.children[i] == c;
      q := NonVoidHoldsKey(c, h - 1);
      assert ([i] + q)[1..] == q;
      q := [i] + q;
    }
  }

  /** No key longer than the trie is deep is ever found, nor does looking for one fault. */
  lemma {:induction false} TooLongIsMissing(n: NodePtr, h: nat, q: Nibbles)
    requires WellFormed(n, h) && |q| > h
    ensures Lookup(n, q) == Missing
    decreases n
  {
    if Live(n) {
      if n.kind == Extension {
        if n.path <= q {
          TooLongIsMissing(n.children[0], h - |n.path|, q[|n.path|..]);
        }
      } else if n.kind == Branch && h > 0 {
        TooLongIsMissing(n.children[q[0]], h - 1, q[1..]);
      }
    }
  }

  /** Collapsing onto a leaf or branch loses every key below it: the lookup either faults or
      continues one digit too early. */
  lemma BadCollapseLookup(at: nibble, child: NodePtr, q: Nibbles)
    requires q != [] && Live(child) && WellFormed(child, |q| - 1) && child.kind != Extension
    ensures !Lookup(Collapse(AsWritten, at, child), q).Found?
    ensures child.kind == Branch || q[0] != at ==> Lookup(Collapse(AsWritten, at, child), q) == Missing
  {
    if child.kind == Leaf {
      BadLeafCollapseLookup(at, child, q);
    } else {
      BadBranchCollapseLookup(at, child, q);
    }
  }

  lemma BadLeafCollapseLookup(at: nibble, child: NodePtr, q: Nibbles)
    requires q != [] && Live(child) && WellFormed(child, |q| - 1) && child.kind == Leaf
    ensures Lookup(Node(Extension, [at] + child.path, child.value, []), q)
            == if [at] + child.path <= q then Fault else Missing
  {
  }

  lemma BadBranchCollapseLookup(at: nibble, child: NodePtr, q: Nibbles)
    requires q != [] && Live(child) && WellFormed(child, |q| - 1) && child.kind == Branch
    ensures Lookup(Collapse(AsWritten, at, child), q) == Missing
  {
    assert [at] + child.path == [at];
    if q[0] == at {
      if |q| > 1 {
        TooLongIsMissing(child.children[0], |q| - 2, q[1..]);
      }
    } else {
      assert !([at] <= q);
    }
  }

  // ---------------------------------------------------------------- where the collapse happens

  /** At the branch that collapses, the survivor is one of the other children. */
  lemma AtCollapse(n: NodePtr, rest: Nibbles) returns (at: nibble)
    requires n.Node? && n.kind == Branch && Shaped(n) && rest != [] && WellFormed(n, |rest|)
    requires Vanishes(n.children[rest[0]], rest[1..]) && Survivor(n, rest).Node?
    ensures at != rest[0] && Survivor(n, rest) == n.children[at] && Live(n.children[at])
    ensures forall i | 0 <= i < 16 && i != at && i != rest[0] :: !Live(n.children[i])
    ensures Remove(AsWritten, n, rest) == Collapse(AsWritten, at, n.children[at])
  {
    var gone := n.children[rest[0] := EMPTY_NODE];
    at := Remaining(gone).1;
    RemainingCounts(gone);
    RemoveVanishes(n.children[rest[0]], rest[1..]);
    assert WithoutInChild(AsWritten, n, rest).children == gone;
    assert Live(gone[at]);
    forall i | 0 <= i < 16 && i != at && i != rest[0] ensures !Live(n.children[i]) {
      assert gone[i] == n.children[i];
    }
  }

  /** Above the branch that collapses, nothing else changes shape. */
  lemma AboveCollapse(n: NodePtr, rest: Nibbles)
    requires n.Node? && n.kind == Branch && Shaped(n) && rest != [] && WellFormed(n, |rest|)
    requires !Vanishes(n.children[rest[0]], rest[1..]) && Survivor(n, rest).Node?
    ensures Remove(AsWritten, n, rest) == WithoutInChild(AsWritten, n, rest)
  {
    var child := n.children[rest[0]];
    RemoveVanishes(child, rest[1..]);
    BranchKeepsTwoLive(n.children, rest[0], Remove(AsWritten, child, rest[1..]));
    LiveCount(WithoutInChild(AsWritten, n, rest).children);
  }

  lemma AboveCollapseInExtension(n: NodePtr, rest: Nibbles)
    requires n.Node? && n.kind == Extension && Shaped(n) && rest != [] && WellFormed(n, |rest|)
    requires Survivor(n, rest).Node?
    ensures n.path <= rest
    ensures Remove(AsWritten, n, rest)
            == n.(children := n.children[0 := Remove(AsWritten, n.children[0], rest[|n.path|..])])
  {
    var child := n.children[0];
    if Vanishes(child, rest[|n.path|..]) {
      VanishingHasNoSurvivor(child, rest[|n.path|..]);
    }
    RemoveVanishes(child, rest[|n.path|..]);
  }

  // ---------------------------------------------------------------- the two outcomes

  /** Key `q` is found before `rest` is deleted and not found afterwards. */
  ghost predicate Loses(n: NodePtr, rest: Nibbles, q: Nibbles)
    requires Shaped(n)
  {
    && |q| == |rest| && q != rest
    && Lookup(n, q).Found? && !Lookup(Remove(AsWritten, n, rest), q).Found?
  }

  /** Deleting next to a leaf, or next to a branch that holds a key, loses another key. */
  lemma {:induction false} UnsafeDeleteLosesKey(n: NodePtr, rest: Nibbles) returns (q: Nibbles)
    requires Shaped(n) && WellFormed(n, |rest|)
    requires !CollapseSafe(n, rest) && !Void(Survivor(n, rest))
    ensures Loses(n, rest, q)
    decreases n
  {
    if n.kind == Extension {
      AboveCollapseInExtension(n, rest);
      q := UnsafeDeleteLosesKey(n.children[0], rest[|n.path|..]);
      LosesBelowExtension(n, rest, q);
      q := n.path + q;
    } else if Vanishes(n.children[rest[0]], rest[1..]) {
      q := UnsafeCollapseHere(n, rest);
    } else {
      AboveCollapse(n, rest);
      q := UnsafeDeleteLosesKey(n.children[rest[0]], rest[1..]);
      LosesBelowBranch(n, rest, q);
      q := [rest[0]] + q;
    }
  }

  lemma UnsafeCollapseHere(n: NodePtr, rest: Nibbles) returns (q: Nibbles)
    requires n.Node? && n.kind == Branch && Shaped(n) && WellFormed(n, |rest|) && rest != []
    requires Vanishes(n.children[rest[0]], rest[1..]) && !CollapseSafe(n, rest) && !Void(Survivor(n, rest))
    ensures Loses(n, rest, q)
  {
    var at := AtCollapse(n, rest);
    var q' := NonVoidHoldsKey(n.children[at], |rest| - 1);
    q := [at] + q';
    BelowBranch(n, at, n.children[at], q');
    BadCollapseLookup(at, n.children[at], q);
  }

  lemma LosesBelowExtension(n: NodePtr, rest: Nibbles, q: Nibbles)
    requires n.Node? && n.kind == Extension && Shaped(n) && n.path <= rest && rest != []
    requires Remove(AsWritten, n, rest)
             == n.(children := n.children[0 := Remove(AsWritten, n.children[0], rest[|n.path|..])])
    requires Loses(n.children[0], rest[|n.path|..], q)
    ensures Loses(n, rest, n.path + q)
  {
    BelowExtension(n, Remove(AsWritten, n.children[0], rest[|n.path|..]), q);
    assert rest == n.path + rest[|n.path|..];
    assert (n.path + q)[|n.path|..] == q;
  }

  lemma LosesBelowBranch(n: NodePtr, rest: Nibbles, q: Nibbles)
    requires n.Node? && n.kind == Branch && Shaped(n) && rest != []
    requires Remove(AsWritten, n, rest) == WithoutInChild(AsWritten, n, rest)
    requires Loses(n.children[rest[0]], rest[1..], q)
    ensures Loses(n, rest, [rest[0]] + q)
  {
    BelowBranch(n, rest[0], Remove(AsWritten, n.children[rest[0]], rest[1..]), q);
    assert rest == [rest[0]] + rest[1..];
    assert ([rest[0]] + q)[1..] == q;
  }

  lemma BelowExtension(n: NodePtr, child: NodePtr, q: Nibbles)
    requires n.Node? && n.kind == Extension && |n.children| >= 1 && n.path + q != []
    ensures Lookup(n, n.path + q) == Lookup(n.children[0], q)
    ensures Lookup(n.(children := n.children[0 := child]), n.path + q) == Lookup(child, q)
  {
    assert (n.path + q)[|n.path|..] == q;
  }

  lemma BelowBranch(n: NodePtr, at: nibble, child: NodePtr, q: Nibbles)
    requires n.Node? && n.kind == Branch && |n.children| == 17
    ensures Lookup(n, [at] + q) == Lookup(n.children[at], q)
    ensures Lookup(n.(children := n.children[at := child]), [at] + q) == Lookup(child, q)
  {
    assert ([at] + q)[1..] == q;
  }

  /** Collapsing onto a branch that holds nothing loses nothing. */
  lemma {:induction false} VoidCollapseThenLookup(n: NodePtr, rest: Nibbles, q: Nibbles)
    requires Shaped(n) && WellFormed(n, |rest|) && |q| == |rest|
    requires !CollapseSafe(n, rest) && Void(Survivor(n, rest))
    ensures Lookup(Remove(AsWritten, n, rest), q) == if q == rest then Missing else Lookup(n, q)
    decreases n
  {
    if n.kind == Extension {
      var p := |n.path|;
      AboveCollapseInExtension(n, rest);
      if n.path <= q {
        VoidCollapseThenLookup(n.children[0], rest[p..], q[p..]);
      }
      MissedBelow(n, Remove(AsWritten, n.children[0], rest[p..]), rest, q);
    } else if Vanishes(n.children[rest[0]], rest[1..]) {
      VoidCollapseHere(n, rest, q);
    } else {
      AboveCollapse(n, rest);
      VoidCollapseThenLookup(n.children[rest[0]], rest[1..], q[1..]);
      MissedInChild(n, Remove(AsWritten, n.children[rest[0]], rest[1..]), rest, q);
    }
  }

  lemma {:induction false} MissedBelow(n: NodePtr, child: NodePtr, rest: Nibbles, q: Nibbles)
    requires n.Node? && n.kind == Extension && |n.children| >= 1 && n.path <= rest && |q| == |rest| > 0
    requires n.path <= q ==>
               Lookup(child, q[|n.path|..])
               == if q[|n.path|..] == rest[|n.path|..] then Missing else Lookup(n.children[0], q[|n.path|..])
    ensures Lookup(n.(children := n.children[0 := child]), q) == if q == rest then Missing else Lookup(n, q)
  {
    UpdatedExtensionLookup(n, child, q);
    SamePrefix(n.path, rest, q);
  }

  lemma {:induction false} MissedInChild(n: NodePtr, child: NodePtr, rest: Nibbles, q: Nibbles)
    requires n.Node? && n.kind == Branch && |n.children| == 17 && |q| == |rest| > 0
    requires Lookup(child, q[1..]) == if q[1..] == rest[1..] then Missing else Lookup(n.children[rest[0]], q[1..])
    ensures Lookup(n.(children := n.children[rest[0] := child]), q) == if q == rest then Missing else Lookup(n, q)
  {
    UpdatedBranchLookup(n, rest[0], child, q);
    if q[0] == rest[0] {
      SamePrefix([rest[0]], rest, q);
    }
  }

  lemma SamePrefix(path: Nibbles, rest: Nibbles, q: Nibbles)
    requires path <= rest
    ensures path <= q ==> (q == rest <==> q[|path|..] == rest[|path|..])
  {
    assert rest == path + rest[|path|..];
    if path <= q {
      assert q == path + q[|path|..];
    }
  }

  lemma VoidCollapseHere(n: NodePtr, rest: Nibbles, q: Nibbles)
    requires n.Node? && n.kind == Branch && Shaped(n) && WellFormed(n, |rest|) && |q| == |rest| > 0
    requires Vanishes(n.children[rest[0]], rest[1..]) && !CollapseSafe(n, rest) && Void(Survivor(n, rest))
    ensures Lookup(Remove(AsWritten, n, rest), q) == if q == rest then Missing else Lookup(n, q)
  {
    var at := AtCollapse(n, rest);
    BadCollapseLookup(at, n.children[at], q);
    assert q == [q[0]] + q[1..] && rest == [rest[0]] + rest[1..];
    if q[0] == at {
      VoidLookup(n.children[at], q[1..]);
    } else if q[0] == rest[0] {
      VanishingHasNoSurvivor(n.children[rest[0]], rest[1..]);
      RemoveVanishes(n.children[rest[0]], rest[1..]);
      RemoveThenLookup(AsWritten, n.children[rest[0]], rest[1..], q[1..]);
    }
  }

  /** Deleting a key changes the answer for that key alone. */
  ghost predicate DeletesOnly(n: NodePtr, rest: Nibbles)
    requires Shaped(n)
  {
    forall q: Nibbles | |q| == |rest| ::
      Lookup(Remove(AsWritten, n, rest), q) == if q == rest then Missing else Lookup(n, q)
  }

  /** The code's deletion does what a map's deletion does exactly when it either collapses no
      branch, or collapses one onto an extension or onto a node that holds no value. */
  lemma DeleteExactly(n: NodePtr, rest: Nibbles)
    requires Shaped(n) && WellFormed(n, |rest|)
    ensures DeletesOnly(n, rest) <==> CollapseSafe(n, rest) || Void(Survivor(n, rest))
  {
    if CollapseSafe(n, rest) {
      forall q: Nibbles | |q| == |rest|
        ensures Lookup(Remove(AsWritten, n, rest), q) == if q == rest then Missing else Lookup(n, q)
      {
        RemoveThenLookup(AsWritten, n, rest, q);
      }
    } else if Void(Survivor(n, rest)) {
      forall q: Nibbles | |q| == |rest|
        ensures Lookup(Remove(AsWritten, n, rest), q) == if q == rest then Missing else Lookup(n, q)
      {
        VoidCollapseThenLookup(n, rest, q);
      }
    } else {
      var q := UnsafeDeleteLosesKey(n, rest);
    }
  }

  // ---------------------------------------------------------------- what becomes of the shape

  /** The extension that a leaf or branch turns into has no child or seventeen, where one is due. */
  lemma {:induction false} UnsafeDeleteBreaksShape(n: NodePtr, rest: Nibbles)
    requires Shaped(n) && WellFormed(n, |rest|) && !CollapseSafe(n, rest)
    ensures !WellFormed(Remove(AsWritten, n, rest), |rest|)
    decreases n
  {
    if n.kind == Extension {
      AboveCollapseInExtension(n, rest);
      UnsafeDeleteBreaksShape(n.children[0], rest[|n.path|..]);
      BrokenBelow(n, Remove(AsWritten, n.children[0], rest[|n.path|..]), |rest|);
    } else if Vanishes(n.children[rest[0]], rest[1..]) {
      var at := AtCollapse(n, rest);
      BadExtension(at, n.children[at], |rest| - 1);
    } else {
      AboveCollapse(n, rest);
      UnsafeDeleteBreaksShape(n.children[rest[0]], rest[1..]);
      BrokenChild(n, rest[0], Remove(AsWritten, n.children[rest[0]], rest[1..]), |rest|);
    }
  }

  lemma BadExtension(at: nibble, child: NodePtr, h: nat)
    requires Live(child) && child.kind != Extension && WellFormed(child, h)
    ensures !WellFormed(Collapse(AsWritten, at, child), h + 1)
  {
  }

  lemma {:induction false} BrokenBelow(n: NodePtr, child: NodePtr, h: nat)
    requires n.Node? && n.kind == Extension && n.children != [] && |n.path| <= h && !WellFormed(child, h - |n.path|)
    ensures !WellFormed(n.(children := n.children[0 := child]), h)
  {
    assert n.children[0 := child][0] == child;
  }

  lemma BrokenChild(n: NodePtr, at: nibble, child: NodePtr, h: nat)
    requires n.Node? && n.kind == Branch && |n.children| == 17 && h > 0 && !WellFormed(child, h - 1)
    ensures !WellFormed(n.(children := n.children[at := child]), h)
  {
    assert n.children[at := child][at] == child;
  }

  /** The code's deletion keeps the shape exactly when it collapses no branch onto a leaf or branch: where
      the survivor holds no value the answers are still a map's, but the trie is no longer well formed. */
  lemma ShapeKeptExactly(n: NodePtr, rest: Nibbles)
    requires Shaped(n) && WellFormed(n, |rest|)
    ensures WellFormed(Remove(AsWritten, n, rest), |rest|) <==> CollapseSafe(n, rest)
  {
    if CollapseSafe(n, rest) {
      RemoveWellFormed(AsWritten, n, rest);
    } else {
      UnsafeDeleteBreaksShape(n, rest);
    }
  }
}

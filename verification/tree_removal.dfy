/** Removing a whole subtree from the server's key tree, as a recursive
    removal does it: the children of a key one after another, each with
    everything below it, and then the key itself. */
module TreeRemoval {
  import opened RegTypes
  import opened RegistryTree
  import opened RemoteRegistry

  /** The keys after the child `c` of `p` is removed with everything below
      it: no key at or below `p + [c]` is left, `p` no longer lists `c`, and
      every other key is as it was. */
  ghost function RemoveSubtree(keys: map<Path, Node>, p: Path, c: string): map<Path, Node>
    requires p in keys
  {
    (map q | q in keys && !IsPrefix(p + [c], q) :: keys[q])
      [p := keys[p].(children := Without(keys[p].children, c))]
  }

  /** The keys after the first `i` children of `p` have been removed with
      their subtrees: `p` lists only the remaining children. */
  ghost function Pruned(keys: map<Path, Node>, p: Path, i: nat): map<Path, Node>
    requires p in keys && i <= |keys[p].children|
  {
    var cs := keys[p].children;
    (map q | q in keys && !(StrictPrefix(p, q) && q[|p|] in cs[..i]) :: keys[q])
      [p := keys[p].(children := cs[i..])]
  }

  /** Nothing is pruned before the first child. */
  lemma PruneStart(keys: map<Path, Node>, p: Path)
    requires p in keys
    ensures Pruned(keys, p, 0) == keys
  {
    var cs := keys[p].children;
    assert cs[0..] == cs;
    assert forall q :: q in keys ==> !(StrictPrefix(p, q) && q[|p|] in cs[..0]);
  }

  /** `p + [c]` lies at or below `r` exactly when `r` is `p + [c]` or lies
      below `p` with `c` as the next name. */
  lemma ChildPrefix(p: Path, c: string, q: Path)
    ensures IsPrefix(p + [c], q) <==> StrictPrefix(p, q) && q[|p|] == c
  {
    if StrictPrefix(p, q) && q[|p|] == c {
      assert q[..|p| + 1] == q[..|p|] + [q[|p|]];
    }
    if IsPrefix(p + [c], q) {
      assert q[..|p|] == (p + [c])[..|p|];
      assert q[|p|] == (p + [c])[|p|];
    }
  }

  /** The pruned keys are among the original ones. */
  lemma PrunedWithin(keys: map<Path, Node>, p: Path, i: nat)
    requires p in keys && i <= |keys[p].children|
    ensures forall q :: q in Pruned(keys, p, i) ==> q in keys
    ensures p in Pruned(keys, p, i)
  {
  }

  /** The next child is still present after pruning the ones before it,
      and the pruned keys agree with the original ones at and below it. */
  lemma PruneAgree(keys: map<Path, Node>, p: Path, i: nat)
    requires WellFormed(keys) && p in keys && i < |keys[p].children|
    ensures var q := p + [keys[p].children[i]];
      q in Pruned(keys, p, i) && AgreeBelow(Pruned(keys, p, i), keys, q)
  {
    var cs := keys[p].children;
    var c := cs[i];
    var m := Pruned(keys, p, i);
    forall r | IsPrefix(p + [c], r) ensures (r in m <==> r in keys) && (r in keys ==> m[r] == keys[r]) {
      ChildPrefix(p, c, r);
      assert r != p;
      assert c !in cs[..i] by {
        assert forall j :: 0 <= j < i ==> cs[..i][j] == cs[j];
      }
    }
    assert IsPrefix(p + [c], p + [c]);
  }

  /** Removing the subtree of the next child prunes one child more. */
  lemma PruneStep(keys: map<Path, Node>, p: Path, i: nat)
    requires WellFormed(keys) && p in keys && i < |keys[p].children|
    ensures p in Pruned(keys, p, i)
    ensures RemoveSubtree(Pruned(keys, p, i), p, keys[p].children[i]) == Pruned(keys, p, i + 1)
  {
    var cs := keys[p].children;
    var c := cs[i];
    var q := p + [c];
    var m := Pruned(keys, p, i);
    var m' := Pruned(keys, p, i + 1);
    assert cs[i..] != [] && cs[i..][0] == c;
    assert Distinct(cs[i..]) by {
      assert forall a, b :: 0 <= a < b < |cs[i..]| ==> cs[i..][a] == cs[i + a] && cs[i..][b] == cs[i + b];
    }
    assert Without(cs[i..], c) == cs[i + 1..] by {
      assert cs[i..][1..] == cs[i + 1..];
    }
    assert cs[..i + 1] == cs[..i] + [c];
    var n := RemoveSubtree(m, p, c);
    forall r ensures r in n <==> r in m' {
      ChildPrefix(p, c, r);
    }
    forall r | r in n ensures n[r] == m'[r] {
      ChildPrefix(p, c, r);
    }
    assert n == m';
  }

  /** Once every child is pruned, deleting the key itself from its parent
      leaves exactly the keys outside its subtree. */
  lemma PruneEnd(keys: map<Path, Node>, a: Path, c: string)
    requires WellFormed(keys) && a in keys && a + [c] in keys
    ensures var p := a + [c]; var m := Pruned(keys, p, |keys[p].children|);
      && p in m && m[p].children == [] && a in m
      && RemoveChild(m, a, c) == RemoveSubtree(keys, a, c)
  {
    var p := a + [c];
    var cs := keys[p].children;
    var m := Pruned(keys, p, |cs|);
    assert cs[..|cs|] == cs;
    assert !StrictPrefix(p, a);
    var n := RemoveChild(m, a, c);
    var s := RemoveSubtree(keys, a, c);
    forall r ensures r in n <==> r in s {
      if r in keys && IsPrefix(p, r) && r != p {
        BelowChild(keys, p, r);
      }
    }
    forall r | r in n ensures n[r] == s[r] {
    }
    assert n == s;
  }

  /** The pruned subtree of a child is no larger than the original. */
  lemma PrunedSubtree(keys: map<Path, Node>, p: Path, i: nat, q: Path)
    requires p in keys && i <= |keys[p].children|
    ensures Subtree(Pruned(keys, p, i), q) <= Subtree(keys, q)
  {
  }

  /** Removing a subtree takes away exactly the keys of that subtree. */
  lemma RemoveSubtreeCount(keys: map<Path, Node>, a: Path, c: string)
    requires a in keys
    ensures forall q :: q in keys ==> (q in RemoveSubtree(keys, a, c) <==> q !in Subtree(keys, a + [c]))
    ensures |RemoveSubtree(keys, a, c).Keys| == |keys.Keys| - |Subtree(keys, a + [c])|
  {
    assert !IsPrefix(a + [c], a);
    assert RemoveSubtree(keys, a, c).Keys == keys.Keys - Subtree(keys, a + [c]);
  }

  /** The deletions of a subtree removal, in post-order, name exactly the
      keys that disappear, each once, and never a key before one below it. */
  lemma RemovalDeletesSubtree(keys: map<Path, Node>, a: Path, c: string)
    requires WellFormed(keys) && a in keys && a + [c] in keys
    ensures var order := PostOrder(keys, a + [c]);
      && (forall q :: q in keys ==> (q in RemoveSubtree(keys, a, c) <==> q !in order))
      && (forall q :: q in order ==> q in keys)
      && DistinctPaths(order) && DescendantsFirst(order)
      && order[|order| - 1] == a + [c]
      && |RemoveSubtree(keys, a, c).Keys| == |keys.Keys| - |order|
  {
    PostOrderCovers(keys, a + [c]);
    PostOrderShape(keys, a + [c]);
    RemoveSubtreeCount(keys, a, c);
  }

  /** A name appended to a list that lacks it is the only one `Without` drops. */
  lemma {:induction false} WithoutAppended(cs: seq<string>, c: string)
    requires c !in cs
    ensures Without(cs + [c], c) == cs
  {
    if cs != [] {
      assert (cs + [c])[1..] == cs[1..] + [c];
      WithoutAppended(cs[1..], c);
    }
  }

  /** In a tree, no key lies at or below a path that is not a key. */
  lemma NothingBelowAbsent(keys: map<Path, Node>, p: Path, c: string)
    requires WellFormed(keys) && p + [c] !in keys
    ensures forall q :: q in keys ==> !IsPrefix(p + [c], q)
  {
    forall q | q in keys && IsPrefix(p + [c], q) ensures false {
      assert q[..|p| + 1] == p + [c];
      AncestorPresent(keys, q, |p| + 1);
    }
  }

  /** Creating a key that does not exist and then removing it with its
      (empty) subtree gives back the tree it started from. */
  lemma CreateThenRemove(keys: map<Path, Node>, p: Path, c: string)
    requires WellFormed(keys) && p in keys && p + [c] !in keys
    ensures p in AddChild(keys, p, c)
    ensures RemoveSubtree(AddChild(keys, p, c), p, c) == keys
  {
    var added := AddChild(keys, p, c);
    var cs := keys[p].children;
    assert c !in cs by {
      forall i | 0 <= i < |cs| ensures cs[i] != c {
        assert p + [cs[i]] in keys;
      }
    }
    WithoutAppended(cs, c);
    NothingBelowAbsent(keys, p, c);
    assert IsPrefix(p + [c], p + [c]);
    assert !IsPrefix(p + [c], p);
    var back := RemoveSubtree(added, p, c);
    forall q | q in back ensures q in keys && back[q] == keys[q] {
    }
    forall q | q in keys ensures q in back {
    }
    assert back == keys;
  }
}

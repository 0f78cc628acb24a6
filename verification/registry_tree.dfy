/** The key tree held by the server, as a map from key path to the key's
    node: what makes such a map a tree, the set of keys below a key, and
    the post-order in which a recursive removal deletes them. */
module RegistryTree {
  import opened RegTypes

  predicate IsPrefix(p: Path, q: Path)
  {
    |p| <= |q| && q[..|p|] == p
  }

  function Parent(p: Path): Path
    requires |p| >= 1
  {
    p[..|p| - 1]
  }

  predicate Distinct(cs: seq<string>)
  {
    forall i, j :: 0 <= i < j < |cs| ==> cs[i] != cs[j]
  }

  predicate DistinctNames(vs: seq<RawValue>)
  {
    forall i, j :: 0 <= i < j < |vs| ==> vs[i].name != vs[j].name
  }

  /** The map is a tree: every key but a hive root has its parent in the map
      and is listed among the parent's children; every listed child is in
      the map; no key lists a child twice or holds two values of one name. */
  ghost predicate WellFormed(keys: map<Path, Node>)
  {
    && (forall p :: p in keys ==> |p| >= 1)
    && (forall p {:trigger Parent(p)} :: p in keys && |p| >= 2 ==> Parent(p) in keys && p[|p| - 1] in keys[Parent(p)].children)
    && (forall p, i :: p in keys && 0 <= i < |keys[p].children| ==> p + [keys[p].children[i]] in keys)
    && (forall p :: p in keys ==> Distinct(keys[p].children) && DistinctNames(keys[p].values))
  }

  /** The key at `p` and all keys below it. */
  ghost function Subtree(keys: map<Path, Node>, p: Path): set<Path>
  {
    set q | q in keys && IsPrefix(p, q)
  }

  /** A child's subtree lies strictly inside its parent's. */
  lemma SubtreeShrinks(keys: map<Path, Node>, p: Path, c: string)
    requires p in keys
    ensures Subtree(keys, p + [c]) < Subtree(keys, p)
  {
    forall q | q in Subtree(keys, p + [c]) ensures q in Subtree(keys, p) {
      assert q[..|p|] == (p + [c])[..|p|];
    }
    assert p in Subtree(keys, p);
  }

  /** In a tree every ancestor of a key is a key too. */
  lemma {:induction false} AncestorPresent(keys: map<Path, Node>, q: Path, k: nat)
    requires WellFormed(keys) && q in keys && 1 <= k <= |q|
    ensures q[..k] in keys
    decreases |q| - k
  {
    if k < |q| {
      AncestorPresent(keys, q, k + 1);
      var a := q[..k + 1];
      assert Parent(a) == q[..k];
    } else {
      assert q[..k] == q;
    }
  }

  /** A key strictly below `p` lies below one of `p`'s children. */
  lemma BelowChild(keys: map<Path, Node>, p: Path, q: Path)
    requires WellFormed(keys) && p in keys && q in keys && IsPrefix(p, q) && |q| > |p|
    ensures q[|p|] in keys[p].children
  {
    AncestorPresent(keys, q, |p| + 1);
    var a := q[..|p| + 1];
    assert Parent(a) == p;
  }

  /** The order in which a recursive removal of `p` deletes keys: the
      subtrees of the children in listing order, each in post-order, and
      then `p` itself. */
  ghost function PostOrder(keys: map<Path, Node>, p: Path): seq<Path>
    decreases Subtree(keys, p), 1, 0
  {
    if p !in keys then [] else PostOrderOf(keys, p, keys[p].children) + [p]
  }

  /** The post-orders of the subtrees of `p`'s children named in `cs`, one after another. */
  ghost function PostOrderOf(keys: map<Path, Node>, p: Path, cs: seq<string>): seq<Path>
    requires p in keys
    decreases Subtree(keys, p), 0, |cs|
  {
    if cs == [] then []
    else
      SubtreeShrinks(keys, p, cs[|cs| - 1]);
      PostOrderOf(keys, p, cs[..|cs| - 1]) + PostOrder(keys, p + [cs[|cs| - 1]])
  }

  predicate StrictPrefix(p: Path, q: Path)
  {
    |p| < |q| && q[..|p|] == p
  }

  /** No element of `s` comes before one of its descendants. */
  predicate DescendantsFirst(s: seq<Path>)
  {
    forall i, j :: 0 <= i < j < |s| ==> !StrictPrefix(s[i], s[j])
  }

  predicate DistinctPaths(s: seq<Path>)
  {
    forall i, j :: 0 <= i < j < |s| ==> s[i] != s[j]
  }

  /** Every key lists each child once. */
  ghost predicate ChildrenDistinct(keys: map<Path, Node>)
  {
    forall p :: p in keys ==> Distinct(keys[p].children)
  }

  /** Two blocks of paths that differ at position `n` can be put one after
      the other without repeating a path or putting an ancestor first. */
  lemma JoinBlocks(a: seq<Path>, b: seq<Path>, n: nat, c: string)
    requires DistinctPaths(a) && DescendantsFirst(a) && DistinctPaths(b) && DescendantsFirst(b)
    requires forall q :: q in a ==> |q| > n && q[n] != c
    requires forall q :: q in b ==> |q| > n && q[n] == c
    ensures DistinctPaths(a + b) && DescendantsFirst(a + b)
  {
    var t := a + b;
    forall i, j | 0 <= i < j < |t| ensures !StrictPrefix(t[i], t[j]) && t[i] != t[j] {
      if i < |a| && j >= |a| {
        assert t[i] in a && t[j] in b;
      } else if i >= |a| {
        assert t[i] == b[i - |a|] && t[j] == b[j - |a|];
      } else {
        assert t[i] == a[i] && t[j] == a[j];
      }
    }
  }

  /** The post-order lists each key of the subtree once, and each key after
      all of its descendants. */
  lemma {:induction false} PostOrderShape(keys: map<Path, Node>, p: Path)
    requires ChildrenDistinct(keys)
    ensures forall q :: q in PostOrder(keys, p) ==> q in keys && IsPrefix(p, q)
    ensures DistinctPaths(PostOrder(keys, p))
    ensures DescendantsFirst(PostOrder(keys, p))
    ensures p in keys ==> PostOrder(keys, p)[|PostOrder(keys, p)| - 1] == p
    decreases Subtree(keys, p), 1, 0
  {
    if p in keys {
      var cs := keys[p].children;
      PostOrderOfShape(keys, p, cs);
      var s := PostOrderOf(keys, p, cs);
      forall i, j | 0 <= i < j < |s + [p]| ensures !StrictPrefix((s + [p])[i], (s + [p])[j]) && (s + [p])[i] != (s + [p])[j] {
        if j == |s| {
          assert (s + [p])[i] == s[i] && |s[i]| > |p|;
        } else {
          assert (s + [p])[i] == s[i] && (s + [p])[j] == s[j];
        }
      }
    }
  }

  lemma {:induction false} PostOrderOfShape(keys: map<Path, Node>, p: Path, cs: seq<string>)
    requires ChildrenDistinct(keys) && p in keys && Distinct(cs)
    ensures forall q :: q in PostOrderOf(keys, p, cs) ==>
      q in keys && |q| > |p| && IsPrefix(p, q) && q[|p|] in cs
    ensures DistinctPaths(PostOrderOf(keys, p, cs))
    ensures DescendantsFirst(PostOrderOf(keys, p, cs))
    decreases Subtree(keys, p), 0, |cs|
  {
    if cs != [] {
      var c := cs[|cs| - 1];
      var front := cs[..|cs| - 1];
      SubtreeShrinks(keys, p, c);
      PostOrderOfShape(keys, p, front);
      PostOrderShape(keys, p + [c]);
      var a := PostOrderOf(keys, p, front);
      var b := PostOrder(keys, p + [c]);
      forall q | q in b ensures |q| > |p| && IsPrefix(p, q) && q[|p|] == c {
        assert q[..|p| + 1] == p + [c];
        assert q[..|p| + 1][|p|] == q[|p|];
        assert q[..|p| + 1][..|p|] == q[..|p|];
      }
      forall q | q in a ensures |q| > |p| && q[|p|] != c {
        var k :| 0 <= k < |front| && front[k] == q[|p|];
        assert cs[k] == front[k];
      }
      JoinBlocks(a, b, |p|, c);
    }
  }

  /** Every key below `p` is in `p`'s post-order. */
  lemma {:induction false} PostOrderHas(keys: map<Path, Node>, p: Path, q: Path)
    requires WellFormed(keys) && p in keys && q in keys && IsPrefix(p, q)
    ensures q in PostOrder(keys, p)
    decreases Subtree(keys, p)
  {
    if q != p {
      BelowChild(keys, p, q);
      var cs := keys[p].children;
      var k :| 0 <= k < |cs| && cs[k] == q[|p|];
      var child := p + [cs[k]];
      assert child in keys;
      assert IsPrefix(child, q) by {
        assert q[..|p| + 1] == q[..|p|] + [q[|p|]];
      }
      SubtreeShrinks(keys, p, cs[k]);
      PostOrderHas(keys, child, q);
      PostOrderOfContains(keys, p, cs, k);
    }
  }

  /** The post-order of a tree's key covers exactly the key's subtree, so a
      key with M descendants is deleted in M + 1 steps. */
  lemma PostOrderCovers(keys: map<Path, Node>, p: Path)
    requires WellFormed(keys) && p in keys
    ensures forall q :: q in PostOrder(keys, p) <==> q in Subtree(keys, p)
    ensures |PostOrder(keys, p)| == |Subtree(keys, p)|
  {
    PostOrderShape(keys, p);
    forall q | q in Subtree(keys, p) ensures q in PostOrder(keys, p) {
      PostOrderHas(keys, p, q);
    }
    DistinctCard(PostOrder(keys, p));
    assert (set q | q in PostOrder(keys, p)) == Subtree(keys, p);
  }

  /** The combined post-order holds the post-order of each child it names. */
  lemma {:induction false} PostOrderOfContains(keys: map<Path, Node>, p: Path, cs: seq<string>, k: nat)
    requires p in keys && k < |cs|
    ensures forall q :: q in PostOrder(keys, p + [cs[k]]) ==> q in PostOrderOf(keys, p, cs)
    decreases |cs|
  {
    if k < |cs| - 1 {
      PostOrderOfContains(keys, p, cs[..|cs| - 1], k);
    }
  }

  lemma {:induction false} DistinctCard(s: seq<Path>)
    requires DistinctPaths(s)
    ensures |set q | q in s| == |s|
  {
    if s != [] {
      var front := s[..|s| - 1];
      DistinctCard(front);
      assert (set q | q in s) == (set q | q in front) + {s[|s| - 1]};
      assert s[|s| - 1] !in front;
    }
  }

  /** The two maps agree on `q` and everything below it. */
  ghost predicate AgreeBelow(m1: map<Path, Node>, m2: map<Path, Node>, q: Path)
  {
    forall r :: IsPrefix(q, r) ==> (r in m1 <==> r in m2) && (r in m1 ==> m1[r] == m2[r])
  }

  /** The post-order of a key depends only on the keys below it. */
  lemma {:induction false} PostOrderFrame(m1: map<Path, Node>, m2: map<Path, Node>, q: Path)
    requires AgreeBelow(m1, m2, q)
    ensures Subtree(m1, q) == Subtree(m2, q)
    ensures PostOrder(m1, q) == PostOrder(m2, q)
    decreases Subtree(m1, q), 1, 0
  {
    assert IsPrefix(q, q);
    if q in m1 {
      PostOrderOfFrame(m1, m2, q, m1[q].children);
    }
  }

  lemma {:induction false} PostOrderOfFrame(m1: map<Path, Node>, m2: map<Path, Node>, q: Path, cs: seq<string>)
    requires q in m1 && q in m2 && AgreeBelow(m1, m2, q)
    ensures PostOrderOf(m1, q, cs) == PostOrderOf(m2, q, cs)
    decreases Subtree(m1, q), 0, |cs|
  {
    if cs != [] {
      var c := cs[|cs| - 1];
      SubtreeShrinks(m1, q, c);
      PostOrderOfFrame(m1, m2, q, cs[..|cs| - 1]);
      forall r | IsPrefix(q + [c], r) ensures IsPrefix(q, r) {
        assert r[..|q|] == (q + [c])[..|q|];
      }
      PostOrderFrame(m1, m2, q + [c]);
    }
  }
}

/** The editor's search: a depth-first walk over the key tree of the
    session, from the hive roots in order and through each key's subkeys in
    listing order, that stops at the first key name, value name or value
    data containing one of the search terms. */
module Search {
  import opened RegTypes
  import opened Text
  import opened RegistryTree
  import opened RemoteRegistry
  import opened PipeManager

  /** What the search dialog asks for. */
  datatype SearchOptions = SearchOptions(
    text: string,
    searchKeys: bool,
    searchValues: bool,
    searchData: bool,
    matchWholeString: bool)

  /** Where the search stopped: at a key whose name matched, at a value
      whose name matched, at a value whose data matched, or nowhere. */
  datatype Hit =
    | KeyFound(key: Key)
    | ValueFound(key: Key, value: Value)
    | DataFound(key: Key, value: Value)
    | NotFound

  /** The terms searched for: the whole text, or its whitespace-separated words. */
  function Terms(o: SearchOptions): seq<string>
  {
    if o.matchWholeString then [o.text] else Words(o.text)
  }

  /** Some term occurs in `s` (a `find` that does not return -1). */
  function Matches(s: string, terms: seq<string>): (m: bool)
    ensures m <==> exists i: nat, j: nat :: i < |terms| && OccursAt(s, terms[i], j)
  {
    if terms == [] then false
    else if Find(s, terms[0]) >= 0 then
      assert exists j: nat :: OccursAt(s, terms[0], j);
      true
    else
      var m := Matches(s, terms[1..]);
      assert m ==> exists i: nat, j: nat :: i < |terms| && OccursAt(s, terms[i], j) by {
        if m {
          var i: nat, j: nat :| i < |terms[1..]| && OccursAt(s, terms[1..][i], j);
          assert OccursAt(s, terms[i + 1], j);
        }
      }
      assert (exists i: nat, j: nat :: i < |terms| && OccursAt(s, terms[i], j)) ==> m by {
        if exists i: nat, j: nat :: i < |terms| && OccursAt(s, terms[i], j) {
          var i: nat, j: nat :| i < |terms| && OccursAt(s, terms[i], j);
          assert i != 0;
          assert OccursAt(s, terms[1..][i - 1], j);
        }
      }
      m
  }

  /** A text that could be produced and contains some term; a text whose
      rendering failed (None) matches nothing. */
  predicate TextHits(t: Option<string>, terms: seq<string>)
  {
    t.Some? && Matches(t.value, terms)
  }

  /** The text compared when searching value names. */
  function NameText(v: Value): Option<string>
  {
    Some(v.name)
  }

  /** The position of the first value whose text (as `text` renders it)
      contains a term. */
  function FirstHit(vals: seq<Value>, terms: seq<string>, text: Value -> Option<string>): (r: Option<nat>)
    ensures r.Some? ==> r.value < |vals| && TextHits(text(vals[r.value]), terms)
    ensures r.Some? ==> forall j :: 0 <= j < r.value ==> !TextHits(text(vals[j]), terms)
    ensures r.None? <==> forall j :: 0 <= j < |vals| ==> !TextHits(text(vals[j]), terms)
  {
    if vals == [] then None
    else if TextHits(text(vals[0]), terms) then Some(0)
    else match FirstHit(vals[1..], terms, text)
      case None => None
      case Some(i) => Some(i + 1)
  }

  /** The value part of testing one listed key: every value name is tried
      before any value data, and a value whose data cannot be rendered is
      passed over. */
  function ValuesHit(o: SearchOptions, render: Value -> Option<string>, key: Key, vals: seq<Value>): (h: Hit)
    ensures !h.KeyFound?
    ensures h.ValueFound? ==>
      h.key == key && o.searchValues && h.value in vals && Matches(h.value.name, Terms(o))
    ensures h.DataFound? ==>
      && h.key == key && o.searchData && h.value in vals && TextHits(render(h.value), Terms(o))
      && !(o.searchValues && exists j :: 0 <= j < |vals| && Matches(vals[j].name, Terms(o)))
    ensures h.NotFound? <==> forall j :: 0 <= j < |vals| ==>
      && !(o.searchValues && Matches(vals[j].name, Terms(o)))
      && !(o.searchData && TextHits(render(vals[j]), Terms(o)))
  {
    var terms := Terms(o);
    var byName := if o.searchValues then FirstHit(vals, terms, NameText) else None;
    if byName.Some? then ValueFound(key, vals[byName.value])
    else
      assert o.searchValues ==> forall j :: 0 <= j < |vals| ==> !TextHits(NameText(vals[j]), terms);
      var byData := if o.searchData then FirstHit(vals, terms, render) else None;
      if byData.Some? then DataFound(key, vals[byData.value]) else NotFound
  }

  // ---------------------------------------------------------------------
  // The search as a recursion over the tree

  /** The server's record for a listable key. */
  ghost function NodeOf(v: View, key: Key): Node
    requires Listable(v, key)
  {
    v.keys[Resolve(v.table, key).value]
  }

  /** The values a listing of `key` shows. */
  ghost function Values(v: View, key: Key): seq<Value>
    requires Listable(v, key)
  {
    Listing(NodeOf(v, key), key).1
  }

  /** The search below one key, pre-order: the key's name, then (when the
      key can be listed) its values, then each subkey in listing order. */
  ghost function SearchKey(v: View, o: SearchOptions, render: Value -> Option<string>, key: Key): Hit
    decreases Below(v.keys, v.table, key), 1
  {
    if o.searchKeys && Matches(key.name, Terms(o)) then KeyFound(key)
    else if !Listable(v, key) then NotFound
    else
      var own := ValuesHit(o, render, key, Values(v, key));
      if own != NotFound then own else SearchChildren(v, o, render, key, 0)
  }

  /** The search through the subkeys of `key` from the `i`-th on. */
  ghost function SearchChildren(v: View, o: SearchOptions, render: Value -> Option<string>, key: Key, i: nat): Hit
    requires Listable(v, key) && i <= |NodeOf(v, key).children|
    decreases Below(v.keys, v.table, key), 0, |NodeOf(v, key).children| - i
  {
    var cs := NodeOf(v, key).children;
    if i == |cs| then NotFound
    else
      SubtreeShrinks(v.keys, Resolve(v.table, key).value, cs[i]);
      var h := SearchKey(v, o, render, Sub(cs[i], key));
      if h != NotFound then h else SearchChildren(v, o, render, key, i + 1)
  }

  /** The search through several keys in order: the first one whose
      search finds something decides. */
  ghost function SearchAll(v: View, o: SearchOptions, render: Value -> Option<string>, ks: seq<Key>): Hit
  {
    if ks == [] then NotFound
    else
      var h := SearchKey(v, o, render, ks[0]);
      if h != NotFound then h else SearchAll(v, o, render, ks[1..])
  }

  /** The keys the walk visits from `from`: the key itself, and when it
      can be listed, the keys visited from each of its subkeys. */
  ghost predicate Reaches(v: View, from: Key, to: Key)
    decreases Below(v.keys, v.table, from), 1
  {
    from == to || (Listable(v, from) && ReachesFromChild(v, from, to, 0))
  }

  ghost predicate ReachesFromChild(v: View, from: Key, to: Key, i: nat)
    requires Listable(v, from) && i <= |NodeOf(v, from).children|
    decreases Below(v.keys, v.table, from), 0, |NodeOf(v, from).children| - i
  {
    var cs := NodeOf(v, from).children;
    && i < |cs|
    && (SubtreeShrinks(v.keys, Resolve(v.table, from).value, cs[i]);
        Reaches(v, Sub(cs[i], from), to) || ReachesFromChild(v, from, to, i + 1))
  }

  /** What a hit promises: the key's name matched; or the key was listed,
      its name did not match and the value shown matched by name; or the
      key was listed, neither its name nor any value name matched and the
      value's rendered data matched. */
  ghost predicate HitHolds(v: View, o: SearchOptions, render: Value -> Option<string>, h: Hit)
  {
    match h
    case KeyFound(k) => o.searchKeys && Matches(k.name, Terms(o))
    case ValueFound(k, w) =>
      && !(o.searchKeys && Matches(k.name, Terms(o)))
      && Listable(v, k) && w in Values(v, k)
      && o.searchValues && Matches(w.name, Terms(o))
    case DataFound(k, w) =>
      && !(o.searchKeys && Matches(k.name, Terms(o)))
      && Listable(v, k) && w in Values(v, k)
      && o.searchData && TextHits(render(w), Terms(o))
      && !(o.searchValues && exists j :: 0 <= j < |Values(v, k)| && Matches(Values(v, k)[j].name, Terms(o)))
    case NotFound => false
  }

  /** Nothing at the key matches: not its name, and, when it can be
      listed, neither the name nor the rendered data of any of its values. */
  ghost predicate Clean(v: View, o: SearchOptions, render: Value -> Option<string>, k: Key)
  {
    && !(o.searchKeys && Matches(k.name, Terms(o)))
    && (Listable(v, k) ==> forall j :: 0 <= j < |Values(v, k)| ==>
         && !(o.searchValues && Matches(Values(v, k)[j].name, Terms(o)))
         && !(o.searchData && TextHits(render(Values(v, k)[j]), Terms(o))))
  }

  /** The subkey walk reaches a key exactly when one of the remaining
      subkeys does. */
  lemma {:induction false} ReachesFromChildAt(v: View, from: Key, to: Key, i: nat)
    requires Listable(v, from) && i <= |NodeOf(v, from).children|
    ensures var cs := NodeOf(v, from).children;
      ReachesFromChild(v, from, to, i) <==> exists j :: i <= j < |cs| && Reaches(v, Sub(cs[j], from), to)
    decreases |NodeOf(v, from).children| - i
  {
    var cs := NodeOf(v, from).children;
    if i < |cs| {
      ReachesFromChildAt(v, from, to, i + 1);
    }
  }

  /** A hit never sits at a clean key. */
  lemma HitNotClean(v: View, o: SearchOptions, render: Value -> Option<string>, h: Hit)
    requires HitHolds(v, o, render, h)
    ensures !Clean(v, o, render, h.key)
  {
    match h
    case KeyFound(k) =>
    case ValueFound(k, w) =>
      var j :| 0 <= j < |Values(v, k)| && Values(v, k)[j] == w;
    case DataFound(k, w) =>
      var j :| 0 <= j < |Values(v, k)| && Values(v, k)[j] == w;
  }

  /** Every key the walk reaches from `key` is clean. */
  ghost predicate AllClean(v: View, o: SearchOptions, render: Value -> Option<string>, key: Key)
  {
    forall k :: Reaches(v, key, k) ==> Clean(v, o, render, k)
  }

  /** A key's walk is clean exactly when the key is, and, when it can be
      listed, the walk from each of its subkeys is. */
  lemma AllCleanUnfold(v: View, o: SearchOptions, render: Value -> Option<string>, key: Key)
    ensures !Listable(v, key) ==> (AllClean(v, o, render, key) <==> Clean(v, o, render, key))
    ensures Listable(v, key) ==> var cs := NodeOf(v, key).children;
      AllClean(v, o, render, key) <==>
        Clean(v, o, render, key) && forall j :: 0 <= j < |cs| ==> AllClean(v, o, render, Sub(cs[j], key))
  {
    if Listable(v, key) {
      var cs := NodeOf(v, key).children;
      forall k | Reaches(v, key, k)
        ensures k == key || exists j :: 0 <= j < |cs| && Reaches(v, Sub(cs[j], key), k)
      {
        ReachesFromChildAt(v, key, k, 0);
      }
      forall j, k | 0 <= j < |cs| && Reaches(v, Sub(cs[j], key), k) ensures Reaches(v, key, k) {
        ReachesFromChildAt(v, key, k, 0);
      }
    }
  }

  /** A walk that reaches a hit is not clean. */
  lemma HitSpoils(v: View, o: SearchOptions, render: Value -> Option<string>, key: Key, h: Hit)
    requires HitHolds(v, o, render, h) && Reaches(v, key, h.key)
    ensures !AllClean(v, o, render, key)
  {
    HitNotClean(v, o, render, h);
  }

  /** A hit reached from a subkey is reached from the key. */
  lemma ReachedThroughChild(v: View, key: Key, j: nat, to: Key)
    requires Listable(v, key) && j < |NodeOf(v, key).children|
    requires Reaches(v, Sub(NodeOf(v, key).children[j], key), to)
    ensures Reaches(v, key, to)
  {
    ReachesFromChildAt(v, key, to, 0);
  }

  /** The search below a key is sound and complete: what it finds is
      reached from the key and matches; it finds nothing exactly when
      every key it reaches is clean. */
  lemma {:induction false} SearchKeyMeaning(v: View, o: SearchOptions, render: Value -> Option<string>, key: Key)
    ensures var h := SearchKey(v, o, render, key);
      && (h != NotFound ==> Reaches(v, key, h.key) && HitHolds(v, o, render, h))
      && (h == NotFound <==> AllClean(v, o, render, key))
    decreases Below(v.keys, v.table, key), 1
  {
    var h := SearchKey(v, o, render, key);
    AllCleanUnfold(v, o, render, key);
    if o.searchKeys && Matches(key.name, Terms(o)) {
    } else if Listable(v, key) {
      var own := ValuesHit(o, render, key, Values(v, key));
      if own == NotFound {
        SearchChildrenMeaning(v, o, render, key, 0);
        if h != NotFound {
          var j :| 0 <= j < |NodeOf(v, key).children| && Reaches(v, Sub(NodeOf(v, key).children[j], key), h.key);
          ReachedThroughChild(v, key, j, h.key);
        }
      }
    }
  }

  /** The search through the remaining subkeys finds a hit reached from
      one of them, and finds nothing exactly when the walk from each of
      them is clean. */
  lemma {:induction false} SearchChildrenMeaning(v: View, o: SearchOptions, render: Value -> Option<string>, key: Key, i: nat)
    requires Listable(v, key) && i <= |NodeOf(v, key).children|
    ensures var cs := NodeOf(v, key).children;
      var h := SearchChildren(v, o, render, key, i);
      && (h != NotFound ==> HitHolds(v, o, render, h) && exists j :: i <= j < |cs| && Reaches(v, Sub(cs[j], key), h.key))
      && (h == NotFound <==> forall j :: i <= j < |cs| ==> AllClean(v, o, render, Sub(cs[j], key)))
    decreases Below(v.keys, v.table, key), 0, |NodeOf(v, key).children| - i
  {
    var cs := NodeOf(v, key).children;
    if i < |cs| {
      SubtreeShrinks(v.keys, Resolve(v.table, key).value, cs[i]);
      var child := Sub(cs[i], key);
      SearchKeyMeaning(v, o, render, child);
      SearchChildrenMeaning(v, o, render, key, i + 1);
      var h := SearchKey(v, o, render, child);
      if h != NotFound {
        HitSpoils(v, o, render, child, h);
      }
    }
  }

  /** Searching several keys in order: a hit is reached from some key,
      the walk from every key before that one is clean, and the search
      finds nothing exactly when the walk from every key is clean. */
  lemma {:induction false} SearchAllMeaning(v: View, o: SearchOptions, render: Value -> Option<string>, ks: seq<Key>)
    ensures var h := SearchAll(v, o, render, ks);
      && (h != NotFound ==> HitHolds(v, o, render, h))
      && (h != NotFound ==>
            exists i :: 0 <= i < |ks| && Reaches(v, ks[i], h.key) && (forall j :: 0 <= j < i ==> AllClean(v, o, render, ks[j])))
      && (h == NotFound <==> forall i :: 0 <= i < |ks| ==> AllClean(v, o, render, ks[i]))
  {
    if ks != [] {
      SearchKeyMeaning(v, o, render, ks[0]);
      SearchAllMeaning(v, o, render, ks[1..]);
      var h := SearchAll(v, o, render, ks);
      if SearchKey(v, o, render, ks[0]) == NotFound {
        if h != NotFound {
          var i :| 0 <= i < |ks[1..]| && Reaches(v, ks[1..][i], h.key) &&
            forall j :: 0 <= j < i ==> AllClean(v, o, render, ks[1..][j]);
          assert Reaches(v, ks[i + 1], h.key);
          assert forall j :: 0 <= j < i + 1 ==> AllClean(v, o, render, ks[j]) by {
            forall j | 0 < j < i + 1 ensures AllClean(v, o, render, ks[j]) {
              assert ks[j] == ks[1..][j - 1];
            }
          }
        } else {
          forall i | 0 < i < |ks| ensures AllClean(v, o, render, ks[i]) {
            assert ks[i] == ks[1..][i - 1];
          }
        }
      } else {
        assert Reaches(v, ks[0], h.key);
        HitSpoils(v, o, render, ks[0], h);
      }
    }
  }

  // ---------------------------------------------------------------------
  // The walk with an explicit stack

  /** The elements of `s` in the opposite order. */
  function Reversed<T>(s: seq<T>): (r: seq<T>)
    ensures |r| == |s|
  {
    if s == [] then [] else Reversed(s[1..]) + [s[0]]
  }

  lemma {:induction false} ReversedAppend<T>(a: seq<T>, b: seq<T>)
    ensures Reversed(a + b) == Reversed(b) + Reversed(a)
  {
    if a == [] {
      assert a + b == b;
    } else {
      assert (a + b)[1..] == a[1..] + b;
      ReversedAppend(a[1..], b);
    }
  }

  /** Reversing twice gives back the original order. */
  lemma {:induction false} ReversedTwice<T>(s: seq<T>)
    ensures Reversed(Reversed(s)) == s
  {
    if s != [] {
      ReversedAppend(Reversed(s[1..]), [s[0]]);
      ReversedTwice(s[1..]);
      assert Reversed([s[0]]) == [s[0]];
      assert [s[0]] + s[1..] == s;
    }
  }

  /** Reversing keeps the elements. */
  lemma {:induction false} ReversedHas<T>(s: seq<T>)
    ensures forall x :: x in Reversed(s) <==> x in s
  {
    if s != [] {
      ReversedHas(s[1..]);
      assert s == [s[0]] + s[1..];
    }
  }

  /** How many keys the walk from `key` visits. */
  ghost function Size(v: View, key: Key): nat
    decreases Below(v.keys, v.table, key), 1
  {
    if Listable(v, key) then 1 + ChildrenSize(v, key, |NodeOf(v, key).children|) else 1
  }

  ghost function ChildrenSize(v: View, key: Key, n: nat): nat
    requires Listable(v, key) && n <= |NodeOf(v, key).children|
    decreases Below(v.keys, v.table, key), 0, n
  {
    if n == 0 then 0
    else
      var c := NodeOf(v, key).children[n - 1];
      SubtreeShrinks(v.keys, Resolve(v.table, key).value, c);
      ChildrenSize(v, key, n - 1) + Size(v, Sub(c, key))
  }

  /** How many keys the walks from all of `ks` visit together. */
  ghost function Sizes(v: View, ks: seq<Key>): nat
  {
    if ks == [] then 0 else Sizes(v, ks[..|ks| - 1]) + Size(v, ks[|ks| - 1])
  }

  lemma {:induction false} SizesAppend(v: View, a: seq<Key>, b: seq<Key>)
    ensures Sizes(v, a + b) == Sizes(v, a) + Sizes(v, b)
    decreases |b|
  {
    if b == [] {
      assert a + b == a;
    } else {
      assert (a + b)[..|a + b| - 1] == a + b[..|b| - 1];
      SizesAppend(v, a, b[..|b| - 1]);
    }
  }

  lemma {:induction false} SizesReversed(v: View, s: seq<Key>)
    ensures Sizes(v, Reversed(s)) == Sizes(v, s)
  {
    if s != [] {
      SizesReversed(v, s[1..]);
      SizesAppend(v, [s[0]], s[1..]);
      assert [s[0]] + s[1..] == s;
      var r := Reversed(s);
      assert r[..|r| - 1] == Reversed(s[1..]);
      assert Sizes(v, [s[0]]) == Size(v, s[0]);
    }
  }

  lemma {:induction false} ChildrenSizes(v: View, key: Key, n: nat)
    requires Listable(v, key) && n <= |NodeOf(v, key).children|
    ensures var cs := NodeOf(v, key).children;
      ChildrenSize(v, key, n) == Sizes(v, ChildKeys(cs[..n], key))
  {
    var cs := NodeOf(v, key).children;
    if n == 0 {
      assert cs[..0] == [];
    } else {
      ChildrenSizes(v, key, n - 1);
      assert cs[..n][..n - 1] == cs[..n - 1];
      var ks := ChildKeys(cs[..n], key);
      assert ks[..|ks| - 1] == ChildKeys(cs[..n - 1], key);
    }
  }

  lemma {:induction false} SearchAllAppend(v: View, o: SearchOptions, render: Value -> Option<string>, a: seq<Key>, b: seq<Key>)
    ensures SearchAll(v, o, render, a + b) ==
      if SearchAll(v, o, render, a) != NotFound then SearchAll(v, o, render, a) else SearchAll(v, o, render, b)
  {
    if a == [] {
      assert a + b == b;
    } else {
      assert (a + b)[0] == a[0];
      assert (a + b)[1..] == a[1..] + b;
      SearchAllAppend(v, o, render, a[1..], b);
    }
  }

  /** Searching the subkeys one after another is searching the listed subkeys. */
  lemma {:induction false} SearchChildrenAll(v: View, o: SearchOptions, render: Value -> Option<string>, key: Key, i: nat)
    requires Listable(v, key) && i <= |NodeOf(v, key).children|
    ensures var cs := NodeOf(v, key).children;
      SearchChildren(v, o, render, key, i) == SearchAll(v, o, render, ChildKeys(cs, key)[i..])
    decreases |NodeOf(v, key).children| - i
  {
    var cs := NodeOf(v, key).children;
    var ks := ChildKeys(cs, key);
    if i < |cs| {
      ChildKeysAt(cs, key);
      SearchChildrenAll(v, o, render, key, i + 1);
      assert ks[i..][0] == Sub(cs[i], key);
      assert ks[i..][1..] == ks[i + 1..];
    }
  }

  /** Handles opened since leave a key's path as it was, provided its
      hive root's handle was open already. */
  lemma {:induction false} ResolveKept(t0: map<Handle, Path>, t1: map<Handle, Path>, key: Key)
    requires key.RootHandle() in t0 && Extends(t0, t1)
    ensures Resolve(t1, key) == Resolve(t0, key)
  {
    match key
    case Root(_, _) =>
    case Sub(_, parent) => ResolveKept(t0, t1, parent);
  }

  lemma {:induction false} ListableKept(keys: map<Path, Node>, denied: set<Path>, t0: map<Handle, Path>, t1: map<Handle, Path>, key: Key)
    requires key.RootHandle() in t0 && Extends(t0, t1)
    ensures Resolve(t1, key) == Resolve(t0, key)
    ensures CanOpen(View(keys, denied, t1), key) == CanOpen(View(keys, denied, t0), key)
    ensures Listable(View(keys, denied, t1), key) == Listable(View(keys, denied, t0), key)
  {
    ResolveKept(t0, t1, key);
    match key
    case Root(_, _) =>
    case Sub(_, parent) => ListableKept(keys, denied, t0, t1, parent);
  }

  /** Popping the top of the stack: the search of the stack is the search
      of the popped key, then of the rest; the popped key's walk leaves
      the rest's. */
  lemma PopStep(v: View, o: SearchOptions, render: Value -> Option<string>, rest: seq<Key>, key: Key)
    ensures var h := SearchKey(v, o, render, key);
      SearchAll(v, o, render, Reversed(rest + [key])) ==
        if h != NotFound then h else SearchAll(v, o, render, Reversed(rest))
    ensures Sizes(v, rest + [key]) == Sizes(v, rest) + Size(v, key)
  {
    ReversedAppend(rest, [key]);
    assert Reversed([key]) == [key];
    assert ([key] + Reversed(rest))[1..] == Reversed(rest);
    assert (rest + [key])[..|rest|] == rest;
  }

  /** Pushing the subkeys of a key whose own tests failed, last first: the
      search of the stack goes on with them, in listing order, and the
      walk left to do shrinks by the key itself. */
  lemma PushStep(v: View, o: SearchOptions, render: Value -> Option<string>, rest: seq<Key>, key: Key)
    requires Listable(v, key)
    requires !(o.searchKeys && Matches(key.name, Terms(o)))
    requires ValuesHit(o, render, key, Values(v, key)) == NotFound
    ensures var subs := Listing(NodeOf(v, key), key).0;
      && SearchAll(v, o, render, Reversed(rest + Reversed(subs))) ==
           (var h := SearchKey(v, o, render, key); if h != NotFound then h else SearchAll(v, o, render, Reversed(rest)))
      && Sizes(v, rest + Reversed(subs)) < Sizes(v, rest) + Size(v, key)
      && forall k :: k in Reversed(subs) ==> k.RootHandle() == key.RootHandle()
  {
    var cs := NodeOf(v, key).children;
    var subs := ChildKeys(cs, key);
    ReversedAppend(rest, Reversed(subs));
    ReversedTwice(subs);
    SearchAllAppend(v, o, render, subs, Reversed(rest));
    SearchChildrenAll(v, o, render, key, 0);
    assert subs[0..] == subs;
    SizesAppend(v, rest, Reversed(subs));
    SizesReversed(v, subs);
    ChildrenSizes(v, key, |cs|);
    assert cs[..|cs|] == cs;
    ChildKeysAt(cs, key);
    ReversedHas(subs);
  }

  /** The search thread's walk: the hive roots are pushed in reverse so
      that the first pops first; each popped key's name is tested, then it
      is listed (a key that cannot be listed is passed over with everything
      below it), its values are tested, and its subkeys are pushed in
      reverse. The walk returns at the first hit, and its result is the
      recursive search's over the roots in order. */
  method Run(manager: WinRegPipeManager, o: SearchOptions, render: Value -> Option<string>) returns (hit: Hit)
    requires manager.Valid()
    modifies manager.pipe`table, manager.pipe`next, manager.pipe`log
    ensures manager.Valid()
    ensures Extends(old(manager.pipe.table), manager.pipe.table)
    ensures hit == SearchAll(old(manager.pipe.State()), o, render, manager.wellKnownKeys)
  {
    ghost var v := manager.pipe.State();
    ghost var t0 := manager.pipe.table;
    var terms := Terms(o);
    var roots := manager.wellKnownKeys;
    var stack := Reversed(roots);
    ReversedTwice(roots);
    ReversedHas(roots);
    while stack != []
      invariant manager.Valid()
      invariant manager.pipe.keys == v.keys && manager.pipe.denied == v.denied
      invariant Extends(t0, manager.pipe.table)
      invariant forall k :: k in stack ==> k.RootHandle() in t0
      invariant SearchAll(v, o, render, Reversed(stack)) == SearchAll(v, o, render, roots)
      decreases Sizes(v, stack)
    {
      var key := stack[|stack| - 1];
      var rest := stack[..|stack| - 1];
      assert stack == rest + [key];
      PopStep(v, o, render, rest, key);
      stack := rest;
      if o.searchKeys && Matches(key.name, terms) {
        return KeyFound(key);
      }
      ghost var t := manager.pipe.table;
      ListableKept(v.keys, v.denied, t0, t, key);
      var listing := manager.LsKey(key);
      if listing.Err? {
        continue;
      }
      var (subkeyList, valueList) := listing.value;
      var own := ValuesHit(o, render, key, valueList);
      if own != NotFound {
        return own;
      }
      PushStep(v, o, render, rest, key);
      stack := stack + Reversed(subkeyList);
    }
    hit := NotFound;
  }
}

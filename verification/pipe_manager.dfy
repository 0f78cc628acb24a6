/** The session a registry editor keeps with one server: the five hive
    roots it holds open, and the operations the editor's views are built
    on. Every operation opens the handles along a key's path, makes its
    remote calls on the last of them, and closes again every handle it
    opened. */
module PipeManager {
  import opened RegTypes
  import opened Text
  import opened WinregBuffers
  import opened Connection
  import opened RegistryTree
  import opened RemoteRegistry
  import opened TreeRemoval

  // ---------------------------------------------------------------------
  // What a key means on the server

  /** The server path `key` stands for: the path its hive root's handle is
      open on, followed by the names below the root. None when the root's
      handle is not open. */
  ghost function Resolve(table: map<Handle, Path>, key: Key): Option<Path>
  {
    match key
    case Root(_, h) => if h in table then Some(table[h]) else None
    case Sub(n, parent) => if Resolve(table, parent).Some? then Some(Resolve(table, parent).value + [n]) else None
  }

  /** A child key's path is its parent's path and its own name. */
  lemma ResolveSub(table: map<Handle, Path>, name: string, parent: Key)
    ensures Resolve(table, Sub(name, parent)).Some? <==> Resolve(table, parent).Some?
    ensures Resolve(table, parent).Some? ==>
      Resolve(table, Sub(name, parent)).value == Resolve(table, parent).value + [name]
  {
  }

  /** Opening the handles along the key's path succeeds: each key below the
      hive root exists on the server and may be opened. */
  ghost predicate CanOpen(v: View, key: Key)
  {
    match key
    case Root(_, _) => true
    case Sub(_, parent) =>
      && CanOpen(v, parent)
      && Resolve(v.table, key).Some?
      && Resolve(v.table, key).value in v.keys
      && Resolve(v.table, key).value !in v.denied
  }

  /** Listing the key succeeds: its path opens and the handle at its end
      names a key of the server. */
  ghost predicate Listable(v: View, key: Key)
  {
    CanOpen(v, key) && Resolve(v.table, key).Some? && Resolve(v.table, key).value in v.keys
  }

  /** Every handle of the first table is still open, on the same path. */
  ghost predicate Extends(t0: map<Handle, Path>, t1: map<Handle, Path>)
  {
    forall h :: h in t0 ==> h in t1 && t1[h] == t0[h]
  }

  /** A key below a listable key can be opened when it exists and is not refused. */
  lemma CanOpenChild(v: View, name: string, key: Key)
    requires Listable(v, key)
    ensures Resolve(v.table, Sub(name, key)).Some?
    ensures CanOpen(v, Sub(name, key)) <==>
      Resolve(v.table, key).value + [name] in v.keys && Resolve(v.table, key).value + [name] !in v.denied
  {
    ResolveSub(v.table, name, key);
  }

  /** Whether a key opens depends on its ancestors only: two servers that
      agree on which of the key's ancestors exist agree on it. */
  lemma {:induction false} CanOpenFrame(v1: View, v2: View, key: Key)
    requires v1.denied == v2.denied && v1.table == v2.table
    requires Resolve(v1.table, key).Some?
    requires forall q :: IsPrefix(q, Resolve(v1.table, key).value) ==> (q in v1.keys <==> q in v2.keys)
    ensures CanOpen(v1, key) == CanOpen(v2, key)
  {
    match key
    case Root(_, _) =>
    case Sub(n, parent) =>
      ResolveSub(v1.table, n, parent);
      var p := Resolve(v1.table, parent).value;
      forall q | IsPrefix(q, p) ensures IsPrefix(q, p + [n]) {
        assert (p + [n])[..|q|] == p[..|q|];
      }
      CanOpenFrame(v1, v2, parent);
      assert IsPrefix(p + [n], p + [n]);
  }

  // ---------------------------------------------------------------------
  // Listing

  /** The subkeys of `key` named in `cs`, in order. */
  function ChildKeys(cs: seq<string>, key: Key): (ks: seq<Key>)
    ensures |ks| == |cs|
  {
    if cs == [] then [] else ChildKeys(cs[..|cs| - 1], key) + [Sub(cs[|cs| - 1], key)]
  }

  /** The i-th listed subkey is the child of `key` with the i-th name. */
  lemma {:induction false} ChildKeysAt(cs: seq<string>, key: Key)
    ensures forall i :: 0 <= i < |cs| ==> ChildKeys(cs, key)[i] == Sub(cs[i], key)
  {
    if cs != [] {
      ChildKeysAt(cs[..|cs| - 1], key);
    }
  }

  /** The values the server reports, each linked to `key`. */
  function ToValues(vs: seq<RawValue>, key: Key): (ws: seq<Value>)
    ensures |ws| == |vs|
  {
    if vs == [] then [] else ToValues(vs[..|vs| - 1], key) + [Value(vs[|vs| - 1].name, vs[|vs| - 1].vtype, vs[|vs| - 1].data, key)]
  }

  /** The i-th listed value carries the i-th reported value's name, type and data. */
  lemma {:induction false} ToValuesAt(vs: seq<RawValue>, key: Key)
    ensures forall i :: 0 <= i < |vs| ==> ToValues(vs, key)[i] == Value(vs[i].name, vs[i].vtype, vs[i].data, key)
  {
    if vs != [] {
      ToValuesAt(vs[..|vs| - 1], key);
    }
  }

  /** The position of the first value with the empty name, the key's default value. */
  function DefaultIndex(vs: seq<Value>): (r: Option<nat>)
    ensures r.Some? ==> r.value < |vs| && vs[r.value].name == ""
    ensures r.Some? ==> forall j :: 0 <= j < r.value ==> vs[j].name != ""
    ensures r.None? ==> forall j :: 0 <= j < |vs| ==> vs[j].name != ""
  {
    if vs == [] then None
    else if vs[0].name == "" then Some(0)
    else match DefaultIndex(vs[1..])
      case None => None
      case Some(i) => Some(i + 1)
  }

  /** The default-value rule applied to a listing: the first value with the
      empty name is shown as "(Default)"; when there is none, an empty
      string value of that name is added at the end. */
  function WithDefaultValue(vs: seq<Value>, key: Key): (r: seq<Value>)
    ensures |vs| <= |r| <= |vs| + 1
  {
    match DefaultIndex(vs)
    case None => vs + [Value(DEFAULT_NAME, REG_SZ, [], key)]
    case Some(i) => vs[i := vs[i].(name := DEFAULT_NAME)]
  }

  /** The listing grows by one exactly when no value has the empty name,
      and then ends with an empty "(Default)" string value; some value is
      shown as "(Default)"; the first value with the empty name is the one
      shown as "(Default)", any later one keeps its empty name, every named
      value is shown unchanged, and no value changes its type, data or key. */
  lemma DefaultValueRule(vs: seq<Value>, key: Key)
    ensures var r := WithDefaultValue(vs, key);
      && (|r| == |vs| + 1 <==> forall j :: 0 <= j < |vs| ==> vs[j].name != "")
      && (exists j :: 0 <= j < |r| && r[j].name == DEFAULT_NAME)
      && (forall j :: 0 <= j < |vs| && vs[j].name == "" ==>
            && (r[j].name == DEFAULT_NAME <==> forall k :: 0 <= k < j ==> vs[k].name != "")
            && (r[j].name != DEFAULT_NAME ==> r[j] == vs[j]))
      && (forall j :: 0 <= j < |vs| && vs[j].name != "" ==> r[j] == vs[j])
      && (forall j :: 0 <= j < |vs| ==> r[j].vtype == vs[j].vtype && r[j].data == vs[j].data && r[j].parent == vs[j].parent)
      && (|r| == |vs| + 1 ==> r[|vs|] == Value(DEFAULT_NAME, REG_SZ, [], key))
  {
    var r := WithDefaultValue(vs, key);
    match DefaultIndex(vs)
    case None =>
      assert r[|vs|].name == DEFAULT_NAME;
    case Some(i) =>
      assert r[i].name == DEFAULT_NAME;
  }

  /** When the server's value names are distinct and none is literally
      "(Default)", the listing shows exactly one "(Default)" value and no
      value with the empty name. */
  lemma DefaultValueUnique(vs: seq<Value>, key: Key)
    requires forall i, j :: 0 <= i < j < |vs| ==> vs[i].name != vs[j].name
    requires forall j :: 0 <= j < |vs| ==> vs[j].name != DEFAULT_NAME
    ensures var r := WithDefaultValue(vs, key);
      && (forall j :: 0 <= j < |r| ==> r[j].name != "")
      && (forall i, j :: 0 <= i < |r| && 0 <= j < |r| && r[i].name == DEFAULT_NAME && r[j].name == DEFAULT_NAME ==> i == j)
  {
    var r := WithDefaultValue(vs, key);
    DefaultValueRule(vs, key);
    match DefaultIndex(vs)
    case None =>
    case Some(k) =>
      forall j | 0 <= j < |r| ensures r[j].name != "" && (r[j].name == DEFAULT_NAME ==> j == k) {
        if j != k {
          assert vs[j].name != vs[k].name || j == k;
        }
      }
  }

  /** What listing `key` returns when the server holds `node` for it: the
      subkeys in the server's order, each a child of `key`, and the values
      in the server's order with the default-value rule applied. */
  function Listing(node: Node, key: Key): (seq<Key>, seq<Value>)
  {
    (ChildKeys(node.children, key), WithDefaultValue(ToValues(node.values, key), key))
  }

  /** The value name sent to the server: "(Default)" stands for the empty name. */
  function WireName(name: string): (w: string)
    ensures name == DEFAULT_NAME ==> w == ""
    ensures name != DEFAULT_NAME ==> w == name
  {
    if name == DEFAULT_NAME then "" else name
  }

  /** `create_key` succeeds: the parent can be listed, and when the key
      already exists the server lets it be opened. */
  ghost predicate Creatable(v: View, key: Key)
    requires key.Sub?
  {
    && Listable(v, key.parent)
    && var q := Resolve(v.table, key.parent).value + [key.name];
       q in v.keys ==> q !in v.denied
  }

  // ---------------------------------------------------------------------
  // Opening and closing the handles along a path

  /** The element at index `i` of a list, counting from the end when `i`
      is negative, as the source language indexes lists. */
  function At<T>(s: seq<T>, i: int): (x: T)
    requires -|s| <= i < |s|
    ensures x in s
    ensures 0 <= i ==> x == s[i]
    ensures i < 0 ==> x == s[|s| + i]
  {
    if 0 <= i then s[i] else s[|s| + i]
  }

  /** The handle `open_path` ends with when every open succeeds and the
      server numbers fresh handles from `next`. */
  function LastHandle(key: Key, next: Handle): Handle
  {
    match key
    case Root(_, h) => h
    case Sub(_, _) => next + key.Depth() - 2
  }

  /** The handles `open_path` returns when every open succeeds and the
      server numbers fresh handles from `next`: the hive root's stored
      handle, then one fresh handle per key below the root. */
  ghost function Handles(key: Key, next: Handle): (hs: seq<Handle>)
    ensures |hs| == key.Depth() && hs[0] == key.RootHandle() && hs[|hs| - 1] == LastHandle(key, next)
  {
    match key
    case Root(_, h) => [h]
    case Sub(_, parent) => Handles(parent, next) + [next + parent.Depth() - 1]
  }

  /** The fresh handles of a path are numbered consecutively from `next`. */
  lemma {:induction false} HandlesFresh(key: Key, next: Handle)
    ensures var hs := Handles(key, next);
      forall i :: 1 <= i < |hs| ==> hs[i] == next + i - 1
  {
    match key
    case Root(_, _) =>
    case Sub(_, parent) =>
      HandlesFresh(parent, next);
      var hs := Handles(key, next);
      assert forall i :: 0 <= i < |hs| - 1 ==> hs[i] == Handles(parent, next)[i];
  }

  /** The server's handle table after `open_path` succeeded on `key`: each
      key below the root got a fresh handle, open on that key's path. */
  ghost function Opened(table: map<Handle, Path>, key: Key, next: Handle): map<Handle, Path>
  {
    match key
    case Root(_, _) => table
    case Sub(_, parent) =>
      if Resolve(table, key).Some? then Opened(table, parent, next)[next + parent.Depth() - 1 := Resolve(table, key).value]
      else table
  }

  /** The opens keep every handle that was open and add exactly the fresh
      ones, one per key below the root. */
  lemma {:induction false} OpenedRange(table: map<Handle, Path>, key: Key, next: Handle)
    requires forall h :: h in table ==> h < next
    ensures Extends(table, Opened(table, key, next))
    ensures forall h :: h in Opened(table, key, next) ==> h in table || next <= h < next + key.Depth() - 1
    ensures Resolve(table, key).Some? ==>
      forall h :: next <= h < next + key.Depth() - 1 ==> h in Opened(table, key, next)
  {
    match key
    case Root(_, _) =>
    case Sub(n, parent) =>
      OpenedRange(table, parent, next);
      ResolveSub(table, n, parent);
  }

  /** The opens `open_path` makes, root to leaf, each on the handle before. */
  ghost function OpenCalls(key: Key, next: Handle): seq<Call>
  {
    match key
    case Root(_, _) => []
    case Sub(n, parent) => OpenCalls(parent, next) + [Call.OpenKey(LastHandle(parent, next), n)]
  }

  /** After the opens, the last handle of the path is open on the key's
      path exactly when the key resolves. */
  lemma LastHandleOpen(table: map<Handle, Path>, key: Key, next: Handle)
    requires forall h :: h in table ==> h < next
    ensures var t := Opened(table, key, next);
      && (LastHandle(key, next) in t <==> Resolve(table, key).Some?)
      && (Resolve(table, key).Some? ==> t[LastHandle(key, next)] == Resolve(table, key).value)
  {
    match key
    case Root(_, h) =>
      assert key.Names()[1..] == [];
    case Sub(_, _) =>
  }

  /** The handle before the last is open on the parent's path. */
  lemma ParentHandleOpen(table: map<Handle, Path>, key: Key, next: Handle)
    requires forall h :: h in table ==> h < next
    requires key.Sub? && Resolve(table, key).Some?
    ensures var hs := Handles(key, next);
      var t := Opened(table, key, next);
      && hs[|hs| - 2] == LastHandle(key.parent, next)
      && hs[|hs| - 2] in t && t[hs[|hs| - 2]] == Resolve(table, key.parent).value
  {
    LastHandleOpen(table, key.parent, next);
    OpenedRange(table, key.parent, next);
    var hs := Handles(key, next);
    assert hs[..|hs| - 1] == Handles(key.parent, next);
  }

  /** The handles `close_path` closes, in the order it closes them: every
      handle but the first, last to second. */
  function CloseOrder(hs: seq<Handle>): (o: seq<Handle>)
    ensures |hs| >= 1 ==> |o| == |hs| - 1
  {
    if |hs| <= 1 then [] else [hs[|hs| - 1]] + CloseOrder(hs[..|hs| - 1])
  }

  /** The i-th handle closed is the i-th from the end, and the first is never closed. */
  lemma {:induction false} CloseOrderAt(hs: seq<Handle>)
    ensures forall i :: 0 <= i < |CloseOrder(hs)| ==>
      1 <= |hs| - 1 - i < |hs| && CloseOrder(hs)[i] == hs[|hs| - 1 - i]
  {
    if |hs| > 1 {
      var f := hs[..|hs| - 1];
      CloseOrderAt(f);
      var o := CloseOrder(hs);
      assert o == [hs[|hs| - 1]] + CloseOrder(f);
      assert |o| == |hs| - 1;
      forall i | 0 <= i < |o| ensures 1 <= |hs| - 1 - i < |hs| && o[i] == hs[|hs| - 1 - i] {
        if i > 0 {
          assert o[i] == CloseOrder(f)[i - 1] == f[|f| - i];
        }
      }
    } else {
      assert CloseOrder(hs) == [];
    }
  }

  /** The handle table once the handles of `o` are closed. */
  ghost function Closed(table: map<Handle, Path>, o: seq<Handle>): map<Handle, Path>
  {
    if o == [] then table else Closed(table, o[..|o| - 1]) - {o[|o| - 1]}
  }

  /** Closing removes exactly the closed handles and leaves the others as they were. */
  lemma {:induction false} ClosedHas(table: map<Handle, Path>, o: seq<Handle>)
    ensures forall h :: h in Closed(table, o) <==> h in table && h !in o
    ensures forall h :: h in Closed(table, o) ==> Closed(table, o)[h] == table[h]
  {
    if o != [] {
      ClosedHas(table, o[..|o| - 1]);
      assert o == o[..|o| - 1] + [o[|o| - 1]];
    }
  }

  /** Closing the handles of `o` one after another succeeds: each is still
      open when its turn comes. */
  ghost predicate CanClose(table: map<Handle, Path>, o: seq<Handle>)
  {
    o == [] || (CanClose(table, o[..|o| - 1]) && o[|o| - 1] in Closed(table, o[..|o| - 1]))
  }

  /** Closing succeeds exactly when every handle is open and none is to be
      closed twice. */
  lemma {:induction false} CanCloseIff(table: map<Handle, Path>, o: seq<Handle>)
    ensures CanClose(table, o) <==>
      (forall i :: 0 <= i < |o| ==> o[i] in table) && (forall i, j :: 0 <= i < j < |o| ==> o[i] != o[j])
  {
    if o != [] {
      var f := o[..|o| - 1];
      var x := o[|o| - 1];
      CanCloseIff(table, f);
      ClosedHas(table, f);
      assert forall i :: 0 <= i < |f| ==> f[i] == o[i];
      assert (forall i :: 0 <= i < |o| ==> o[i] in table) <==>
        (forall i :: 0 <= i < |f| ==> f[i] in table) && x in table;
      assert (forall i, j :: 0 <= i < j < |o| ==> o[i] != o[j]) <==>
        (forall i, j :: 0 <= i < j < |f| ==> f[i] != f[j]) && x !in f;
    }
  }

  lemma {:induction false} CanClosePrefix(table: map<Handle, Path>, o: seq<Handle>, k: nat)
    requires k <= |o| && CanClose(table, o)
    ensures CanClose(table, o[..k])
    decreases |o| - k
  {
    if k < |o| {
      CanClosePrefix(table, o[..|o| - 1], k);
      assert o[..|o| - 1][..k] == o[..k];
    } else {
      assert o[..k] == o;
    }
  }

  /** The close calls `close_path` makes, in order. */
  ghost function CloseCalls(o: seq<Handle>): seq<Call>
  {
    if o == [] then [] else CloseCalls(o[..|o| - 1]) + [Call.CloseKey(o[|o| - 1])]
  }

  /** The handles closed after a successful open are the fresh ones, newest first. */
  lemma CloseOrderFresh(key: Key, next: Handle)
    ensures var hs := Handles(key, next);
      var o := CloseOrder(hs);
      |o| == |hs| - 1 && forall i :: 0 <= i < |o| ==> o[i] == next + |hs| - 2 - i
  {
    var hs := Handles(key, next);
    var o := CloseOrder(hs);
    HandlesFresh(key, next);
    CloseOrderAt(hs);
    forall i | 0 <= i < |o| ensures o[i] == next + |hs| - 2 - i {
      var j := |hs| - 1 - i;
      assert 1 <= j < |hs| && o[i] == hs[j];
      assert hs[j] == next + j - 1;
    }
  }

  /** Closing the path just opened succeeds and leaves the handle table as
      it was before the opens. */
  lemma OpenThenClose(table: map<Handle, Path>, key: Key, next: Handle)
    requires forall h :: h in table ==> h < next
    requires Resolve(table, key).Some?
    ensures var t := Opened(table, key, next);
      var o := CloseOrder(Handles(key, next));
      CanClose(t, o) && Closed(t, o) == table
  {
    CloseOrderFresh(key, next);
    OpenedRange(table, key, next);
    OpenThenCloseSucceeds(table, key, next);
    OpenThenCloseRestores(table, key, next);
  }

  lemma OpenThenCloseSucceeds(table: map<Handle, Path>, key: Key, next: Handle)
    requires Resolve(table, key).Some?
    requires forall h :: next <= h < next + key.Depth() - 1 ==> h in Opened(table, key, next)
    requires var hs := Handles(key, next);
      var o := CloseOrder(hs);
      |o| == |hs| - 1 && forall i :: 0 <= i < |o| ==> o[i] == next + |hs| - 2 - i
    ensures CanClose(Opened(table, key, next), CloseOrder(Handles(key, next)))
  {
    var hs := Handles(key, next);
    var t := Opened(table, key, next);
    var o := CloseOrder(hs);
    forall i | 0 <= i < |o| ensures o[i] in t {
      assert next <= o[i] < next + key.Depth() - 1;
    }
    CanCloseIff(t, o);
  }

  lemma OpenThenCloseRestores(table: map<Handle, Path>, key: Key, next: Handle)
    requires forall h :: h in table ==> h < next
    requires Extends(table, Opened(table, key, next))
    requires forall h :: h in Opened(table, key, next) ==> h in table || next <= h < next + key.Depth() - 1
    requires var hs := Handles(key, next);
      var o := CloseOrder(hs);
      |o| == |hs| - 1 && forall i :: 0 <= i < |o| ==> o[i] == next + |hs| - 2 - i
    ensures Closed(Opened(table, key, next), CloseOrder(Handles(key, next))) == table
  {
    var hs := Handles(key, next);
    var t := Opened(table, key, next);
    var o := CloseOrder(hs);
    ClosedHas(t, o);
    forall h ensures h in Closed(t, o) <==> h in table {
      if h in table {
        assert h !in o;
      } else if h in t {
        assert o[next + |hs| - 2 - h] == h;
      }
    }
    assert forall h :: h in table ==> Closed(t, o)[h] == table[h];
    assert Closed(t, o) == table;
  }

  /** The enumeration calls with indices 0 to n - 1. */
  ghost function EnumKeyCalls(h: Handle, n: nat): seq<Call>
  {
    if n == 0 then [] else EnumKeyCalls(h, n - 1) + [Call.EnumKey(h, n - 1)]
  }

  ghost function EnumValueCalls(h: Handle, n: nat): seq<Call>
  {
    if n == 0 then [] else EnumValueCalls(h, n - 1) + [Call.EnumValue(h, n - 1)]
  }

  /** One more turn of the subkey enumeration: the next name is listed and
      the next call logged. */
  lemma EnumKeyStep(cs: seq<string>, key: Key, log: seq<Call>, h: Handle, i: nat)
    requires i < |cs|
    ensures ChildKeys(cs[..i + 1], key) == ChildKeys(cs[..i], key) + [Sub(cs[i], key)]
    ensures log + EnumKeyCalls(h, i) + [Call.EnumKey(h, i)] == log + EnumKeyCalls(h, i + 1)
  {
    assert cs[..i + 1][..i] == cs[..i];
  }

  /** One more turn of the value enumeration. */
  lemma EnumValueStep(vs: seq<RawValue>, key: Key, log: seq<Call>, h: Handle, i: nat)
    requires i < |vs|
    ensures ToValues(vs[..i + 1], key) == ToValues(vs[..i], key) + [Value(vs[i].name, vs[i].vtype, vs[i].data, key)]
    ensures log + EnumValueCalls(h, i) + [Call.EnumValue(h, i)] == log + EnumValueCalls(h, i + 1)
  {
    assert vs[..i + 1][..i] == vs[..i];
  }

  /** The default-value rule as the session applies it: it collects the
      values with the empty name, renames the first of them, or appends a
      new "(Default)" value when there is none. */
  method ApplyDefaultValue(values: seq<Value>, key: Key) returns (result: seq<Value>)
    ensures result == WithDefaultValue(values, key)
  {
    var defaults: seq<nat> := [];
    for i := 0 to |values|
      invariant forall k :: 0 <= k < |defaults| ==> defaults[k] < i && values[defaults[k]].name == ""
      invariant |defaults| == 0 <==> forall j :: 0 <= j < i ==> values[j].name != ""
      invariant |defaults| > 0 ==> forall j :: 0 <= j < defaults[0] ==> values[j].name != ""
    {
      if values[i].name == "" {
        defaults := defaults + [i];
      }
    }
    if |defaults| == 0 {
      result := values + [Value(DEFAULT_NAME, REG_SZ, [], key)];
    } else {
      result := values[defaults[0] := values[defaults[0]].(name := DEFAULT_NAME)];
    }
  }

  // ---------------------------------------------------------------------
  // The hive roots

  /** The hives `open_well_known_keys` opens, in the order it opens them. */
  const HIVES: seq<Hive> := [HKCR, HKCU, HKLM, HKU, HKCC]

  /** The first `n` hive roots, as opened on fresh handles numbered from `next`. */
  function RootKeys(next: Handle, n: nat): (ks: seq<Key>)
    requires n <= |HIVES|
    ensures |ks| == n
  {
    if n == 0 then [] else RootKeys(next, n - 1) + [Root(HiveName(HIVES[n - 1]), next + n - 1)]
  }

  /** The i-th hive root is named after the i-th hive and holds handle `next + i`. */
  lemma {:induction false} RootKeysAt(next: Handle, n: nat)
    requires n <= |HIVES|
    ensures forall i :: 0 <= i < n ==> RootKeys(next, n)[i] == Root(HiveName(HIVES[i]), next + i)
  {
    if n > 0 {
      RootKeysAt(next, n - 1);
    }
  }

  /** The hive roots have distinct names and distinct handles. */
  lemma RootKeysDistinct(next: Handle)
    ensures var ks := RootKeys(next, |HIVES|);
      forall i, j :: 0 <= i < j < |ks| ==> ks[i].name != ks[j].name && ks[i].RootHandle() != ks[j].RootHandle()
  {
    RootKeysAt(next, |HIVES|);
  }

  /** The server holds the first `n` hives. */
  ghost predicate HivesPresent(keys: map<Path, Node>, n: nat)
    requires n <= |HIVES|
  {
    n == 0 || (HivesPresent(keys, n - 1) && [HiveName(HIVES[n - 1])] in keys)
  }

  /** Holding the first `n` hives means holding the first `m` for every `m <= n`. */
  lemma {:induction false} HivesPresentPrefix(keys: map<Path, Node>, m: nat, n: nat)
    requires m <= n <= |HIVES|
    ensures HivesPresent(keys, n) ==> HivesPresent(keys, m)
    decreases n - m
  {
    if m < n {
      HivesPresentPrefix(keys, m + 1, n);
    }
  }

  /** The handle table after the first `n` hives were opened on fresh
      handles numbered from `next`. */
  ghost function HiveTable(table: map<Handle, Path>, next: Handle, n: nat): map<Handle, Path>
    requires n <= |HIVES|
  {
    if n == 0 then table else HiveTable(table, next, n - 1)[next + n - 1 := [HiveName(HIVES[n - 1])]]
  }

  /** The calls opening the first `n` hives, in order. */
  ghost function HiveCalls(n: nat): seq<Call>
    requires n <= |HIVES|
  {
    if n == 0 then [] else HiveCalls(n - 1) + [Call.OpenHive(HIVES[n - 1])]
  }

  /** Opening the first `n` hives keeps every handle that was open, and
      adds exactly `n` fresh ones, the i-th open on the i-th hive. */
  lemma {:induction false} HiveTableAt(table: map<Handle, Path>, next: Handle, n: nat)
    requires n <= |HIVES|
    requires forall h :: h in table ==> h < next
    ensures forall h :: h in HiveTable(table, next, n) <==> h in table || next <= h < next + n
    ensures forall h :: h in table ==> HiveTable(table, next, n)[h] == table[h]
    ensures forall i :: 0 <= i < n ==> HiveTable(table, next, n)[next + i] == [HiveName(HIVES[i])]
  {
    if n > 0 {
      HiveTableAt(table, next, n - 1);
    }
  }

  /** Opening hive `i` extends the roots, the table and the calls of the
      hives before it by one. */
  lemma HiveStep(table: map<Handle, Path>, next: Handle, log: seq<Call>, i: nat)
    requires i < |HIVES|
    ensures RootKeys(next, i + 1) == RootKeys(next, i) + [Root(HiveName(HIVES[i]), next + i)]
    ensures HiveTable(table, next, i + 1) == HiveTable(table, next, i)[next + i := [HiveName(HIVES[i])]]
    ensures log + HiveCalls(i + 1) == log + HiveCalls(i) + [Call.OpenHive(HIVES[i])]
  {
  }

  // ---------------------------------------------------------------------
  // Removing a key with everything below it

  /** No key at or below `p` is refused to the session. */
  ghost predicate NoneRefused(keys: map<Path, Node>, denied: set<Path>, p: Path)
  {
    forall q :: q in keys && IsPrefix(p, q) ==> q !in denied
  }

  /** No key is refused in the subtree of any child of `p` named in `cs`. */
  ghost predicate SubtreesFree(keys: map<Path, Node>, denied: set<Path>, p: Path, cs: seq<string>)
    decreases |cs|
  {
    cs == [] || (SubtreesFree(keys, denied, p, cs[..|cs| - 1]) && NoneRefused(keys, denied, p + [cs[|cs| - 1]]))
  }

  /** Each child's subtree is free of refusals exactly when all of them are. */
  lemma {:induction false} SubtreesFreeAt(keys: map<Path, Node>, denied: set<Path>, p: Path, cs: seq<string>)
    ensures SubtreesFree(keys, denied, p, cs) <==> forall j :: 0 <= j < |cs| ==> NoneRefused(keys, denied, p + [cs[j]])
    decreases |cs|
  {
    if cs != [] {
      var front := cs[..|cs| - 1];
      SubtreesFreeAt(keys, denied, p, front);
      assert forall j :: 0 <= j < |front| ==> front[j] == cs[j];
    }
  }

  /** One child more is free of refusals when its own subtree is. */
  lemma SubtreesFreeStep(keys: map<Path, Node>, denied: set<Path>, p: Path, cs: seq<string>, i: nat)
    requires i < |cs|
    ensures SubtreesFree(keys, denied, p, cs[..i + 1]) <==>
      SubtreesFree(keys, denied, p, cs[..i]) && NoneRefused(keys, denied, p + [cs[i]])
  {
    assert cs[..i + 1][..i] == cs[..i];
  }

  /** Freedom from refusals of every child named in `cs` holds for any prefix of `cs`. */
  lemma {:induction false} SubtreesFreePrefix(keys: map<Path, Node>, denied: set<Path>, p: Path, cs: seq<string>, n: nat)
    requires n <= |cs|
    ensures SubtreesFree(keys, denied, p, cs) ==> SubtreesFree(keys, denied, p, cs[..n])
    decreases |cs| - n
  {
    if n < |cs| {
      SubtreesFreePrefix(keys, denied, p, cs, n + 1);
      assert cs[..n + 1][..n] == cs[..n];
    } else {
      assert cs[..n] == cs;
    }
  }

  /** `remove_key` succeeds: the key lies below a hive root, it can be
      listed, and neither it nor any key below it is refused. */
  ghost predicate Removable(v: View, key: Key)
  {
    key.Sub? && Listable(v, key) && NoneRefused(v.keys, v.denied, Resolve(v.table, key).value)
  }

  /** The keys a removal of `key` may still visit. */
  ghost function Below(keys: map<Path, Node>, table: map<Handle, Path>, key: Key): set<Path>
  {
    if Resolve(table, key).Some? then Subtree(keys, Resolve(table, key).value) else {}
  }

  /** A key resolves to a non-empty path when every open handle does. */
  lemma {:induction false} ResolveNonEmpty(table: map<Handle, Path>, key: Key)
    requires forall h :: h in table ==> |table[h]| >= 1
    requires Resolve(table, key).Some?
    ensures |Resolve(table, key).value| >= 1
  {
    match key
    case Root(_, _) =>
    case Sub(n, parent) =>
      ResolveSub(table, n, parent);
  }

  /** A listable key below a hive root is removable exactly when no key in
      the subtree of any of its children is refused. */
  lemma RemovableChildren(keys: map<Path, Node>, denied: set<Path>, table: map<Handle, Path>, key: Key)
    requires WellFormed(keys) && key.Sub? && Listable(View(keys, denied, table), key)
    ensures var p := Resolve(table, key).value;
      Removable(View(keys, denied, table), key) <==> SubtreesFree(keys, denied, p, keys[p].children)
  {
    var p := Resolve(table, key).value;
    var cs := keys[p].children;
    SubtreesFreeAt(keys, denied, p, cs);
    assert p !in denied;
    if forall j :: 0 <= j < |cs| ==> NoneRefused(keys, denied, p + [cs[j]]) {
      forall q | q in keys && IsPrefix(p, q) ensures q !in denied {
        if q != p {
          assert |q| > |p|;
          BelowChild(keys, p, q);
          var j :| 0 <= j < |cs| && cs[j] == q[|p|];
          ChildPrefix(p, cs[j], q);
        }
      }
    }
    if Removable(View(keys, denied, table), key) {
      forall j | 0 <= j < |cs| ensures NoneRefused(keys, denied, p + [cs[j]]) {
        forall q | q in keys && IsPrefix(p + [cs[j]], q) ensures q !in denied {
          ChildPrefix(p, cs[j], q);
        }
      }
    }
  }

  /** Where the removal of the `i`-th child of `key` starts, once the
      children before it are gone: the child resolves below the key, the
      keys it may visit lie strictly inside the key's, the order it deletes
      them in is the original tree's, and it succeeds exactly when nothing
      at or below it is refused. */
  lemma PrunedChild(keys: map<Path, Node>, denied: set<Path>, table: map<Handle, Path>, key: Key, i: nat)
    requires WellFormed(keys) && Listable(View(keys, denied, table), key)
    requires i < |keys[Resolve(table, key).value].children|
    ensures var p := Resolve(table, key).value;
      var c := keys[p].children[i];
      var m := Pruned(keys, p, i);
      && Resolve(table, Sub(c, key)) == Some(p + [c])
      && Below(m, table, Sub(c, key)) < Below(keys, table, key)
      && PostOrder(m, p + [c]) == PostOrder(keys, p + [c])
      && (Removable(View(m, denied, table), Sub(c, key)) <==> NoneRefused(keys, denied, p + [c]))
      && p in m && RemoveSubtree(m, p, c) == Pruned(keys, p, i + 1)
  {
    var p := Resolve(table, key).value;
    var c := keys[p].children[i];
    var m := Pruned(keys, p, i);
    ResolveSub(table, c, key);
    PruneAgree(keys, p, i);
    PruneStep(keys, p, i);
    PostOrderFrame(m, keys, p + [c]);
    SubtreeShrinks(keys, p, c);
    forall q | IsPrefix(q, p) ensures q in keys <==> q in m {
      assert !StrictPrefix(p, q);
    }
    CanOpenFrame(View(keys, denied, table), View(m, denied, table), key);
    CanOpenChild(View(m, denied, table), c, key);
    assert NoneRefused(m, denied, p + [c]) <==> NoneRefused(keys, denied, p + [c]);
  }

  /** Once every child of a listable key is gone, the key is a leaf that
      can still be listed. */
  lemma PrunedLeaf(keys: map<Path, Node>, denied: set<Path>, table: map<Handle, Path>, key: Key)
    requires Listable(View(keys, denied, table), key)
    ensures var p := Resolve(table, key).value;
      var m := Pruned(keys, p, |keys[p].children|);
      Listable(View(m, denied, table), key) && m[p].children == []
  {
    var p := Resolve(table, key).value;
    var m := Pruned(keys, p, |keys[p].children|);
    assert keys[p].children[|keys[p].children|..] == [];
    forall q | IsPrefix(q, p) ensures q in keys <==> q in m {
      assert !StrictPrefix(p, q);
    }
    CanOpenFrame(View(keys, denied, table), View(m, denied, table), key);
  }

  /** For a key below a hive root, deleting that leaf from its parent
      completes the removal of its subtree. */
  lemma PrunedKey(keys: map<Path, Node>, denied: set<Path>, table: map<Handle, Path>, key: Key)
    requires WellFormed(keys) && key.Sub? && Listable(View(keys, denied, table), key)
    requires forall h :: h in table ==> |table[h]| >= 1
    ensures var p := Resolve(table, key).value;
      var a := Resolve(table, key.parent).value;
      var m := Pruned(keys, p, |keys[p].children|);
      && p == a + [key.name] && a in keys && a in m
      && RemoveChild(m, a, key.name) == RemoveSubtree(keys, a, key.name)
  {
    var p := Resolve(table, key).value;
    ResolveSub(table, key.name, key.parent);
    var a := Resolve(table, key.parent).value;
    ResolveNonEmpty(table, key.parent);
    AncestorPresent(keys, p, |a|);
    assert p[..|a|] == a;
    PruneEnd(keys, a, key.name);
  }

  /** On the path `open_path` returns for a listable key below a hive
      root, the handle before the last is open on the parent's path, which
      is a key of the server. */
  lemma ParentOfListable(keys: map<Path, Node>, denied: set<Path>, table: map<Handle, Path>, key: Key, next: Handle)
    requires WellFormed(keys) && key.Sub? && Listable(View(keys, denied, table), key)
    requires forall h :: h in table ==> h < next
    requires forall h :: h in table ==> |table[h]| >= 1
    ensures var hs := Handles(key, next);
      var t := Opened(table, key, next);
      var a := Resolve(table, key.parent).value;
      && |hs| >= 2 && hs[|hs| - 2] in t && t[hs[|hs| - 2]] == a && a in keys
      && a + [key.name] == Resolve(table, key).value
  {
    ResolveSub(table, key.name, key.parent);
    ParentHandleOpen(table, key, next);
    var a := Resolve(table, key.parent).value;
    var p := Resolve(table, key).value;
    ResolveNonEmpty(table, key.parent);
    AncestorPresent(keys, p, |a|);
    assert p[..|a|] == a;
  }

  /** A key without subkeys has no child of any name. */
  lemma LeafHasNoChild(keys: map<Path, Node>, p: Path, name: string)
    requires WellFormed(keys) && p in keys && keys[p].children == []
    ensures p + [name] !in keys
  {
    assert Parent(p + [name]) == p;
  }

  /** Deleting a key after its children's subtrees completes its post-order. */
  lemma PostOrderLast(keys: map<Path, Node>, p: Path, done: seq<Path>)
    requires p in keys
    ensures done + PostOrderOf(keys, p, keys[p].children) + [p] == done + PostOrder(keys, p)
  {
    assert PostOrder(keys, p) == PostOrderOf(keys, p, keys[p].children) + [p];
  }

  /** One turn of the removal loop: when the removal of child `i` did what
      `remove_key` promises, the children up to `i` are gone and deleted
      in post-order, and it succeeded exactly when their subtrees were free
      of refusals. */
  lemma RemovedNth(keys: map<Path, Node>, denied: set<Path>, table: map<Handle, Path>, key: Key, i: nat,
                   deleted: seq<Path>, after: map<Path, Node>, deletedAfter: seq<Path>, ok: bool)
    requires WellFormed(keys) && Listable(View(keys, denied, table), key)
    requires i < |keys[Resolve(table, key).value].children|
    requires var p := Resolve(table, key).value;
      var child := Sub(keys[p].children[i], key);
      var before := Pruned(keys, p, i);
      && (ok <==> Removable(View(before, denied, table), child))
      && (ok ==>
            && after == RemoveSubtree(before, Resolve(table, child.parent).value, child.name)
            && deletedAfter == deleted + PostOrderOf(keys, p, keys[p].children[..i])
                 + PostOrder(before, Resolve(table, child.parent).value + [child.name]))
    ensures var p := Resolve(table, key).value;
      var cs := keys[p].children;
      && (ok <==> NoneRefused(keys, denied, p + [cs[i]]))
      && (SubtreesFree(keys, denied, p, cs[..i + 1]) <==> SubtreesFree(keys, denied, p, cs[..i]) && NoneRefused(keys, denied, p + [cs[i]]))
      && (ok ==> after == Pruned(keys, p, i + 1) && deletedAfter == deleted + PostOrderOf(keys, p, cs[..i + 1]))
  {
    var p := Resolve(table, key).value;
    var cs := keys[p].children;
    PrunedChild(keys, denied, table, key, i);
    SubtreesFreeStep(keys, denied, p, cs, i);
    PostOrderOfStep(keys, p, cs, i, deleted);
  }

  /** The last step of `remove_key`: once every child's subtree is gone,
      deleting the key from its parent succeeds exactly when the key was
      removable, and then the whole subtree is gone in post-order. */
  lemma RemovedLast(keys: map<Path, Node>, denied: set<Path>, table: map<Handle, Path>, key: Key,
                    deleted: seq<Path>, after: map<Path, Node>, deletedAfter: seq<Path>, ok: bool)
    requires WellFormed(keys) && Listable(View(keys, denied, table), key)
    requires forall h :: h in table ==> |table[h]| >= 1
    requires SubtreesFree(keys, denied, Resolve(table, key).value, keys[Resolve(table, key).value].children)
    requires ok <==> key.Sub?
    requires ok ==>
      var p := Resolve(table, key).value;
      var m := Pruned(keys, p, |keys[p].children|);
      var a := Resolve(table, key.parent).value;
      && a in m
      && after == RemoveChild(m, a, key.name)
      && deletedAfter == deleted + PostOrderOf(keys, p, keys[p].children) + [a + [key.name]]
    ensures ok <==> Removable(View(keys, denied, table), key)
    ensures ok ==>
      var a := Resolve(table, key.parent).value;
      && a in keys
      && after == RemoveSubtree(keys, a, key.name)
      && deletedAfter == deleted + PostOrder(keys, a + [key.name])
  {
    if key.Sub? {
      var p := Resolve(table, key).value;
      RemovableChildren(keys, denied, table, key);
      PrunedKey(keys, denied, table, key);
      PostOrderLast(keys, p, deleted);
    }
  }

  /** The order a removal deletes the first `i + 1` children's subtrees in
      extends the order for the first `i` by the post-order of child `i`. */
  lemma PostOrderOfStep(keys: map<Path, Node>, p: Path, cs: seq<string>, i: nat, done: seq<Path>)
    requires p in keys && i < |cs|
    ensures done + PostOrderOf(keys, p, cs[..i + 1]) == done + PostOrderOf(keys, p, cs[..i]) + PostOrder(keys, p + [cs[i]])
  {
    assert cs[..i + 1][..i] == cs[..i];
  }

  // ---------------------------------------------------------------------
  // The session

  class WinRegPipeManager {
    const pipe: Pipe
    const credentials: Credentials
    const binding: string
    var wellKnownKeys: seq<Key>

    /** The server is consistent and every hive root the session holds is
        open on its own path. */
    ghost predicate Valid()
      reads this, pipe
    {
      && pipe.Valid()
      && forall k :: k in wellKnownKeys ==> k.Root? && k.handle in pipe.table && pipe.table[k.handle] == [k.name]
    }

    constructor (pipe: Pipe, credentials: Credentials, binding: string)
      requires pipe.Valid()
      ensures Valid()
      ensures this.pipe == pipe && this.credentials == credentials && this.binding == binding
      ensures wellKnownKeys == []
    {
      this.pipe := pipe;
      this.credentials := credentials;
      this.binding := binding;
      wellKnownKeys := [];
    }

    /** Opens the handles along the key's path: the first is the hive
        root's stored handle, and each later one is opened on the handle
        before it with the next name of the path. */
    method OpenPath(key: Key) returns (r: Result<seq<Handle>>)
      requires pipe.Valid()
      modifies pipe`table, pipe`next, pipe`log
      decreases key
      ensures pipe.Valid()
      ensures Extends(old(pipe.table), pipe.table)
      ensures r.Ok? <==> CanOpen(View(old(pipe.keys), old(pipe.denied), old(pipe.table)), key)
      ensures r.Ok? ==> r.value == Handles(key, old(pipe.next))
      ensures r.Ok? ==> pipe.next == old(pipe.next) + key.Depth() - 1
      ensures r.Ok? ==> pipe.table == Opened(old(pipe.table), key, old(pipe.next))
      ensures r.Ok? ==> pipe.log == old(pipe.log) + OpenCalls(key, old(pipe.next))
      ensures r.Err? ==> r.error.RuntimeError? && r.error.code != WERR_NO_MORE_ITEMS
    {
      match key
      case Root(_, h) =>
        r := Ok([h]);
      case Sub(n, parent) =>
        ghost var t0, n0, log0 := pipe.table, pipe.next, pipe.log;
        var path := OpenPath(parent);
        if path.Err? {
          return path;
        }
        var hs := path.value;
        LastHandleOpen(t0, parent, n0);
        ResolveSub(t0, n, parent);
        var handle := pipe.OpenKey(hs[|hs| - 1], NewWinregString(n));
        if handle.Err? {
          return Err(handle.error);
        }
        assert handle.value == n0 + parent.Depth() - 1;
        assert Handles(key, n0) == hs + [handle.value];
        assert pipe.table == Opened(t0, parent, n0)[handle.value := Resolve(t0, key).value];
        assert pipe.log == log0 + OpenCalls(parent, n0) + [Call.OpenKey(hs[|hs| - 1], n)];
        r := Ok(hs + [handle.value]);
    }

    /** Closes every handle of the path but the first, last to second: the
        hive root's stored handle stays open. */
    method ClosePath(hs: seq<Handle>) returns (r: Result<()>)
      requires pipe.Valid()
      modifies pipe`table, pipe`log
      ensures pipe.Valid()
      ensures r.Ok? <==> CanClose(old(pipe.table), CloseOrder(hs))
      ensures r.Ok? ==> pipe.table == Closed(old(pipe.table), CloseOrder(hs))
      ensures r.Ok? ==> pipe.log == old(pipe.log) + CloseCalls(CloseOrder(hs))
      ensures r.Err? ==> r.error == RuntimeError(WERR_INVALID_HANDLE)
    {
      var order := CloseOrder(hs);
      for k := 0 to |order|
        invariant pipe.Valid()
        invariant CanClose(old(pipe.table), order[..k])
        invariant pipe.table == Closed(old(pipe.table), order[..k])
        invariant pipe.log == old(pipe.log) + CloseCalls(order[..k])
      {
        var result := pipe.CloseKey(order[k]);
        assert order[..k + 1][..k] == order[..k];
        if result.Err? {
          assert !CanClose(old(pipe.table), order) by {
            if CanClose(old(pipe.table), order) {
              CanClosePrefix(old(pipe.table), order, k + 1);
            }
          }
          return Err(result.error);
        }
      }
      assert order[..|order|] == order;
      r := Ok(());
    }

    /** `close_path` right after `open_path` succeeded on `key`: every close
        succeeds, and the table is back to what it was before the opens. */
    method CloseOpenedPath(hs: seq<Handle>, ghost key: Key, ghost t0: map<Handle, Path>, ghost n0: Handle)
      requires pipe.Valid()
      requires forall h :: h in t0 ==> h < n0
      requires Resolve(t0, key).Some?
      requires hs == Handles(key, n0) && pipe.table == Opened(t0, key, n0)
      modifies pipe`table, pipe`log
      ensures pipe.Valid()
      ensures pipe.table == t0
      ensures pipe.log == old(pipe.log) + CloseCalls(CloseOrder(hs))
    {
      OpenThenClose(t0, key, n0);
      var closed := ClosePath(hs);
      assert closed.Ok?;
    }

    /** The subkey half of `ls_key`: BaseRegEnumKey with index 0, 1, 2, ...
        until the server reports that there are no more; any other error
        ends the listing. */
    method ListSubkeys(h: Handle, key: Key) returns (r: Result<seq<Key>>)
      requires pipe.Valid()
      modifies pipe`log
      ensures r.Ok? <==> h in pipe.table && pipe.table[h] in pipe.keys
      ensures r.Ok? ==>
        var cs := pipe.keys[pipe.table[h]].children;
        r.value == ChildKeys(cs, key) && pipe.log == old(pipe.log) + EnumKeyCalls(h, |cs| + 1)
      ensures r.Err? ==> r.error.RuntimeError? && r.error.code != WERR_NO_MORE_ITEMS
    {
      ghost var cs := if h in pipe.table && pipe.table[h] in pipe.keys then pipe.keys[pipe.table[h]].children else [];
      ghost var log0 := pipe.log;
      var keyList: seq<Key> := [];
      var index := 0;
      while true
        invariant index <= |cs|
        invariant keyList == ChildKeys(cs[..index], key)
        invariant pipe.log == log0 + EnumKeyCalls(h, index)
        decreases |cs| - index
      {
        var subkey := pipe.EnumKey(h, index);
        if subkey.Err? {
          if subkey.error == RuntimeError(WERR_NO_MORE_ITEMS) {
            assert cs[..index] == cs;
            return Ok(keyList);
          }
          return Err(subkey.error);
        }
        EnumKeyStep(cs, key, log0, h, index);
        keyList := keyList + [Sub(subkey.value, key)];
        index := index + 1;
      }
    }

    /** The value half of `ls_key`: BaseRegEnumValue with index 0, 1, 2, ...
        until the server reports that there are no more; any other error
        ends the listing. */
    method ListValues(h: Handle, key: Key) returns (r: Result<seq<Value>>)
      requires pipe.Valid()
      modifies pipe`log
      ensures r.Ok? <==> h in pipe.table && pipe.table[h] in pipe.keys
      ensures r.Ok? ==>
        var vs := pipe.keys[pipe.table[h]].values;
        r.value == ToValues(vs, key) && pipe.log == old(pipe.log) + EnumValueCalls(h, |vs| + 1)
      ensures r.Err? ==> r.error.RuntimeError? && r.error.code != WERR_NO_MORE_ITEMS
    {
      ghost var vs := if h in pipe.table && pipe.table[h] in pipe.keys then pipe.keys[pipe.table[h]].values else [];
      ghost var log0 := pipe.log;
      var valueList: seq<Value> := [];
      var index := 0;
      while true
        invariant index <= |vs|
        invariant valueList == ToValues(vs[..index], key)
        invariant pipe.log == log0 + EnumValueCalls(h, index)
        decreases |vs| - index
      {
        var value := pipe.EnumValue(h, index);
        if value.Err? {
          if value.error == RuntimeError(WERR_NO_MORE_ITEMS) {
            assert vs[..index] == vs;
            return Ok(valueList);
          }
          return Err(value.error);
        }
        EnumValueStep(vs, key, log0, h, index);
        valueList := valueList + [Value(value.value.name, value.value.vtype, value.value.data, key)];
        index := index + 1;
      }
    }

    /** Both enumerations of `ls_key` on the handle opened for `key`: the
        subkeys, then the values as the server reports them. */
    method ListOpened(h: Handle, key: Key) returns (r: Result<(seq<Key>, seq<Value>)>)
      requires pipe.Valid()
      modifies pipe`log
      ensures r.Ok? <==> h in pipe.table && pipe.table[h] in pipe.keys
      ensures r.Ok? ==>
        var node := pipe.keys[pipe.table[h]];
        && r.value == (ChildKeys(node.children, key), ToValues(node.values, key))
        && pipe.log == old(pipe.log) + EnumKeyCalls(h, |node.children| + 1) + EnumValueCalls(h, |node.values| + 1)
      ensures r.Err? ==> r.error.RuntimeError? && r.error.code != WERR_NO_MORE_ITEMS
    {
      var keyList := ListSubkeys(h, key);
      if keyList.Err? {
        return Err(keyList.error);
      }
      var values := ListValues(h, key);
      match values {
        case Err(e) => return Err(e);
        case Ok(_) =>
      }
      r := Ok((keyList.value, values.value));
    }

    /** Lists a key: its subkeys, then its values with the default-value
        rule applied, on a handle opened along the key's path and closed
        again afterwards. */
    method LsKey(key: Key) returns (r: Result<(seq<Key>, seq<Value>)>)
      requires Valid()
      modifies pipe`table, pipe`next, pipe`log
      ensures Valid()
      ensures Extends(old(pipe.table), pipe.table)
      ensures r.Ok? <==> Listable(old(pipe.State()), key)
      ensures r.Ok? ==> pipe.table == old(pipe.table)
      ensures r.Ok? ==> r.value == Listing(old(pipe.keys)[Resolve(old(pipe.table), key).value], key)
      ensures r.Ok? ==>
        var node := old(pipe.keys)[Resolve(old(pipe.table), key).value];
        var h := LastHandle(key, old(pipe.next));
        pipe.log == old(pipe.log) + OpenCalls(key, old(pipe.next))
          + EnumKeyCalls(h, |node.children| + 1) + EnumValueCalls(h, |node.values| + 1)
          + CloseCalls(CloseOrder(Handles(key, old(pipe.next))))
      ensures r.Err? ==> r.error.RuntimeError? && r.error.code != WERR_NO_MORE_ITEMS
    {
      ghost var t0, n0 := pipe.table, pipe.next;
      var path := OpenPath(key);
      if path.Err? {
        return Err(path.error);
      }
      var pathHandles := path.value;
      var keyHandle := pathHandles[|pathHandles| - 1];
      LastHandleOpen(t0, key, n0);
      var listed := ListOpened(keyHandle, key);
      if listed.Err? {
        return Err(listed.error);
      }
      var (keyList, values) := listed.value;
      ghost var node := pipe.keys[Resolve(t0, key).value];
      assert pipe.log == old(pipe.log) + OpenCalls(key, n0)
        + EnumKeyCalls(keyHandle, |node.children| + 1) + EnumValueCalls(keyHandle, |node.values| + 1);
      CloseOpenedPath(pathHandles, key, t0, n0);
      var valueList := ApplyDefaultValue(values, key);
      r := Ok((keyList, valueList));
    }

    /** Creates `key` below its parent (or opens it when it exists). A
        hive root has no parent, so creating one fails before any remote
        call. */
    method CreateKey(key: Key) returns (r: Result<()>)
      requires Valid()
      modifies pipe`keys, pipe`table, pipe`next, pipe`log
      ensures Valid()
      ensures old(WellFormed(pipe.keys)) ==> WellFormed(pipe.keys)
      ensures Extends(old(pipe.table), pipe.table)
      ensures key.Root? ==> r == Err(AttributeError) && pipe.keys == old(pipe.keys) && pipe.log == old(pipe.log)
      ensures key.Sub? ==> (r.Ok? <==> Creatable(old(pipe.State()), key))
      ensures r.Ok? ==>
        var p := Resolve(old(pipe.table), key.parent).value;
        && pipe.table == old(pipe.table)
        && pipe.keys == (if p + [key.name] in old(pipe.keys) then old(pipe.keys) else AddChild(old(pipe.keys), p, key.name))
        && pipe.log == old(pipe.log) + OpenCalls(key.parent, old(pipe.next))
             + [Call.CreateKey(LastHandle(key.parent, old(pipe.next)), key.name)]
             + CloseCalls(CloseOrder(Handles(key, old(pipe.next))))
      ensures r.Err? && key.Sub? ==> r.error.RuntimeError? && r.error.code != WERR_NO_MORE_ITEMS
    {
      match key
      case Root(_, _) =>
        r := Err(AttributeError);
      case Sub(_, _) =>
        r := CreateSubkey(key);
    }

    /** `create_key` for a key below a hive root: creates it on a handle
        opened along the parent's path, then closes that path together with
        the handle the creation returned. */
    method CreateSubkey(key: Key) returns (r: Result<()>)
      requires Valid() && key.Sub?
      modifies pipe`keys, pipe`table, pipe`next, pipe`log
      ensures Valid()
      ensures old(WellFormed(pipe.keys)) ==> WellFormed(pipe.keys)
      ensures Extends(old(pipe.table), pipe.table)
      ensures r.Ok? <==> Creatable(old(pipe.State()), key)
      ensures r.Ok? ==>
        var p := Resolve(old(pipe.table), key.parent).value;
        && pipe.table == old(pipe.table)
        && pipe.keys == (if p + [key.name] in old(pipe.keys) then old(pipe.keys) else AddChild(old(pipe.keys), p, key.name))
        && pipe.log == old(pipe.log) + OpenCalls(key.parent, old(pipe.next))
             + [Call.CreateKey(LastHandle(key.parent, old(pipe.next)), key.name)]
             + CloseCalls(CloseOrder(Handles(key, old(pipe.next))))
      ensures r.Err? ==> r.error.RuntimeError? && r.error.code != WERR_NO_MORE_ITEMS
    {
      ghost var t0, n0 := pipe.table, pipe.next;
      var path := OpenPath(key.parent);
      if path.Err? {
        return Err(path.error);
      }
      var pathHandles := path.value;
      LastHandleOpen(t0, key.parent, n0);
      ResolveSub(t0, key.name, key.parent);
      var created := pipe.CreateKey(pathHandles[|pathHandles| - 1], NewWinregString(key.name));
      if created.Err? {
        return Err(created.error);
      }
      assert created.value.0 == n0 + key.parent.Depth() - 1;
      pathHandles := pathHandles + [created.value.0];
      assert pathHandles == Handles(key, n0);
      assert pipe.table == Opened(t0, key, n0);
      CloseOpenedPath(pathHandles, key, t0, n0);
      r := Ok(());
    }

    /** `move_key` is not implemented: it fails without a remote call. */
    method MoveKey(key: Key, oldName: string) returns (r: Result<()>)
      ensures r == Err(NotImplementedError)
    {
      r := Err(NotImplementedError);
    }

    /** Removes `key` with everything below it: lists it, removes each of
        its subkeys the same way, then deletes it on the handle of its
        parent. */
    method RemoveKey(key: Key) returns (r: Result<()>)
      requires Valid() && WellFormed(pipe.keys)
      modifies pipe`keys, pipe`table, pipe`next, pipe`log, pipe`deletions
      decreases Below(pipe.keys, pipe.table, key), 2
      ensures Valid() && WellFormed(pipe.keys)
      ensures Extends(old(pipe.table), pipe.table)
      ensures r.Ok? <==> Removable(old(pipe.State()), key)
      ensures r.Ok? ==>
        var a := Resolve(old(pipe.table), key.parent).value;
        && a in old(pipe.keys)
        && pipe.table == old(pipe.table)
        && pipe.keys == RemoveSubtree(old(pipe.keys), a, key.name)
        && pipe.deletions == old(pipe.deletions) + PostOrder(old(pipe.keys), a + [key.name])
      ensures r.Err? ==> r.error.RuntimeError? && r.error.code != WERR_NO_MORE_ITEMS
    {
      ghost var K, D, T := pipe.keys, pipe.denied, pipe.table;
      var listing := LsKey(key);
      if listing.Err? {
        return Err(listing.error);
      }
      r := RemoveSubkeys(key, listing.value.0);
      if r.Err? {
        if key.Sub? {
          RemovableChildren(K, D, T, key);
        }
        return;
      }
      PrunedLeaf(K, D, T, key);
      r := DeleteEmptyKey(key);
      RemovedLast(K, D, T, key, old(pipe.deletions), pipe.keys, pipe.deletions, r.Ok?);
    }

    /** The loop of `remove_key`: removes each listed subkey of `key` in
        turn, with everything below it, and stops at the first failure. */
    method RemoveSubkeys(key: Key, keyList: seq<Key>) returns (r: Result<()>)
      requires Valid() && WellFormed(pipe.keys) && Listable(pipe.State(), key)
      requires keyList == ChildKeys(pipe.keys[Resolve(pipe.table, key).value].children, key)
      modifies pipe`keys, pipe`table, pipe`next, pipe`log, pipe`deletions
      decreases Below(pipe.keys, pipe.table, key), 1
      ensures Valid() && WellFormed(pipe.keys)
      ensures Extends(old(pipe.table), pipe.table)
      ensures var p := Resolve(old(pipe.table), key).value;
        var cs := old(pipe.keys)[p].children;
        r.Ok? <==> SubtreesFree(old(pipe.keys), pipe.denied, p, cs)
      ensures r.Ok? ==>
        var p := Resolve(old(pipe.table), key).value;
        var cs := old(pipe.keys)[p].children;
        && pipe.table == old(pipe.table)
        && pipe.keys == Pruned(old(pipe.keys), p, |cs|)
        && pipe.deletions == old(pipe.deletions) + PostOrderOf(old(pipe.keys), p, cs)
      ensures r.Err? ==> r.error.RuntimeError? && r.error.code != WERR_NO_MORE_ITEMS
    {
      ghost var K, D, T, deleted := pipe.keys, pipe.denied, pipe.table, pipe.deletions;
      ghost var p := Resolve(T, key).value;
      ghost var cs := K[p].children;
      PruneStart(K, p);
      for i := 0 to |keyList|
        invariant Valid() && WellFormed(pipe.keys)
        invariant pipe.table == T
        invariant pipe.keys == Pruned(K, p, i)
        invariant pipe.deletions == deleted + PostOrderOf(K, p, cs[..i])
        invariant SubtreesFree(K, D, p, cs[..i])
      {
        var removed := RemoveNthSubkey(key, keyList, i, K, T, deleted);
        if removed.Err? {
          SubtreesFreePrefix(K, D, p, cs, i + 1);
          return removed;
        }
      }
      assert cs[..|cs|] == cs;
      r := Ok(());
    }

    /** One turn of that loop: removes the `i`-th listed subkey of `key`
        with everything below it, once the subkeys before it are gone. */
    method RemoveNthSubkey(key: Key, keyList: seq<Key>, i: nat,
                           ghost K: map<Path, Node>, ghost T: map<Handle, Path>, ghost deleted: seq<Path>)
      returns (r: Result<()>)
      requires Valid() && WellFormed(pipe.keys) && WellFormed(K) && Listable(View(K, pipe.denied, T), key)
      requires keyList == ChildKeys(K[Resolve(T, key).value].children, key) && i < |keyList|
      requires pipe.table == T && pipe.keys == Pruned(K, Resolve(T, key).value, i)
      requires pipe.deletions == deleted + PostOrderOf(K, Resolve(T, key).value, K[Resolve(T, key).value].children[..i])
      requires SubtreesFree(K, pipe.denied, Resolve(T, key).value, K[Resolve(T, key).value].children[..i])
      modifies pipe`keys, pipe`table, pipe`next, pipe`log, pipe`deletions
      decreases Below(K, T, key), 0
      ensures Valid() && WellFormed(pipe.keys)
      ensures Extends(old(pipe.table), pipe.table)
      ensures var p := Resolve(T, key).value;
        r.Ok? <==> SubtreesFree(K, pipe.denied, p, K[p].children[..i + 1])
      ensures r.Ok? ==>
        var p := Resolve(T, key).value;
        && pipe.table == T
        && pipe.keys == Pruned(K, p, i + 1)
        && pipe.deletions == deleted + PostOrderOf(K, p, K[p].children[..i + 1])
      ensures r.Err? ==> r.error.RuntimeError? && r.error.code != WERR_NO_MORE_ITEMS
    {
      ghost var p := Resolve(T, key).value;
      ghost var cs := K[p].children;
      ChildKeysAt(cs, key);
      PrunedChild(K, pipe.denied, T, key, i);
      r := RemoveKey(keyList[i]);
      RemovedNth(K, pipe.denied, T, key, i, deleted, pipe.keys, pipe.deletions, r.Ok?);
    }

    /** The end of `remove_key`, once the key has no subkeys left: deletes
        it on the handle before its own along its opened path, then closes
        the path. A hive root's path has a single handle, so the index of
        the handle before the last wraps round to the root's own handle, and
        the server is asked for a child of the root that it does not have.
        The handle is `At(hs, |hs| - 2)`, the list index as the source
        language reads it. */
    method DeleteEmptyKey(key: Key) returns (r: Result<()>)
      requires Valid() && WellFormed(pipe.keys) && Listable(pipe.State(), key)
      requires pipe.keys[Resolve(pipe.table, key).value].children == []
      modifies pipe`keys, pipe`table, pipe`next, pipe`log, pipe`deletions
      ensures Valid() && WellFormed(pipe.keys)
      ensures Extends(old(pipe.table), pipe.table)
      ensures r.Ok? <==> key.Sub?
      ensures r.Ok? ==>
        var a := Resolve(old(pipe.table), key.parent).value;
        && a in old(pipe.keys)
        && pipe.table == old(pipe.table)
        && pipe.keys == RemoveChild(old(pipe.keys), a, key.name)
        && pipe.deletions == old(pipe.deletions) + [a + [key.name]]
      ensures r.Err? ==>
        && r.error.RuntimeError? && r.error.code != WERR_NO_MORE_ITEMS
        && pipe.keys == old(pipe.keys) && pipe.deletions == old(pipe.deletions)
      ensures var hs := Handles(key, old(pipe.next));
        var calls := old(pipe.log) + OpenCalls(key, old(pipe.next)) + [Call.DeleteKey(At(hs, |hs| - 2), key.name)];
        && (r.Ok? ==> pipe.log == calls + CloseCalls(CloseOrder(hs)))
        && (r.Err? ==> pipe.log == calls)
    {
      ghost var T, n0 := pipe.table, pipe.next;
      ghost var p := Resolve(T, key).value;
      var path := OpenPath(key);
      match path {
        case Err(e) => return Err(e);
        case Ok(_) =>
      }
      var pathHandles := path.value;
      var keyHandle := At(pathHandles, |pathHandles| - 2);
      if key.Sub? {
        ParentOfListable(pipe.keys, pipe.denied, T, key, n0);
      } else {
        LeafHasNoChild(pipe.keys, p, key.name);
      }
      ghost var calls := pipe.log + [Call.DeleteKey(keyHandle, key.name)];
      var deleted := pipe.DeleteKey(keyHandle, NewWinregString(key.name));
      assert pipe.log == calls;
      if deleted.Err? {
        return Err(deleted.error);
      }
      CloseOpenedPath(pathHandles, key, T, n0);
      r := Ok(());
    }

    /** Stores a value in the key `value.parent`, under the empty name when
        the value is shown as "(Default)", on a handle opened along the
        key's path and closed again afterwards. */
    method SetValue(value: Value) returns (r: Result<()>)
      requires Valid()
      modifies pipe`keys, pipe`table, pipe`next, pipe`log
      ensures Valid()
      ensures old(WellFormed(pipe.keys)) ==> WellFormed(pipe.keys)
      ensures Extends(old(pipe.table), pipe.table)
      ensures r.Ok? <==> Listable(old(pipe.State()), value.parent)
      ensures r.Ok? ==>
        && pipe.table == old(pipe.table)
        && pipe.keys == StoreValue(old(pipe.keys), Resolve(old(pipe.table), value.parent).value,
                                   RawValue(WireName(value.name), value.vtype, value.data))
        && pipe.log == old(pipe.log) + OpenCalls(value.parent, old(pipe.next))
             + [Call.SetValue(LastHandle(value.parent, old(pipe.next)), WireName(value.name), value.vtype, value.data)]
             + CloseCalls(CloseOrder(Handles(value.parent, old(pipe.next))))
      ensures r.Err? ==> r.error.RuntimeError? && r.error.code != WERR_NO_MORE_ITEMS && pipe.keys == old(pipe.keys)
    {
      ghost var t0, n0 := pipe.table, pipe.next;
      var path := OpenPath(value.parent);
      if path.Err? {
        return Err(path.error);
      }
      var pathHandles := path.value;
      LastHandleOpen(t0, value.parent, n0);
      var name := WireName(value.name);
      var stored := pipe.SetValue(pathHandles[|pathHandles| - 1], NewWinregString(name), value.vtype, value.data);
      if stored.Err? {
        return Err(stored.error);
      }
      CloseOpenedPath(pathHandles, value.parent, t0, n0);
      r := Ok(());
    }

    /** Removes the value `value.name` (the empty name for "(Default)") from
        the key `value.parent`, on a handle opened along the key's path and
        closed again afterwards. */
    method UnsetValue(value: Value) returns (r: Result<()>)
      requires Valid()
      modifies pipe`keys, pipe`table, pipe`next, pipe`log
      ensures Valid()
      ensures old(WellFormed(pipe.keys)) ==> WellFormed(pipe.keys)
      ensures Extends(old(pipe.table), pipe.table)
      ensures r.Ok? <==>
        && Listable(old(pipe.State()), value.parent)
        && NameIndex(old(pipe.keys)[Resolve(old(pipe.table), value.parent).value].values, WireName(value.name)).Some?
      ensures r.Ok? ==>
        && pipe.table == old(pipe.table)
        && pipe.keys == DropValue(old(pipe.keys), Resolve(old(pipe.table), value.parent).value, WireName(value.name))
        && pipe.log == old(pipe.log) + OpenCalls(value.parent, old(pipe.next))
             + [Call.DeleteValue(LastHandle(value.parent, old(pipe.next)), WireName(value.name))]
             + CloseCalls(CloseOrder(Handles(value.parent, old(pipe.next))))
      ensures r.Err? ==> r.error.RuntimeError? && r.error.code != WERR_NO_MORE_ITEMS && pipe.keys == old(pipe.keys)
    {
      ghost var t0, n0 := pipe.table, pipe.next;
      var path := OpenPath(value.parent);
      if path.Err? {
        return Err(path.error);
      }
      var pathHandles := path.value;
      LastHandleOpen(t0, value.parent, n0);
      var name := WireName(value.name);
      var removed := pipe.DeleteValue(pathHandles[|pathHandles| - 1], NewWinregString(name));
      if removed.Err? {
        return Err(removed.error);
      }
      CloseOpenedPath(pathHandles, value.parent, t0, n0);
      r := Ok(());
    }

    /** Renames a value: removes the value `oldName` and stores `value`
        under `value.name`, both names sent as they are, on one handle
        opened along the key's path and closed again afterwards. */
    method MoveValue(value: Value, oldName: string) returns (r: Result<()>)
      requires Valid()
      modifies pipe`keys, pipe`table, pipe`next, pipe`log
      ensures Valid()
      ensures old(WellFormed(pipe.keys)) ==> WellFormed(pipe.keys)
      ensures Extends(old(pipe.table), pipe.table)
      ensures r.Ok? <==>
        && Listable(old(pipe.State()), value.parent)
        && NameIndex(old(pipe.keys)[Resolve(old(pipe.table), value.parent).value].values, oldName).Some?
      ensures r.Ok? ==>
        var p := Resolve(old(pipe.table), value.parent).value;
        var h := LastHandle(value.parent, old(pipe.next));
        && pipe.table == old(pipe.table)
        && pipe.keys == StoreValue(DropValue(old(pipe.keys), p, oldName), p, RawValue(value.name, value.vtype, value.data))
        && pipe.log == old(pipe.log) + OpenCalls(value.parent, old(pipe.next))
             + [Call.DeleteValue(h, oldName), Call.SetValue(h, value.name, value.vtype, value.data)]
             + CloseCalls(CloseOrder(Handles(value.parent, old(pipe.next))))
      ensures r.Err? ==> r.error.RuntimeError? && r.error.code != WERR_NO_MORE_ITEMS && pipe.keys == old(pipe.keys)
    {
      ghost var t0, n0 := pipe.table, pipe.next;
      var path := OpenPath(value.parent);
      if path.Err? {
        return Err(path.error);
      }
      var pathHandles := path.value;
      var keyHandle := pathHandles[|pathHandles| - 1];
      LastHandleOpen(t0, value.parent, n0);
      ghost var log1 := pipe.log;
      var removed := pipe.DeleteValue(keyHandle, NewWinregString(oldName));
      if removed.Err? {
        return Err(removed.error);
      }
      var stored := pipe.SetValue(keyHandle, NewWinregString(value.name), value.vtype, value.data);
      match stored {
        case Err(e) => return Err(e);
        case Ok(_) =>
      }
      ghost var log2 := pipe.log;
      assert log2 == log1 + [Call.DeleteValue(keyHandle, oldName), Call.SetValue(keyHandle, value.name, value.vtype, value.data)];
      CloseOpenedPath(pathHandles, value.parent, t0, n0);
      r := Ok(());
    }

    /** Opens the five hives in a fixed order and keeps their roots, each
        holding the handle the server returned for it; the first hive the
        server does not hold ends the start-up. */
    method OpenWellKnownKeys() returns (r: Result<()>)
      requires Valid()
      modifies this`wellKnownKeys, pipe`table, pipe`next, pipe`log
      ensures Valid()
      ensures r.Ok? <==> HivesPresent(pipe.keys, |HIVES|)
      ensures r.Ok? ==> wellKnownKeys == RootKeys(old(pipe.next), |HIVES|)
      ensures r.Ok? ==>
        && pipe.table == HiveTable(old(pipe.table), old(pipe.next), |HIVES|)
        && pipe.log == old(pipe.log) + HiveCalls(|HIVES|)
      ensures r.Err? ==>
        && r.error == RuntimeError(WERR_BADFILE)
        && |wellKnownKeys| < |HIVES|
        && wellKnownKeys == RootKeys(old(pipe.next), |wellKnownKeys|)
        && HivesPresent(pipe.keys, |wellKnownKeys|)
        && [HiveName(HIVES[|wellKnownKeys|])] !in pipe.keys
        && pipe.table == HiveTable(old(pipe.table), old(pipe.next), |wellKnownKeys|)
        && pipe.log == old(pipe.log) + HiveCalls(|wellKnownKeys| + 1)
    {
      ghost var t0, n0, log0 := pipe.table, pipe.next, pipe.log;
      wellKnownKeys := [];
      for i := 0 to |HIVES|
        invariant wellKnownKeys == RootKeys(n0, i)
        invariant pipe.next == n0 + i
        invariant pipe.table == HiveTable(t0, n0, i)
        invariant pipe.log == log0 + HiveCalls(i)
        invariant HivesPresent(pipe.keys, i)
        invariant Valid()
      {
        HiveStep(t0, n0, log0, i);
        var added := AddWellKnownKey(HIVES[i]);
        if added.Err? {
          HivesPresentPrefix(pipe.keys, i + 1, |HIVES|);
          return added;
        }
      }
      r := Ok(());
    }

    /** One block of `open_well_known_keys`: opens a hive and adds its
        root, holding the handle the server returned, to the session's
        hive roots. */
    method AddWellKnownKey(hive: Hive) returns (r: Result<()>)
      requires Valid()
      modifies this`wellKnownKeys, pipe`table, pipe`next, pipe`log
      ensures Valid()
      ensures pipe.log == old(pipe.log) + [Call.OpenHive(hive)]
      ensures r.Ok? <==> [HiveName(hive)] in pipe.keys
      ensures r.Ok? ==> wellKnownKeys == old(wellKnownKeys) + [Root(HiveName(hive), old(pipe.next))]
                        && pipe.next == old(pipe.next) + 1
                        && pipe.table == old(pipe.table)[old(pipe.next) := [HiveName(hive)]]
      ensures r.Err? ==> r.error == RuntimeError(WERR_BADFILE) && wellKnownKeys == old(wellKnownKeys)
                         && pipe.next == old(pipe.next) && pipe.table == old(pipe.table)
    {
      var keyHandle := pipe.OpenHive(hive);
      if keyHandle.Err? {
        return Err(keyHandle.error);
      }
      wellKnownKeys := wellKnownKeys + [Root(HiveName(hive), keyHandle.value)];
      r := Ok(());
    }
  }

  /** Starts a session: derives the credentials from the user name, picks
      the binding string by transport (an index error when there is no
      such transport, before any remote call), and opens the hive roots
      over `pipe`, the connection made with that binding. */
  method Connect(pipe: Pipe, serverAddress: string, transportType: int, username: string, password: string)
    returns (r: Result<WinRegPipeManager>)
    requires pipe.Valid()
    modifies pipe`table, pipe`next, pipe`log
    ensures Binding(transportType, serverAddress).Err? ==>
      r == Err(IndexError) && pipe.log == old(pipe.log) && pipe.table == old(pipe.table)
    ensures Binding(transportType, serverAddress).Ok? ==> (r.Ok? <==> HivesPresent(pipe.keys, |HIVES|))
    ensures r.Ok? ==>
      && fresh(r.value) && r.value.pipe == pipe && r.value.Valid()
      && r.value.credentials == ParseCredentials(username, password)
      && r.value.binding == Binding(transportType, serverAddress).value
      && r.value.wellKnownKeys == RootKeys(old(pipe.next), |HIVES|)
      && pipe.table == HiveTable(old(pipe.table), old(pipe.next), |HIVES|)
      && pipe.log == old(pipe.log) + HiveCalls(|HIVES|)
    ensures r.Err? ==> r.error == IndexError || r.error == RuntimeError(WERR_BADFILE)
    ensures r.Err? && Binding(transportType, serverAddress).Ok? ==>
      exists m :: 0 <= m < |HIVES| && HivesPresent(pipe.keys, m) && [HiveName(HIVES[m])] !in pipe.keys
        && pipe.table == HiveTable(old(pipe.table), old(pipe.next), m)
        && pipe.log == old(pipe.log) + HiveCalls(m + 1)
  {
    var credentials := ParseCredentials(username, password);
    var binding := Binding(transportType, serverAddress);
    if binding.Err? {
      return Err(binding.error);
    }
    var manager := new WinRegPipeManager(pipe, credentials, binding.value);
    var started := manager.OpenWellKnownKeys();
    if started.Err? {
      ghost var m := |manager.wellKnownKeys|;
      assert pipe.table == HiveTable(old(pipe.table), old(pipe.next), m);
      return Err(started.error);
    }
    r := Ok(manager);
  }

  // ---------------------------------------------------------------------
  // What an edit does to the next listing

  /** After a value is stored, listing the key shows it: under its own
      name, or as "(Default)" when it was stored under the empty name. */
  lemma StoredValueListed(keys: map<Path, Node>, p: Path, v: RawValue, key: Key)
    requires p in keys && DistinctNames(keys[p].values)
    ensures Value(if v.name == "" then DEFAULT_NAME else v.name, v.vtype, v.data, key)
      in Listing(StoreValue(keys, p, v)[p], key).1
  {
    var vs := Upsert(keys[p].values, v);
    var ws := ToValues(vs, key);
    var k :| 0 <= k < |vs| && vs[k] == v;
    ToValuesAt(vs, key);
    DefaultValueRule(ws, key);
    var shown := WithDefaultValue(ws, key);
    if v.name == "" {
      var d := DefaultIndex(ws);
      assert ws[k].name == "";
      assert d.Some? && ws[d.value].name == "";
      assert d.value == k;
      assert shown[k] == Value(DEFAULT_NAME, v.vtype, v.data, key);
    } else {
      assert shown[k] == ws[k];
    }
  }

  /** After `set_value`, listing the key shows the value as it was given,
      "(Default)" included; only a value whose name is literally empty
      comes back under another name. */
  lemma SetValueListed(keys: map<Path, Node>, p: Path, value: Value)
    requires p in keys && DistinctNames(keys[p].values) && value.name != ""
    ensures value in Listing(StoreValue(keys, p, RawValue(WireName(value.name), value.vtype, value.data))[p], value.parent).1
  {
    StoredValueListed(keys, p, RawValue(WireName(value.name), value.vtype, value.data), value.parent);
  }

  /** Storing a value under a name the key does not have and then dropping
      that name gives back the keys the server had: `unset_value` undoes a
      `set_value` that added a value. */
  lemma StoreThenDrop(keys: map<Path, Node>, p: Path, v: RawValue)
    requires p in keys && NameIndex(keys[p].values, v.name).None?
    ensures NameIndex(StoreValue(keys, p, v)[p].values, v.name) == Some(|keys[p].values|)
    ensures DropValue(StoreValue(keys, p, v), p, v.name) == keys
  {
    var vs := keys[p].values;
    UpsertFresh(vs, v);
    NameIndexAppended(vs, v);
    RemoveAppended(vs, v);
    var stored := StoreValue(keys, p, v);
    assert stored[p].values == vs + [v];
    var dropped := DropValue(stored, p, v.name);
    assert dropped == stored[p := keys[p]];
    assert stored[p := keys[p]] == keys[p := keys[p]];
  }

  /** After a value is dropped, the key holds no value of that name, and
      every other value is still there. */
  lemma DroppedValueGone(keys: map<Path, Node>, p: Path, name: string)
    requires p in keys && DistinctNames(keys[p].values) && NameIndex(keys[p].values, name).Some?
    ensures NameIndex(DropValue(keys, p, name)[p].values, name).None?
    ensures forall w :: w in keys[p].values && w.name != name ==> w in DropValue(keys, p, name)[p].values
  {
    var vs := keys[p].values;
    var i := NameIndex(vs, name).value;
    var r := RemoveAt(vs, i);
    forall w | w in vs && w.name != name ensures w in r {
      var j :| 0 <= j < |vs| && vs[j] == w;
      if j < i {
        assert r[j] == w;
      } else {
        assert r[j - 1] == w;
      }
    }
  }

  /** After `move_value`, the key holds the value under its new name, no
      value under the old one (when the names differ), and every value of
      any third name as before. */
  lemma MovedValue(keys: map<Path, Node>, p: Path, oldName: string, v: RawValue)
    requires p in keys && DistinctNames(keys[p].values) && NameIndex(keys[p].values, oldName).Some?
    ensures var r := StoreValue(DropValue(keys, p, oldName), p, v)[p].values;
      && v in r
      && (v.name != oldName ==> NameIndex(r, oldName).None?)
      && forall w :: w in keys[p].values && w.name != oldName && w.name != v.name ==> w in r
  {
    DroppedValueGone(keys, p, oldName);
    var d := DropValue(keys, p, oldName)[p].values;
    var r := Upsert(d, v);
    forall w | w in keys[p].values && w.name != oldName && w.name != v.name ensures w in r {
      var j :| 0 <= j < |d| && d[j] == w;
    }
    if v.name != oldName {
      forall j | 0 <= j < |r| ensures r[j].name != oldName {
        if r[j].name != v.name {
          assert r[j] == d[j];
        }
      }
    }
  }

  /** After a key is created, listing it shows no subkeys and only an empty
      "(Default)" value, and listing its parent shows the same values as
      before and the new key as the last subkey. */
  lemma CreatedKeyListing(keys: map<Path, Node>, p: Path, c: string, key: Key)
    requires p in keys
    ensures Listing(AddChild(keys, p, c)[p + [c]], Sub(c, key)) == ([], [Value(DEFAULT_NAME, REG_SZ, [], Sub(c, key))])
    ensures Listing(AddChild(keys, p, c)[p], key).0 == Listing(keys[p], key).0 + [Sub(c, key)]
    ensures Listing(AddChild(keys, p, c)[p], key).1 == Listing(keys[p], key).1
  {
    assert |p + [c]| != |p|;
    assert AddChild(keys, p, c)[p + [c]] == Node([], []);
    assert ToValues([], Sub(c, key)) == [];
    assert WithDefaultValue([], Sub(c, key)) == [Value(DEFAULT_NAME, REG_SZ, [], Sub(c, key))];
    var cs := keys[p].children;
    assert (cs + [c])[..|cs|] == cs;
  }

  // ---------------------------------------------------------------------
  // Value names as the listing shows them

  /** Unlike `set_value` and `unset_value`, `move_value` sends the old name
      as it is given, without the "(Default)" translation. Whatever values a
      key holds, unless one is literally named "(Default)", its listing shows
      a "(Default)" value, and that shown name names no value on the server.
      The editor never passes it: its Rename command is disabled while the
      "(Default)" value is selected. */
  lemma ShownDefaultNotFound(node: Node, key: Key)
    requires forall j :: 0 <= j < |node.values| ==> node.values[j].name != DEFAULT_NAME
    ensures var shown := Listing(node, key).1;
      && (exists j :: 0 <= j < |shown| && shown[j].name == DEFAULT_NAME)
      && NameIndex(node.values, DEFAULT_NAME).None?
  {
    DefaultValueRule(ToValues(node.values, key), key);
  }

  /** Read back through the "(Default)" translation, the name the listing
      shows for each of the server's values finds that value, provided the
      server's names are distinct and none is literally "(Default)". */
  lemma ShownNamesFound(node: Node, key: Key)
    requires DistinctNames(node.values)
    requires forall j :: 0 <= j < |node.values| ==> node.values[j].name != DEFAULT_NAME
    ensures var shown := Listing(node, key).1;
      forall j :: 0 <= j < |node.values| ==> NameIndex(node.values, WireName(shown[j].name)) == Some(j)
  {
    var vs := node.values;
    var ws := ToValues(vs, key);
    ToValuesAt(vs, key);
    DefaultValueRule(ws, key);
    var shown := WithDefaultValue(ws, key);
    forall j | 0 <= j < |vs| ensures NameIndex(vs, WireName(shown[j].name)) == Some(j) {
      if vs[j].name == "" {
        var d := DefaultIndex(ws);
        assert ws[j].name == "";
        assert d.Some? && ws[d.value].name == "";
        assert d.value == j;
        assert shown[j].name == DEFAULT_NAME;
      } else {
        assert shown[j] == ws[j];
      }
      assert WireName(shown[j].name) == vs[j].name;
      var n := NameIndex(vs, vs[j].name);
      assert n.Some? && vs[n.value].name == vs[j].name;
    }
  }
}

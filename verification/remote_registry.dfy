/** The remote registry server, reached through the RPC pipe: the key tree
    it holds, the handles it has issued, and the remote calls of the
    Windows Remote Registry Protocol the session makes (section 3.1.5 of
    [MS-RRP]: OpenHKCR and the other hive openers, BaseRegOpenKey,
    BaseRegCloseKey, BaseRegEnumKey, BaseRegEnumValue, BaseRegCreateKey,
    BaseRegDeleteKey, BaseRegSetValue, BaseRegDeleteValue). Each call is
    a method whose contract says what it does to the server's state and
    what it returns; every call is recorded, in order, in a ghost log. */
module RemoteRegistry {
  import opened RegTypes
  import opened WinregBuffers
  import opened RegistryTree

  /** The five predefined hives the session opens at start-up. */
  datatype Hive = HKCR | HKCU | HKLM | HKU | HKCC

  function HiveName(hive: Hive): string
  {
    match hive
    case HKCR => "HKEY_CLASSES_ROOT"
    case HKCU => "HKEY_CURRENT_USER"
    case HKLM => "HKEY_LOCAL_MACHINE"
    case HKU => "HKEY_USERS"
    case HKCC => "HKEY_CURRENT_CONFIG"
  }

  /** A remote call, as the log records it. */
  datatype Call =
    | OpenHive(hive: Hive)
    | OpenKey(parent: Handle, name: string)
    | CloseKey(handle: Handle)
    | EnumKey(handle: Handle, index: nat)
    | EnumValue(handle: Handle, index: nat)
    | CreateKey(parent: Handle, name: string)
    | DeleteKey(parent: Handle, name: string)
    | SetValue(handle: Handle, name: string, vtype: nat, data: seq<byte>)
    | DeleteValue(handle: Handle, name: string)

  /** What BaseRegCreateKey reports it did. */
  datatype Disposition = CreatedNewKey | OpenedExistingKey

  /** The server's state as a value: its keys, the keys it refuses to open,
      and its handle table. */
  datatype View = View(keys: map<Path, Node>, denied: set<Path>, table: map<Handle, Path>)

  /** The position of the first value named `name`, if any. */
  function NameIndex(vs: seq<RawValue>, name: string): (r: Option<nat>)
    ensures r.Some? ==> r.value < |vs| && vs[r.value].name == name
    ensures r.Some? ==> forall i :: 0 <= i < r.value ==> vs[i].name != name
    ensures r.None? ==> forall i :: 0 <= i < |vs| ==> vs[i].name != name
  {
    if vs == [] then None
    else if vs[0].name == name then Some(0)
    else match NameIndex(vs[1..], name)
      case None => None
      case Some(i) => Some(i + 1)
  }

  /** The value list after storing `v`: a value of the same name is
      replaced where it stands, otherwise `v` is added at the end. */
  function Upsert(vs: seq<RawValue>, v: RawValue): (r: seq<RawValue>)
    ensures DistinctNames(vs) ==> DistinctNames(r)
    ensures v in r
    ensures forall i :: 0 <= i < |vs| && vs[i].name != v.name ==> i < |r| && r[i] == vs[i]
    ensures forall i :: 0 <= i < |r| && r[i].name != v.name ==> i < |vs| && r[i] == vs[i]
  {
    match NameIndex(vs, v.name)
    case Some(i) =>
      var r := vs[i := v];
      assert r[i] == v;
      r
    case None => vs + [v]
  }

  /** The value list without the value at position `i`. */
  function RemoveAt(vs: seq<RawValue>, i: nat): (r: seq<RawValue>)
    requires i < |vs|
    ensures |r| == |vs| - 1
    ensures DistinctNames(vs) ==> DistinctNames(r) && forall j :: 0 <= j < |r| ==> r[j].name != vs[i].name
    ensures forall v :: v in r ==> v in vs
  {
    vs[..i] + vs[i + 1..]
  }

  /** The child list without `c`. */
  function Without(cs: seq<string>, c: string): (r: seq<string>)
    ensures forall x :: x in r <==> x in cs && x != c
    ensures c !in cs ==> r == cs
    ensures Distinct(cs) ==> Distinct(r)
    ensures Distinct(cs) && cs != [] && cs[0] == c ==> r == cs[1..]
  {
    if cs == [] then []
    else
      assert Distinct(cs) ==> Distinct(cs[1..]) && cs[0] !in cs[1..];
      if cs[0] == c then Without(cs[1..], c)
      else [cs[0]] + Without(cs[1..], c)
  }

  class Pipe {
    var keys: map<Path, Node>
    var denied: set<Path>
    var table: map<Handle, Path>
    var next: Handle
    ghost var log: seq<Call>
    ghost var deletions: seq<Path>

    /** Every issued handle is below `next`, and every open handle is on a
        non-empty path. That the keys form a tree is kept apart: each call
        that changes the keys preserves it. */
    ghost predicate Valid()
      reads this
    {
      && (forall h :: h in table ==> h < next)
      && (forall h :: h in table ==> |table[h]| >= 1)
    }

    ghost function State(): View
      reads this
    {
      View(keys, denied, table)
    }

    /** A connection to a server holding `keys`, with no handle open yet. */
    constructor (keys: map<Path, Node>, denied: set<Path>)
      ensures Valid()
      ensures this.keys == keys && this.denied == denied && table == map[] && log == [] && deletions == []
    {
      this.keys := keys;
      this.denied := denied;
      table := map[];
      next := 0;
      log := [];
      deletions := [];
    }

    /** Opens a hive root (OpenHKCR, OpenHKCU, OpenHKLM, OpenHKU, OpenHKCC). */
    method OpenHive(hive: Hive) returns (r: Result<Handle>)
      requires Valid()
      modifies this`table, this`next, this`log
      ensures Valid()
      ensures log == old(log) + [Call.OpenHive(hive)]
      ensures r.Ok? <==> [HiveName(hive)] in keys
      ensures r.Ok? ==> r.value == old(next) && next == old(next) + 1
                        && table == old(table)[r.value := [HiveName(hive)]]
      ensures r.Err? ==> r.error == RuntimeError(WERR_BADFILE) && table == old(table) && next == old(next)
    {
      log := log + [Call.OpenHive(hive)];
      var p := [HiveName(hive)];
      if p !in keys {
        return Err(RuntimeError(WERR_BADFILE));
      }
      r := Ok(next);
      table := table[next := p];
      next := next + 1;
    }

    /** BaseRegOpenKey: a new handle to the child `name` of the key `parent` is open on. */
    method OpenKey(parent: Handle, name: WinregString) returns (r: Result<Handle>)
      requires Valid()
      modifies this`table, this`next, this`log
      ensures Valid()
      ensures log == old(log) + [Call.OpenKey(parent, name.name)]
      ensures r.Ok? <==> parent in old(table) && old(table)[parent] + [name.name] in keys
                         && old(table)[parent] + [name.name] !in denied
      ensures r.Ok? ==> r.value == old(next) && next == old(next) + 1
                        && table == old(table)[r.value := old(table)[parent] + [name.name]]
      ensures r.Err? ==> r.error.RuntimeError? && r.error.code != WERR_NO_MORE_ITEMS
                         && table == old(table) && next == old(next)
    {
      log := log + [Call.OpenKey(parent, name.name)];
      if parent !in table {
        return Err(RuntimeError(WERR_INVALID_HANDLE));
      }
      var p := table[parent] + [name.name];
      if p !in keys {
        return Err(RuntimeError(WERR_BADFILE));
      }
      if p in denied {
        return Err(RuntimeError(WERR_ACCESS_DENIED));
      }
      r := Ok(next);
      table := table[next := p];
      next := next + 1;
    }

    /** BaseRegCloseKey: the handle is released. */
    method CloseKey(h: Handle) returns (r: Result<()>)
      requires Valid()
      modifies this`table, this`log
      ensures Valid()
      ensures log == old(log) + [Call.CloseKey(h)]
      ensures r.Ok? <==> h in old(table)
      ensures table == old(table) - {h}
      ensures r.Err? ==> r.error == RuntimeError(WERR_INVALID_HANDLE)
    {
      log := log + [Call.CloseKey(h)];
      if h !in table {
        return Err(RuntimeError(WERR_INVALID_HANDLE));
      }
      table := table - {h};
      r := Ok(());
    }

    /** BaseRegEnumKey: the name of the subkey at position `index`, or
        WERR_NO_MORE_ITEMS once `index` is past the last subkey. */
    method EnumKey(h: Handle, index: nat) returns (r: Result<string>)
      requires Valid()
      ensures log == old(log) + [Call.EnumKey(h, index)]
      modifies this`log
      ensures h !in table ==> r == Err(RuntimeError(WERR_INVALID_HANDLE))
      ensures h in table && table[h] !in keys ==> r == Err(RuntimeError(WERR_KEY_DELETED))
      ensures h in table && table[h] in keys ==>
        if index < |keys[table[h]].children| then r == Ok(keys[table[h]].children[index])
        else r == Err(RuntimeError(WERR_NO_MORE_ITEMS))
    {
      log := log + [Call.EnumKey(h, index)];
      if h !in table {
        return Err(RuntimeError(WERR_INVALID_HANDLE));
      }
      if table[h] !in keys {
        return Err(RuntimeError(WERR_KEY_DELETED));
      }
      var children := keys[table[h]].children;
      if index >= |children| {
        return Err(RuntimeError(WERR_NO_MORE_ITEMS));
      }
      r := Ok(children[index]);
    }

    /** BaseRegEnumValue: the value at position `index`, or
        WERR_NO_MORE_ITEMS once `index` is past the last value. */
    method EnumValue(h: Handle, index: nat) returns (r: Result<RawValue>)
      requires Valid()
      ensures log == old(log) + [Call.EnumValue(h, index)]
      modifies this`log
      ensures h !in table ==> r == Err(RuntimeError(WERR_INVALID_HANDLE))
      ensures h in table && table[h] !in keys ==> r == Err(RuntimeError(WERR_KEY_DELETED))
      ensures h in table && table[h] in keys ==>
        if index < |keys[table[h]].values| then r == Ok(keys[table[h]].values[index])
        else r == Err(RuntimeError(WERR_NO_MORE_ITEMS))
    {
      log := log + [Call.EnumValue(h, index)];
      if h !in table {
        return Err(RuntimeError(WERR_INVALID_HANDLE));
      }
      if table[h] !in keys {
        return Err(RuntimeError(WERR_KEY_DELETED));
      }
      var values := keys[table[h]].values;
      if index >= |values| {
        return Err(RuntimeError(WERR_NO_MORE_ITEMS));
      }
      r := Ok(values[index]);
    }

    /** BaseRegCreateKey: opens the child `name` of the key `parent` is open
        on, creating it (with no subkeys and no values, as the parent's last
        child) when it does not exist. */
    method CreateKey(parent: Handle, name: WinregString) returns (r: Result<(Handle, Disposition)>)
      requires Valid()
      modifies this`keys, this`table, this`next, this`log
      ensures Valid()
      ensures old(WellFormed(keys)) ==> WellFormed(keys)
      ensures log == old(log) + [Call.CreateKey(parent, name.name)]
      ensures r.Ok? <==> parent in old(table) && old(table)[parent] in old(keys)
                         && (old(table)[parent] + [name.name] in old(keys) ==> old(table)[parent] + [name.name] !in denied)
      ensures r.Ok? ==>
        var p := old(table)[parent];
        var q := p + [name.name];
        && r.value.0 == old(next) && next == old(next) + 1
        && table == old(table)[r.value.0 := q]
        && (r.value.1 == OpenedExistingKey <==> q in old(keys))
        && keys == if q in old(keys) then old(keys) else AddChild(old(keys), p, name.name)
      ensures r.Err? ==> r.error.RuntimeError? && r.error.code != WERR_NO_MORE_ITEMS
                         && keys == old(keys) && table == old(table) && next == old(next)
    {
      log := log + [Call.CreateKey(parent, name.name)];
      if parent !in table {
        return Err(RuntimeError(WERR_INVALID_HANDLE));
      }
      var p := table[parent];
      if p !in keys {
        return Err(RuntimeError(WERR_KEY_DELETED));
      }
      var q := p + [name.name];
      var disposition;
      if q in keys {
        if q in denied {
          return Err(RuntimeError(WERR_ACCESS_DENIED));
        }
        disposition := OpenedExistingKey;
      } else {
        if WellFormed(keys) {
          AddChildKeepsTree(keys, p, name.name);
        }
        keys := AddChild(keys, p, name.name);
        disposition := CreatedNewKey;
      }
      r := Ok((next, disposition));
      table := table[next := q];
      next := next + 1;
    }

    /** BaseRegDeleteKey: removes the child `name` of the key `parent` is
        open on; a key that still has subkeys is refused. */
    method DeleteKey(parent: Handle, name: WinregString) returns (r: Result<()>)
      requires Valid()
      modifies this`keys, this`log, this`deletions
      ensures old(WellFormed(keys)) ==> WellFormed(keys)
      ensures log == old(log) + [Call.DeleteKey(parent, name.name)]
      ensures r.Ok? <==>
        && parent in table && old(table)[parent] in old(keys)
        && old(table)[parent] + [name.name] in old(keys)
        && old(table)[parent] + [name.name] !in denied
        && old(keys)[old(table)[parent] + [name.name]].children == []
      ensures r.Ok? ==>
        && keys == RemoveChild(old(keys), old(table)[parent], name.name)
        && deletions == old(deletions) + [old(table)[parent] + [name.name]]
      ensures r.Err? ==> deletions == old(deletions)
      ensures r.Err? ==> r.error.RuntimeError? && r.error.code != WERR_NO_MORE_ITEMS && keys == old(keys)
    {
      log := log + [Call.DeleteKey(parent, name.name)];
      if parent !in table {
        return Err(RuntimeError(WERR_INVALID_HANDLE));
      }
      var p := table[parent];
      if p !in keys {
        return Err(RuntimeError(WERR_KEY_DELETED));
      }
      var q := p + [name.name];
      if q !in keys {
        return Err(RuntimeError(WERR_BADFILE));
      }
      if q in denied || keys[q].children != [] {
        return Err(RuntimeError(WERR_ACCESS_DENIED));
      }
      if WellFormed(keys) {
        RemoveLeafKeepsTree(keys, p, name.name);
      }
      keys := RemoveChild(keys, p, name.name);
      deletions := deletions + [q];
      r := Ok(());
    }

    /** BaseRegSetValue: stores the value `name` of the key `h` is open on. */
    method SetValue(h: Handle, name: WinregString, vtype: nat, data: seq<byte>) returns (r: Result<()>)
      requires Valid()
      modifies this`keys, this`log
      ensures old(WellFormed(keys)) ==> WellFormed(keys)
      ensures log == old(log) + [Call.SetValue(h, name.name, vtype, data)]
      ensures r.Ok? <==> h in table && table[h] in old(keys)
      ensures r.Ok? ==> keys == StoreValue(old(keys), table[h], RawValue(name.name, vtype, data))
      ensures r.Err? ==> r.error.RuntimeError? && r.error.code != WERR_NO_MORE_ITEMS && keys == old(keys)
    {
      log := log + [Call.SetValue(h, name.name, vtype, data)];
      if h !in table {
        return Err(RuntimeError(WERR_INVALID_HANDLE));
      }
      var p := table[h];
      if p !in keys {
        return Err(RuntimeError(WERR_KEY_DELETED));
      }
      var values := Upsert(keys[p].values, RawValue(name.name, vtype, data));
      if WellFormed(keys) {
        NewValuesKeepTree(keys, p, values);
      }
      keys := keys[p := keys[p].(values := values)];
      r := Ok(());
    }

    /** BaseRegDeleteValue: removes the value `name` of the key `h` is open on. */
    method DeleteValue(h: Handle, name: WinregString) returns (r: Result<()>)
      requires Valid()
      modifies this`keys, this`log
      ensures old(WellFormed(keys)) ==> WellFormed(keys)
      ensures log == old(log) + [Call.DeleteValue(h, name.name)]
      ensures r.Ok? <==> h in table && table[h] in old(keys) && NameIndex(old(keys)[table[h]].values, name.name).Some?
      ensures r.Ok? ==> keys == DropValue(old(keys), table[h], name.name)
      ensures r.Err? ==> r.error.RuntimeError? && r.error.code != WERR_NO_MORE_ITEMS && keys == old(keys)
    {
      log := log + [Call.DeleteValue(h, name.name)];
      if h !in table {
        return Err(RuntimeError(WERR_INVALID_HANDLE));
      }
      var p := table[h];
      if p !in keys {
        return Err(RuntimeError(WERR_KEY_DELETED));
      }
      var i := NameIndex(keys[p].values, name.name);
      if i.None? {
        return Err(RuntimeError(WERR_BADFILE));
      }
      var values := RemoveAt(keys[p].values, i.value);
      if WellFormed(keys) {
        NewValuesKeepTree(keys, p, values);
      }
      keys := keys[p := keys[p].(values := values)];
      r := Ok(());
    }
  }

  /** The keys after the value `v` is stored on the key at `p`. */
  function StoreValue(keys: map<Path, Node>, p: Path, v: RawValue): map<Path, Node>
    requires p in keys
  {
    keys[p := keys[p].(values := Upsert(keys[p].values, v))]
  }

  /** The keys after the value named `name` is removed from the key at `p`. */
  function DropValue(keys: map<Path, Node>, p: Path, name: string): map<Path, Node>
    requires p in keys && NameIndex(keys[p].values, name).Some?
  {
    keys[p := keys[p].(values := RemoveAt(keys[p].values, NameIndex(keys[p].values, name).value))]
  }

  /** A value stored under a fresh name is added as the last value. */
  lemma UpsertFresh(vs: seq<RawValue>, v: RawValue)
    requires NameIndex(vs, v.name).None?
    ensures Upsert(vs, v) == vs + [v]
  {
  }

  /** A value appended under a fresh name is found at the end. */
  lemma NameIndexAppended(vs: seq<RawValue>, v: RawValue)
    requires NameIndex(vs, v.name).None?
    ensures NameIndex(vs + [v], v.name) == Some(|vs|)
  {
    var ws := vs + [v];
    assert ws[|vs|].name == v.name;
    forall i | 0 <= i < |vs| ensures ws[i].name != v.name {
      assert ws[i] == vs[i];
    }
  }

  /** Removing the appended value gives back the list. */
  lemma RemoveAppended(vs: seq<RawValue>, v: RawValue)
    ensures RemoveAt(vs + [v], |vs|) == vs
  {
    var ws := vs + [v];
    assert ws[..|vs|] == vs && ws[|vs| + 1..] == [];
  }

  /** Replacing the values of one key by a list without repeated names keeps the tree. */
  lemma NewValuesKeepTree(keys: map<Path, Node>, p: Path, values: seq<RawValue>)
    requires WellFormed(keys) && p in keys && DistinctNames(values)
    ensures WellFormed(keys[p := keys[p].(values := values)])
  {
    var keys' := keys[p := keys[p].(values := values)];
    assert forall q :: q in keys' ==> q in keys && keys'[q].children == keys[q].children;
  }

  /** The keys after `c` is created below `p`: a key with no subkeys and no
      values, listed as `p`'s last child. */
  function AddChild(keys: map<Path, Node>, p: Path, c: string): map<Path, Node>
    requires p in keys
  {
    keys[p + [c] := Node([], [])][p := keys[p].(children := keys[p].children + [c])]
  }

  /** The keys after the child `c` of `p` is deleted. */
  function RemoveChild(keys: map<Path, Node>, p: Path, c: string): map<Path, Node>
    requires p in keys
  {
    (keys - {p + [c]})[p := keys[p].(children := Without(keys[p].children, c))]
  }

  /** Adding a new child below an existing key keeps the map a tree. */
  lemma AddChildKeepsTree(keys: map<Path, Node>, p: Path, c: string)
    requires WellFormed(keys) && p in keys && p + [c] !in keys
    ensures WellFormed(AddChild(keys, p, c))
  {
    AddChildParents(keys, p, c);
    AddChildChildren(keys, p, c);
    AddChildDistinct(keys, p, c);
  }

  lemma AddChildParents(keys: map<Path, Node>, p: Path, c: string)
    requires WellFormed(keys) && p in keys && p + [c] !in keys
    ensures var keys' := AddChild(keys, p, c);
      forall r {:trigger Parent(r)} :: r in keys' && |r| >= 2 ==> Parent(r) in keys' && r[|r| - 1] in keys'[Parent(r)].children
  {
    var q := p + [c];
    var keys' := AddChild(keys, p, c);
    forall r | r in keys' && |r| >= 2
      ensures Parent(r) in keys' && r[|r| - 1] in keys'[Parent(r)].children
    {
      if r == q {
        assert Parent(q) == p;
      } else {
        assert r in keys && Parent(r) in keys;
        AddChildParent(keys, p, c, r);
      }
    }
  }

  lemma AddChildParent(keys: map<Path, Node>, p: Path, c: string, r: Path)
    requires p in keys && p + [c] !in keys
    requires r in keys && |r| >= 2
    requires Parent(r) in keys && r[|r| - 1] in keys[Parent(r)].children
    ensures Parent(r) in AddChild(keys, p, c)
    ensures r[|r| - 1] in AddChild(keys, p, c)[Parent(r)].children
  {
  }

  lemma AddChildChildren(keys: map<Path, Node>, p: Path, c: string)
    requires WellFormed(keys) && p in keys && p + [c] !in keys
    ensures var keys' := AddChild(keys, p, c);
      forall r, x :: r in keys' && x in keys'[r].children ==> r + [x] in keys'
  {
    var q := p + [c];
    var keys' := AddChild(keys, p, c);
    forall r, x | r in keys' && x in keys'[r].children ensures r + [x] in keys' {
      if r == p {
        assert x in keys[p].children || x == c;
      } else if r != q {
        assert r in keys && keys'[r] == keys[r];
      }
    }
  }

  lemma AddChildDistinct(keys: map<Path, Node>, p: Path, c: string)
    requires WellFormed(keys) && p in keys && p + [c] !in keys
    ensures var keys' := AddChild(keys, p, c);
      forall r :: r in keys' ==> Distinct(keys'[r].children) && DistinctNames(keys'[r].values)
  {
    var q := p + [c];
    var keys' := AddChild(keys, p, c);
    assert c !in keys[p].children;
    forall r | r in keys' ensures Distinct(keys'[r].children) && DistinctNames(keys'[r].values) {
      if r != p && r != q {
        assert r in keys && keys'[r] == keys[r];
      }
    }
  }

  /** Removing a childless key keeps the map a tree. */
  lemma RemoveLeafKeepsTree(keys: map<Path, Node>, p: Path, c: string)
    requires WellFormed(keys) && p in keys && p + [c] in keys && keys[p + [c]].children == []
    ensures WellFormed(RemoveChild(keys, p, c))
  {
    var keys' := RemoveChild(keys, p, c);
    RemoveLeafParents(keys, p, c);
    RemoveLeafChildren(keys, p, c);
    forall r | r in keys' ensures Distinct(keys'[r].children) && DistinctNames(keys'[r].values) {
      if r != p {
        assert keys'[r] == keys[r];
      }
    }
  }

  lemma RemoveLeafParents(keys: map<Path, Node>, p: Path, c: string)
    requires WellFormed(keys) && p in keys && p + [c] in keys && keys[p + [c]].children == []
    ensures var keys' := RemoveChild(keys, p, c);
      forall r {:trigger Parent(r)} :: r in keys' && |r| >= 2 ==> Parent(r) in keys' && r[|r| - 1] in keys'[Parent(r)].children
  {
    var q := p + [c];
    var keys' := RemoveChild(keys, p, c);
    forall r | r in keys' && |r| >= 2
      ensures Parent(r) in keys' && r[|r| - 1] in keys'[Parent(r)].children
    {
      assert r in keys && r != q;
      assert Parent(r) in keys;
      RemoveLeafParent(keys, p, c, r);
    }
  }

  lemma RemoveLeafParent(keys: map<Path, Node>, p: Path, c: string, r: Path)
    requires p in keys && p + [c] in keys && keys[p + [c]].children == []
    requires r in keys && r != p + [c] && |r| >= 2
    requires Parent(r) in keys && r[|r| - 1] in keys[Parent(r)].children
    ensures Parent(r) in RemoveChild(keys, p, c)
    ensures r[|r| - 1] in RemoveChild(keys, p, c)[Parent(r)].children
  {
    var a := Parent(r);
    var x := r[|r| - 1];
    assert r == a + [x];
  }

  lemma RemoveLeafChildren(keys: map<Path, Node>, p: Path, c: string)
    requires WellFormed(keys) && p in keys && p + [c] in keys
    ensures var keys' := RemoveChild(keys, p, c);
      forall r, x :: r in keys' && x in keys'[r].children ==> r + [x] in keys'
  {
    var q := p + [c];
    var keys' := RemoveChild(keys, p, c);
    forall r, x | r in keys' && x in keys'[r].children ensures r + [x] in keys' {
      if r == p {
        assert x in keys[p].children && x != c;
        assert r + [x] != q by {
          assert (r + [x])[|r|] == x;
        }
      } else {
        assert keys'[r] == keys[r];
        assert r + [x] != q by {
          assert (r + [x])[..|r|] == r;
        }
      }
    }
  }
}

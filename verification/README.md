# Remote registry session — a Dafny model

This project models the session layer of `pygwregedit`, a graphical editor
for the registry of a remote Windows machine that talks to the server over
the `winreg` RPC pipe. The modelled core is the class `WinRegPipeManager` and
the walk of the search thread, both in `tools/pygwregedit.py`:

- the start of a session: the domain/user split of the user name, the choice
  of the RPC binding string by transport, and the opening of the five hive
  roots (`HKEY_CLASSES_ROOT` … `HKEY_CURRENT_CONFIG`) whose handles the
  session keeps;
- `open_path` / `close_path`: the chain of key handles opened from a hive
  root's persistent handle down to a key, and closed again last to second;
- `ls_key`: the two enumeration loops (`EnumKey`, `EnumValue` with index 0,
  1, 2, … until `WERR_NO_MORE_ITEMS`) and the "(Default)" value rule;
- `create_key`, `move_key`, `remove_key` (recursive, post-order),
  `set_value`, `unset_value`, `move_value`;
- the `winreg_string`, `winreg_string_buf` and `winreg_val_name_buf` records;
- `SearchThread.run`: the depth-first search with an explicit stack.

The server is a class `RemoteRegistry.Pipe` holding the key tree (a map from
key path to the key's subkey names and values), the paths it refuses to open,
its table of open handles and the next handle it will issue. Each remote call
the session makes (`OpenHKxx`, `OpenKey`, `CloseKey`, `EnumKey`, `EnumValue`,
`CreateKey`, `DeleteKey`, `SetValue`, `DeleteValue`) is a method of that class
with a contract for the server's behaviour; a ghost log records the calls in
order, and a ghost list records the paths `DeleteKey` removed. The session,
`PipeManager.WinRegPipeManager`, holds that pipe and the hive roots, and
every one of its operations is proved against the state of the server: which
keys and values change and which handles are open afterwards (on success, every
handle the operation opened is closed again). On success each operation also
states the remote calls it made, in order, except the removal of a subtree and
the search (see "## Left out").

Points where the code's behaviour may be unexpected; the model follows the
code in each:

- a failed open in `open_path`, or a failed enumeration in `ls_key`, leaves
  the handles opened so far open (no cleanup on the error path); the
  contracts promise a restored handle table only on success;
- the "(Default)" rule renames the first value with the empty name, and
  otherwise appends an empty string value named "(Default)" even when the
  server holds a value literally named "(Default)"; exactly one "(Default)"
  is proved under the condition that no value has that literal name;
- "match whole string" makes the whole search text a single term that is
  still found as a substring, as `find` does; it is not an equality test;
- `remove_key` on a hive root takes `path_handles[-1]` (the root's own
  handle) as the parent handle: every subkey is removed, and then the
  `DeleteKey` of the root's own name on its own handle fails;
- `move_value`, unlike `set_value` and `unset_value`, sends both names
  untranslated, so the name the listing shows for a key's default value,
  "(Default)", names no value on the server; the editor never passes it, as
  its Rename command is disabled while that value is selected
  (tools/pygwregedit.py:986).

## Model

| member | source | states |
|---|---|---|
| `Connection.ParseCredentials` | tools/pygwregedit.py:34-45 | with a backslash the domain is the text before the first one and the user the next segment; otherwise with an `@` the domain is the segment after the first `@` and the user the text before it; otherwise the domain is empty; workstation empty, password kept |
| `Connection.ParseCredentialsRoundTrip` | tools/pygwregedit.py:35-43 | with exactly one separator, domain and user joined by it give back the user name |
| `Connection.Binding` | tools/pygwregedit.py:47 | the binding is `protocol:address` for transports 0..2 and, as a list index, -3..-1; any other transport is an IndexError |
| `Connection.BindingRoundTrip` | tools/pygwregedit.py:47 | the binding string determines the transport (modulo the three protocols) and the address |
| `PipeManager.Connect` | tools/pygwregedit.py:30-50 | a bad transport fails with IndexError before any remote call, changing nothing; otherwise the session starts exactly when all five hives exist, with the parsed credentials, the binding, and the five roots holding consecutive fresh handles; the handle table then gains exactly those five handles and the log the five hive opens, and a failed start-up stops at the first missing hive (every hive before it present), leaves open the handles of the hives before the missing one and logs the opens up to and including its own |
| `PipeManager.WinRegPipeManager.constructor` | tools/pygwregedit.py:30-48 | the session holds the pipe, credentials and binding, and no hive root yet |
| `PipeManager.WinRegPipeManager.OpenWellKnownKeys` | tools/pygwregedit.py:239-265 | opens HKCR, HKCU, HKLM, HKU, HKCC in that order; succeeds exactly when all five exist, and then holds their roots in that order, the handle table gains exactly their five handles and the log the five opens; the first missing hive ends it with WERR_BADFILE, every hive before it being present, keeping the roots, handles and calls made before it plus its own failed open |
| `PipeManager.WinRegPipeManager.AddWellKnownKey` | tools/pygwregedit.py:242-245 | one `OpenHKxx` call; on success the root, holding the returned handle, is appended to the session's roots and the table gains exactly that handle, open on the hive; on failure roots and table are unchanged |
| `PipeManager.RootKeysDistinct` | tools/pygwregedit.py:239-265 | the five roots have distinct names and distinct handles |
| `PipeManager.HiveTableAt` | tools/pygwregedit.py:239-265 | opening the hives keeps every handle already open and adds exactly one fresh handle per hive, open on that hive |
| `PipeManager.WinRegPipeManager.OpenPath` | tools/pygwregedit.py:267-281 | succeeds exactly when every key on the path below the root exists and may be opened; returns the root's handle followed by one fresh handle per level, each open on the path of its key, and logs one `OpenKey` per level |
| `PipeManager.HandlesFresh` | tools/pygwregedit.py:267-281 | a path of depth D opens D-1 new distinct handles after the root's |
| `PipeManager.WinRegPipeManager.ClosePath` | tools/pygwregedit.py:283-285 | closes the handles last to second and never the first; succeeds exactly when each is open when its turn comes, and then the table lacks exactly those handles |
| `PipeManager.CloseOrderAt` | tools/pygwregedit.py:284 | the close order is the path's handles after the first, reversed |
| `PipeManager.OpenThenCloseRestores` | tools/pygwregedit.py:267-285 | closing a path right after opening it succeeds and gives back the handle table from before the opens |
| `PipeManager.WinRegPipeManager.CloseOpenedPath` | tools/pygwregedit.py:283-285 | `close_path` after a successful `open_path` restores the handle table and logs the closes |
| `PipeManager.WinRegPipeManager.ListSubkeys` | tools/pygwregedit.py:81-116 | enumerates with index 0, 1, … until WERR_NO_MORE_ITEMS; returns exactly the server's subkeys in order, each a child of the key; any other error ends the listing |
| `PipeManager.WinRegPipeManager.ListValues` | tools/pygwregedit.py:118-148 | the same for values: exactly the server's values, in order, each linked to the key |
| `PipeManager.WinRegPipeManager.ListOpened` | tools/pygwregedit.py:76-148 | both enumerations on the key's handle: the subkeys, then the values, with one call past the end of each list |
| `PipeManager.WinRegPipeManager.LsKey` | tools/pygwregedit.py:55-170 | succeeds exactly when the key's path opens and the key exists; returns the listing of the key's record (subkeys in order, values with the "(Default)" rule), restores the handle table and logs opens, enumerations and closes |
| `PipeManager.ApplyDefaultValue` | tools/pygwregedit.py:156-161 | the loop-built list equals the "(Default)" rule applied to the listed values |
| `PipeManager.DefaultIndex` | tools/pygwregedit.py:156 | finds the first value with the empty name, or reports that none has it |
| `PipeManager.DefaultValueRule` | tools/pygwregedit.py:156-161 | the listing grows by one exactly when no value has the empty name, and then ends with an empty REG_SZ "(Default)"; an empty-named value is shown as "(Default)" exactly when it is the first one, and any later one is shown unchanged; named values, types and data are kept |
| `PipeManager.DefaultValueUnique` | tools/pygwregedit.py:156-161 | with distinct names and none literally "(Default)", the listing has exactly one "(Default)" and no empty name |
| `PipeManager.WinRegPipeManager.CreateKey` | tools/pygwregedit.py:172-188 | a hive root has no parent and fails with AttributeError before any call; otherwise as `CreateSubkey` |
| `PipeManager.WinRegPipeManager.CreateSubkey` | tools/pygwregedit.py:172-188 | succeeds exactly when the parent can be listed (and an existing key may be opened); the key then exists, added as the parent's last subkey when it was new; all handles, including the created one, are closed again |
| `PipeManager.CreatedKeyListing` | tools/pygwregedit.py:172-188 | after a new key is created, listing it shows no subkey and only an empty "(Default)" value, and the parent lists it last with its values unchanged |
| `PipeManager.WinRegPipeManager.MoveKey` | tools/pygwregedit.py:190-192 | always fails with NotImplementedError, changing nothing |
| `PipeManager.WinRegPipeManager.RemoveKey` | tools/pygwregedit.py:194-204 | succeeds exactly when the key is below a hive root, can be listed and no key in its subtree is refused; the keys are then the old ones without the subtree, and the deletions made are the subtree in post-order |
| `PipeManager.WinRegPipeManager.RemoveSubkeys` | tools/pygwregedit.py:197-198 | removes the listed subkeys in order and succeeds exactly when no subtree of a subkey holds a refused key; then each subtree is gone in post-order; on failure only the error code is stated |
| `PipeManager.WinRegPipeManager.RemoveNthSubkey` | tools/pygwregedit.py:198 | one turn of that loop: the next subkey's subtree is removed, or the failure is reported |
| `PipeManager.WinRegPipeManager.DeleteEmptyKey` | tools/pygwregedit.py:200-204 | deletes a key without subkeys and closes the path; succeeds exactly when the key is below a root; the log is the path's opens, `DeleteKey` on `path_handles[len-2]` (`PipeManager.At`, the root's own handle for a hive root, where it fails), then on success the closes |
| `PipeManager.RemovableChildren` | tools/pygwregedit.py:194-204 | a listable key below a root is removable exactly when no subtree of its subkeys holds a refused key |
| `TreeRemoval.RemovalDeletesSubtree` | tools/pygwregedit.py:194-204 | the post-order of a removal names exactly the keys that disappear, each once, every key after all keys below it, and the key itself last: M descendants give M+1 deletions |
| `TreeRemoval.RemoveSubtreeCount` | tools/pygwregedit.py:194-204 | a removal takes away exactly the keys of the subtree |
| `TreeRemoval.PruneStep` | tools/pygwregedit.py:197-198 | removing the next subkey's subtree prunes one subkey more |
| `TreeRemoval.PruneEnd` | tools/pygwregedit.py:200-203 | once every subkey is pruned, deleting the key from its parent leaves exactly the keys outside its subtree |
| `TreeRemoval.CreateThenRemove` | tools/pygwregedit.py:172-204 | creating a key that did not exist and then removing it gives back the key tree |
| `RegistryTree.PostOrderShape` | tools/pygwregedit.py:194-204 | the post-order of a subtree has distinct paths, each after every path below it, ending with the subtree's root |
| `RegistryTree.PostOrderCovers` | tools/pygwregedit.py:194-204 | the post-order holds exactly the keys of the subtree |
| `PipeManager.WinRegPipeManager.SetValue` | tools/pygwregedit.py:206-216 | succeeds exactly when the key can be listed; stores the value under its name, or under the empty name when shown as "(Default)", and keeps the tree well formed |
| `PipeManager.SetValueListed` | tools/pygwregedit.py:206-216 | a value set and then listed comes back with its name, type and data, "(Default)" included |
| `PipeManager.StoredValueListed` | tools/pygwregedit.py:156-161 | a value stored under the empty name is listed as "(Default)", any other under its own name |
| `PipeManager.WinRegPipeManager.UnsetValue` | tools/pygwregedit.py:218-228 | succeeds exactly when the key can be listed and holds a value of that name (the empty name for "(Default)"); removes that value |
| `PipeManager.StoreThenDrop` | tools/pygwregedit.py:206-228 | setting a value under a new name and unsetting it gives back the key tree |
| `PipeManager.DroppedValueGone` | tools/pygwregedit.py:218-228 | after an unset no value of that name is left and every other value is kept |
| `PipeManager.WinRegPipeManager.MoveValue` | tools/pygwregedit.py:230-237 | on one handle, deletes `old_name` and sets the value under its name, both sent untranslated; succeeds exactly when a value named `old_name` exists |
| `PipeManager.MovedValue` | tools/pygwregedit.py:230-237 | after a rename the value is present, the old name is gone when it differs, and values of any third name are kept |
| `PipeManager.ShownDefaultNotFound` | tools/pygwregedit.py:230-237 | for every key none of whose values is literally named "(Default)", the listing shows a value named "(Default)" and no server value has that name, so `move_value` given the shown name finds nothing to delete (the editor disables Rename for it, tools/pygwregedit.py:986) |
| `PipeManager.ShownNamesFound` | tools/pygwregedit.py:206-228 | with distinct names and none literally "(Default)", every listed value name, translated, finds that very value on the server |
| `WinregBuffers.NewWinregString` | tools/pygwregedit.py:287-294 | a counted string of the given text, its length and size 8192; it fits exactly when the text has at most 8192 characters |
| `WinregBuffers.NewStringBuf` | tools/pygwregedit.py:296-303 | the same for the subkey-name receive buffer |
| `WinregBuffers.NewValNameBuf` | tools/pygwregedit.py:305-312 | the same for the value-name receive buffer |
| `RemoteRegistry.Pipe.OpenHive` | tools/pygwregedit.py:242 | a hive opens exactly when the server holds it, on a fresh handle; otherwise WERR_BADFILE |
| `RemoteRegistry.Pipe.OpenKey` | tools/pygwregedit.py:274-279 | a child opens on a fresh handle exactly when the parent handle is open and the child exists and is not refused |
| `RemoteRegistry.Pipe.CloseKey` | tools/pygwregedit.py:285 | the handle is released; closing a handle that is not open is WERR_INVALID_HANDLE |
| `RemoteRegistry.Pipe.EnumKey` | tools/pygwregedit.py:85-90 | the subkey name at the index, or WERR_NO_MORE_ITEMS past the end |
| `RemoteRegistry.Pipe.EnumValue` | tools/pygwregedit.py:122-128 | the value at the index, or WERR_NO_MORE_ITEMS past the end |
| `RemoteRegistry.Pipe.CreateKey` | tools/pygwregedit.py:176-184 | opens the child, creating it as the parent's last subkey when it is new |
| `RemoteRegistry.Pipe.DeleteKey` | tools/pygwregedit.py:203 | removes a child that has no subkeys of its own; refuses otherwise |
| `RemoteRegistry.Pipe.SetValue` | tools/pygwregedit.py:215 | replaces the value of that name in place, or appends it |
| `RemoteRegistry.Pipe.DeleteValue` | tools/pygwregedit.py:227 | removes the value of that name; fails when there is none |
| `Text.Words` | tools/pygwregedit.py:379 | `split()` without a separator: every word is non-empty and holds no whitespace |
| `Text.WordsSkipSpace` | tools/pygwregedit.py:379 | whitespace of any kind and length before a text adds no word |
| `Text.WordsTakeWord` | tools/pygwregedit.py:379 | a non-empty run of non-whitespace ending at whitespace or at the end is the first word, whole, followed by the words of the rest; with the empty text giving no words, this fixes the words of every text |
| `Text.WordsUnwords` | tools/pygwregedit.py:379 | non-empty words without whitespace, joined by spaces, split back into the same words |
| `Text.JoinSplit` | tools/pygwregedit.py:35-43 | the segments of a one-character split, joined by the separator, give back the text |
| `Text.SplitJoin` | tools/pygwregedit.py:35-43 | separator-free segments, joined and split again, come back unchanged |
| `Text.Find` | tools/pygwregedit.py:398 | `find` returns the lowest position where the term occurs, or -1 when it does not |
| `Search.Matches` | tools/pygwregedit.py:396-401 | a name matches exactly when some search term occurs in it |
| `Search.FirstHit` | tools/pygwregedit.py:415-437 | the first value in listing order whose text matches; none exactly when no value's does; a value whose data cannot be rendered matches nothing |
| `Search.ValuesHit` | tools/pygwregedit.py:413-440 | value names are all tried before any value data; a name hit or data hit names a listed value that matches, and nothing is found exactly when no value matches by an enabled test |
| `Search.Run` | tools/pygwregedit.py:375-447 | the stack walk (roots pushed reversed, each popped key's name tested, then listed, its values tested, its subkeys pushed reversed; a key that cannot be listed is passed over) returns the result of the recursive pre-order search over the roots in order |
| `Search.SearchAllMeaning` | tools/pygwregedit.py:375-447 | a hit matches and is reached from some root, with every root before it clean throughout; nothing is found exactly when every reached key of every root is clean |
| `Search.SearchKeyMeaning` | tools/pygwregedit.py:392-447 | below one key: a hit is reached from it and matches; nothing is found exactly when every key reached from it is clean |
| `Search.SearchChildrenMeaning` | tools/pygwregedit.py:443-447 | through the subkeys in listing order: a hit is reached from one of them; nothing is found exactly when the walk from each is clean |
| `Search.PushStep` | tools/pygwregedit.py:443-447 | pushing the subkeys reversed continues the search with them in listing order before the rest of the stack, and shrinks the work left |

## Left out

- Locking and threads: the pipe lock, the GUI lock, the fetch thread and the
  GUI itself; the model is single-threaded.
- The RPC transport, the credentials object and the `winreg` bindings: the
  server is the `Pipe` class, given to `Connect` as the connection made
  with the binding; authentication and transport failures are not modelled.
- Access masks, classes, security descriptors and time stamps passed to or
  returned by the remote calls; only names, types and data are kept.
- Progress-bar arithmetic and status messages of `ls_key`.
- Data decoding (`get_data_string`) is not part of this model: the search
  takes it as a function that may fail (`None`) on a value.
- The search's "not found" message and its dialog; the walk returns
  `NotFound` instead.
- Buffer sizes are recorded but not enforced: a name longer than 8192
  characters is sent as it is.
- `WinregBuffers.NewWinregString`: the conversion `unicode(string)` is not
  modelled; the source raises UnicodeDecodeError on a byte string holding a
  non-ASCII character, and for a byte string its `len` counts bytes, while
  the model takes names as character strings, never fails, and records the
  number of characters.
- `WinregBuffers.NewStringBuf`: the same `unicode(string)` conversion, its
  failure and its byte length are not modelled.
- `WinregBuffers.NewValNameBuf`: the same `unicode(string)` conversion, its
  failure and its byte length are not modelled.
- Key values of the source (`RegistryKey`, `RegistryValue`) are plain
  values here; renaming a key object in place and absolute-path rendering
  are not modelled.
- `PipeManager.WinRegPipeManager.ClosePath`: on failure it promises only the
  error code, not which handles were closed before the failure.
- `PipeManager.WinRegPipeManager.RemoveKey`: on failure it does not state
  which subtrees were removed before the failure, and it states the effect
  through the key tree and the deletion record rather than the full call log.
- `PipeManager.WinRegPipeManager.MoveValue`: the server model cannot fail
  the `SetValue` after the `DeleteValue` succeeded on the same handle, so
  the lossy outcome of a failure between the two calls is not exhibited.
- `Search.Run`: the handles a failed listing leaves open are only known to
  extend the table, and the calls the walk makes are not stated; the search
  reads the server's keys and never changes them.
- `PipeManager.WinRegPipeManager.RemoveSubkeys`: like `RemoveKey`, on
  failure it promises only the error code, not which subtrees were removed
  before the failure (so "stops at the first failure" is the loop's code, not
  a stated outcome), and it states the deletions and the resulting key tree,
  not the call log.
- `PipeManager.WinRegPipeManager.RemoveNthSubkey`: like `RemoveKey`, it
  states the deletions and the resulting key tree, not the call log.

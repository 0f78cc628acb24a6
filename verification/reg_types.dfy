/** Shared vocabulary of the remote registry session: handles, key paths,
    the Windows error codes the session reacts to, and the key and value
    records the client builds from what the server reports. */
module RegTypes {

  /** An open key handle, as issued by the server. */
  type Handle = nat

  /** Where a key lives on the server: the names from its hive root down to it. */
  type Path = seq<string>

  newtype byte = b: int | 0 <= b < 256

  // Windows error codes carried by a failed remote call
  const WERR_BADFILE: nat := 2
  const WERR_ACCESS_DENIED: nat := 5
  const WERR_INVALID_HANDLE: nat := 6
  const WERR_NO_MORE_ITEMS: nat := 0x103
  const WERR_KEY_DELETED: nat := 0x3FA

  /** The value type tag REG_SZ (a string). */
  const REG_SZ: nat := 1

  /** The display name of a key's default value (the value whose name is empty). */
  const DEFAULT_NAME: string := "(Default)"

  /** The exceptions the session raises. */
  datatype Error =
    | RuntimeError(code: nat)   // a failed remote call and its error code
    | NotImplementedError
    | IndexError
    | AttributeError

  datatype Result<T> = Ok(value: T) | Err(error: Error)

  datatype Option<T> = None | Some(value: T)

  /** A key as the client sees it: a hive root that carries its persistent
      handle, or a named child of another key. */
  datatype Key = Root(name: string, handle: Handle) | Sub(name: string, parent: Key)
  {
    /** A hive root has depth 1. */
    function Depth(): (d: nat)
      ensures d >= 1
    {
      match this
      case Root(_, _) => 1
      case Sub(_, p) => p.Depth() + 1
    }

    /** The names of the key's ancestors, root first, ending with its own name. */
    function Names(): (ns: seq<string>)
      ensures |ns| == Depth() && ns[|ns| - 1] == name
    {
      match this
      case Root(n, _) => [n]
      case Sub(n, p) => p.Names() + [n]
    }

    /** The handle stored on the key's hive root. */
    function RootHandle(): Handle
    {
      match this
      case Root(_, h) => h
      case Sub(_, p) => p.RootHandle()
    }
  }

  /** A value as the server reports it. */
  datatype RawValue = RawValue(name: string, vtype: nat, data: seq<byte>)

  /** A value as the client lists it, linked to the key it belongs to. */
  datatype Value = Value(name: string, vtype: nat, data: seq<byte>, parent: Key)

  /** Everything the server holds for one key: its subkey names and its values, in index order. */
  datatype Node = Node(children: seq<string>, values: seq<RawValue>)
}

/** The string records handed to the remote registry calls: a counted
    string for names sent to the server, and the two receive buffers for
    the subkey and value names the enumeration calls return. Each carries
    its text, the text's length and a fixed buffer size. */
module WinregBuffers {

  /** The size every buffer is declared with. */
  const BUFFER_SIZE: nat := 8192

  datatype WinregString = WinregString(name: string, nameLen: nat, nameSize: nat)
  datatype StringBuf = StringBuf(name: string, length: nat, size: nat)
  datatype ValNameBuf = ValNameBuf(name: string, length: nat, size: nat)

  /** The text fits the buffer it is declared in. */
  predicate Fits(length: nat, size: nat)
  {
    length <= size
  }

  /** A counted string for a key or value name sent to the server. */
  function NewWinregString(s: string): (ws: WinregString)
    ensures ws.name == s && ws.nameLen == |ws.name| && ws.nameSize == BUFFER_SIZE
    ensures Fits(ws.nameLen, ws.nameSize) <==> |s| <= BUFFER_SIZE
  {
    WinregString(s, |s|, BUFFER_SIZE)
  }

  /** A receive buffer for a subkey name or class, initialised with `s`. */
  function NewStringBuf(s: string): (b: StringBuf)
    ensures b.name == s && b.length == |b.name| && b.size == BUFFER_SIZE
    ensures Fits(b.length, b.size) <==> |s| <= BUFFER_SIZE
  {
    StringBuf(s, |s|, BUFFER_SIZE)
  }

  /** A receive buffer for a value name, initialised with `s`. */
  function NewValNameBuf(s: string): (b: ValNameBuf)
    ensures b.name == s && b.length == |b.name| && b.size == BUFFER_SIZE
    ensures Fits(b.length, b.size) <==> |s| <= BUFFER_SIZE
  {
    ValNameBuf(s, |s|, BUFFER_SIZE)
  }
}

/** What the session works out before it connects: the credentials taken
    from the user name the user typed, and the RPC binding string for the
    chosen transport. */
module Connection {
  import opened RegTypes
  import opened Text

  datatype Credentials = Credentials(domain: string, username: string, workstation: string, password: string)

  /** Splits a user name into domain and user. `DOMAIN\user` takes the text
      before the first backslash as the domain and the next segment as the
      user; failing that, `user@domain` takes the segment after the first
      `@` as the domain and the text before it as the user; otherwise the
      domain is empty. The workstation is always empty. */
  function ParseCredentials(username: string, password: string): (c: Credentials)
    ensures c.workstation == "" && c.password == password
    ensures '\\' in username ==>
      && c.domain == UpTo(username, '\\')
      && c.username == UpTo(username[FirstIndex(username, '\\') + 1..], '\\')
    ensures '\\' !in username && '@' in username ==>
      && c.domain == UpTo(username[FirstIndex(username, '@') + 1..], '@')
      && c.username == UpTo(username, '@')
    ensures '\\' !in username && '@' !in username ==> c.domain == "" && c.username == username
  {
    if '\\' in username then
      var parts := Split(username, '\\');
      SplitFirst(username, '\\');
      SplitFirst(username[FirstIndex(username, '\\') + 1..], '\\');
      Credentials(parts[0], parts[1], "", password)
    else if '@' in username then
      var parts := Split(username, '@');
      SplitFirst(username, '@');
      SplitFirst(username[FirstIndex(username, '@') + 1..], '@');
      Credentials(parts[1], parts[0], "", password)
    else
      Credentials("", username, "", password)
  }

  /** With exactly one backslash, domain and user put back together give the
      user name; with no backslash and exactly one `@`, user and domain do. */
  lemma ParseCredentialsRoundTrip(username: string, password: string)
    ensures '\\' in username && '\\' !in username[FirstIndex(username, '\\') + 1..] ==>
      var c := ParseCredentials(username, password);
      c.domain + "\\" + c.username == username
    ensures '\\' !in username && '@' in username && '@' !in username[FirstIndex(username, '@') + 1..] ==>
      var c := ParseCredentials(username, password);
      c.username + "@" + c.domain == username
  {
    if '\\' in username {
      var i := FirstIndex(username, '\\');
      assert username == username[..i] + "\\" + username[i + 1..];
    } else if '@' in username {
      var i := FirstIndex(username, '@');
      assert username == username[..i] + "@" + username[i + 1..];
    }
  }

  /** The protocol sequences of the three transports, in the order the
      transport choice indexes them. */
  const PROTOCOLS: seq<string> := ["ncacn_np", "ncacn_ip_tcp", "ncalrpc"]

  /** The binding string `protocol:address`. The transport choice indexes
      the protocol list the way a list index does: 0 to 2 from the front,
      -1 to -3 from the back, anything else fails with an IndexError. */
  function Binding(transportType: int, serverAddress: string): (r: Result<string>)
    ensures r.Ok? <==> -|PROTOCOLS| <= transportType < |PROTOCOLS|
    ensures r.Err? ==> r.error == IndexError
    ensures r.Ok? ==> r.value == PROTOCOLS[transportType % |PROTOCOLS|] + ":" + serverAddress
  {
    if 0 <= transportType < 3 then Ok(PROTOCOLS[transportType] + ":" + serverAddress)
    else if -3 <= transportType < 0 then Ok(PROTOCOLS[transportType + 3] + ":" + serverAddress)
    else Err(IndexError)
  }

  /** The position of `x` in `xs`, if it is there. */
  function IndexOf(xs: seq<string>, x: string): (r: Option<nat>)
    ensures r.Some? ==> r.value < |xs| && xs[r.value] == x && x !in xs[..r.value]
    ensures r.None? ==> x !in xs
  {
    if xs == [] then None
    else if xs[0] == x then Some(0)
    else match IndexOf(xs[1..], x)
      case None => None
      case Some(i) => Some(i + 1)
  }

  /** Reads a binding string back: the protocol's position in the protocol
      list and the server address after the first colon. */
  function ParseBinding(binding: string): Option<(nat, string)>
  {
    if ':' !in binding then None
    else
      var i := FirstIndex(binding, ':');
      match IndexOf(PROTOCOLS, binding[..i])
      case None => None
      case Some(k) => Some((k, binding[i + 1..]))
  }

  /** The binding string determines the transport and the address it was built from. */
  lemma BindingRoundTrip(transportType: int, serverAddress: string)
    requires Binding(transportType, serverAddress).Ok?
    ensures ParseBinding(Binding(transportType, serverAddress).value)
            == Some((transportType % |PROTOCOLS|, serverAddress))
  {
    var k := transportType % |PROTOCOLS|;
    var p := PROTOCOLS[k];
    var b := Binding(transportType, serverAddress).value;
    assert ':' !in p;
    assert b == p + [':'] + serverAddress;
    SplitAfter(p, ':', serverAddress);
    SplitFirst(b, ':');
    var i := FirstIndex(b, ':');
    assert b[..i] == p;
    assert b[i + 1..] == serverAddress;
  }
}

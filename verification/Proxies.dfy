/** The proxy from blocklist file to decision: server.c with all it uses. */
module Proxies {
  import opened Options
  import opened CStrings
  import opened SimpleSets
  import opened Growth
  import opened HostParser
  import opened Blocklists
  import opened SocketIO

  const FORBIDDEN: CString := "403 Forbidden\r\n\r\n"
  const OK: CString := "200 OK\r\n\r\n"

  datatype Decision = Refuse | Connect(host: CString, port: CString)

  /** What a connection asks for, given the bytes of its first read(); None is a failed read. */
  function Asked(firstRead: Option<seq<Byte>>): CString {
    if firstRead.None? then [] else AtNul(firstRead.value)
  }

  /** Nothing was read, or a request that `parseHost` can parse into its buffers, with terminators. */
  predicate Readable(firstRead: Option<seq<Byte>>) {
    firstRead.None? || firstRead.value == [] || (
      var parsed := Parse(Asked(firstRead));
      parsed.Some? && |parsed.value.0| < 1024 && |parsed.value.1| < 32)
  }

  /** The decision a blocklist calls for. */
  ghost function Decide(blocked: set<CString>, firstRead: Option<seq<Byte>>): Decision
    requires Readable(firstRead)
  {
    if firstRead.None? || firstRead.value == [] then Refuse
    else
      var (host, port) := Parse(Asked(firstRead)).value;
      if host in blocked then Refuse else Connect(host, port)
  }

  /** As much of the message was sent as the replies to its writes make it. */
  predicate FrontSent(before: seq<Byte>, after: seq<Byte>, replies: seq<Reply>, message: string) {
    var k := Transfer(replies, |message|, 0).moved;
    k <= |message| && after == before + message[..k]
  }

  /**
    `HandleConnection` up to the hand-over to the relay: the decision, and what the client is sent.
    Connecting to the destination succeeds, as the code asserts.
  */
  method HandleConnection(client: Socket, firstRead: Option<seq<Byte>>, blockedSet: SimpleSet) returns (decision: Decision)
    requires blockedSet.Valid()
    requires Readable(firstRead)
    modifies client`replies, client`sent
    ensures decision == Decide(blockedSet.Keys(), firstRead)
    ensures firstRead.None? || firstRead.value == [] ==> decision == Refuse
    ensures FrontSent(old(client.sent), client.sent, old(client.replies),
                      if decision == Refuse then "403 Forbidden\r\n\r\n" else "200 OK\r\n\r\n")
  {
    if firstRead.None? || firstRead.value == [] {
      var _ := WriteAll(client, FORBIDDEN, |FORBIDDEN|);
      return Refuse;
    }
    var inf := new HostInfo();
    ParseHost(AtNul(firstRead.value), inf);
    var hostname, port := AtNul(inf.hostname[..]), AtNul(inf.port[..]);
    var isBlocked := CheckBlocklist(blockedSet, hostname);
    if isBlocked != 0 {
      var _ := WriteAll(client, FORBIDDEN, |FORBIDDEN|);
      return Refuse;
    }
    var _ := WriteAll(client, OK, |OK|);
    return Connect(hostname, port);
  }

  /** A request cut off behind its port is still a rendered request. */
  lemma CutInRest(prefix: CString, host: CString, port: CString, rest: CString, got: nat)
    requires |Render(prefix, host, port, [])| <= got <= |Render(prefix, host, port, rest)|
    ensures var k := got - |Render(prefix, host, port, [])|;
            && k <= |rest|
            && Render(prefix, host, port, rest)[..got] == Render(prefix, host, port, rest[..k])
  {
  }

  lemma CutIsRead(prefix: CString, host: CString, port: CString, rest: CString, got: nat)
    requires Plain(prefix, host, port)
    requires |Render(prefix, host, port, [])| <= got <= |Render(prefix, host, port, rest)|
    ensures Parse(Asked(Some(Render(prefix, host, port, rest)[..got]))) == Some((host, port))
  {
    CutInRest(prefix, host, port, rest, got);
    AtNulOfString(Render(prefix, host, port, rest)[..got]);
    ParseInvertsRender(prefix, host, port, rest[..got - |Render(prefix, host, port, [])|]);
  }

  /**
    End to end, at the level of texts: for a blocklist file of terminated lines and a rendered
    request, of which the first read() gets `got` bytes, all up to the port at least and no more than
    its buffer holds, the connection is refused exactly if the host is one of the lines. Host and port
    leave room for their terminators in the buffers of `parseHost`.
  */
  lemma RefusedIffListed(hosts: seq<CString>, prefix: CString, host: CString, port: CString, rest: CString, got: nat)
    requires forall h | h in hosts :: OneLine(h)
    requires Plain(prefix, host, port) && |host| < 1024 && |port| < 32
    requires |Render(prefix, host, port, [])| <= got <= Min(|Render(prefix, host, port, rest)|, 1024 * 1024)
    ensures var firstRead := Render(prefix, host, port, rest)[..got];
            && Readable(Some(firstRead))
            && Decide(Loaded(File(hosts, [])), Some(firstRead)) == if host in hosts then Refuse else Connect(host, port)
  {
    CutIsRead(prefix, host, port, rest, got);
    ListedIsLoaded(hosts, []);
  }

  /**
    The two proxies, for every request that `parseHost` can parse into its buffers, every file that fits
    the array of the older one, and any first read of the older one that reaches behind the host. The
    older one sees the host up to any white space. They agree exactly if the whole host was seen and it
    is an entry, or else if refusing it matches there being an entry that is a proper prefix of it and
    no longer than what was seen.
  */
  lemma OldProxyCompared(file: CString, request: CString, got: nat)
    requires Parse(request).Some? && |Parse(request).value.0| < 1024 && |Parse(request).value.1| < 32
    requires 0 < |request| <= 1024 * 1024 && |Entries(file)| <= 100
    requires HostEnd(request) < got <= Min(|request|, 2047)
    ensures Asked(Some(request)) == request && StrStr(request[..got], HOST).Some?
    ensures var host := Parse(request).value.0;
            var k := Span(host, IsSpace);
            var refused := Decide(Loaded(file), Some(request)).Refuse?;
            var blocked := PrefixListed(Entries(file), Scanned(request[..got]));
            && (blocked <==> PrefixListed(Entries(file), host[..k]))
            && (refused && k == |host| ==> blocked)
            && ((refused <==> blocked) <==>
                || (k == |host| && refused)
                || (refused <==> exists i: nat :: i < |Entries(file)| && Entries(file)[i] < host && |Entries(file)[i]| <= k))
  {
    AtNulOfString(request);
    ScannedOfCut(request, got);
    ScanIsParseUpToSpace(request);
    SeenPrefixes(Entries(file), Parse(request).value.0, Span(Parse(request).value.0, IsSpace));
  }

  /** An entry that is a prefix of the first `k` bytes of a host is the host or a short enough proper prefix of it. */
  lemma SeenPrefixes(list: seq<CString>, host: CString, k: nat)
    requires k <= |host|
    ensures PrefixListed(list, host[..k]) <==>
            || (k == |host| && host in list)
            || exists i: nat :: i < |list| && list[i] < host && |list[i]| <= k
  {
    forall i: nat | i < |list|
      ensures list[i] <= host[..k] <==> (k == |host| && list[i] == host) || (list[i] < host && |list[i]| <= k)
    {
      if |list[i]| <= k {
        assert host[..k][..|list[i]|] == host[..|list[i]|];
      }
    }
    if host in list {
      var i: nat :| i < |list| && list[i] == host;
      assert k == |host| ==> list[i] <= host[..k];
    }
  }

  /**
    A Host field without a port: `parseHost` runs on over the line end to the next colon, so the host
    is no entry of any file and the connection is not refused, where the older proxy blocks by the name.
  */
  lemma NoPortNoRefusal(file: CString, prefix: CString, name: CString, rest: CString)
    requires Lacks(prefix, "Host: ") && forall i: nat | i < |name| :: !EndsHost(name[i])
    requires var parsed := Parse(prefix + "Host: " + (name + "\r\n" + rest));
             parsed.Some? && |parsed.value.0| < 1024 && |parsed.value.1| < 32
    ensures var request := prefix + "Host: " + (name + "\r\n" + rest);
            && Asked(Some(request)) == request
            && Decide(Loaded(file), Some(request)).Connect?
            && Scanned(request) == name
  {
    var request := prefix + "Host: " + (name + "\r\n" + rest);
    AtNulOfString(request);
    PortlessHost(prefix, name, rest);
    var host := Parse(request).value.0;
    assert host[..|name| + 2][|name| + 1] == '\n';
    EntriesAreOneLine(file);
  }

  /**
    End to end, with the machinery: load the file, read, decide. For every allocator the decision is
    the one that the entries with enough memory call for; with enough for all, that the file calls for.
  */
  method ServeOne(file: CString, realloc: Allocator, client: Socket, firstRead: Option<seq<Byte>>) returns (decision: Decision)
    requires Readable(firstRead) && (firstRead.Some? ==> |firstRead.value| <= 1024 * 1024)
    modifies client`replies, client`sent
    ensures decision == Decide(Kept(1024, Entries(file), realloc), firstRead)
    ensures FrontSent(old(client.sent), client.sent, old(client.replies),
                      if decision == Refuse then "403 Forbidden\r\n\r\n" else "200 OK\r\n\r\n")
    ensures Enough(1024, |Loaded(file)|, realloc) ==> decision == Decide(Loaded(file), firstRead)
  {
    var blockedSet := LoadBlocklist(file, realloc);
    decision := HandleConnection(client, firstRead, blockedSet);
  }
}

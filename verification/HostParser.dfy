/**
  Finding the host of a request: `parseHost` of utils.c, and the older scan in `parseReq` of
  redirect.c.
*/
module HostParser {
  import opened Options
  import opened CStrings

  const HOST: CString := "Host: "
  const COLON: CString := ":"
  const CRLF: CString := "\r\n"

  // ---- strstr ----

  predicate OccursAt(hay: CString, needle: CString, p: nat) {
    p + |needle| <= |hay| && hay[p..p + |needle|] == needle
  }

  /** The leftmost occurrence from offset `p` on. */
  function StrStrFrom(hay: CString, needle: CString, p: nat): (r: Option<nat>)
    requires p <= |hay|
    ensures r.Some? ==> p <= r.value && OccursAt(hay, needle, r.value)
    ensures r.Some? ==> forall q: nat | p <= q < r.value :: !OccursAt(hay, needle, q)
    ensures r.None? ==> forall q: nat | p <= q :: !OccursAt(hay, needle, q)
    decreases |hay| - p
  {
    if OccursAt(hay, needle, p) then Some(p)
    else if p == |hay| then None
    else StrStrFrom(hay, needle, p + 1)
  }

  /** `strstr`: the offset of the leftmost occurrence. */
  function StrStr(hay: CString, needle: CString): (r: Option<nat>)
    ensures r.Some? ==> OccursAt(hay, needle, r.value) && forall p: nat | p < r.value :: !OccursAt(hay, needle, p)
    ensures r.None? ==> forall p: nat :: !OccursAt(hay, needle, p)
  {
    StrStrFrom(hay, needle, 0)
  }

  /** No two occurrences of the needle can overlap: its first byte is nowhere else in it. */
  predicate Unbordered(needle: CString) {
    needle != [] && forall k: nat | 0 < k < |needle| :: needle[k] != needle[0]
  }

  lemma NoStraddling(s: CString, needle: CString, p: nat, q: nat)
    requires Unbordered(needle) && OccursAt(s, needle, q) && p < q < p + |needle|
    ensures !OccursAt(s, needle, p)
  {
    assert s[q..q + |needle|][0] == s[q];
    if p + |needle| <= |s| {
      assert s[p..p + |needle|][q - p] == s[q];
    }
  }

  lemma SeparatorsAreUnbordered()
    ensures Unbordered(HOST) && Unbordered(COLON) && Unbordered(CRLF)
  {
  }

  /**
    In `a + needle + b` the leftmost occurrence is the written one exactly if `a` has none; no
    occurrence straddles the join.
  */
  lemma FirstAtJoin(a: CString, needle: CString, b: CString)
    requires Unbordered(needle)
    ensures StrStr(a + needle + b, needle) == Some(|a|) <==> StrStr(a, needle).None?
  {
    var all := a + needle + b;
    assert all[|a|..|a| + |needle|] == needle;
    assert OccursAt(all, needle, |a|);
    forall p: nat | p < |a|
      ensures OccursAt(all, needle, p) <==> OccursAt(a, needle, p)
    {
      if p + |needle| <= |a| {
        assert all[p..p + |needle|] == a[p..p + |needle|];
      } else {
        NoStraddling(all, needle, p, |a|);
      }
    }
    if StrStr(a, needle).Some? {
      var p := StrStr(a, needle).value;
      assert OccursAt(a, needle, p);
    }
  }

  /** Conversely, a string with an occurrence falls apart at the leftmost one. */
  lemma SplitAtFirst(s: CString, needle: CString)
    requires Unbordered(needle) && StrStr(s, needle).Some?
    ensures var p := StrStr(s, needle).value;
            && p + |needle| <= |s| && s == s[..p] + needle + s[p + |needle|..]
            && StrStr(s[..p], needle).None?
  {
    var p := StrStr(s, needle).value;
    assert s == s[..p] + needle + s[p + |needle|..];
    FirstAtJoin(s[..p], needle, s[p + |needle|..]);
  }

  // ---- parseHost ----

  /** What `parseHost` makes of a request; None where the C code would follow a null pointer or abort. */
  function Parse(request: CString): Option<(CString, CString)> {
    var h := StrStr(request, HOST);
    if h.None? then None
    else
      var hostStart := request[h.value + |HOST|..];
      var colon := StrStr(hostStart, COLON);
      if colon.None? then None
      else
        var portStart := hostStart[colon.value + 1..];
        var end := StrStr(portStart, CRLF);
        if end.None? then None
        else Some((hostStart[..colon.value], portStart[..end.value]))
  }

  /** A request as a client writes it: anything, a Host field with a port (RFC 9110, section 7.2), anything. */
  function Render(prefix: CString, host: CString, port: CString, rest: CString): CString {
    prefix + "Host: " + (host + ":" + (port + "\r\n" + rest))
  }

  /** The text has no such part. */
  ghost predicate Lacks(s: CString, part: CString) {
    forall a: CString, b: CString :: s != a + part + b
  }

  lemma LacksIsNone(s: CString, part: CString)
    ensures StrStr(s, part).None? <==> Lacks(s, part)
  {
    if StrStr(s, part).Some? {
      var p := StrStr(s, part).value;
      assert s == s[..p] + part + s[p + |part|..];
    } else {
      forall a: CString, b: CString
        ensures s != a + part + b
      {
        assert (a + part + b)[|a|..|a| + |part|] == part;
        assert !OccursAt(s, part, |a|);
      }
    }
  }

  lemma NoColonIsNone(s: CString)
    ensures StrStr(s, COLON).None? <==> ':' !in s
  {
    if StrStr(s, COLON).Some? {
      var p := StrStr(s, COLON).value;
      assert s[p] == s[p..p + 1][0];
    } else {
      forall i: nat | i < |s|
        ensures s[i] != ':'
      {
        assert !OccursAt(s, COLON, i);
        assert s[i..i + 1] == [s[i]];
      }
    }
  }

  lemma PlainIsNone(prefix: CString, host: CString, port: CString)
    ensures Plain(prefix, host, port) <==> StrStr(prefix, HOST).None? && StrStr(host, COLON).None? && StrStr(port, CRLF).None?
  {
    LacksIsNone(prefix, HOST);
    NoColonIsNone(host);
    LacksIsNone(port, CRLF);
  }

  /** Nothing in the parts looks like the separator that ends them. */
  ghost predicate Plain(prefix: CString, host: CString, port: CString) {
    Lacks(prefix, "Host: ") && ':' !in host && Lacks(port, "\r\n")
  }

  /**
    Parsing inverts rendering: behind a prefix without a Host field, host and port come back exactly
    if the host has no colon and the port no line end.
  */
  lemma ParseInvertsRender(prefix: CString, host: CString, port: CString, rest: CString)
    requires Lacks(prefix, "Host: ")
    ensures Parse(Render(prefix, host, port, rest)) == Some((host, port)) <==> Plain(prefix, host, port)
  {
    SeparatorsAreUnbordered();
    PlainIsNone(prefix, host, port);
    LacksIsNone(prefix, HOST);
    var request := Render(prefix, host, port, rest);
    var portStart := port + CRLF + rest;
    var hostStart := host + COLON + portStart;
    FirstAtJoin(prefix, HOST, hostStart);
    assert request[|prefix| + |HOST|..] == hostStart;
    FirstAtJoin(host, COLON, portStart);
    FirstAtJoin(port, CRLF, rest);
    assert hostStart[..|host|] == host && hostStart[|host| + 1..] == portStart;
    assert portStart[..|port|] == port;
  }

  /** Nothing else parses: a request yields host and port exactly if it is rendered from them. */
  lemma ParseIffRendered(request: CString, host: CString, port: CString)
    ensures Parse(request) == Some((host, port)) <==>
            exists prefix, rest :: request == Render(prefix, host, port, rest) && Plain(prefix, host, port)
  {
    if Parse(request) == Some((host, port)) {
      var prefix, rest := ParsedIsRendered(request, host, port);
    }
    forall prefix, rest | request == Render(prefix, host, port, rest) && Plain(prefix, host, port)
      ensures Parse(request) == Some((host, port))
    {
      ParseInvertsRender(prefix, host, port, rest);
    }
  }

  lemma ParsedIsRendered(request: CString, host: CString, port: CString) returns (prefix: CString, rest: CString)
    requires Parse(request) == Some((host, port))
    ensures request == Render(prefix, host, port, rest) && Plain(prefix, host, port)
  {
    SeparatorsAreUnbordered();
    SplitAtFirst(request, HOST);
    prefix := request[..StrStr(request, HOST).value];
    var hostStart := request[|prefix| + |HOST|..];
    SplitAtFirst(hostStart, COLON);
    var portStart := hostStart[|host| + 1..];
    SplitAtFirst(portStart, CRLF);
    rest := portStart[|port| + |CRLF|..];
    PlainIsNone(prefix, host, port);
  }

  /** The caller's `hostinfo`. */
  class HostInfo {
    const hostname: array<Byte>
    const port: array<Byte>

    ghost predicate Allocated() {
      hostname.Length == 1024 && port.Length == 32 && hostname != port
    }

    constructor ()
      ensures Allocated() && fresh(hostname) && fresh(port)
    {
      hostname := new Byte[1024];
      port := new Byte[32];
    }
  }

  method MemSet0(buffer: array<Byte>)
    modifies buffer
    ensures forall i: nat | i < buffer.Length :: buffer[i] == '\0'
  {
    for i := 0 to buffer.Length
      invariant forall j: nat | j < i :: buffer[j] == '\0'
    {
      buffer[i] := '\0';
    }
  }

  /** `strncpy` of `n` bytes, none of which is NUL: no terminator is written. */
  method StrNCpy(dest: array<Byte>, src: CString, n: nat)
    requires n <= |src| && n <= dest.Length
    modifies dest
    ensures dest[..n] == src[..n] && dest[n..] == old(dest[n..])
  {
    for i := 0 to n
      invariant forall j: nat | j < i :: dest[j] == src[j]
      invariant dest[n..] == old(dest[n..])
    {
      dest[i] := src[i];
    }
  }

  /** `parseHost`. The buffers must have room for host and port with their terminators. */
  method ParseHost(request: CString, data: HostInfo)
    requires data.Allocated()
    requires Parse(request).Some? && |Parse(request).value.0| < 1024 && |Parse(request).value.1| < 32
    modifies data.hostname, data.port
    ensures Parse(request) == Some((AtNul(data.hostname[..]), AtNul(data.port[..])))
    ensures exists prefix: CString, rest: CString ::
              && request == prefix + "Host: " + (AtNul(data.hostname[..]) + ":" + (AtNul(data.port[..]) + "\r\n" + rest))
              && Lacks(prefix, "Host: ") && ':' !in AtNul(data.hostname[..]) && Lacks(AtNul(data.port[..]), "\r\n")
  {
    MemSet0(data.hostname);
    MemSet0(data.port);
    var hostStart := request[StrStr(request, HOST).value + |HOST|..];
    var colon := StrStr(hostStart, COLON);
    assert colon.Some?;
    StrNCpy(data.hostname, hostStart, colon.value);
    var portStart := hostStart[colon.value + 1..];
    var end := StrStr(portStart, CRLF);
    StrNCpy(data.port, portStart, end.value);
    assert data.hostname[colon.value..][0] == '\0' && data.port[end.value..][0] == '\0';
    AtNulIs(data.hostname[..], hostStart[..colon.value]);
    AtNulIs(data.port[..], portStart[..end.value]);
    ghost var prefix, rest := ParsedIsRendered(request, AtNul(data.hostname[..]), AtNul(data.port[..]));
  }

  // ---- The older scan ----

  /** `isspace` in the C locale. */
  predicate IsSpace(c: CChar) {
    c == ' ' || 9 <= c as int <= 13
  }

  predicate EndsHost(c: CChar) {
    c == ':' || IsSpace(c)
  }

  /** What is behind "Host: ". */
  function HostBegin(request: CString): CString
    requires StrStr(request, HOST).Some?
  {
    request[StrStr(request, HOST).value + |HOST|..]
  }

  function UpToEnd(s: CString): CString {
    s[..Span(s, EndsHost)]
  }

  /** The host as `parseReq` scans it: up to the first colon or white space behind "Host: ". */
  function Scanned(request: CString): CString
    requires StrStr(request, HOST).Some?
  {
    UpToEnd(HostBegin(request))
  }

  /** Where the scan ends: at the first colon or white space behind "Host: ". */
  function HostEnd(request: CString): nat
    requires StrStr(request, HOST).Some?
  {
    StrStr(request, HOST).value + |HOST| + |Scanned(request)|
  }

  lemma LeftmostIs(s: CString, needle: CString, p: nat)
    requires OccursAt(s, needle, p) && forall q: nat | q < p :: !OccursAt(s, needle, q)
    ensures StrStr(s, needle) == Some(p)
  {
    var r := StrStr(s, needle).value;
    assert !(r < p) && !(p < r);
  }

  lemma OccursInCut(s: CString, needle: CString, got: nat, q: nat)
    requires q + |needle| <= got <= |s|
    ensures OccursAt(s[..got], needle, q) <==> OccursAt(s, needle, q)
  {
    assert s[..got][q..q + |needle|] == s[q..q + |needle|];
  }

  /** An occurrence that a cut leaves whole is still the leftmost. */
  lemma FirstInCut(s: CString, needle: CString, got: nat)
    requires StrStr(s, needle).Some? && StrStr(s, needle).value + |needle| <= got <= |s|
    ensures StrStr(s[..got], needle) == StrStr(s, needle)
  {
    var p := StrStr(s, needle).value;
    forall q: nat | q <= p
      ensures OccursAt(s[..got], needle, q) <==> OccursAt(s, needle, q)
    {
      OccursInCut(s, needle, got, q);
    }
    LeftmostIs(s[..got], needle, p);
  }

  /** Nor does a cut behind the first stop change what is before that. */
  lemma EndInCut(s: CString, k: nat)
    requires |UpToEnd(s)| < k <= |s|
    ensures UpToEnd(s[..k]) == UpToEnd(s)
  {
    assert forall j: nat | j < k :: s[..k][j] == s[j];
  }

  lemma BeginInCut(request: CString, got: nat)
    requires StrStr(request, HOST).Some? && StrStr(request, HOST).value + |HOST| <= got <= |request|
    ensures StrStr(request[..got], HOST) == StrStr(request, HOST)
    ensures HostBegin(request[..got]) == HostBegin(request)[..got - StrStr(request, HOST).value - |HOST|]
  {
    FirstInCut(request, HOST, got);
  }

  /** A request cut off anywhere behind that place scans the same. */
  lemma ScannedOfCut(request: CString, got: nat)
    requires StrStr(request, HOST).Some? && HostEnd(request) < got <= |request|
    ensures StrStr(request[..got], HOST) == StrStr(request, HOST)
    ensures Scanned(request[..got]) == Scanned(request)
  {
    BeginInCut(request, got);
    EndInCut(HostBegin(request), got - StrStr(request, HOST).value - |HOST|);
  }

  /** The scan in `parseReq`; without a terminator it would leave the request. */
  method ScanHost(request: CString) returns (hostname: CString)
    requires StrStr(request, HOST).Some?
    requires exists i: nat :: StrStr(request, HOST).value + |HOST| <= i < |request| && EndsHost(request[i])
    ensures hostname == Scanned(request)
    ensures forall c | c in hostname :: c != ':' && c != ' ' && !(9 <= c as int <= 13)
    ensures var end := StrStr(request, "Host: ").value + 6 + |hostname|;
            && end < |request| && request[end - |hostname|..end] == hostname
            && (request[end] == ':' || request[end] == ' ' || 9 <= request[end] as int <= 13)
  {
    var hostBegin := request[StrStr(request, HOST).value + |HOST|..];
    var hostlen := 0;
    ghost var i: nat :| StrStr(request, HOST).value + |HOST| <= i < |request| && EndsHost(request[i]);
    assert EndsHost(hostBegin[i - StrStr(request, HOST).value - |HOST|]);
    while true
      invariant 0 <= hostlen <= Span(hostBegin, EndsHost) < |hostBegin|
      decreases |hostBegin| - hostlen
    {
      if hostBegin[hostlen] == ':' {
        break;
      }
      if IsSpace(hostBegin[hostlen]) {
        break;
      }
      hostlen := hostlen + 1;
    }
    hostname := hostBegin[..hostlen];
  }

  /** Behind a name, a line end and anything, the first colon is not before the line end. */
  lemma ColonBehindLine(name: CString, rest: CString)
    requires forall i: nat | i < |name| :: !EndsHost(name[i])
    ensures var hostBegin := name + CRLF + rest;
            && Span(hostBegin, EndsHost) == |name|
            && (StrStr(hostBegin, COLON).Some? ==> StrStr(hostBegin, COLON).value >= |name| + 2)
  {
    var hostBegin := name + CRLF + rest;
    assert forall i: nat | i < |name| :: hostBegin[i] == name[i];
    assert hostBegin[|name|] == '\r' && hostBegin[|name| + 1] == '\n';
    if StrStr(hostBegin, COLON).Some? {
      var c := StrStr(hostBegin, COLON).value;
      assert hostBegin[c..c + 1][0] == hostBegin[c];
    }
  }

  /** A Host field without a port: the scan gives the name, `parseHost` the name, the line end and more. */
  lemma PortlessHost(prefix: CString, name: CString, rest: CString)
    requires Lacks(prefix, "Host: ") && forall i: nat | i < |name| :: !EndsHost(name[i])
    ensures var request := prefix + "Host: " + (name + "\r\n" + rest);
            && StrStr(request, HOST).Some? && Scanned(request) == name
            && (Parse(request).Some? ==> name + CRLF <= Parse(request).value.0)
  {
    var hostBegin := name + CRLF + rest;
    SeparatorsAreUnbordered();
    LacksIsNone(prefix, HOST);
    FirstAtJoin(prefix, HOST, hostBegin);
    assert (prefix + HOST + hostBegin)[|prefix| + |HOST|..] == hostBegin;
    ColonBehindLine(name, rest);
    assert hostBegin[..|name|] == name;
    assert hostBegin[..|name| + 2] == name + CRLF;
  }

  /**
    The two parsers: wherever `parseHost` finds a host, the older scan finds as much of it as comes
    before any white space.
  */
  lemma ScanIsParseUpToSpace(request: CString)
    requires Parse(request).Some?
    ensures var host := Parse(request).value.0;
            Scanned(request) == host[..Span(host, IsSpace)]
  {
    var host := Parse(request).value.0;
    var hostBegin := request[StrStr(request, HOST).value + |HOST|..];
    var n, k := Span(host, IsSpace), Span(hostBegin, EndsHost);
    assert OccursAt(hostBegin, COLON, |host|);
    assert hostBegin[|host|..|host| + 1] == COLON;
    assert hostBegin[|host|] == ':';
    forall j: nat | j < |host|
      ensures host[j] == hostBegin[j] != ':'
    {
      assert !OccursAt(hostBegin, COLON, j);
      assert hostBegin[j..j + 1] == [hostBegin[j]];
    }
    assert k == n;
    assert hostBegin[..k] == host[..n];
  }
}

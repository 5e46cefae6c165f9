/**
  The blocklist: how server.c loads it into a hash set and looks hosts up, and how redirect.c keeps
  and scans it as a list.
*/
module Blocklists {
  import opened Options
  import opened CStrings
  import opened SetModel
  import opened Growth
  import opened SimpleSets
  import opened DefaultHashes

  // ---- The file ----

  predicate IsNewline(c: CChar) {
    c == '\n'
  }

  /** What one call of getline() takes from the text left: a line with its newline, or the rest. */
  function FirstLine(text: CString): (line: CString)
    requires text != []
    ensures line != [] && line <= text
  {
    var k := Span(text, IsNewline);
    if k < |text| then text[..k + 1] else text
  }

  /** A line as it is stored: without its last byte, whatever that is. */
  function Chop(line: CString): CString
    requires line != []
  {
    line[..|line| - 1]
  }

  /** The entries that loading a file gives, in order: one for each call of getline(). */
  function Entries(text: CString): seq<CString>
    decreases |text|
  {
    if text == [] then [] else [Chop(FirstLine(text))] + Entries(text[|FirstLine(text)|..])
  }

  ghost function Loaded(text: CString): set<CString> {
    Elements(Entries(text))
  }

  /** A file that lists hosts one a line, followed by a last line without a newline, or nothing. */
  function File(hosts: seq<CString>, last: CString): CString {
    if hosts == [] then last else hosts[0] + ['\n'] + File(hosts[1..], last)
  }

  predicate OneLine(s: CString) {
    forall i: nat | i < |s| :: s[i] != '\n'
  }

  /** Loading such a file: the hosts come back, but the unterminated last line loses its last byte. */
  lemma {:induction false} EntriesOfFile(hosts: seq<CString>, last: CString)
    requires OneLine(last) && forall h | h in hosts :: OneLine(h)
    ensures Entries(File(hosts, last)) == hosts + (if last == [] then [] else [last[..|last| - 1]])
    decreases |hosts|
  {
    if hosts == [] {
      EntriesOfLast(last);
    } else {
      EntriesOfFirst(hosts[0], File(hosts[1..], last));
      EntriesOfFile(hosts[1..], last);
      HeadFirst(hosts, if last == [] then [] else [Chop(last)]);
    }
  }

  lemma HeadFirst(hosts: seq<CString>, tail: seq<CString>)
    requires hosts != []
    ensures hosts + tail == [hosts[0]] + (hosts[1..] + tail)
  {
  }

  lemma EntriesOfFirst(h: CString, rest: CString)
    requires OneLine(h)
    ensures Entries(h + ['\n'] + rest) == [h] + Entries(rest)
  {
    FirstOfFile(h, rest);
  }

  lemma EntriesOfLast(last: CString)
    requires OneLine(last)
    ensures Entries(last) == if last == [] then [] else [Chop(last)]
  {
  }

  lemma FirstOfFile(h: CString, rest: CString)
    requires OneLine(h)
    ensures var text := h + ['\n'] + rest;
            FirstLine(text) == h + ['\n'] && Chop(FirstLine(text)) == h && text[|FirstLine(text)|..] == rest
  {
    var text := h + ['\n'] + rest;
    assert forall j: nat | j < |h| :: text[j] == h[j];
    assert text[|h|] == '\n';
    assert Span(text, IsNewline) == |h|;
  }

  /** Every file is of that form, so what is said of such files is said of all. */
  lemma {:induction false} EveryFileIsListed(text: CString) returns (hosts: seq<CString>, last: CString)
    ensures text == File(hosts, last) && OneLine(last) && forall h | h in hosts :: OneLine(h)
    decreases |text|
  {
    var k := Span(text, IsNewline);
    if k == |text| {
      hosts, last := [], text;
    } else {
      var rest;
      rest, last := EveryFileIsListed(text[k + 1..]);
      hosts := [text[..k]] + rest;
      assert text == text[..k] + ['\n'] + text[k + 1..];
    }
  }

  /** No entry, of any file, has a newline in it. */
  lemma EntriesAreOneLine(text: CString)
    ensures forall h | h in Loaded(text) :: OneLine(h)
  {
    var hosts, last := EveryFileIsListed(text);
    EntriesOfFile(hosts, last);
  }

  /** Terminated lines are loaded as they are; an unterminated one only if it is also a line before. */
  lemma ListedIsLoaded(hosts: seq<CString>, last: CString)
    requires OneLine(last) && forall h | h in hosts :: OneLine(h)
    ensures last != [] ==> (last in Loaded(File(hosts, last)) <==> last in hosts)
    ensures forall h | h in hosts :: h in Loaded(File(hosts, last))
    ensures Loaded(File(hosts, last)) == (set h | h in hosts) + (if last == [] then {} else {last[..|last| - 1]})
  {
    EntriesOfFile(hosts, last);
    assert last != [] ==> Chop(last) != last;
  }

  // ---- server.c: the hash set ----

  /** `checkBlocklist`. */
  method CheckBlocklist(blockedSet: SimpleSet, hostname: CString) returns (isBlocked: int)
    requires blockedSet.Valid()
    ensures isBlocked == if hostname in blockedSet.Keys() then 1 else 0
  {
    var code := blockedSet.Contains(hostname);
    if code == SET_TRUE {
      return 1;
    } else {
      return 0;
    }
  }

  /** Loading takes the first entry of what is left. */
  lemma EntryMoves(loaded: seq<CString>, rest: CString)
    requires rest != []
    ensures var line := FirstLine(rest);
            loaded + Entries(rest) == loaded + [Chop(line)] + Entries(rest[|line|..])
  {
  }

  /** Making the set and loading it: then it holds the entries of the file for which there is memory. */
  method LoadBlocklist(text: CString, realloc: Allocator) returns (blockedSet: SimpleSet)
    ensures fresh(blockedSet) && fresh(blockedSet.nodes) && blockedSet.hashFunction == DefaultHash
    ensures blockedSet.Valid() && Gathered(blockedSet.Model(), 1024, Entries(text), Loaded(text), realloc)
  {
    blockedSet := new SimpleSet(1024, None);
    ReadLines(blockedSet, text, realloc);
    GathersExactly(blockedSet.Model(), DefaultHash, 1024, Entries(text), realloc);
  }

  /** The loading loop of `main`. */
  method ReadLines(blockedSet: SimpleSet, text: CString, realloc: Allocator)
    requires blockedSet.Valid() && blockedSet.Keys() == {}
    modifies blockedSet, blockedSet.nodes
    ensures blockedSet.nodes == old(blockedSet.nodes) || fresh(blockedSet.nodes)
    ensures blockedSet.Holds(old(blockedSet.numberNodes), Entries(text), realloc)
  {
    EmptyGathers(blockedSet.Model(), blockedSet.hashFunction, realloc);
    ghost var n, done: seq<CString> := blockedSet.numberNodes, [];
    var rest := text;
    while rest != []
      invariant blockedSet.nodes == old(blockedSet.nodes) || fresh(blockedSet.nodes)
      invariant done + Entries(rest) == Entries(text)
      invariant blockedSet.Holds(n, done, realloc)
      decreases |rest|
    {
      rest, done := ReadLine(blockedSet, rest, realloc, n, done);
    }
    assert done == Entries(text);
  }

  /** One turn of it: getline(), the cut, and `set_add`, whose code is ignored. */
  method ReadLine(blockedSet: SimpleSet, text: CString, realloc: Allocator, ghost n: nat, ghost done: seq<CString>)
    returns (rest: CString, ghost more: seq<CString>)
    requires text != [] && blockedSet.Holds(n, done, realloc)
    modifies blockedSet, blockedSet.nodes
    ensures blockedSet.nodes == old(blockedSet.nodes) || fresh(blockedSet.nodes)
    ensures blockedSet.Holds(n, more, realloc)
    ensures |rest| < |text| && more + Entries(rest) == done + Entries(text)
  {
    var line := FirstLine(text);
    rest := text[|line|..];
    var entry := line[..|line| - 1];
    more := done + [entry];
    EntryMoves(done, text);
    AddGathers(blockedSet.Model(), blockedSet.hashFunction, n, done, realloc, entry);
    var _ := blockedSet.AddKey(entry, realloc);
  }

  // ---- redirect.c: the list ----

  /** `block_arr` and `block_list_size`. */
  class BlockArray {
    const blockArr: array<CString>
    var blockListSize: nat

    ghost predicate Valid()
      reads this
    {
      blockArr.Length == 100 && blockListSize <= 100
    }

    ghost function Contents(): seq<CString>
      requires Valid()
      reads this, blockArr
    {
      blockArr[..blockListSize]
    }

    constructor ()
      ensures Valid() && fresh(blockArr) && Contents() == []
    {
      blockArr := new CString[100](_ => []);
      blockListSize := 0;
    }

    method Append(entry: CString)
      requires Valid() && blockListSize < 100
      modifies this, blockArr
      ensures Valid() && Contents() == old(Contents()) + [entry]
    {
      blockArr[blockListSize] := entry;
      blockListSize := blockListSize + 1;
    }

    /** The loading loop of `main`; the array has room for 100 lines, and nothing checks that. */
    method Load(text: CString)
      requires Valid() && |Contents()| + |Entries(text)| <= 100
      modifies this, blockArr
      ensures Valid() && Contents() == old(Contents()) + Entries(text)
    {
      var rest := text;
      ghost var held, all := Contents(), Contents() + Entries(text);
      while rest != []
        invariant Valid() && Contents() == held
        invariant held + Entries(rest) == all
        decreases |rest|
      {
        var line := FirstLine(rest);
        EntryMoves(held, rest);
        Append(line[..|line| - 1]);
        held := held + [Chop(line)];
        rest := rest[|line|..];
      }
    }

    /** The scan in `parseReq`: strncmp() over the length of an entry compares it with the front of the host. */
    method IsBlocked(hostname: CString) returns (isBlocked: bool)
      requires Valid()
      ensures isBlocked == PrefixListed(Contents(), hostname)
    {
      isBlocked := false;
      for i := 0 to blockListSize
        invariant !PrefixListed(blockArr[..i], hostname)
      {
        assert forall j: nat | j <= i :: blockArr[..i + 1][j] == blockArr[j];
        if blockArr[i] <= hostname {
          assert Contents()[i] <= hostname;
          return true;
        }
      }
    }
  }

  predicate PrefixListed(list: seq<CString>, hostname: CString) {
    exists i: nat :: i < |list| && list[i] <= hostname
  }

  /**
    The two blocklists: what the hash set blocks the list blocks too, and they agree on a host
    exactly if no entry is a proper prefix of it, or it is an entry itself.
  */
  lemma ListsCompared(text: CString, hostname: CString)
    ensures hostname in Loaded(text) ==> PrefixListed(Entries(text), hostname)
    ensures (hostname in Loaded(text) <==> PrefixListed(Entries(text), hostname)) <==>
            hostname in Loaded(text) || forall i: nat | i < |Entries(text)| :: !(Entries(text)[i] < hostname)
  {
    var list := Entries(text);
    if hostname in Loaded(text) {
      var i: nat :| i < |list| && list[i] == hostname;
      assert list[i] <= hostname;
    }
    forall i: nat | i < |list|
      ensures list[i] <= hostname <==> list[i] < hostname || list[i] == hostname
    {
    }
  }
}

/** C strings as the sources use them: sequences of non-zero bytes. */
module CStrings {

  const TWO_64: nat := 0x1_0000_0000_0000_0000

  /** A byte of a C string; the terminating NUL is not part of the string. */
  type CChar = c: char | 0 < c as int < 256 witness 'a'

  /** What a `char*` points to, up to but not including its NUL. Equality is strcmp() == 0. */
  type CString = seq<CChar>

  /** A byte of a buffer, which may be NUL. */
  type Byte = c: char | c as int < 256

  /** The C string at the start of a buffer. */
  function AtNul(buffer: seq<Byte>): CString {
    if buffer == [] || buffer[0] == '\0' then [] else [buffer[0]] + AtNul(buffer[1..])
  }

  /** A string that was copied into a zeroed buffer with room to spare is what the buffer holds. */
  lemma {:induction false} AtNulIs(buffer: seq<Byte>, s: CString)
    requires |s| < |buffer| && s == buffer[..|s|] && buffer[|s|] == '\0'
    ensures AtNul(buffer) == s
    decreases |s|
  {
    if s != [] {
      AtNulIs(buffer[1..], s[1..]);
      assert s == [s[0]] + s[1..];
    }
  }

  /** Every C string is the one at the start of itself. */
  lemma {:induction false} AtNulOfString(s: CString)
    ensures AtNul(s) == s
    decreases |s|
  {
    if s != [] {
      AtNulOfString(s[1..]);
    }
  }

  /** The first place in `s` where `stop` holds, or its length. */
  function Span(s: CString, stop: CChar -> bool): (k: nat)
    ensures k <= |s|
    ensures forall j: nat | j < k :: !stop(s[j])
    ensures k < |s| ==> stop(s[k])
  {
    if s == [] || stop(s[0]) then 0 else 1 + Span(s[1..], stop)
  }

  /** A `uint64_t` hash value. */
  type Hash = h: nat | h < TWO_64

  type HashFunction = CString -> Hash
}

/** NUL-terminated strings in character buffers. */
module CStrings {
  import opened Words

  datatype Option<+T> = None | Some(value: T)

  const NUL: cchar := '\0'

  /** The string a buffer holds: the characters before its first NUL. */
  function CStr(buf: seq<cchar>): (s: seq<cchar>)
    ensures NUL !in s
  {
    if buf == [] || buf[0] == NUL then [] else [buf[0]] + CStr(buf[1..])
  }

  lemma {:induction false} CStrReads(s: seq<cchar>, rest: seq<cchar>)
    requires NUL !in s
    ensures CStr(s + [NUL] + rest) == s
  {
    var buf := s + [NUL] + rest;
    if s != [] {
      assert buf[1..] == s[1..] + [NUL] + rest;
      CStrReads(s[1..], rest);
    }
  }

  lemma {:induction false} CStrStarts(s: seq<cchar>, buf: seq<cchar>)
    requires NUL !in s && s <= buf
    ensures s <= CStr(buf)
  {
    if s != [] {
      CStrStarts(s[1..], buf[1..]);
      assert s == [s[0]] + s[1..];
    }
  }

  /** The string s lies in the buffer at position off, with its terminator. */
  ghost predicate StringAt(buf: seq<cchar>, off: nat, s: seq<cchar>) {
    off + |s| < |buf| && buf[off..off + |s|] == s && buf[off + |s|] == NUL
  }

  lemma CStrAt(buf: seq<cchar>, off: nat, s: seq<cchar>)
    requires StringAt(buf, off, s) && NUL !in s
    ensures CStr(buf[off..]) == s
  {
    assert buf[off..] == s + [NUL] + buf[off + |s| + 1..];
    CStrReads(s, buf[off + |s| + 1..]);
  }
}

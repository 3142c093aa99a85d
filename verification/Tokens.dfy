/** RemoteCtrlService.c, HandleCmd: cutting a command into its fields, in place, with strsep. */
module Tokens {
  import opened Words
  import opened CStrings

  /** ":\r\n\t" */
  predicate IsDelim(c: cchar) { c == ':' || c == '\r' || c == '\n' || c == '\t' }

  predicate DelimFree(s: seq<cchar>) { forall k :: 0 <= k < |s| ==> !IsDelim(s[k]) }

  /** The stretches between delimiters, empty ones included. */
  function Split(s: seq<cchar>): (ts: seq<seq<cchar>>)
    ensures |ts| > 0
  {
    if s == [] then [[]]
    else
      var ts := Split(s[1..]);
      if IsDelim(s[0]) then [[]] + ts else [[s[0]] + ts[0]] + ts[1..]
  }

  function Delims(s: seq<cchar>): seq<cchar> {
    if s == [] then [] else if IsDelim(s[0]) then [s[0]] + Delims(s[1..]) else Delims(s[1..])
  }

  /** Tokens with a delimiter after each but the last. */
  function Weave(ts: seq<seq<cchar>>, ds: seq<cchar>): seq<cchar>
    requires |ts| == |ds| + 1
  {
    if ds == [] then ts[0] else ts[0] + [ds[0]] + Weave(ts[1..], ds[1..])
  }

  // ---- splitting and weaving are inverse ----

  lemma {:induction false} SplitCount(s: seq<cchar>)
    ensures |Split(s)| == |Delims(s)| + 1
    ensures forall t :: t in Split(s) ==> DelimFree(t)
    ensures NUL !in s ==> forall t :: t in Split(s) ==> NUL !in t
  {
    if s != [] {
      SplitCount(s[1..]);
      assert Split(s[1..])[0] in Split(s[1..]);
    }
  }

  /** The cuts are at the four characters and nowhere else: no token keeps one, and nothing else is cut
      away. */
  lemma {:induction false} CutAtDelims(s: seq<cchar>)
    ensures forall t, c :: t in Split(s) && c in t ==> c !in ":\r\n\t"
    ensures forall d :: d in Delims(s) ==> d in ":\r\n\t"
  {
    if s != [] {
      CutAtDelims(s[1..]);
      assert Split(s[1..])[0] in Split(s[1..]);
    }
  }

  /** The tokens and the delimiters between them rebuild the command. */
  lemma {:induction false} WeaveOfSplit(s: seq<cchar>)
    ensures |Split(s)| == |Delims(s)| + 1 && Weave(Split(s), Delims(s)) == s
  {
    SplitCount(s);
    if s != [] {
      WeaveOfSplit(s[1..]);
      var ts, ds := Split(s[1..]), Delims(s[1..]);
      if IsDelim(s[0]) {
        assert Split(s)[1..] == ts && Delims(s)[1..] == ds;
      } else {
        WeavePrepends(s[0], ts, ds);
      }
      assert s == [s[0]] + s[1..];
    }
  }

  lemma WeavePrepends(c: cchar, ts: seq<seq<cchar>>, ds: seq<cchar>)
    requires |ts| == |ds| + 1
    ensures Weave([[c] + ts[0]] + ts[1..], ds) == [c] + Weave(ts, ds)
  {
    var ts' := [[c] + ts[0]] + ts[1..];
    if ds != [] {
      assert ts'[1..] == ts[1..];
      assert [c] + ts[0] + [ds[0]] + Weave(ts[1..], ds[1..]) == [c] + (ts[0] + [ds[0]] + Weave(ts[1..], ds[1..]));
    }
  }

  lemma {:induction false} SplitAfterToken(t: seq<cchar>, s: seq<cchar>)
    requires DelimFree(t)
    ensures Split(t + s) == [t + Split(s)[0]] + Split(s)[1..]
    ensures Delims(t + s) == Delims(s)
  {
    if t == [] {
      assert t + s == s && t + Split(s)[0] == Split(s)[0];
      assert Split(s) == [Split(s)[0]] + Split(s)[1..];
    } else {
      assert (t + s)[1..] == t[1..] + s;
      SplitAfterToken(t[1..], s);
      assert [t[0]] + (t[1..] + Split(s)[0]) == t + Split(s)[0];
    }
  }

  lemma SplitAtDelim(t: seq<cchar>, d: cchar, s: seq<cchar>)
    requires DelimFree(t) && IsDelim(d)
    ensures Split(t + [d] + s) == [t] + Split(s)
    ensures Delims(t + [d] + s) == [d] + Delims(s)
  {
    assert t + [d] + s == t + ([d] + s);
    assert ([d] + s)[1..] == s;
    SplitAfterToken(t, [d] + s);
    assert Split([d] + s) == [[]] + Split(s);
    assert t + [] == t;
  }

  lemma SplitToken(t: seq<cchar>)
    requires DelimFree(t)
    ensures Split(t) == [t] && Delims(t) == []
  {
    SplitAfterToken(t, []);
    assert t + [] == t;
  }

  /** Any delimiter-free tokens come back from the command they are woven into. */
  lemma {:induction false} SplitOfWeave(ts: seq<seq<cchar>>, ds: seq<cchar>)
    requires |ts| == |ds| + 1
    requires forall t :: t in ts ==> DelimFree(t)
    requires forall d :: d in ds ==> IsDelim(d)
    ensures Split(Weave(ts, ds)) == ts && Delims(Weave(ts, ds)) == ds
  {
    assert ts[0] in ts;
    if ds == [] {
      SplitToken(ts[0]);
      assert ts == [ts[0]];
    } else {
      SplitOfWeave(ts[1..], ds[1..]);
      SplitAtDelim(ts[0], ds[0], Weave(ts[1..], ds[1..]));
      assert ts == [ts[0]] + ts[1..] && ds == [ds[0]] + ds[1..];
    }
  }

  /** The first token of s ends at its first delimiter, and the others are those of what follows. */
  lemma FirstToken(s: seq<cchar>, n: nat)
    requires n <= |s| && DelimFree(s[..n]) && (n < |s| ==> IsDelim(s[n]))
    ensures Split(s) == [s[..n]] + if n == |s| then [] else Split(s[n + 1..])
  {
    if n == |s| {
      assert s[..n] == s;
      SplitToken(s);
    } else {
      assert s == s[..n] + [s[n]] + s[n + 1..];
      SplitAtDelim(s[..n], s[n], s[n + 1..]);
    }
  }

  // ---- the procedures ----

  /** strsep on the string in cmd. Pointers are positions in cmd, NULL is None; end is
      where the token's terminator now stands. */
  method StrSep(cmd: array<cchar>, cur: Option<nat>) returns (tok: Option<nat>, next: Option<nat>, ghost end: nat)
    requires cur.Some? ==> cur.value < cmd.Length
    requires cmd.Length > 0 && cmd[cmd.Length - 1] == NUL
    modifies cmd
    ensures tok == cur && (cur == None ==> next == None && cmd[..] == old(cmd[..]))
    ensures cmd[cmd.Length - 1] == NUL
    ensures cur.Some? ==>
      && cur.value <= end < cmd.Length
      && (forall k :: cur.value <= k < end ==> old(cmd[k]) !in ":\r\n\t\0") && old(cmd[end]) in ":\r\n\t\0"
      && next == (if old(cmd[end]) == NUL then None else Some(end + 1))
      && cmd[..] == old(cmd[..])[end := NUL]
  {
    tok, next, end := cur, None, 0;
    if cur == None {
      return;
    }
    var p := cur.value;
    while cmd[p] != NUL && !IsDelim(cmd[p])
      invariant cur.value <= p < cmd.Length
      invariant forall k :: cur.value <= k < p ==> cmd[k] !in ":\r\n\t\0"
      decreases cmd.Length - p
    {
      p := p + 1;
    }
    if cmd[p] != NUL {
      next := Some(p + 1);
      cmd[p] := NUL;
    }
    end := p;
    assert cmd[..] == old(cmd[..])[p := NUL];
  }

  /** The list entries before position i point at the first i tokens, which end before position c. */
  ghost predicate Stored(buf: seq<cchar>, list: seq<Option<nat>>, ts: seq<seq<cchar>>, i: nat, c: nat) {
    && i <= |ts| && i <= |list|
    && forall k :: 0 <= k < i ==> list[k].Some? && StringAt(buf, list[k].value, ts[k]) && list[k].value + |ts[k]| < c
  }

  lemma StoreNext(buf: seq<cchar>, list: seq<Option<nat>>, ts: seq<seq<cchar>>, i: nat, c: nat, p: nat)
    requires Stored(buf, list, ts, i, c) && i < |ts| && i < |list|
    requires c <= p < |buf| && buf[c..p] == ts[i]
    ensures Stored(buf[p := NUL], list[i := Some(c)], ts, i + 1, p + 1)
  {
    var buf', list' := buf[p := NUL], list[i := Some(c)];
    forall k | 0 <= k < i + 1
      ensures list'[k].Some? && StringAt(buf', list'[k].value, ts[k]) && list'[k].value + |ts[k]| < p + 1
    {
      if k < i {
        var off := list[k].value;
        assert buf'[off..off + |ts[k]|] == buf[off..off + |ts[k]|];
      } else {
        assert buf'[c..p] == buf[c..p];
      }
    }
  }

  /** The copy that is cut, with its terminator. */
  method Copy(s: seq<cchar>) returns (a: array<cchar>)
    ensures fresh(a) && a[..] == s + [NUL]
  {
    a := new cchar[|s| + 1](k requires 0 <= k <= |s| => if k < |s| then s[k] else NUL);
  }

  lemma Start(buf: seq<cchar>, list: seq<Option<nat>>, cmdstr: seq<cchar>)
    requires buf == cmdstr + [NUL]
    ensures Stored(buf, list, Split(cmdstr), 0, 0) && Pending(buf, cmdstr, Split(cmdstr), 0, Some(0))
    ensures |Split(cmdstr)| == |Delims(cmdstr)| + 1
  {
    SplitCount(cmdstr);
    assert cmdstr[0..] == cmdstr && buf[0..] == buf && Split(cmdstr)[0..] == Split(cmdstr);
  }

  /** What is left of the command at a pointer: its text up to the terminator, and its tokens. */
  ghost predicate Pending(buf: seq<cchar>, cmdstr: seq<cchar>, ts: seq<seq<cchar>>, i: nat, cur: Option<nat>) {
    match cur
    case None => i == |ts|
    case Some(c) =>
      && c <= |cmdstr| && c <= |buf| && i < |ts|
      && buf[c..] == cmdstr[c..] + [NUL] && ts[i..] == Split(cmdstr[c..])
  }

  lemma CutFound(buf: seq<cchar>, c: nat, p: nat)
    requires c <= p < |buf|
    requires (forall k :: c <= k < p ==> buf[k] !in ":\r\n\t\0") && buf[p] in ":\r\n\t\0"
    ensures DelimFree(buf[c..p]) && NUL !in buf[c..p] && (buf[p] == NUL || IsDelim(buf[p]))
  {
  }

  lemma PendingNext(buf: seq<cchar>, cmdstr: seq<cchar>, ts: seq<seq<cchar>>, i: nat, c: nat, p: nat)
    requires |buf| == |cmdstr| + 1 && NUL !in cmdstr && i <= |ts|
    requires c <= |buf| && Pending(buf, cmdstr, ts, i, Some(c))
    requires c <= p < |buf| && DelimFree(buf[c..p]) && (buf[p] == NUL || IsDelim(buf[p])) && NUL !in buf[c..p]
    ensures buf[c..p] == ts[i]
    ensures Pending(buf[p := NUL], cmdstr, ts, i + 1, if buf[p] == NUL then None else Some(p + 1))
    ensures buf[p] != NUL ==> p + 1 <= |cmdstr| && i + 1 < |ts|
  {
    hide Split, DelimFree, IsDelim;
    var s, n := cmdstr[c..], p - c;
    Aligned(buf, cmdstr, c, p);
    FirstToken(s, n);
    assert ts[i] == ts[i..][0] && ts[i + 1..] == ts[i..][1..];
    if n < |s| {
      assert s[n + 1..] == cmdstr[p + 1..];
    }
  }

  /** The uncut end of the buffer shows the command. */
  lemma Aligned(buf: seq<cchar>, cmdstr: seq<cchar>, c: nat, p: nat)
    requires |buf| == |cmdstr| + 1 && NUL !in cmdstr
    requires c <= p < |buf| && buf[c..] == cmdstr[c..] + [NUL]
    ensures buf[c..p] == cmdstr[c..][..p - c]
    ensures if p < |cmdstr| then buf[p] == cmdstr[c..][p - c] && buf[p] != NUL else buf[p] == NUL
    ensures p < |cmdstr| ==> buf[p := NUL][p + 1..] == cmdstr[p + 1..] + [NUL]
  {
    assert buf[c..][..p - c] == buf[c..p];
    assert buf[p] == buf[c..][p - c];
    if p < |cmdstr| {
      assert cmdstr[p] in cmdstr;
      assert buf[p := NUL][p + 1..] == buf[c..][p + 1 - c..];
    }
  }

  lemma StoredWithin(buf: seq<cchar>, list: seq<Option<nat>>, ts: seq<seq<cchar>>, i: nat, c: nat)
    requires Stored(buf, list, ts, i, c) && c <= |buf|
    ensures Stored(buf, list, ts, i, |buf|)
  {
  }

  lemma AllStored(buf: seq<cchar>, list: seq<Option<nat>>, cmdstr: seq<cchar>, ts: seq<seq<cchar>>, i: nat, c: nat)
    requires Stored(buf, list, ts, i, c) && Pending(buf, cmdstr, ts, i, None) && c <= |buf|
    ensures i == |ts| && Stored(buf, list, ts, |ts|, |buf|)
  {
  }

  /** The tokenising loop of HandleCmd: the command is copied, cut in place, and the list ends in NULL. With
      more tokens than the list can hold beside the NULL, the full list is reported instead: from there on
      the source writes past it. */
  method Tokenise(cmdstr: seq<cchar>) returns (cmd: array<cchar>, list: array<Option<nat>>, overrun: bool)
    requires NUL !in cmdstr
    ensures fresh(cmd) && fresh(list) && list.Length == 256
    ensures |Split(cmdstr)| == |Delims(cmdstr)| + 1 && Weave(Split(cmdstr), Delims(cmdstr)) == cmdstr
    ensures forall t, c :: t in Split(cmdstr) && c in t ==> c !in ":\r\n\t"
    ensures forall d :: d in Delims(cmdstr) ==> d in ":\r\n\t"
    ensures overrun <==> |Delims(cmdstr)| > 254
    ensures overrun ==> Stored(cmd[..], list[..], Split(cmdstr), 256, cmd.Length)
    ensures !overrun ==> Stored(cmd[..], list[..], Split(cmdstr), |Split(cmdstr)|, cmd.Length)
    ensures !overrun ==> forall k :: |Split(cmdstr)| <= k < 256 ==> list[k] == None
  {
    hide Split, Delims, Weave, Stored, Pending, DelimFree, IsDelim;
    ghost var ts := Split(cmdstr);
    WeaveOfSplit(cmdstr);
    CutAtDelims(cmdstr);
    cmd := Copy(cmdstr);
    list := new Option<nat>[256](_ => None);
    Start(cmd[..], list[..], cmdstr);
    var cur: Option<nat> := Some(0);
    var i := 0;
    ghost var c: nat := 0;
    overrun := false;
    while true
      invariant cmd.Length == |cmdstr| + 1 && cmd[|cmdstr|] == NUL && 0 <= i <= |ts| && i <= 256 && c <= cmd.Length
      invariant Stored(cmd[..], list[..], ts, i, c) && Pending(cmd[..], cmdstr, ts, i, cur)
      invariant forall k :: i <= k < 256 ==> list[k] == None
      invariant cur.Some? ==> cur.value == c <= |cmdstr| && i < |ts|
      decreases |ts| - i
    {
      ghost var buf, entries := cmd[..], list[..];
      StoredWithin(buf, entries, ts, i, c);
      if i == list.Length {
        overrun := true;
        return;
      }
      var tok, next;
      ghost var end: nat;
      tok, next, end := StrSep(cmd, cur);
      list[i] := tok;
      cur := next;
      if tok == None {
        assert list[..] == entries;
        AllStored(buf, entries, cmdstr, ts, i, c);
        return;
      }
      CutFound(buf, c, end);
      PendingNext(buf, cmdstr, ts, i, c, end);
      StoreNext(buf, entries, ts, i, c, end);
      i := i + 1;
      c := end + 1;
    }
  }
}

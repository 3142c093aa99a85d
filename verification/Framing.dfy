/** RemoteCtrlService.c: commands as frames on a stream socket, a 16-bit little-endian length that counts
    the terminator, then that many bytes. */
module Framing {
  import opened Words
  import opened CStrings

  // ---- what is sent ----

  /** The length stored for a command, with its terminator, in 16 bits. */
  function Head(cmd: seq<cchar>): nat { (|cmd| + 1) % 0x1_0000 }

  function HeaderBytes(h: nat): (s: seq<cchar>)
    requires h < 0x1_0000
    ensures |s| == 2
  {
    [(h % 0x100) as char, (h / 0x100) as char]
  }

  function Frame(cmd: seq<cchar>): seq<cchar> {
    HeaderBytes(Head(cmd)) + (cmd + [NUL])[..Head(cmd)]
  }

  /** With its terminator the command fits the 16 bits and the reader's buffer. */
  predicate Sendable(cmd: seq<cchar>, size: nat) { NUL !in cmd && |cmd| + 1 < 0x1_0000 && |cmd| + 1 <= size }

  function Frames(cmds: seq<seq<cchar>>): seq<cchar> {
    if cmds == [] then [] else Frame(cmds[0]) + Frames(cmds[1..])
  }

  // ---- what is read ----

  function Min(x: nat, y: nat): nat { if x < y then x else y }

  function HeaderValue(h0: cchar, h1: cchar): nat { h1 as int * 0x100 + h0 as int }

  /** One call of ReadCmd: its result, the buffer and the rest of the stream afterwards; or a frame that is
      longer than the buffer. */
  datatype Outcome = Read(err: nat, buf: seq<cchar>, rest: seq<cchar>) | Overrun

  /** The stream is all that the peer sends before it closes. When it closes after one byte of a header,
      the second is the one that was in memory. */
  function ReadOne(stream: seq<cchar>, buf: seq<cchar>, stale: cchar): Outcome {
    if stream == [] then Read(0, buf, [])
    else
      var len := HeaderValue(stream[0], if |stream| > 1 then stream[1] else stale);
      var rest := stream[Min(2, |stream|)..];
      if len == 0 then Read(Min(2, |stream|), buf, rest)
      else if len > |buf| then Overrun
      else if rest == [] then Read(0, buf, [])
      else
        var got := Min(len, |rest|);
        Read(got, (rest[..got] + buf[got..])[len - 1 := NUL], rest[got..])
  }

  lemma HeaderRoundTrip(h: nat)
    requires h < 0x1_0000
    ensures HeaderValue(HeaderBytes(h)[0], HeaderBytes(h)[1]) == h
  {
  }

  /** A frame that holds a whole command is read back as that command, and nothing after it is touched. */
  lemma WholeFrame(cmd: seq<cchar>, more: seq<cchar>, buf: seq<cchar>, stale: cchar)
    requires Sendable(cmd, |buf|)
    ensures ReadOne(Frame(cmd) + more, buf, stale).Read?
    ensures var r := ReadOne(Frame(cmd) + more, buf, stale);
      r.err == |cmd| + 1 && |r.buf| == |buf| && CStr(r.buf) == cmd && r.rest == more
  {
    var stream := Frame(cmd) + more;
    var n := |cmd| + 1;
    HeaderRoundTrip(n);
    assert stream[0] == HeaderBytes(n)[0] && stream[1] == HeaderBytes(n)[1];
    assert stream[2..] == cmd + [NUL] + more;
    var r := ReadOne(stream, buf, stale);
    assert stream[2..][..n] == cmd + [NUL];
    assert r.buf == cmd + [NUL] + buf[n..];
    CStrReads(cmd, buf[n..]);
  }

  /** A longer command is cut where its length wraps; when it wraps to zero nothing is delivered. */
  lemma CutFrame(cmd: seq<cchar>, more: seq<cchar>, buf: seq<cchar>, stale: cchar)
    requires NUL !in cmd && |cmd| + 1 >= 0x1_0000 && Head(cmd) <= |buf|
    ensures ReadOne(Frame(cmd) + more, buf, stale).Read?
    ensures var r := ReadOne(Frame(cmd) + more, buf, stale);
      && r.rest == more && r.err < |cmd| + 1
      && if Head(cmd) == 0 then r.buf == buf else CStr(r.buf) == cmd[..Head(cmd) - 1]
  {
    var stream := Frame(cmd) + more;
    var n := Head(cmd);
    HeaderRoundTrip(n);
    assert stream[0] == HeaderBytes(n)[0] && stream[1] == HeaderBytes(n)[1];
    assert stream[2..] == cmd[..n] + more;
    assert stream[2..][n..] == more;
    if n > 0 {
      assert stream[2..][..n] == cmd[..n];
      assert ReadOne(stream, buf, stale).buf == cmd[..n - 1] + [NUL] + buf[n..];
      CStrReads(cmd[..n - 1], buf[n..]);
    }
  }

  lemma TerminatorPlaced(head: seq<cchar>, buf: seq<cchar>, at: nat)
    requires |head| <= at < |buf|
    ensures (head + buf[|head|..])[at := NUL] == head + buf[|head|..at] + [NUL] + buf[at + 1..]
  {
  }

  lemma CutFrameParts(cmd: seq<cchar>, g: nat)
    requires |cmd| + 1 < 0x1_0000 && g <= |cmd|
    ensures Frame(cmd)[..2 + g] == HeaderBytes(|cmd| + 1) + cmd[..g]
  {
    assert Frame(cmd) == HeaderBytes(|cmd| + 1) + cmd + [NUL];
  }

  lemma CutFrameRead(cmd: seq<cchar>, g: nat, buf: seq<cchar>, stale: cchar)
    requires Sendable(cmd, |buf|) && 0 < g <= |cmd|
    ensures ReadOne(Frame(cmd)[..2 + g], buf, stale)
         == Read(g, cmd[..g] + buf[g..|cmd|] + [NUL] + buf[|cmd| + 1..], [])
  {
    hide Frame, HeaderBytes;
    var head := HeaderBytes(|cmd| + 1);
    CutFrameParts(cmd, g);
    HeaderRoundTrip(|cmd| + 1);
    assert (head + cmd[..g])[2..] == cmd[..g];
    TerminatorPlaced(cmd[..g], buf, |cmd|);
  }

  /** When the peer closes within a frame, what did arrive of the command is delivered in front of what the
      buffer held, with the terminator where the whole command would have had it. */
  lemma ClosedEarly(cmd: seq<cchar>, g: nat, buf: seq<cchar>, stale: cchar)
    requires Sendable(cmd, |buf|) && 0 < g <= |cmd|
    ensures var r := ReadOne(Frame(cmd)[..2 + g], buf, stale);
      && r == Read(g, cmd[..g] + buf[g..|cmd|] + [NUL] + buf[|cmd| + 1..], [])
      && cmd[..g] <= CStr(r.buf)
      && (g == |cmd| ==> CStr(r.buf) == cmd)
  {
    hide Frame, ReadOne, CStr;
    CutFrameRead(cmd, g, buf, stale);
    CStrStarts(cmd[..g], cmd[..g] + buf[g..|cmd|] + [NUL] + buf[|cmd| + 1..]);
    if g == |cmd| {
      assert cmd[..g] + buf[g..|cmd|] == cmd;
      CStrReads(cmd, buf[|cmd| + 1..]);
    }
  }

  /** The stored length alone decides whether the frame fits the buffer. */
  lemma FrameOverruns(cmd: seq<cchar>, more: seq<cchar>, buf: seq<cchar>, stale: cchar)
    ensures ReadOne(Frame(cmd) + more, buf, stale).Overrun? <==> Head(cmd) > |buf|
  {
    var stream := Frame(cmd) + more;
    HeaderRoundTrip(Head(cmd));
    assert stream[0] == HeaderBytes(Head(cmd))[0] && stream[1] == HeaderBytes(Head(cmd))[1];
  }

  /** So a command survives the channel exactly when its length with the terminator fits the 16 bits and
      the reader's buffer. */
  lemma FrameRoundTrip(cmd: seq<cchar>, more: seq<cchar>, buf: seq<cchar>, stale: cchar)
    requires NUL !in cmd
    ensures var r := ReadOne(Frame(cmd) + more, buf, stale);
      (r.Read? && r.err == |cmd| + 1 && CStr(r.buf) == cmd && r.rest == more)
      <==> |cmd| + 1 < 0x1_0000 && |cmd| + 1 <= |buf|
  {
    if Head(cmd) > |buf| {
      FrameOverruns(cmd, more, buf, stale);
    } else if |cmd| + 1 < 0x1_0000 {
      WholeFrame(cmd, more, buf, stale);
    } else {
      CutFrame(cmd, more, buf, stale);
    }
  }

  /** RECV_BUFF_LEN */
  const SERVER_BUFFER: nat := 1024

  /** With the server's buffer the longest command that survives has 1023 characters; one of 1024, which
      still fits the 16 bits, runs past the buffer. */
  lemma ServerLimit(c: cchar, more: seq<cchar>, buf: seq<cchar>, stale: cchar)
    requires c != NUL && |buf| == SERVER_BUFFER
    ensures var fits := seq(SERVER_BUFFER - 1, _ => c);
      var r := ReadOne(Frame(fits) + more, buf, stale);
      r.Read? && CStr(r.buf) == fits && r.rest == more
    ensures ReadOne(Frame(seq(SERVER_BUFFER, _ => c)) + more, buf, stale).Overrun?
  {
    WholeFrame(seq(SERVER_BUFFER - 1, _ => c), more, buf, stale);
    FrameOverruns(seq(SERVER_BUFFER, _ => c), more, buf, stale);
  }

  /** The commands read until a call returns nothing. */
  function ReadAll(stream: seq<cchar>, buf: seq<cchar>, stale: cchar): seq<seq<cchar>>
    decreases |stream|
  {
    var r := ReadOne(stream, buf, stale);
    if r.Overrun? || r.err == 0 then [] else [CStr(r.buf)] + ReadAll(r.rest, r.buf, stale)
  }

  /** What n calls return, and the stream they leave. */
  function ReadSome(n: nat, stream: seq<cchar>, buf: seq<cchar>, stale: cchar): (seq<seq<cchar>>, seq<cchar>) {
    if n == 0 then ([], stream)
    else
      var r := ReadOne(stream, buf, stale);
      if r.Overrun? then ([], stream)
      else
        var (cmds, rest) := ReadSome(n - 1, r.rest, r.buf, stale);
        ([CStr(r.buf)] + cmds, rest)
  }

  lemma ReadSomeStep(n: nat, stream: seq<cchar>, buf: seq<cchar>, stale: cchar)
    requires n > 0 && ReadOne(stream, buf, stale).Read?
    ensures var r := ReadOne(stream, buf, stale);
      var (cmds, rest) := ReadSome(n - 1, r.rest, r.buf, stale);
      ReadSome(n, stream, buf, stale) == ([CStr(r.buf)] + cmds, rest)
  {
  }

  lemma FirstFrame(cmds: seq<seq<cchar>>, more: seq<cchar>)
    requires cmds != []
    ensures Frames(cmds) + more == Frame(cmds[0]) + (Frames(cmds[1..]) + more)
  {
  }

  /** As many calls as frames return the commands and leave exactly what follows, whatever it is. */
  lemma {:induction false} FramesThenMore(cmds: seq<seq<cchar>>, more: seq<cchar>, buf: seq<cchar>, stale: cchar)
    requires forall cmd :: cmd in cmds ==> Sendable(cmd, |buf|)
    ensures ReadSome(|cmds|, Frames(cmds) + more, buf, stale) == (cmds, more)
  {
    if cmds == [] {
      assert Frames(cmds) + more == more;
    } else {
      hide Frame, Frames, ReadOne, ReadSome, CStr, Sendable;
      assert Sendable(cmds[0], |buf|);
      var rest := Frames(cmds[1..]) + more;
      var stream := Frame(cmds[0]) + rest;
      FirstFrame(cmds, more);
      WholeFrame(cmds[0], rest, buf, stale);
      ReadSomeStep(|cmds|, stream, buf, stale);
      FramesThenMore(cmds[1..], more, ReadOne(stream, buf, stale).buf, stale);
      assert cmds == [cmds[0]] + cmds[1..];
    }
  }

  /** The whole stream can be read without a frame longer than the buffer. */
  predicate AllFit(stream: seq<cchar>, buf: seq<cchar>, stale: cchar)
    decreases |stream|
  {
    var r := ReadOne(stream, buf, stale);
    r.Read? && (r.err > 0 ==> AllFit(r.rest, r.buf, stale))
  }

  /** Frames of commands that fit do. */
  lemma {:induction false} FramesFit(cmds: seq<seq<cchar>>, buf: seq<cchar>, stale: cchar)
    requires forall cmd :: cmd in cmds ==> Sendable(cmd, |buf|)
    ensures AllFit(Frames(cmds), buf, stale)
  {
    if cmds != [] {
      hide Frame, ReadOne, Sendable;
      assert Sendable(cmds[0], |buf|);
      var more := Frames(cmds[1..]);
      WholeFrame(cmds[0], more, buf, stale);
      FramesFit(cmds[1..], ReadOne(Frame(cmds[0]) + more, buf, stale).buf, stale);
    } else {
      assert ReadOne([], buf, stale).err == 0;
    }
  }

  /** Frames delimit themselves: the commands come out as they went in, one for one. */
  lemma {:induction false} FramesReadBack(cmds: seq<seq<cchar>>, buf: seq<cchar>, stale: cchar)
    requires forall cmd :: cmd in cmds ==> Sendable(cmd, |buf|)
    ensures ReadAll(Frames(cmds), buf, stale) == cmds
  {
    if cmds != [] {
      hide Frame, ReadOne, Sendable;
      assert Sendable(cmds[0], |buf|);
      var more := Frames(cmds[1..]);
      WholeFrame(cmds[0], more, buf, stale);
      FramesReadBack(cmds[1..], ReadOne(Frame(cmds[0]) + more, buf, stale).buf, stale);
    } else {
      assert ReadOne([], buf, stale).err == 0;
    }
  }

  // ---- the procedures ----

  /** A connected stream socket: the bytes sent and not yet received. */
  class Socket {
    var stream: seq<cchar>

    constructor ()
      ensures stream == []
    {
      stream := [];
    }

    method Send(data: seq<cchar>) returns (err: nat)
      modifies this
      ensures stream == old(stream) + data && err == |data|
    {
      stream := stream + data;
      err := |data|;
    }

    /** recv with MSG_WAITALL: less than asked for only when the peer has closed. */
    method Recv(buffer: array<cchar>, len: nat) returns (err: nat)
      requires len <= buffer.Length
      modifies this, buffer
      ensures err == Min(len, |old(stream)|) && stream == old(stream)[err..]
      ensures buffer[..] == old(stream)[..err] + old(buffer[err..])
    {
      err := Min(len, |stream|);
      forall k | 0 <= k < err {
        buffer[k] := stream[k];
      }
      stream := stream[err..];
    }
  }

  method SendCmd(fd: Socket, buffer: seq<cchar>) returns (err: int)
    requires NUL !in buffer
    modifies fd
    ensures fd.stream == old(fd.stream) + Frame(buffer) && err == 2
  {
    var head := (|buffer| + 1) % 0x1_0000;
    err := fd.Send(HeaderBytes(head));
    var _ := fd.Send((buffer + [NUL])[..head]);
  }

  lemma HeaderExpression(h0: cchar, h1: cchar)
    ensures Or(Shl(h1 as int, 8), h0 as int) == HeaderValue(h0, h1)
  {
    hide Pow2, Bitwise;
    PowersOfTwo();
    DisjointOr(h1 as int, h0 as int, 8);
  }

  /** stale is what the uninitialised header held. A length above the buffer's is reported instead of read:
      from there on the source writes past the buffer. */
  method ReadCmd(fd: Socket, buffer: array<cchar>, stale: cchar) returns (err: nat, overrun: bool)
    modifies fd, buffer
    ensures old(ReadOne(fd.stream, buffer[..], stale)) == if overrun then Overrun else Read(err, buffer[..], fd.stream)
    ensures overrun ==> buffer[..] == old(buffer[..])
  {
    hide Or, Shl;
    overrun := false;
    var header := new cchar[2](_ => stale);
    err := fd.Recv(header, 2);
    if err <= 0 {
      return;
    }
    HeaderExpression(header[0], header[1]);
    var cmdlen := Or(Shl(header[1] as int, 8), header[0] as int);
    if cmdlen > 0 {
      if cmdlen > buffer.Length {
        overrun := true;
        return;
      }
      err := fd.Recv(buffer, cmdlen);
      if err <= 0 {
        return;
      }
      buffer[cmdlen - 1] := NUL;
    }
  }

  lemma ReadAllStep(stream: seq<cchar>, buf: seq<cchar>, stale: cchar)
    ensures var r := ReadOne(stream, buf, stale);
      && (AllFit(stream, buf, stale) <==> r.Read? && (r.err > 0 ==> AllFit(r.rest, r.buf, stale)))
      && (ReadAll(stream, buf, stale)
          == if r.Read? && r.err > 0 then [CStr(r.buf)] + ReadAll(r.rest, r.buf, stale) else [])
      && (r.Read? ==> |r.rest| <= |stream| && if r.err > 0 then |r.rest| < |stream| else r.rest == [])
  {
  }

  lemma TakeFirst(cmds: seq<seq<cchar>>, cmd: seq<cchar>, rest: seq<seq<cchar>>)
    ensures cmds + ([cmd] + rest) == (cmds + [cmd]) + rest
  {
  }

  /** The reading half of the client loop. */
  method ReadCommands(fd: Socket, buffer: array<cchar>, stale: cchar) returns (cmds: seq<seq<cchar>>, overrun: bool)
    modifies fd, buffer
    ensures cmds == old(ReadAll(fd.stream, buffer[..], stale))
    ensures overrun <==> !old(AllFit(fd.stream, buffer[..], stale))
    ensures !overrun ==> fd.stream == []
  {
    hide ReadOne, ReadAll, AllFit, CStr;
    cmds := [];
    ghost var all, fit := ReadAll(fd.stream, buffer[..], stale), AllFit(fd.stream, buffer[..], stale);
    ghost var todo := all;
    ReadAllStep(fd.stream, buffer[..], stale);
    var err;
    err, overrun := ReadCmd(fd, buffer, stale);
    while !overrun && err > 0
      invariant all == cmds + todo
      invariant todo == if !overrun && err > 0 then [CStr(buffer[..])] + ReadAll(fd.stream, buffer[..], stale) else []
      invariant fit <==> !overrun && (err > 0 ==> AllFit(fd.stream, buffer[..], stale))
      invariant !overrun && err == 0 ==> fd.stream == []
      decreases if overrun then 0 else |fd.stream| + if err > 0 then 1 else 0
    {
      TakeFirst(cmds, CStr(buffer[..]), ReadAll(fd.stream, buffer[..], stale));
      cmds := cmds + [CStr(buffer[..])];
      todo := ReadAll(fd.stream, buffer[..], stale);
      ReadAllStep(fd.stream, buffer[..], stale);
      err, overrun := ReadCmd(fd, buffer, stale);
    }
  }

  lemma {:induction false} FramesAppend(cmds: seq<seq<cchar>>, cmd: seq<cchar>)
    ensures Frames(cmds + [cmd]) == Frames(cmds) + Frame(cmd)
  {
    hide Frame;
    if cmds == [] {
      assert cmds + [cmd] == [cmd] && [cmd][1..] == [];
    } else {
      assert (cmds + [cmd])[1..] == cmds[1..] + [cmd];
      FramesAppend(cmds[1..], cmd);
    }
  }

  /** Both ends of a connection: what is sent, command by command, is what the loop at the other end reads,
      and nothing is left. */
  method Exchange(fd: Socket, cmds: seq<seq<cchar>>, buffer: array<cchar>, stale: cchar)
    returns (received: seq<seq<cchar>>, overrun: bool)
    requires fd.stream == [] && forall cmd :: cmd in cmds ==> Sendable(cmd, buffer.Length)
    modifies fd, buffer
    ensures received == cmds && !overrun && fd.stream == []
  {
    hide Frame, ReadOne, ReadAll, AllFit;
    for i := 0 to |cmds|
      invariant fd.stream == Frames(cmds[..i])
      modifies fd
    {
      assert Sendable(cmds[i], buffer.Length);
      FramesAppend(cmds[..i], cmds[i]);
      assert cmds[..i + 1] == cmds[..i] + [cmds[i]];
      var err := SendCmd(fd, cmds[i]);
    }
    assert cmds[..|cmds|] == cmds;
    FramesFit(cmds, buffer[..], stale);
    FramesReadBack(cmds, buffer[..], stale);
    received, overrun := ReadCommands(fd, buffer, stale);
  }
}

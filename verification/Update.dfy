/** Update.c: the arguments of an update command, the check of the downloaded file, and the command's whole
    way from its printed form to that check. */
module Update {
  import opened Words
  import opened CStrings
  import opened Framing
  import opened Tokens
  import opened Md5Message
  import opened Md5Text

  type Text = seq<cchar>

  // ---- which value each argument gets ----

  datatype Field = Name | Size | Md5 | Key | Ver | Ip | Port

  function Prefix(f: Field): Text {
    match f
    case Name => "name="
    case Size => "size="
    case Md5 => "md5="
    case Key => "key="
    case Ver => "ver="
    case Ip => "ip="
    case Port => "port="
  }

  function LastToken(prefix: Text, ts: seq<Text>): (t: Option<Text>)
    ensures t.Some? ==> prefix <= t.value
  {
    if ts == [] then None
    else if prefix <= ts[|ts| - 1] then Some(ts[|ts| - 1])
    else LastToken(prefix, ts[..|ts| - 1])
  }

  /** The last token with the prefix decides; None is the NULL the variable starts with. */
  function LastValue(prefix: Text, ts: seq<Text>): Option<Text> {
    var t := LastToken(prefix, ts);
    if t == None then None else Some(t.value[|prefix|..])
  }

  /** CmdMain keeps the whole token; only its first five characters are compared. */
  function LastMain(ts: seq<Text>): Option<Text> { LastToken("updat", ts) }

  /** No token has the prefix, or last is one that has it and is followed by none. */
  ghost predicate IsLast(prefix: Text, ts: seq<Text>, last: Option<Text>) {
    match last
    case None => forall k :: 0 <= k < |ts| ==> !(prefix <= ts[k])
    case Some(t) =>
      exists k :: 0 <= k < |ts| && ts[k] == t && prefix <= t && forall j :: k < j < |ts| ==> !(prefix <= ts[j])
  }

  lemma {:induction false} LastTokenIsLast(prefix: Text, ts: seq<Text>)
    ensures IsLast(prefix, ts, LastToken(prefix, ts))
  {
    if ts != [] && !(prefix <= ts[|ts| - 1]) {
      var n := |ts| - 1;
      LastTokenIsLast(prefix, ts[..n]);
      assert forall k :: 0 <= k < n ==> ts[..n][k] == ts[k];
    }
  }

  /** The token that a value was the end of. */
  function Whole(prefix: Text, value: Option<Text>): Option<Text> {
    if value == None then None else Some(prefix + value.value)
  }

  lemma LastMainIsLast(ts: seq<Text>)
    ensures IsLast("updat", ts, LastMain(ts))
  {
    LastTokenIsLast("updat", ts);
  }

  lemma LastValueIsLast(prefix: Text, ts: seq<Text>)
    ensures IsLast(prefix, ts, Whole(prefix, LastValue(prefix, ts)))
  {
    LastTokenIsLast(prefix, ts);
  }

  /** Whether strncmp finds the first n characters equal. */
  predicate SameStart(literal: string, s: Text, n: nat)
    requires n <= |literal|
  {
    n <= |s| && s[..n] == literal[..n]
  }

  /** No token starts with two of the tested prefixes, so the order of the tests does not matter. */
  lemma PrefixesDiffer(t: Text)
    ensures forall f: Field :: SameStart(Prefix(f), t, |Prefix(f)|) <==> Prefix(f) <= t
    ensures SameStart("update", t, 5) <==> "updat" <= t
    ensures forall f: Field :: Prefix(f) <= t ==> !("updat" <= t)
    ensures forall f: Field, g: Field :: Prefix(f) <= t && Prefix(g) <= t ==> f == g
  {
    assert "update"[..5] == "updat";
    forall f: Field
      ensures SameStart(Prefix(f), t, |Prefix(f)|) <==> Prefix(f) <= t
      ensures Prefix(f) <= t ==> |t| > 0 && t[0] == Prefix(f)[0]
    {
      assert Prefix(f)[..|Prefix(f)|] == Prefix(f);
    }
    assert "updat" <= t ==> t[0] == 'u';
  }

  /** Each comparison tests the prefix of one field. */
  lemma PrefixTests(t: Text)
    ensures SameStart("update", t, 5) <==> "updat" <= t
    ensures SameStart("name=", t, 5) <==> Prefix(Name) <= t
    ensures SameStart("size=", t, 5) <==> Prefix(Size) <= t
    ensures SameStart("md5=", t, 4) <==> Prefix(Md5) <= t
    ensures SameStart("key=", t, 4) <==> Prefix(Key) <= t
    ensures SameStart("ver=", t, 4) <==> Prefix(Ver) <= t
    ensures SameStart("ip=", t, 3) <==> Prefix(Ip) <= t
    ensures SameStart("port=", t, 5) <==> Prefix(Port) <= t
  {
    PrefixesDiffer(t);
    PrefixTexts();
  }

  lemma PrefixTexts()
    ensures Prefix(Name) == "name=" && Prefix(Size) == "size=" && Prefix(Md5) == "md5=" && Prefix(Key) == "key="
    ensures Prefix(Ver) == "ver=" && Prefix(Ip) == "ip=" && Prefix(Port) == "port="
  {
  }

  lemma PrefixLengths()
    ensures |Prefix(Name)| == |Prefix(Size)| == |Prefix(Port)| == 5
    ensures |Prefix(Md5)| == |Prefix(Key)| == |Prefix(Ver)| == 4 && |Prefix(Ip)| == 3
  {
  }

  class Arguments {
    var main: Option<Text>
    var name: Option<Text>
    var size: Option<Text>
    var md5: Option<Text>
    var key: Option<Text>
    var ver: Option<Text>
    var ip: Option<Text>
    var port: Option<Text>

    constructor ()
      ensures main == name == size == md5 == key == ver == ip == port == None
    {
      main, name, size, md5, key, ver, ip, port := None, None, None, None, None, None, None, None;
    }

    function Value(f: Field): Option<Text>
      reads this
    {
      match f
      case Name => name
      case Size => size
      case Md5 => md5
      case Key => key
      case Ver => ver
      case Ip => ip
      case Port => port
    }

    /** One pass of the chain of comparisons. */
    method Take(t: Text)
      modifies this
      ensures main == if "updat" <= t then Some(t) else old(main)
      ensures forall f: Field :: Value(f) == if Prefix(f) <= t then Some(t[|Prefix(f)|..]) else old(Value(f))
    {
      hide SameStart, Prefix;
      PrefixLengths();
      PrefixTests(t);
      PrefixesDiffer(t);
      if SameStart("update", t, 5) {
        main := Some(t);
      } else if SameStart("name=", t, 5) {
        name := Some(t[5..]);
      } else if SameStart("size=", t, 5) {
        size := Some(t[5..]);
      } else if SameStart("md5=", t, 4) {
        md5 := Some(t[4..]);
      } else if SameStart("key=", t, 4) {
        key := Some(t[4..]);
      } else if SameStart("ver=", t, 4) {
        ver := Some(t[4..]);
      } else if SameStart("ip=", t, 3) {
        ip := Some(t[3..]);
      } else if SameStart("port=", t, 5) {
        port := Some(t[5..]);
      }
    }
  }

  lemma LastTokenStep(prefix: Text, ts: seq<Text>, t: Text)
    ensures LastToken(prefix, ts + [t]) == if prefix <= t then Some(t) else LastToken(prefix, ts)
  {
    assert (ts + [t])[..|ts|] == ts;
  }

  lemma ScanStep(ts: seq<Text>, i: nat)
    requires i < |ts|
    ensures LastMain(ts[..i + 1]) == if "updat" <= ts[i] then Some(ts[i]) else LastMain(ts[..i])
    ensures forall f: Field ::
      LastValue(Prefix(f), ts[..i + 1])
      == if Prefix(f) <= ts[i] then Some(ts[i][|Prefix(f)|..]) else LastValue(Prefix(f), ts[..i])
  {
    assert ts[..i + 1] == ts[..i] + [ts[i]];
    LastTokenStep("updat", ts[..i], ts[i]);
    forall f: Field
      ensures LastValue(Prefix(f), ts[..i + 1])
           == if Prefix(f) <= ts[i] then Some(ts[i][|Prefix(f)|..]) else LastValue(Prefix(f), ts[..i])
    {
      LastTokenStep(Prefix(f), ts[..i], ts[i]);
    }
  }

  lemma NothingScanned()
    ensures LastMain([]) == None && forall f: Field :: LastValue(Prefix(f), []) == None
  {
  }

  /** The scan of DoUpdate over a list that ends in NULL. */
  method ScanArguments(cmd: array<cchar>, list: array<Option<nat>>, ghost ts: seq<Text>) returns (args: Arguments)
    requires |ts| < list.Length && Stored(cmd[..], list[..], ts, |ts|, cmd.Length) && list[|ts|] == None
    requires forall t :: t in ts ==> NUL !in t
    ensures fresh(args) && args.main == LastMain(ts)
    ensures forall f: Field :: args.Value(f) == LastValue(Prefix(f), ts)
    ensures IsLast("updat", ts, args.main)
    ensures forall f: Field :: IsLast(Prefix(f), ts, Whole(Prefix(f), args.Value(f)))
  {
    hide IsLast, Whole, LastMain, LastValue, Prefix;
    NothingScanned();
    assert ts[..0] == [];
    args := new Arguments();
    var i := 0;
    while list[i].Some?
      invariant 0 <= i <= |ts|
      invariant args.main == LastMain(ts[..i])
      invariant forall f: Field :: args.Value(f) == LastValue(Prefix(f), ts[..i])
      decreases |ts| - i
      modifies args
    {
      var t := CStr(cmd[list[i].value..]);
      CStrAt(cmd[..], list[i].value, ts[i]);
      assert ts[i] in ts;
      assert cmd[list[i].value..] == cmd[..][list[i].value..];
      ScanStep(ts, i);
      args.Take(t);
      i := i + 1;
    }
    assert ts[..i] == ts;
    LastMainIsLast(ts);
    forall f: Field
      ensures IsLast(Prefix(f), ts, Whole(Prefix(f), args.Value(f)))
    {
      LastValueIsLast(Prefix(f), ts);
    }
  }

  // ---- the printed command and what becomes of it ----

  datatype Setting = Setting(field: Field, value: Text)

  function TokenOf(s: Setting): Text { Prefix(s.field) + s.value }

  /** head:field=value:...:field=value and a line end, for the settings in any order and repeated at will. */
  function Printed(head: Text, settings: seq<Setting>): Text
    decreases |settings|
  {
    if settings == [] then head + "\r\n" else head + ":" + Printed(TokenOf(settings[0]), settings[1..])
  }

  function SettingTokens(settings: seq<Setting>): seq<Text> {
    seq(|settings|, i requires 0 <= i < |settings| => TokenOf(settings[i]))
  }

  /** The value a field was given last. */
  function LastSet(f: Field, settings: seq<Setting>): Option<Text> {
    if settings == [] then None
    else if settings[|settings| - 1].field == f then Some(settings[|settings| - 1].value)
    else LastSet(f, settings[..|settings| - 1])
  }

  /** No later setting is for the field of setting k. */
  predicate Latest(settings: seq<Setting>, k: int) {
    0 <= k < |settings| && forall j :: k < j < |settings| ==> settings[j].field != settings[k].field
  }

  lemma {:induction false} LatestIsLastSet(settings: seq<Setting>, k: nat)
    requires Latest(settings, k)
    ensures LastSet(settings[k].field, settings) == Some(settings[k].value)
  {
    var n := |settings| - 1;
    if k < n {
      LatestIsLastSet(settings[..n], k);
    }
  }

  lemma {:induction false} UnsetIsNone(settings: seq<Setting>, f: Field)
    requires forall k :: 0 <= k < |settings| ==> settings[k].field != f
    ensures LastSet(f, settings) == None
  {
    if settings != [] {
      UnsetIsNone(settings[..|settings| - 1], f);
    }
  }

  predicate Clean(t: Text) { forall k :: 0 <= k < |t| ==> t[k] !in ":\r\n\t\0" }

  lemma CleanIsUncut(t: Text)
    ensures Clean(t) <==> DelimFree(t) && NUL !in t
  {
    assert forall c: cchar :: c in ":\r\n\t\0" <==> IsDelim(c) || c == NUL;
  }

  /** The head is the name of the library procedure, which is none of the arguments. */
  predicate CleanCommand(head: Text, settings: seq<Setting>) {
    && Clean(head) && (forall f: Field :: !(Prefix(f) <= head))
    && forall i :: 0 <= i < |settings| ==> Clean(settings[i].value)
  }

  lemma PrefixIsClean(f: Field)
    ensures Clean(Prefix(f))
  {
  }

  lemma CleanToken(s: Setting)
    requires Clean(s.value)
    ensures Clean(TokenOf(s))
  {
    hide Prefix;
    PrefixIsClean(s.field);
  }

  lemma {:induction false} PrintedSplits(head: Text, settings: seq<Setting>)
    requires Clean(head) && forall i :: 0 <= i < |settings| ==> Clean(settings[i].value)
    ensures Split(Printed(head, settings)) == [head] + SettingTokens(settings) + [[], []]
    ensures |Delims(Printed(head, settings))| == |settings| + 2
    ensures NUL !in Printed(head, settings)
    decreases |settings|
  {
    if settings == [] {
      assert head + "\r\n" == head + ['\r'] + "\n";
      assert "\n" == [] + ['\n'] + [];
      SplitAtDelim(head, '\r', "\n");
      SplitAtDelim([], '\n', []);
      assert [head] + ([[]] + [[]]) == [head] + SettingTokens([]) + [[], []];
    } else {
      var rest := Printed(TokenOf(settings[0]), settings[1..]);
      CleanToken(settings[0]);
      PrintedSplits(TokenOf(settings[0]), settings[1..]);
      SplitAtDelim(head, ':', rest);
      assert SettingTokens(settings) == [TokenOf(settings[0])] + SettingTokens(settings[1..]);
    }
  }

  lemma TokenStarts(s: Setting, f: Field)
    ensures Prefix(f) <= TokenOf(s) <==> s.field == f
    ensures s.field == f ==> TokenOf(s)[|Prefix(f)|..] == s.value
  {
    PrefixesDiffer(TokenOf(s));
    assert Prefix(s.field) <= TokenOf(s);
  }

  lemma SettingTokensStep(settings: seq<Setting>)
    requires settings != []
    ensures var n := |settings| - 1;
      SettingTokens(settings) == SettingTokens(settings[..n]) + [TokenOf(settings[n])]
  {
  }

  lemma {:induction false} LastSettingFound(settings: seq<Setting>, f: Field)
    ensures LastValue(Prefix(f), SettingTokens(settings)) == LastSet(f, settings)
  {
    if settings != [] {
      var n := |settings| - 1;
      SettingTokensStep(settings);
      LastTokenStep(Prefix(f), SettingTokens(settings[..n]), TokenOf(settings[n]));
      TokenStarts(settings[n], f);
      LastSettingFound(settings[..n], f);
    }
  }

  lemma {:induction false} NoSettingIsMain(settings: seq<Setting>)
    ensures LastMain(SettingTokens(settings)) == None
  {
    if settings != [] {
      var n := |settings| - 1;
      SettingTokensStep(settings);
      LastTokenStep("updat", SettingTokens(settings[..n]), TokenOf(settings[n]));
      PrefixesDiffer(TokenOf(settings[n]));
      NoSettingIsMain(settings[..n]);
    }
  }

  lemma {:induction false} LastTokenAfter(prefix: Text, head: Text, ts: seq<Text>)
    ensures LastToken(prefix, [head] + ts)
         == if LastToken(prefix, ts).Some? then LastToken(prefix, ts) else if prefix <= head then Some(head) else None
  {
    if ts == [] {
      LastTokenStep(prefix, [], head);
      assert [] + [head] == [head] + ts;
    } else {
      var n := |ts| - 1;
      LastTokenAfter(prefix, head, ts[..n]);
      LastTokenStep(prefix, [head] + ts[..n], ts[n]);
      assert [head] + ts == [head] + ts[..n] + [ts[n]];
    }
  }

  /** The last token of a printed command that has a prefix is the last setting's that has it, or else the
      head. */
  lemma LastPrinted(prefix: Text, head: Text, settings: seq<Setting>)
    requires prefix != [] && CleanCommand(head, settings)
    ensures var t := LastToken(prefix, SettingTokens(settings));
      LastToken(prefix, Split(Printed(head, settings)))
      == if t.Some? then t else if prefix <= head then Some(head) else None
  {
    var ts := [head] + SettingTokens(settings);
    PrintedSplits(head, settings);
    LastTokenStep(prefix, ts, []);
    LastTokenStep(prefix, ts + [[]], []);
    assert ts + [[], []] == ts + [[]] + [[]];
    LastTokenAfter(prefix, head, SettingTokens(settings));
  }

  /** Cutting the printed command into tokens and scanning them gives every field its last setting. */
  lemma SettingsRecovered(head: Text, settings: seq<Setting>, f: Field)
    requires CleanCommand(head, settings)
    ensures LastValue(Prefix(f), Split(Printed(head, settings))) == LastSet(f, settings)
  {
    LastPrinted(Prefix(f), head, settings);
    LastSettingFound(settings, f);
  }

  /** The head is the command's name when it begins as "update" does, and otherwise there is none. */
  lemma MainRecovered(head: Text, settings: seq<Setting>)
    requires CleanCommand(head, settings)
    ensures LastMain(Split(Printed(head, settings))) == if "updat" <= head then Some(head) else None
  {
    LastPrinted("updat", head, settings);
    NoSettingIsMain(settings);
  }

  lemma AllRecovered(head: Text, settings: seq<Setting>)
    requires CleanCommand(head, settings)
    ensures var ts := Split(Printed(head, settings));
      && LastMain(ts) == (if "updat" <= head then Some(head) else None)
      && forall f: Field :: LastValue(Prefix(f), ts) == LastSet(f, settings)
    ensures forall k :: Latest(settings, k) ==> LastSet(settings[k].field, settings) == Some(settings[k].value)
  {
    MainRecovered(head, settings);
    forall f: Field
      ensures LastValue(Prefix(f), Split(Printed(head, settings))) == LastSet(f, settings)
    {
      SettingsRecovered(head, settings, f);
    }
    forall k | Latest(settings, k)
      ensures LastSet(settings[k].field, settings) == Some(settings[k].value)
    {
      LatestIsLastSet(settings, k);
    }
  }

  lemma PrintedNext(text: Text, literal: Text, settings: seq<Setting>, k: nat) returns (next: Text)
    requires k < |settings| && literal == ":" + Prefix(settings[k].field)
    ensures next == text + literal + settings[k].value
    ensures Printed(text, settings[k..]) == Printed(next, settings[k + 1..])
  {
    hide Prefix;
    next := text + literal + settings[k].value;
    var s, rest := settings[k], settings[k + 1..];
    assert settings[k..][1..] == rest;
    PrintedJoins(text + ":", TokenOf(s), rest);
    assert text + ":" + TokenOf(s) == next;
    assert text + (":" + Printed(TokenOf(s), rest)) == text + ":" + Printed(TokenOf(s), rest);
  }

  lemma PrintedNone(head: Text)
    ensures Printed(head, []) == head + "\r\n"
  {
  }

  lemma PrintedJoins(text: Text, head: Text, settings: seq<Setting>)
    ensures text + Printed(head, settings) == Printed(text + head, settings)
  {
  }

  /** The text of a command that gives every argument once. */
  lemma PrintedInFull(head: Text, name: Text, size: Text, md5: Text, key: Text, ver: Text, ip: Text, port: Text)
    ensures Printed(head, [Setting(Name, name), Setting(Size, size), Setting(Md5, md5), Setting(Key, key),
                           Setting(Ver, ver), Setting(Ip, ip), Setting(Port, port)])
         == head + ":name=" + name + ":size=" + size + ":md5=" + md5 + ":key=" + key
            + ":ver=" + ver + ":ip=" + ip + ":port=" + port + "\r\n"
  {
    var settings := [Setting(Name, name), Setting(Size, size), Setting(Md5, md5), Setting(Key, key),
                     Setting(Ver, ver), Setting(Ip, ip), Setting(Port, port)];
    hide Printed, Prefix;
    PrefixTexts();
    assert settings[0..] == settings;
    var text := PrintedNext(head, ":name=", settings, 0);
    text := PrintedNext(text, ":size=", settings, 1);
    text := PrintedNext(text, ":md5=", settings, 2);
    text := PrintedNext(text, ":key=", settings, 3);
    text := PrintedNext(text, ":ver=", settings, 4);
    text := PrintedNext(text, ":ip=", settings, 5);
    text := PrintedNext(text, ":port=", settings, 6);
    assert settings[7..] == [];
    PrintedNone(text);
  }

  // ---- the digest comparison ----

  /** What the md5 argument has to be. */
  lemma AcceptedText(md5: Text, content: seq<byte>)
    ensures md5 == Hex(Digest(content)) <==> IsHexText(md5) && ReadHex(md5) == Digest(content)
  {
    HexReadsBack(Digest(content));
    if IsHexText(md5) {
      ReadHexPrintsBack(md5);
    }
  }

  /** A digest text in its buffer is read back whole. */
  lemma DigestTextReads(buf: seq<cchar>, d: seq<byte>)
    requires |d| == 16 && |buf| >= 33 && buf[..32] == Hex(d) && buf[32] == NUL
    ensures CStr(buf) == Hex(d)
  {
    HexReadsBack(d);
    assert forall k :: 0 <= k < 32 ==> IsHexDigit(Hex(d)[k]);
    assert buf[0..32] == buf[..32];
    CStrAt(buf, 0, Hex(d));
    assert buf[0..] == buf;
  }

  /** The comparison after the download; res is what the steps before it left, 0 or -4. */
  method CheckDigest(f: InFile?, bufferSize: word, argMd5: Text, before: int) returns (res: int)
    requires 0 < bufferSize < 0x8000_0000
    modifies f
    ensures f == null ==> res == -5
    ensures f != null ==> res == if argMd5 == Hex(Digest(old(f.rest))) then before else -5
  {
    hide Hex, Digest;
    res := before;
    var mdstring := FileDigest(f, bufferSize, null);
    if mdstring == null {
      return -5;
    }
    DigestTextReads(mdstring[..], Digest(old(f.rest)));
    if CStr(mdstring[..]) != argMd5 {
      res := -5;
    }
  }

  /** From the socket to the comparison: the command that the peer printed and framed is read, cut, scanned
      and carried out, and the result is 0 exactly when the last md5 setting is the digest of the file. */
  method ServeUpdate(fd: Socket, buffer: array<cchar>, stale: cchar, f: InFile, bufferSize: word,
                     ghost head: Text, ghost settings: seq<Setting>, ghost more: seq<cchar>)
    returns (args: Arguments, res: int)
    requires fd.stream == Frame(Printed(head, settings)) + more
    requires CleanCommand(head, settings) && LastSet(Md5, settings).Some?
    requires |settings| <= 252 && Sendable(Printed(head, settings), buffer.Length)
    requires 0 < bufferSize < 0x8000_0000
    modifies fd, buffer, f
    ensures fd.stream == more
    ensures args.main == if "updat" <= head then Some(head) else None
    ensures forall g: Field :: args.Value(g) == LastSet(g, settings)
    ensures forall k :: Latest(settings, k) ==> args.Value(settings[k].field) == Some(settings[k].value)
    ensures res == if LastSet(Md5, settings) == Some(Hex(Digest(old(f.rest)))) then 0 else -5
  {
    hide Hex, Digest, ReadOne, Frame, Printed, CleanCommand, Split, Delims, Weave, Stored, Prefix;
    hide LastMain, LastValue, IsLast, Whole, LastSet;
    ghost var cmd := Printed(head, settings);
    CommandIsWhole(head, settings);
    WholeFrame(cmd, more, buffer[..], stale);
    var err, overrun := ReadCmd(fd, buffer, stale);
    var cmdstr := CStr(buffer[..]);
    assert |cmdstr| >= 2 && cmdstr[|cmdstr| - 2] == '\r' && cmdstr[|cmdstr| - 1] == '\n';
    var text, list, full := Tokenise(cmdstr);
    SplitCount(cmdstr);
    args := ScanArguments(text, list, Split(cmdstr));
    AllRecovered(head, settings);
    assert args.md5 == args.Value(Md5);
    res := CheckDigest(f, bufferSize, args.md5.value, 0);
  }

  lemma CommandIsWhole(head: Text, settings: seq<Setting>)
    requires CleanCommand(head, settings)
    ensures var cmd := Printed(head, settings);
      && NUL !in cmd && |Delims(cmd)| == |settings| + 2 && |cmd| >= 2 && cmd[|cmd| - 2..] == "\r\n"
  {
    PrintedSplits(head, settings);
    EndsInLineEnd(head, settings);
  }

  lemma {:induction false} EndsInLineEnd(head: Text, settings: seq<Setting>)
    ensures var cmd := Printed(head, settings); |cmd| >= 2 && cmd[|cmd| - 2..] == "\r\n"
    decreases |settings|
  {
    if settings != [] {
      EndsInLineEnd(TokenOf(settings[0]), settings[1..]);
    }
  }
}

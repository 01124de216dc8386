/** The texts that pass between shell and kernel: the command line, packed requests, replies. */
module ShellText {
  import opened Wrappers
  import opened Mailbox

  const NUL: char := '\0'

  /** Where `c` first occurs; the length when it does not. */
  function Index(s: string, c: char): (i: nat)
    ensures i <= |s| && (i < |s| ==> s[i] == c) && forall k :: 0 <= k < i ==> s[k] != c
  {
    if s == "" || s[0] == c then 0 else 1 + Index(s[1..], c)
  }

  lemma {:induction false} IndexIs(s: string, c: char, i: nat)
    requires i <= |s| && (i < |s| ==> s[i] == c) && forall k :: 0 <= k < i ==> s[k] != c
    ensures Index(s, c) == i
  {
    if i > 0 {
      assert s[0] != c;
      IndexIs(s[1..], c, i - 1);
    }
  }

  /** A C string: what comes before the first NUL. */
  function CString(s: string): string {
    s[..Index(s, NUL)]
  }

  // ----- payloads -----

  /** A file name and its NUL. */
  function PackedName(name: string): string {
    Cut(name, 255) + [NUL]
  }

  /** A file name, a NUL and what fits of the data; the closing NUL is not counted. */
  function PackedWrite(name: string, data: string): string {
    var front := Cut(name, 255) + [NUL];
    front + Cut(data, if |front| < 254 then 254 - |front| else 0)
  }

  const TRADES: string := "TRADES.LOG"

  /** A captured trade as a write request: file name, NUL, what fits of it, a newline. */
  function PackedTrade(name: string, trade: string): string {
    var front := name + [NUL];
    front + Cut(trade, if |front| < 253 then 253 - |front| else 0) + ['\n']
  }

  /** What the kernel hands to the file system: the name, and as much as the length says is behind it. */
  function Unpacked(payload: string): (string, string) {
    var name := CString(payload);
    (name, if |name| < |payload| then payload[|name| + 1..] else "")
  }

  lemma UnpackingSplits(name: string, data: string)
    requires NUL !in name
    ensures Unpacked(name + [NUL] + data) == (name, data)
  {
    var p := name + [NUL] + data;
    forall k | 0 <= k < |name| ensures p[k] != NUL {
      assert p[k] in name;
    }
    IndexIs(p, NUL, |name|);
    assert p[..|name|] == name && p[|name| + 1..] == data;
  }

  /** The file system gets the name and the data that were packed, cut at what one message holds. */
  lemma WritesReadBack(name: string, data: string)
    requires NUL !in name && |name| < 253
    ensures Unpacked(PackedWrite(name, data)) == (name, Cut(data, 253 - |name|))
    ensures |PackedWrite(name, data)| <= 254
  {
    var room := 253 - |name|;
    var text := Cut(data, room);
    assert PackedWrite(name, data) == name + [NUL] + text by {
      assert 254 - |name + [NUL]| == room;
    }
    UnpackingSplits(name, text);
  }

  lemma TradesReadBack(name: string, trade: string)
    requires NUL !in name && |name| < 252
    ensures Unpacked(PackedTrade(name, trade)) == (name, Cut(trade, 252 - |name|) + ['\n'])
    ensures |PackedTrade(name, trade)| <= 254
  {
    var text := Cut(trade, 252 - |name|);
    assert PackedTrade(name, trade) == name + [NUL] + (text + ['\n']);
    UnpackingSplits(name, text + ['\n']);
  }

  // ----- the command line -----

  datatype Command = Ask(kind: nat, payload: string) | Listen | NoRequest

  /** The first dot ends the namespace, the first blank behind it the verb. */
  function CommandOf(line: string): Command {
    var d := Index(line, '.');
    if d == |line| then NoRequest
    else
      var rest := line[d + 1..];
      var b := Index(rest, ' ');
      Dispatch(line[..d], rest[..b], if b < |rest| then Some(rest[b + 1..]) else None)
  }

  function Dispatch(space: string, verb: string, args: Option<string>): Command {
    if space == "storage" || space == "s" then
      if verb == "list" || verb == "ls" then Ask(LIST_REQUEST, "")
      else if verb == "read" && args.Some? then Ask(READ_REQUEST, PackedName(args.value))
      else if verb == "write" && args.Some? && Index(args.value, ' ') < |args.value| then
        var b := Index(args.value, ' ');
        Ask(WRITE_REQUEST, PackedWrite(args.value[..b], args.value[b + 1..]))
      else NoRequest
    else if space == "agent" then
      if verb == "why" then Ask(DUMP_REQUEST, "") else NoRequest
    else if space == "atk" then
      if verb == "run" && args.Some? then Ask(RUN_REQUEST, PackedName(args.value)) else NoRequest
    else if space == "ledger" then
      if verb == "sync" then Ask(SYNC_REQUEST, "") else NoRequest
    else if space == "trade" then
      if verb == "listen" then Listen else NoRequest
    else NoRequest
  }

  predicate IsRequest(kind: nat) {
    kind in {LIST_REQUEST, READ_REQUEST, WRITE_REQUEST, RUN_REQUEST, DUMP_REQUEST, SYNC_REQUEST}
  }

  /** A line is split where it was put together, whatever namespace and verb are. */
  lemma LinesSplit(space: string, verb: string, args: string)
    requires '.' !in space && ' ' !in verb
    ensures CommandOf(space + ['.'] + (verb + [' '] + args)) == Dispatch(space, verb, Some(args))
  {
    var rest := verb + [' '] + args;
    var line := space + ['.'] + rest;
    forall k | 0 <= k < |space| ensures line[k] != '.' {
      assert line[k] in space;
    }
    IndexIs(line, '.', |space|);
    assert line[|space| + 1..] == rest && line[..|space|] == space;
    forall k | 0 <= k < |verb| ensures rest[k] != ' ' {
      assert rest[k] in verb;
    }
    IndexIs(rest, ' ', |verb|);
    assert rest[|verb| + 1..] == args && rest[..|verb|] == verb;
  }

  /** From the keyboard to the file system: what a write command names is what gets written. */
  lemma TypedWritesReachTheFiles(space: string, verb: string, name: string, data: string)
    requires space == "s" || space == "storage"
    requires verb == "write"
    requires ' ' !in name && NUL !in name && |space| + |verb| + |name| + |data| + 3 <= 255
    ensures var command := CommandOf(space + ['.'] + (verb + [' '] + (name + [' '] + data)));
            && command.Ask? && command.kind == WRITE_REQUEST
            && Unpacked(command.payload) == (name, data)
  {
    var args := name + [' '] + data;
    assert '.' !in space && ' ' !in verb;
    LinesSplit(space, verb, args);
    forall k | 0 <= k < |name| ensures args[k] != ' ' {
      assert args[k] in name;
    }
    IndexIs(args, ' ', |name|);
    assert args[..|name|] == name && args[|name| + 1..] == data;
    WritesReadBack(name, data);
  }

  /** Names up to the size of the payload reach the kernel whole; longer ones are cut and still end. */
  lemma NamesReadBack(name: string)
    requires NUL !in name
    ensures CString(PackedName(name)) == Cut(name, 255) && |PackedName(name)| <= 256
  {
    var text := Cut(name, 255);
    assert forall k :: 0 <= k < |text| ==> text[k] == name[k] && name[k] in name;
    IndexIs(text + [NUL], NUL, |text|);
  }

  /** A typed read or run asks for the file it names. */
  lemma TypedNamesReachTheKernel(space: string, verb: string, name: string)
    requires ((space == "s" || space == "storage") && verb == "read") || (space == "atk" && verb == "run")
    requires NUL !in name && |name| <= 255
    ensures var command := CommandOf(space + ['.'] + (verb + [' '] + name));
            && command.Ask? && command.kind == (if space == "atk" then RUN_REQUEST else READ_REQUEST)
            && CString(command.payload) == name
  {
    assert '.' !in space && ' ' !in verb;
    LinesSplit(space, verb, name);
    NamesReadBack(name);
  }

  lemma LinesWithoutADot(line: string)
    requires '.' !in line
    ensures CommandOf(line) == NoRequest
  {
    assert forall k :: 0 <= k < |line| ==> line[k] in line;
    IndexIs(line, '.', |line|);
  }

  /** A line of two words. */
  lemma ShortLinesSplit(space: string, verb: string)
    requires '.' !in space && ' ' !in verb
    ensures CommandOf(space + ['.'] + verb) == Dispatch(space, verb, None)
  {
    var line := space + ['.'] + verb;
    forall k | 0 <= k < |space| ensures line[k] != '.' {
      assert line[k] in space;
    }
    IndexIs(line, '.', |space|);
    assert line[|space| + 1..] == verb && line[..|space|] == space;
    assert forall k :: 0 <= k < |verb| ==> verb[k] in verb;
    IndexIs(verb, ' ', |verb|);
    assert verb[..|verb|] == verb;
  }

  /** The commands without arguments; any other pair of words asks for nothing. */
  lemma ShortCommands(space: string, verb: string)
    requires '.' !in space && ' ' !in verb
    ensures CommandOf(space + ['.'] + verb) ==
            if space + ['.'] + verb in {"s.ls", "s.list", "storage.ls", "storage.list"} then Ask(LIST_REQUEST, "")
            else if space + ['.'] + verb == "agent.why" then Ask(DUMP_REQUEST, "")
            else if space + ['.'] + verb == "ledger.sync" then Ask(SYNC_REQUEST, "")
            else if space + ['.'] + verb == "trade.listen" then Listen
            else NoRequest
  {
    ShortLinesSplit(space, verb);
    var line := space + ['.'] + verb;
    SplitLine(space, verb, "s", "ls");
    SplitLine(space, verb, "s", "list");
    SplitLine(space, verb, "storage", "ls");
    SplitLine(space, verb, "storage", "list");
    SplitLine(space, verb, "agent", "why");
    SplitLine(space, verb, "ledger", "sync");
    SplitLine(space, verb, "trade", "listen");
    assert "s" + ['.'] + "ls" == "s.ls" && "s" + ['.'] + "list" == "s.list" && "storage" + ['.'] + "ls" == "storage.ls";
    assert "storage" + ['.'] + "list" == "storage.list" && "agent" + ['.'] + "why" == "agent.why";
    assert "ledger" + ['.'] + "sync" == "ledger.sync" && "trade" + ['.'] + "listen" == "trade.listen";
  }

  lemma SplitLine(space: string, verb: string, a: string, b: string)
    requires '.' !in space && '.' !in a
    ensures space + ['.'] + verb == a + ['.'] + b <==> space == a && verb == b
  {
    var line, other := space + ['.'] + verb, a + ['.'] + b;
    if line == other {
      assert forall k :: 0 <= k < |space| ==> line[k] == space[k] && space[k] in space;
      assert forall k :: 0 <= k < |a| ==> other[k] == a[k] && a[k] in a;
      IndexIs(line, '.', |space|);
      IndexIs(other, '.', |a|);
      assert line[..|space|] == space && other[..|a|] == a;
      assert line[|space| + 1..] == verb && other[|a| + 1..] == b;
    }
  }

  // ----- replies -----

  /** The answer to a request: the next kind, at most 255 characters and a NUL. */
  function Response(request: Message, text: string): Message {
    var reply := Cut(CString(text), 255);
    Message(KERNEL, request.sender, request.kind + 1, |reply| + 1, reply + [NUL])
  }

  /** `answer` answers `request`: its kind, to its sender, text that fits the payload. */
  predicate Answers(request: Message, answer: Message) {
    && answer.sender == KERNEL && answer.target == request.sender && answer.kind == request.kind + 1
    && answer.length == |answer.payload| <= 256 && Index(answer.payload, NUL) == |answer.payload| - 1
  }

  lemma ResponsesAnswer(request: Message, text: string)
    ensures Answers(request, Response(request, text))
  {
    var reply := Cut(CString(text), 255);
    IndexIs(reply + [NUL], NUL, |reply|);
  }
}

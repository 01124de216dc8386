/**
 The shell and the kernel's message handler: keys come in through the mailbox, requests are answered
 through it, and the shell waits for each answer before it goes on.
 */
module Shell {
  import opened Machine
  import opened Wrappers
  import opened Mailbox
  import opened ShellText

  /** A character that polling a keyboard or the serial line yields: 0 means there is none. */
  type Key = c: char | c != '\0' witness 'a'

  const BACKSPACE: char := 8 as char

  predicate IsKeyMessage(m: Message) {
    m.kind == KEY_PRESS && m.length == 1 && |m.payload| == 1 && m.payload[0] != NUL
  }

  predicate AllKeys(ms: seq<Message>) {
    forall m :: m in ms ==> IsKeyMessage(m)
  }

  /** The messages that are not keys, in order: what the kernel has answered. */
  function Replies(ms: seq<Message>): seq<Message> {
    if ms == [] then [] else (if IsKeyMessage(ms[0]) then [] else [ms[0]]) + Replies(ms[1..])
  }

  lemma {:induction false} KeysThenAReply(keys: seq<Message>, replies: seq<Message>)
    requires AllKeys(keys)
    ensures Replies(keys + replies) == Replies(replies)
    decreases |keys|
  {
    if keys == [] {
      assert keys + replies == replies;
    } else {
      assert (keys + replies)[0] == keys[0] && (keys + replies)[1..] == keys[1..] + replies;
      KeysThenAReply(keys[1..], replies);
    }
  }

  /** Each request has its own answer, and there are no more answers than requests. */
  predicate Matched(asked: seq<Message>, answers: seq<Message>) {
    |asked| == |answers| && forall i :: 0 <= i < |asked| ==> IsRequest(asked[i].kind) && Answers(asked[i], answers[i])
  }

  function KeyMessage(sender: Byte, c: char): Message {
    Message(sender, GUI_SHELL, KEY_PRESS, 1, [c])
  }

  /** The serial line ends its lines with carriage returns. */
  function FromUart(c: char): char {
    if c == '\r' then '\n' else c
  }

  function KeyMessages(sender: Byte, keys: seq<char>): (ms: seq<Message>)
    ensures |ms| == |keys| && forall i :: 0 <= i < |ms| ==> ms[i] == KeyMessage(sender, keys[i])
  {
    seq(|keys|, i requires 0 <= i < |keys| => KeyMessage(sender, keys[i]))
  }

  lemma {:induction false} KeysStayKeys(queue: seq<Message>, ms: seq<Message>)
    requires AllKeys(queue) && AllKeys(ms) && |queue| <= CAPACITY
    ensures AllKeys(AllDelivered(queue, ms)) && |AllDelivered(queue, ms)| <= CAPACITY
    ensures queue <= AllDelivered(queue, ms)
    decreases |ms|
  {
    if ms != [] {
      KeysStayKeys(queue, ms[..|ms| - 1]);
    }
  }

  /** A queue of keys shows the answer to a request exactly when it had a slot left. */
  lemma AnswersNeedASlot(queue: seq<Message>, request: Message, text: string)
    requires AllKeys(queue) && IsRequest(request.kind)
    ensures Response(request, text) in Delivered(queue, Response(request, text)) <==> |queue| < CAPACITY
  {
  }

  class Kernel {
    const mail: MailRing
    /** What the n-th drain finds at the keyboard and on the serial line. */
    const keyboard: nat -> seq<Key>
    const uart: nat -> seq<Key>
    var drains: nat
    /** The text that carrying out the n-th request yields. */
    const texts: nat -> string
    var handled: nat
    /** What the file system was told to write. */
    var writes: seq<(string, string)>

    ghost predicate Valid()
      reads this, mail
    {
      mail.Valid()
    }

    ghost function Waiting(): seq<Message>
      requires Valid()
      reads this, mail, mail.queue
    {
      mail.Contents()
    }

    constructor (keyboard: nat -> seq<Key>, uart: nat -> seq<Key>, texts: nat -> string)
      ensures Valid() && Waiting() == [] && handled == 0 && writes == [] && fresh(mail) && fresh(mail.queue)
    {
      this.keyboard, this.uart, this.texts := keyboard, uart, texts;
      drains, handled, writes := 0, 0, [];
      mail := new MailRing();
    }

    /** A queue after the `n`-th drain: the keys from the keyboard, then those from the serial line. */
    ghost function Found(queue: seq<Message>, n: nat): seq<Message> {
      AllDelivered(AllDelivered(queue, KeyMessages(KERNEL, keyboard(n))), KeyMessages(UART, Received(uart(n))))
    }

    /** Keyboard first, then the serial line, each until it is empty. */
    method DrainHardware()
      requires Valid()
      modifies this`drains, mail`tail, mail.queue
      ensures Valid() && drains == old(drains) + 1
      ensures Waiting() == Found(old(Waiting()), old(drains))
    {
      var keys := keyboard(drains);
      Deliver(KERNEL, keys);
      var chars := uart(drains);
      Deliver(UART, Received(chars));
      drains := drains + 1;
    }

    method Deliver(sender: Byte, keys: seq<char>)
      requires Valid()
      modifies mail`tail, mail.queue
      ensures Valid() && Waiting() == AllDelivered(old(Waiting()), KeyMessages(sender, keys))
    {
      ghost var all := KeyMessages(sender, keys);
      for i := 0 to |keys|
        invariant Valid() && Waiting() == AllDelivered(old(Waiting()), all[..i])
      {
        mail.Send(KeyMessage(sender, keys[i]));
        assert all[..i + 1][..i] == all[..i];
      }
      assert all[..|keys|] == all;
    }

    /** A request to the kernel is carried out and answered; a message to anyone else is passed on. */
    method IpcSend(m: Message)
      requires Valid()
      modifies this`handled, this`writes, mail`tail, mail.queue
      ensures Valid()
      ensures m.target != KERNEL ==> Waiting() == Delivered(old(Waiting()), m)
      ensures m.target == KERNEL && !IsRequest(m.kind) ==> Waiting() == old(Waiting())
      ensures m.target == KERNEL && IsRequest(m.kind) ==>
                && Waiting() == Delivered(old(Waiting()), Response(m, texts(old(handled))))
                && handled == old(handled) + 1
      ensures writes == old(writes) +
                        if m.target == KERNEL && m.kind == WRITE_REQUEST then [Unpacked(m.payload)] else []
    {
      if m.target == KERNEL {
        if IsRequest(m.kind) {
          if m.kind == WRITE_REQUEST {
            writes := writes + [Unpacked(m.payload)];
          }
          var text := texts(handled);
          handled := handled + 1;
          var out := BuildResponse(m, text);
          mail.Send(out);
        }
      } else {
        mail.Send(m);
      }
    }
  }

  function Received(chars: seq<Key>): (r: seq<char>)
    ensures |r| == |chars| && forall i :: 0 <= i < |chars| ==> r[i] == FromUart(chars[i])
  {
    seq(|chars|, i requires 0 <= i < |chars| => FromUart(chars[i]))
  }

  lemma TheBufferAsText(buffer: string, n: nat)
    requires n < |buffer| && buffer[n] == NUL && NUL !in buffer[..n]
    ensures CString(buffer) == buffer[..n]
  {
    assert forall k :: 0 <= k < n ==> buffer[k] == buffer[..n][k] && buffer[..n][k] in buffer[..n];
    IndexIs(buffer, NUL, n);
  }

  /** The copying loop that fills a response. */
  method BuildResponse(request: Message, text: string) returns (m: Message)
    ensures m == Response(request, text)
  {
    var payload := new char[256];
    var len := 0;
    while len < |text| && text[len] != NUL && len < 255
      invariant len <= Index(text, NUL) && len <= 255 && payload[..len] == text[..len]
    {
      payload[len] := text[len];
      len := len + 1;
    }
    payload[len] := NUL;
    IndexAtLeast(text, NUL, len);
    assert Cut(CString(text), 255) == text[..len];
    m := Message(KERNEL, request.sender, request.kind + 1, len + 1, payload[..len + 1]);
  }

  lemma IndexAtLeast(s: string, c: char, i: nat)
    requires i <= Index(s, c)
    ensures i <= |s| && s[..Index(s, c)][..i] == s[..i]
  {
  }

  class Terminal {
    const kernel: Kernel
    const commandBuffer: array<char>
    var commandIndex: nat

    /** Every request, recorded when it is sent, and every answer, recorded when it is taken. */
    ghost var asked: seq<Message>
    ghost var answers: seq<Message>

    /** Between commands only keys wait, and no request is unanswered. */
    ghost predicate Valid()
      reads this, kernel, kernel.mail, kernel.mail.queue, commandBuffer
    {
      && kernel.Valid() && commandBuffer.Length == 256 && commandIndex < 256
      && AllKeys(kernel.Waiting()) && |kernel.Waiting()| <= CAPACITY
      && AllAnswered() && NUL !in commandBuffer[..commandIndex]
    }

    ghost predicate AllAnswered()
      reads this
    {
      Matched(asked, answers)
    }

    /** At any time: the answers taken and those that still wait are the answers to all that was asked. */
    ghost predicate NothingIsLost()
      requires kernel.Valid()
      reads this, kernel, kernel.mail, kernel.mail.queue
    {
      Matched(asked, answers + Replies(kernel.Waiting()))
    }

    constructor (keyboard: nat -> seq<Key>, uart: nat -> seq<Key>, texts: nat -> string)
      ensures Valid() && asked == [] && answers == []
      ensures fresh(kernel) && fresh(kernel.mail) && fresh(kernel.mail.queue) && fresh(commandBuffer)
    {
      kernel := new Kernel(keyboard, uart, texts);
      commandBuffer := new char[256];
      commandIndex, asked, answers := 0, [], [];
    }

    method Drain()
      requires Valid()
      modifies kernel`drains, kernel.mail`tail, kernel.mail.queue
      ensures Valid() && kernel.drains == old(kernel.drains) + 1
      ensures kernel.Waiting() == kernel.Found(old(kernel.Waiting()), old(kernel.drains))
    {
      ghost var before := kernel.Waiting();
      ghost var keys := KeyMessages(KERNEL, kernel.keyboard(kernel.drains));
      ghost var chars := KeyMessages(UART, Received(kernel.uart(kernel.drains)));
      kernel.DrainHardware();
      KeysStayKeys(before, keys);
      KeysStayKeys(AllDelivered(before, keys), chars);
    }

    /**
     The wait loop: receive until a message of that kind comes. Only keys come before it, and they are
     thrown away, so no answer is; `receives` counts the messages taken.
     */
    method Await(kind: nat, ghost answer: Message) returns (response: Message, ghost receives: nat)
      requires kernel.Valid() && kind > KEY_PRESS
      requires var waiting := kernel.Waiting();
               waiting != [] && waiting[|waiting| - 1] == answer && answer.kind == kind
               && AllKeys(waiting[..|waiting| - 1])
      requires NothingIsLost()
      modifies this`answers, kernel.mail`head
      ensures kernel.Valid() && kernel.Waiting() == [] && response == answer
      ensures receives == |old(kernel.Waiting())| && answers == old(answers) + [response]
      ensures AllAnswered()
    {
      receives := 0;
      response := Message(0, 0, NO_MESSAGE, 0, "");
      ghost var all := kernel.Waiting();
      var waiting := true;
      while waiting
        invariant kernel.Valid() && receives <= |all| && kernel.Waiting() == all[receives..]
        invariant waiting ==> receives < |all|
        invariant !waiting ==> receives == |all| && response == answer
        invariant NothingIsLost() && answers == old(answers) + if waiting then [] else [response]
        decreases |all| - receives
      {
        response := kernel.mail.Receive(response);
        assert response == all[receives];
        assert receives < |all| - 1 ==> response in all[..|all| - 1];
        assert all[receives..][1..] == all[receives + 1..];
        receives := receives + 1;
        if response.kind == kind {
          answers := answers + [response];
          waiting := false;
        }
      }
      assert answers + Replies([]) == answers;
    }

    /** Send a request and wait for its answer, with at most 254 keys in the mailbox. */
    method SendAndAwait(kind: nat, payload: string, length: nat) returns (response: Message, ghost receives: nat)
      requires Valid() && |kernel.Waiting()| < CAPACITY && IsRequest(kind)
      modifies this`asked, this`answers, kernel`handled, kernel`writes, kernel.mail, kernel.mail.queue
      ensures Valid() && kernel.Waiting() == [] && receives <= CAPACITY
      ensures asked == old(asked) + [Message(GUI_SHELL, KERNEL, kind, length, payload)]
              && answers == old(answers) + [response]
      ensures response == Response(Message(GUI_SHELL, KERNEL, kind, length, payload), kernel.texts(old(kernel.handled)))
      ensures kernel.writes == old(kernel.writes) + if kind == WRITE_REQUEST then [Unpacked(payload)] else []
    {
      var request := Message(GUI_SHELL, KERNEL, kind, length, payload);
      ghost var keys, text := kernel.Waiting(), kernel.texts(kernel.handled);
      asked := asked + [request];
      kernel.IpcSend(request);
      ResponsesAnswer(request, text);
      assert (keys + [Response(request, text)])[..|keys|] == keys;
      KeysThenAReply(keys, [Response(request, text)]);
      response, receives := Await(kind + 1, Response(request, text));
    }

    /** What running a line has asked of the kernel, and what the file system was told to write. */
    twostate predicate Ran(line: string, trades: seq<string>)
      reads this, kernel
    {
      match CommandOf(line)
      case Ask(kind, payload) =>
        && asked == old(asked) + [Message(GUI_SHELL, KERNEL, kind, |payload|, payload)]
        && kernel.writes == old(kernel.writes) + if kind == WRITE_REQUEST then [Unpacked(payload)] else []
      case Listen =>
        asked == old(asked) + TradeRequests(trades) && kernel.writes == old(kernel.writes) + TradeWrites(trades)
      case NoRequest => asked == old(asked) && kernel.writes == old(kernel.writes)
    }

    /**
     A line that was typed: at most one request, answered before the next key is taken. What was typed
     while it waited for the answer is lost, and what has come in since is fetched.
     */
    method RunLine(line: string, trades: seq<string>)
      requires Valid() && |kernel.Waiting()| < CAPACITY
      modifies this`asked, this`answers, kernel, kernel.mail, kernel.mail.queue
      ensures Valid() && Ran(line, trades)
      ensures CommandOf(line).Ask? ==>
                kernel.drains == old(kernel.drains) + 1 && kernel.Waiting() == kernel.Found([], old(kernel.drains))
      ensures CommandOf(line).NoRequest? ==>
                kernel.drains == old(kernel.drains) && kernel.Waiting() == old(kernel.Waiting())
    {
      match CommandOf(line)
      case Ask(kind, payload) =>
        CommandsAreRequests(line);
        var response, _ := SendAndAwait(kind, payload, |payload|);
        Drain();
      case Listen => ListenForTrades(trades);
      case NoRequest =>
    }

    /** A line that opens with a brace is a trade. */
    method CaptureTrade(trade: string)
      requires Valid() && |kernel.Waiting()| < CAPACITY
      modifies this`asked, this`answers, kernel`handled, kernel`writes, kernel.mail, kernel.mail.queue
      ensures Valid() && |kernel.Waiting()| < CAPACITY
      ensures asked == old(asked) + TradeRequest(trade) && kernel.writes == old(kernel.writes) + TradeWrite(trade)
    {
      if trade != "" && trade[0] == '{' {
        var payload := PackedTrade(TRADES, trade);
        var response, _ := SendAndAwait(WRITE_REQUEST, payload, |payload|);
      }
    }

    /** Every captured trade is written, and its answer awaited, before the next is looked at. */
    method ListenForTrades(trades: seq<string>)
      requires Valid() && |kernel.Waiting()| < CAPACITY
      modifies this`asked, this`answers, kernel`handled, kernel`writes, kernel.mail, kernel.mail.queue
      ensures Valid() && asked == old(asked) + TradeRequests(trades)
      ensures kernel.writes == old(kernel.writes) + TradeWrites(trades)
    {
      ghost var a, w := asked, kernel.writes;
      for i := 0 to |trades|
        invariant Valid() && |kernel.Waiting()| < CAPACITY
        invariant asked == a + TradeRequests(trades[..i]) && kernel.writes == w + TradeWrites(trades[..i])
      {
        OneMoreTrade(a, w, trades, i);
        CaptureTrade(trades[i]);
      }
      assert trades[..|trades|] == trades;
    }

    ghost function Text(): string
      requires commandBuffer.Length == 256 && commandIndex < 256
      reads this, commandBuffer
    {
      commandBuffer[..commandIndex]
    }

    /** One key into the command buffer. */
    method Edit(c: char)
      requires commandBuffer.Length == 256 && commandIndex < 256 && !EndsLine(c)
      requires c != NUL && NUL !in Text()
      modifies this`commandIndex, commandBuffer
      ensures commandIndex < 256 && Text() == Edited(old(Text()), c) && NUL !in Text()
    {
      if c == BACKSPACE {
        if commandIndex > 0 {
          commandIndex := commandIndex - 1;
        }
      } else if commandIndex < 255 {
        commandBuffer[commandIndex] := c;
        commandIndex := commandIndex + 1;
      }
    }

    /** One turn of the shell's loop, and the key it took: the first that waits after a drain. */
    method Turn(trades: seq<string>) returns (ghost key: Option<char>)
      requires Valid()
      modifies this, commandBuffer, kernel, kernel.mail, kernel.mail.queue
      ensures Valid()
      ensures Text() == if key.None? then old(Text()) else Edited(old(Text()), key.value)
      ensures var queue := kernel.Found(old(kernel.Waiting()), old(kernel.drains));
              && (queue != [] ==> IsKeyMessage(queue[0]))
              && key == (if queue == [] then None else Some(queue[0].payload[0]))
              && if key.Some? && EndsLine(key.value) && old(Text()) != "" then Ran(old(Text()), trades)
                 else
                   && asked == old(asked) && kernel.writes == old(kernel.writes)
                   && kernel.Waiting() == (if queue == [] then [] else queue[1..])
    {
      key := None;
      Drain();
      ghost var waiting := kernel.Waiting();
      var m := kernel.mail.Receive(Message(0, 0, NO_MESSAGE, 0, ""));
      assert m.kind == KEY_PRESS ==> m == waiting[0] && IsKeyMessage(m);
      if m.kind == KEY_PRESS && m.length > 0 {
        key := Some(m.payload[0]);
        if EndsLine(m.payload[0]) {
          EndLine(trades);
        } else {
          Edit(m.payload[0]);
        }
      }
    }

    /** The line is what the buffer holds as a C string. */
    method EndLine(trades: seq<string>)
      requires Valid() && |kernel.Waiting()| < CAPACITY
      modifies this, commandBuffer, kernel, kernel.mail, kernel.mail.queue
      ensures Valid() && Text() == ""
      ensures if old(Text()) != "" then Ran(old(Text()), trades)
              else
                asked == old(asked) && kernel.writes == old(kernel.writes)
                && kernel.Waiting() == old(kernel.Waiting())
    {
      commandBuffer[commandIndex] := NUL;
      if commandIndex > 0 {
        TheBufferAsText(commandBuffer[..], commandIndex);
        RunLine(CString(commandBuffer[..]), trades);
      }
      commandIndex := 0;
    }

    /** Any number of turns: all that was ever asked has been answered. */
    method Run(turns: nat, trades: nat -> seq<string>)
      requires Valid()
      modifies this, commandBuffer, kernel, kernel.mail, kernel.mail.queue
      ensures Valid() && AllAnswered()
    {
      for i := 0 to turns
        invariant Valid()
      {
        var _ := Turn(trades(i));
      }
    }
  }

  predicate EndsLine(c: char) {
    c == '\n' || c == '\r'
  }

  /** The command text after a key. */
  function Edited(text: string, c: char): string {
    if EndsLine(c) then ""
    else if c == BACKSPACE then (if text == "" then "" else text[..|text| - 1])
    else if |text| < 255 then text + [c]
    else text
  }

  lemma CommandsAreRequests(line: string)
    requires CommandOf(line).Ask?
    ensures IsRequest(CommandOf(line).kind)
  {
  }

  function TradeRequest(trade: string): seq<Message> {
    var payload := PackedTrade(TRADES, trade);
    if trade != "" && trade[0] == '{' then [Message(GUI_SHELL, KERNEL, WRITE_REQUEST, |payload|, payload)] else []
  }

  function TradeRequests(trades: seq<string>): seq<Message>
    decreases |trades|
  {
    if trades == [] then [] else TradeRequests(trades[..|trades| - 1]) + TradeRequest(trades[|trades| - 1])
  }

  function TradeWrite(trade: string): seq<(string, string)> {
    if trade != "" && trade[0] == '{' then [Unpacked(PackedTrade(TRADES, trade))] else []
  }

  /** What reaches the file system of the trades. */
  function TradeWrites(trades: seq<string>): seq<(string, string)>
    decreases |trades|
  {
    if trades == [] then [] else TradeWrites(trades[..|trades| - 1]) + TradeWrite(trades[|trades| - 1])
  }

  lemma OneMoreTrade(a: seq<Message>, w: seq<(string, string)>, trades: seq<string>, i: nat)
    requires i < |trades|
    ensures a + TradeRequests(trades[..i]) + TradeRequest(trades[i]) == a + TradeRequests(trades[..i + 1])
    ensures w + TradeWrites(trades[..i]) + TradeWrite(trades[i]) == w + TradeWrites(trades[..i + 1])
  {
    assert trades[..i + 1][..i] == trades[..i];
  }
}

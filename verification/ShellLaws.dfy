/** What typing comes to, where lines end, and what becomes of a captured line. */
module ShellLaws {
  import opened Wrappers
  import opened Mailbox
  import opened ShellText
  import opened Shell

  /** Any character but backspace, newline and carriage return. */
  predicate IsOrdinary(c: char) {
    c as int !in {8, 10, 13}
  }

  predicate AreOrdinary(s: string) {
    forall i :: 0 <= i < |s| ==> IsOrdinary(s[i])
  }

  /** The command text after some keys. */
  function Typed(text: string, keys: string): string
    decreases |keys|
  {
    if keys == "" then text else Typed(Edited(text, keys[0]), keys[1..])
  }

  function Backspaces(n: nat): string {
    seq(n, _ => 8 as char)
  }

  lemma {:induction false} TypedInTwoParts(text: string, a: string, b: string)
    ensures Typed(text, a + b) == Typed(Typed(text, a), b)
    decreases |a|
  {
    if a == "" {
      assert a + b == b;
    } else {
      assert (a + b)[1..] == a[1..] + b;
      TypedInTwoParts(Edited(text, a[0]), a[1..], b);
    }
  }

  /** Characters are added behind the text until it is 255 long. */
  lemma {:induction false} CharactersAreAdded(text: string, word: string)
    requires AreOrdinary(word) && |text| <= 255
    ensures Typed(text, word) == if |text| + |word| <= 255 then text + word else (text + word)[..255]
    decreases |word|
  {
    if word == "" {
      assert text + word == text;
    } else {
      var more := Edited(text, word[0]);
      CharactersAreAdded(more, word[1..]);
      assert |text| < 255 ==> more + word[1..] == text + word;
      assert |text| == 255 ==> (text + word)[..255] == text == (text + word[1..])[..255];
    }
  }

  /** As many backspaces take them off again; further ones find nothing. */
  lemma {:induction false} BackspacesTakeBack(text: string, word: string, n: nat)
    requires n == |word| || (text == "" && n >= |word|)
    ensures Typed(text + word, Backspaces(n)) == text
    decreases n
  {
    var keys := Backspaces(n);
    if n == 0 {
      assert text + word == text;
    } else {
      assert keys[1..] == Backspaces(n - 1);
      if word == "" {
        BackspacesTakeBack(text, word, n - 1);
      } else {
        assert (text + word)[..|text + word| - 1] == text + word[..|word| - 1];
        BackspacesTakeBack(text, word[..|word| - 1], n - 1);
      }
    }
  }

  /** Typing and taking back leaves the line as it was, whatever is typed then. */
  lemma {:induction false} TypingIsUndone(text: string, word: string, keys: string)
    requires AreOrdinary(word) && |text| + |word| <= 255
    ensures Typed(text, word + Backspaces(|word|) + keys) == Typed(text, keys)
  {
    TypedInTwoParts(text, word + Backspaces(|word|), keys);
    TypedInTwoParts(text, word, Backspaces(|word|));
    CharactersAreAdded(text, word);
    BackspacesTakeBack(text, word, |word|);
  }

  /** What is delivered keeps its order, behind what waits; what comes when 255 wait is lost. */
  lemma {:induction false} TheFirstArrive(queue: seq<Message>, ms: seq<Message>)
    requires |queue| <= 255
    ensures AllDelivered(queue, ms) == if |queue| + |ms| <= 255 then queue + ms else (queue + ms)[..255]
    decreases |ms|
  {
    if ms == [] {
      assert queue + ms == queue;
    } else {
      var front, last := ms[..|ms| - 1], ms[|ms| - 1];
      TheFirstArrive(queue, front);
      assert queue + ms == queue + front + [last];
    }
  }

  /** What a drain with room adds: first the keys of the keyboard, then the characters of the serial line. */
  lemma {:induction false} DrainedKeys(kernel: Kernel, queue: seq<Message>, n: nat, i: nat, k: nat)
    requires |queue| + |kernel.keyboard(n)| + |kernel.uart(n)| <= 255
    requires i < |kernel.keyboard(n)| + |kernel.uart(n)| && k == |queue| + i
    ensures var found, keys, chars := kernel.Found(queue, n), kernel.keyboard(n), kernel.uart(n);
            && |found| == |queue| + |keys| + |chars| && queue <= found
            && found[k] == if i < |keys| then Message(1, 3, 1, 1, [keys[i]])
                           else Message(2, 3, 1, 1, [FromUart(chars[i - |keys|])])
  {
    var keys, chars := KeyMessages(KERNEL, kernel.keyboard(n)), KeyMessages(UART, Received(kernel.uart(n)));
    var found := kernel.Found(queue, n);
    assert found == queue + keys + chars by {
      AllIsFound(kernel, queue, n, keys, chars);
    }
    assert found[k] == if i < |keys| then keys[i] else chars[i - |keys|];
  }

  lemma {:induction false} AllIsFound(
    kernel: Kernel, queue: seq<Message>, n: nat, keys: seq<Message>, chars: seq<Message>)
    requires keys == KeyMessages(KERNEL, kernel.keyboard(n)) && chars == KeyMessages(UART, Received(kernel.uart(n)))
    requires |queue| + |keys| + |chars| <= 255
    ensures kernel.Found(queue, n) == queue + keys + chars
  {
    TheFirstArrive(queue, keys);
    TheFirstArrive(queue + keys, chars);
  }

  /** Both ends of line end it, also after the way over the serial line, which changes nothing else. */
  lemma {:induction false} LineEnds(c: char)
    ensures EndsLine(c) <==> c as int == 10 || c as int == 13
    ensures FromUart(c) as int == if c as int == 13 then 10 else c as int
    ensures EndsLine(c) ==> forall text :: Edited(text, c) == ""
  {
    assert '\n' as int == 10 && '\r' as int == 13;
  }

  /**
   A captured line that opens with a brace goes to TRADES.LOG, cut at 242 characters and with a newline;
   any other goes nowhere.
   */
  lemma {:induction false} TradesAreWritten(trade: string)
    ensures TradeWrite(trade) ==
            if trade != "" && trade[0] as int == 123 then [("TRADES.LOG", Cut(trade, 242) + [10 as char])] else []
    ensures |TradeRequest(trade)| == |TradeWrite(trade)|
    ensures forall m :: m in TradeRequest(trade) ==>
              && m.sender == GUI_SHELL && m.target == KERNEL && m.kind == WRITE_REQUEST
              && m.length == |m.payload| <= 255 && [Unpacked(m.payload)] == TradeWrite(trade)
  {
    assert '{' as int == 123 && '\n' == 10 as char;
    TradesReadBack(TRADES, trade);
  }
}

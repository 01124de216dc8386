/** The '@' wall: whatever follows it can change neither the program that is read nor its end. */
module Quarantine {
  import opened Wrappers
  import opened Ast
  import opened Lexer
  import opened Grammar
  import opened Parsing

  function Walled(s: string, t: string): string {
    s + ['@'] + t
  }

  lemma {:induction false} SkipBeforeTheWall(s: string, t: string)
    ensures Skip(Walled(s, t)) == if Skip(s) == "" then "" else Walled(Skip(s), t)
  {
    if s == "" {
      assert Walled(s, t)[0] == '@';
    } else {
      assert Walled(s, t)[0] == s[0];
      if IsBlank(s[0]) {
        SkipBeforeTheWall(s[1..], t);
        assert Walled(s, t)[1..] == Walled(s[1..], t);
      }
    }
  }

  lemma {:induction false} WordBeforeTheWall(s: string, t: string)
    ensures WordLength(Walled(s, t)) == WordLength(s)
  {
    if s != "" {
      assert StartsArrow(Walled(s, t)) <==> StartsArrow(s);
      WordBeforeTheWall(s[1..], t);
      assert Walled(s, t)[1..] == Walled(s[1..], t);
    }
  }

  lemma HeadBeforeTheWall(s: string, t: string)
    requires s != "" && s[0] != '@'
    ensures HeadLength(Walled(s, t)) == HeadLength(s)
  {
    assert StartsArrow(Walled(s, t)) <==> StartsArrow(s);
    WordBeforeTheWall(s, t);
  }

  lemma NextBeforeTheWall(s: string, t: string)
    requires Skip(s) != ""
    ensures Next(Walled(s, t)) == (Next(s).0, Walled(Next(s).1, t))
  {
    var head := Skip(s);
    SkipBeforeTheWall(s, t);
    HeadBeforeTheWall(head, t);
    CutBeforeTheWall(head, t, HeadLength(head));
  }

  lemma CutBeforeTheWall(s: string, t: string, n: nat)
    requires n <= |s|
    ensures Walled(s, t)[..n] == s[..n] && Walled(s, t)[n..] == Walled(s[n..], t)
  {
  }

  lemma {:induction false} WordsBeforeTheWall(s: string, t: string)
    ensures Words(Walled(s, t)) == Words(s)
    decreases |s|
  {
    SkipBeforeTheWall(s, t);
    if Skip(s) != "" {
      NextBeforeTheWall(s, t);
      WordsBeforeTheWall(Next(s).1, t);
    }
  }

  /**
   Parsing walled text and parsing the text before the wall: one result and, after an error too, one
   answer about the end.
   */
  method ParseBothSides(s: string, t: string)
    returns (r: Result<Expr, ParseError>, eof: bool, r': Result<Expr, ParseError>, eof': bool)
    ensures r == r' && eof == eof'
  {
    WordsBeforeTheWall(s, t);
    r, eof := ParseThenAsk(s);
    r', eof' := ParseThenAsk(Walled(s, t));
  }

  method ParseThenAsk(source: string) returns (r: Result<Expr, ParseError>, eof: bool)
    ensures match ExprOf(Words(source))
            case Success((e, ws)) => r == Success(e) && eof == (ws == [])
            case Failure(stuck) => r == Failure(stuck.error) && eof == (stuck.rest == [])
  {
    var parser := new Parser(source);
    r := parser.Parse();
    eof := parser.IsEof();
  }
}

/**
 The recursive-descent parser: a cursor over the source text that only moves forward. Its methods
 are the words of `Lexer` and the grammar of `Grammar`, read off one cursor.
 */
module Parsing {
  import opened Wrappers
  import opened Ast
  import opened Lexer
  import opened Grammar

  class Parser {
    const source: string
    var pos: nat

    ghost predicate Valid()
      reads this
    {
      pos <= |source|
    }

    /** The text ahead of the cursor. */
    ghost function Ahead(): string
      reads this
      requires Valid()
    {
      source[pos..]
    }

    /** The words ahead of the cursor. */
    ghost function WordsAhead(): seq<string>
      reads this
      requires Valid()
    {
      Words(Ahead())
    }

    constructor (source: string)
      ensures Valid() && this.source == source && Ahead() == source
    {
      this.source := source;
      pos := 0;
    }

    method SkipWhitespace()
      requires Valid()
      modifies this`pos
      ensures Valid() && pos >= old(pos) && Ahead() == Skip(old(Ahead()))
    {
      while pos < |source|
        invariant Valid() && pos >= old(pos)
        invariant Skip(Ahead()) == Skip(old(Ahead()))
      {
        var c := source[pos];
        if IsBlank(c) {
          assert Ahead()[1..] == source[pos + 1..];
          pos := pos + 1;
        } else if c == '@' {
          pos := |source|;
          break;
        } else {
          break;
        }
      }
    }

    method ReadWord() returns (word: string)
      requires Valid()
      modifies this`pos
      ensures Valid() && pos >= old(pos)
      ensures (word, Ahead()) == Next(old(Ahead()))
      ensures old(WordsAhead()) != [] ==> pos > old(pos)
      ensures word == At(old(WordsAhead()), 0) && WordsAhead() == Drop(old(WordsAhead()), 1)
    {
      NextIsTheFirstWord(Ahead());
      ghost var text := Ahead();
      SkipWhitespace();
      if pos >= |source| {
        return "";
      }
      word := ReadHead();
      assert (word, Ahead()) == Next(text);
    }

    /** A word that starts at the cursor: an arrow, a separator, or letters. */
    method ReadHead() returns (word: string)
      requires Valid() && Ahead() != ""
      modifies this`pos
      ensures Valid() && pos >= old(pos)
      ensures var n := HeadLength(old(Ahead())); word == old(Ahead())[..n] && Ahead() == old(Ahead())[n..]
    {
      ghost var head := Ahead();
      if pos + 1 < |source| && (source[pos] == '-' || source[pos] == '=') && source[pos + 1] == '>' {
        word := source[pos..pos + 2];
        pos := pos + 2;
        assert word == head[..2] && Ahead() == head[2..];
        return;
      }
      assert !StartsArrow(head);
      var c := source[pos];
      if IsSeparator(c) {
        pos := pos + 1;
        assert [c] == head[..1] && Ahead() == head[1..];
        return [c];
      }
      word := ReadLetters();
    }

    /** The loop that ends `ReadWord`: letters up to the next boundary. */
    method ReadLetters() returns (word: string)
      requires Valid()
      modifies this`pos
      ensures Valid() && pos >= old(pos)
      ensures var n := WordLength(old(Ahead())); word == old(Ahead())[..n] && Ahead() == old(Ahead())[n..]
    {
      word := "";
      while pos < |source|
        invariant Valid() && pos >= old(pos)
        invariant word == source[old(pos)..pos]
        invariant WordLength(old(Ahead())) == |word| + WordLength(Ahead())
      {
        if EndsWord(source[pos..]) {
          break;
        }
        assert Ahead()[1..] == source[pos + 1..];
        word := word + [source[pos]];
        pos := pos + 1;
      }
      assert EndsWord(Ahead());
      assert old(Ahead())[|word|..] == Ahead();
    }

    method IsEof() returns (eof: bool)
      requires Valid()
      modifies this`pos
      ensures Valid() && pos >= old(pos)
      ensures eof <==> old(WordsAhead()) == []
    {
      SkipWhitespace();
      eof := pos >= |source|;
    }

    method ParseType() returns (r: Result<Type, ParseError>)
      requires Valid()
      modifies this`pos
      ensures Valid() && pos >= old(pos)
      ensures match TypeOf(old(WordsAhead()))
              case Success((t, ws)) => r == Success(t) && WordsAhead() == ws
              case Failure(stuck) => r == Failure(stuck.error) && WordsAhead() == stuck.rest
      decreases |source| - pos, 0
    {
      var word := ReadWord();
      match word
      case "Int" => r := Success(Type.Int);
      case "Float" => r := Success(Type.Float);
      case "Any" => r := Success(Type.Any);
      case _ =>
        if word != "Pair" && word != "Either" {
          return Failure(UnknownType(word));
        }
        r := ParseCompound(word == "Pair");
    }

    method ParseCompound(pair: bool) returns (r: Result<Type, ParseError>)
      requires Valid()
      modifies this`pos
      ensures Valid() && pos >= old(pos)
      ensures match CompoundOf(pair, old(WordsAhead()))
              case Success((t, ws)) => r == Success(t) && WordsAhead() == ws
              case Failure(stuck) => r == Failure(stuck.error) && WordsAhead() == stuck.rest
      decreases |source| - pos, 1
    {
      var _ := ReadWord();
      var a := ParseType();
      if a.Failure? {
        return Failure(a.error);
      }
      var _ := ReadWord();
      var b := ParseType();
      if b.Failure? {
        return Failure(b.error);
      }
      var _ := ReadWord();
      r := Success(if pair then Type.Pair(a.value, b.value) else Type.Either(a.value, b.value));
    }

    method Parse() returns (r: Result<Expr, ParseError>)
      requires Valid()
      modifies this`pos
      ensures Valid() && pos >= old(pos)
      ensures Agrees(ExprOf(old(WordsAhead())), r, WordsAhead())
      decreases |source| - pos, 0
    {
      BlanksHideNoWords(Ahead());
      SkipWhitespace();
      if pos >= |source| {
        return Failure(Eof);
      }
      var word := ReadWord();
      if OpOf(word).Some? {
        r := ParseBinary(OpOf(word).value);
      } else if word == "pair" {
        r := ParsePair();
      } else if word == "Left" || word == "Right" {
        r := ParseInjection(word == "Left");
      } else if word == "match" {
        r := ParseMatch();
      } else if word == "let" {
        r := ParseLet();
      } else if word == "unpack" {
        r := ParseUnpack();
      } else if word == "\\" {
        r := ParseLambda();
      } else if word == "(" {
        r := ParseGroup();
      } else {
        r := Success(Leaf(word));
      }
    }

    method ParseBinary(op: Op) returns (r: Result<Expr, ParseError>)
      requires Valid()
      modifies this`pos
      ensures Valid() && pos >= old(pos)
      ensures Agrees(BinaryOf(op, old(WordsAhead())), r, WordsAhead())
      decreases |source| - pos, 1
    {
      var lhs := Parse();
      if lhs.Failure? {
        return Failure(lhs.error);
      }
      var rhs := Parse();
      if rhs.Failure? {
        return Failure(rhs.error);
      }
      r := Success(Binary(op, lhs.value, rhs.value));
    }

    method ParsePair() returns (r: Result<Expr, ParseError>)
      requires Valid()
      modifies this`pos
      ensures Valid() && pos >= old(pos)
      ensures Agrees(PairOf(old(WordsAhead())), r, WordsAhead())
      decreases |source| - pos, 1
    {
      var lhs := Parse();
      if lhs.Failure? {
        return Failure(lhs.error);
      }
      var rhs := Parse();
      if rhs.Failure? {
        return Failure(rhs.error);
      }
      r := Success(Expr.Pair(lhs.value, rhs.value));
    }

    method ParseInjection(left: bool) returns (r: Result<Expr, ParseError>)
      requires Valid()
      modifies this`pos
      ensures Valid() && pos >= old(pos)
      ensures Agrees(InjectionOf(left, old(WordsAhead())), r, WordsAhead())
      decreases |source| - pos, 1
    {
      var _ := ReadWord();
      var inner := Parse();
      if inner.Failure? {
        return Failure(inner.error);
      }
      var _ := ReadWord();
      r := Success(if left then Expr.Left(inner.value) else Expr.Right(inner.value));
    }

    method ParseMatch() returns (r: Result<Expr, ParseError>)
      requires Valid()
      modifies this`pos
      ensures Valid() && pos >= old(pos)
      ensures Agrees(MatchOf(old(WordsAhead())), r, WordsAhead())
      decreases |source| - pos, 1
    {
      var scrutinee := Parse();
      if scrutinee.Failure? {
        return Failure(scrutinee.error);
      }
      SkipTwoWords();
      var lVar, lBody := ParseBranch();
      if lBody.Failure? {
        return Failure(lBody.error);
      }
      SkipToSecondBranch();
      var rVar, rBody := ParseBranch();
      if rBody.Failure? {
        return Failure(rBody.error);
      }
      var _ := ReadWord();
      r := Success(Match(scrutinee.value, lVar, lBody.value, rVar, rBody.value));
    }

    method SkipTwoWords()
      requires Valid()
      modifies this`pos
      ensures Valid() && pos >= old(pos) && WordsAhead() == Drop(old(WordsAhead()), 2)
    {
      DropsAdd(WordsAhead(), 1, 1);
      var _ := ReadWord();
      var _ := ReadWord();
    }

    /** A comma, if there is one, and the word behind it. */
    method SkipToSecondBranch()
      requires Valid()
      modifies this`pos
      ensures Valid() && pos >= old(pos)
      ensures WordsAhead() == Drop(old(WordsAhead()), if At(old(WordsAhead()), 0) == "," then 2 else 1)
    {
      DropsAdd(WordsAhead(), 1, 1);
      var next := ReadWord();
      if next == "," {
        var _ := ReadWord();
      }
    }

    method ParseBranch() returns (x: string, body: Result<Expr, ParseError>)
      requires Valid()
      modifies this`pos
      ensures Valid() && pos >= old(pos)
      ensures match BranchOf(old(WordsAhead()))
              case Success((y, e, ws)) => x == y && body == Success(e) && WordsAhead() == ws
              case Failure(stuck) => body == Failure(stuck.error) && WordsAhead() == stuck.rest
      decreases |source| - pos, 1
    {
      x := ReadPattern();
      body := Parse();
    }

    /** `( x ) =>` */
    method ReadPattern() returns (x: string)
      requires Valid()
      modifies this`pos
      ensures Valid() && pos >= old(pos)
      ensures x == At(old(WordsAhead()), 1) && WordsAhead() == Drop(old(WordsAhead()), 4)
    {
      ghost var ws := WordsAhead();
      var _ := ReadWord();
      x := ReadWord();
      DropsAdd(ws, 1, 0);
      DropsAdd(ws, 1, 1);
      var _ := ReadWord();
      DropsAdd(ws, 2, 1);
      var _ := ReadWord();
      DropsAdd(ws, 3, 1);
    }

    method ParseLet() returns (r: Result<Expr, ParseError>)
      requires Valid()
      modifies this`pos
      ensures Valid() && pos >= old(pos)
      ensures Agrees(LetOf(old(WordsAhead())), r, WordsAhead())
      decreases |source| - pos, 1
    {
      ghost var ws := WordsAhead();
      var name := ReadWord();
      var recursive := name == "rec";
      if recursive {
        name := ReadWord();
      }
      ghost var ws0 := if recursive then Drop(ws, 1) else ws;
      var _ := ReadWord();
      DropsAdd(ws0, 1, 1);
      assert name == At(ws0, 0) && WordsAhead() == Drop(ws0, 2);
      var val := Parse();
      if val.Failure? {
        return Failure(val.error);
      }
      var _ := ReadWord();
      var body := Parse();
      if body.Failure? {
        return Failure(body.error);
      }
      r := Success(if recursive then LetRec(name, val.value, body.value) else Let(name, val.value, body.value));
    }

    /** `a b =` */
    method ReadPairOfNames() returns (a: string, b: string)
      requires Valid()
      modifies this`pos
      ensures Valid() && pos >= old(pos)
      ensures a == At(old(WordsAhead()), 0) && b == At(old(WordsAhead()), 1)
      ensures WordsAhead() == Drop(old(WordsAhead()), 3)
    {
      ghost var ws := WordsAhead();
      a := ReadWord();
      b := ReadWord();
      DropsAdd(ws, 1, 0);
      DropsAdd(ws, 1, 1);
      var _ := ReadWord();
      DropsAdd(ws, 2, 1);
    }

    method ParseUnpack() returns (r: Result<Expr, ParseError>)
      requires Valid()
      modifies this`pos
      ensures Valid() && pos >= old(pos)
      ensures Agrees(UnpackOf(old(WordsAhead())), r, WordsAhead())
      decreases |source| - pos, 1
    {
      var a, b := ReadPairOfNames();
      var pair := Parse();
      if pair.Failure? {
        return Failure(pair.error);
      }
      var _ := ReadWord();
      var body := Parse();
      if body.Failure? {
        return Failure(body.error);
      }
      r := Success(Unpack(a, b, pair.value, body.value));
    }

    method ParseLambda() returns (r: Result<Expr, ParseError>)
      requires Valid()
      modifies this`pos
      ensures Valid() && pos >= old(pos)
      ensures Agrees(LambdaOf(old(WordsAhead())), r, WordsAhead())
      decreases |source| - pos, 1
    {
      var param := ReadWord();
      var _ := ReadWord();
      var t := ParseType();
      if t.Failure? {
        return Failure(t.error);
      }
      var _ := ReadWord();
      var body := Parse();
      if body.Failure? {
        return Failure(body.error);
      }
      r := Success(Lambda(param, t.value, body.value));
    }

    method ParseGroup() returns (r: Result<Expr, ParseError>)
      requires Valid()
      modifies this`pos
      ensures Valid() && pos >= old(pos)
      ensures Agrees(GroupOf(old(WordsAhead())), r, WordsAhead())
      decreases |source| - pos, 1
    {
      var first := Parse();
      if first.Failure? {
        return Failure(first.error);
      }
      BlanksHideNoWords(Ahead());
      SkipWhitespace();
      if pos < |source| && source[pos] == ')' {
        CloserIsAWord(Ahead());
        var _ := ReadWord();
        return first;
      }
      OnlyACloserIsTheCloser(Ahead());
      var second := Parse();
      if second.Failure? {
        return Failure(second.error);
      }
      var _ := ReadWord();
      r := Success(App(first.value, second.value, false));
    }
  }

  /** A method's result and the words it leaves ahead are those of the grammar, after an error too. */
  ghost predicate Agrees(spec: Parsed, r: Result<Expr, ParseError>, ahead: seq<string>) {
    match spec
    case Success((e, ws)) => r == Success(e) && ahead == ws
    case Failure(stuck) => r == Failure(stuck.error) && ahead == stuck.rest
  }

  /** The pipeline's front end: one expression and nothing after it but blanks or the wall. */
  method ParseProgram(source: string) returns (r: Option<Result<Expr, ParseError>>)
    ensures r == ProgramOf(Words(source))
  {
    var parser := new Parser(source);
    var e := parser.Parse();
    if e.Success? {
      var eof := parser.IsEof();
      r := if eof then Some(e) else None;
    } else {
      r := Some(e);
    }
  }

  /** None when the text goes on after the expression. */
  function ProgramOf(ws: seq<string>): Option<Result<Expr, ParseError>> {
    match ExprOf(ws)
    case Success((e, rest)) => if rest == [] then Some(Success(e)) else None
    case Failure(stuck) => Some(Failure(stuck.error))
  }
}

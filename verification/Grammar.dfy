/** What the parser makes of a sequence of words. */
module Grammar {
  import opened Wrappers
  import opened Ast
  import opened Numerals

  datatype ParseError = Eof | UnknownType(word: string)

  /** Where a parse stops short: the error, and the words that are still ahead. */
  datatype Stuck = Stuck(error: ParseError, rest: seq<string>)

  /** The word `i` places ahead, and what is left after `n` words; past the end there are empty words. */
  function At(ws: seq<string>, i: nat): string {
    if i < |ws| then ws[i] else ""
  }

  function Drop(ws: seq<string>, n: nat): (r: seq<string>)
    ensures |r| <= |ws| && (n > 0 && ws != [] ==> |r| < |ws|)
  {
    if n < |ws| then ws[n..] else []
  }

  lemma DropsAdd(ws: seq<string>, m: nat, n: nat)
    ensures Drop(Drop(ws, m), n) == Drop(ws, m + n)
    ensures At(Drop(ws, m), n) == At(ws, m + n)
  {
  }

  function OpOf(word: string): Option<Op> {
    if word == "add" then Some(Add)
    else if word == "sub" then Some(Sub)
    else if word == "mul" then Some(Mul)
    else if word == "div" then Some(Div)
    else if word == "eq" then Some(Eq)
    else if word == "gt" then Some(Gt)
    else if word == "lt" then Some(Lt)
    else if word == "ge" then Some(Ge)
    else if word == "le" then Some(Le)
    else None
  }

  function Leaf(word: string): Expr {
    if ParseInt64(word).Some? then IntLiteral(ParseInt64(word).value)
    else if IsFloat64(word) then FloatLiteral(Nearest(word))
    else Var(word)
  }

  function TypeOf(ws: seq<string>): (r: Result<(Type, seq<string>), Stuck>)
    ensures r.Success? ==> |r.value.1| < |ws|
    decreases |ws|, 0
  {
    var word := At(ws, 0);
    if word == "Int" then Success((Type.Int, Drop(ws, 1)))
    else if word == "Float" then Success((Type.Float, Drop(ws, 1)))
    else if word == "Any" then Success((Type.Any, Drop(ws, 1)))
    else if word == "Pair" || word == "Either" then CompoundOf(word == "Pair", Drop(ws, 1))
    else Failure(Stuck(UnknownType(word), Drop(ws, 1)))
  }

  function CompoundOf(pair: bool, ws: seq<string>): (r: Result<(Type, seq<string>), Stuck>)
    ensures r.Success? ==> |r.value.1| < |ws|
    decreases |ws|, 1
  {
    var (a, ws1) :- TypeOf(Drop(ws, 1));
    var (b, ws2) :- TypeOf(Drop(ws1, 1));
    Success((if pair then Type.Pair(a, b) else Type.Either(a, b), Drop(ws2, 1)))
  }

  type Parsed = Result<(Expr, seq<string>), Stuck>

  function ExprOf(ws: seq<string>): (r: Parsed)
    ensures r.Success? ==> |r.value.1| < |ws|
    decreases |ws|, 0
  {
    if ws == [] then Failure(Stuck(Eof, []))
    else
      var word, rest := ws[0], ws[1..];
      if OpOf(word).Some? then BinaryOf(OpOf(word).value, rest)
      else if word == "pair" then PairOf(rest)
      else if word == "Left" || word == "Right" then InjectionOf(word == "Left", rest)
      else if word == "match" then MatchOf(rest)
      else if word == "let" then LetOf(rest)
      else if word == "unpack" then UnpackOf(rest)
      else if word == "\\" then LambdaOf(rest)
      else if word == "(" then GroupOf(rest)
      else Success((Leaf(word), rest))
  }

  function BinaryOf(op: Op, ws: seq<string>): (r: Parsed)
    ensures r.Success? ==> |r.value.1| < |ws|
    decreases |ws|, 1
  {
    var (lhs, ws1) :- ExprOf(ws);
    var (rhs, ws2) :- ExprOf(ws1);
    Success((Binary(op, lhs, rhs), ws2))
  }

  function PairOf(ws: seq<string>): (r: Parsed)
    ensures r.Success? ==> |r.value.1| < |ws|
    decreases |ws|, 1
  {
    var (lhs, ws1) :- ExprOf(ws);
    var (rhs, ws2) :- ExprOf(ws1);
    Success((Expr.Pair(lhs, rhs), ws2))
  }

  function InjectionOf(left: bool, ws: seq<string>): (r: Parsed)
    ensures r.Success? ==> |r.value.1| < |ws|
    decreases |ws|, 1
  {
    var (inner, ws1) :- ExprOf(Drop(ws, 1));
    Success((if left then Expr.Left(inner) else Expr.Right(inner), Drop(ws1, 1)))
  }

  /** `( x ) => body`, with the binder first in the result. */
  function BranchOf(ws: seq<string>): (r: Result<(string, Expr, seq<string>), Stuck>)
    ensures r.Success? ==> |r.value.2| < |ws|
    decreases |ws|, 1
  {
    var (body, ws1) :- ExprOf(Drop(ws, 4));
    Success((At(ws, 1), body, ws1))
  }

  /** The comma before the second branch may be left out. */
  function MatchOf(ws: seq<string>): (r: Parsed)
    ensures r.Success? ==> |r.value.1| < |ws|
    decreases |ws|, 1
  {
    var (scrutinee, ws1) :- ExprOf(ws);
    var (lVar, lBody, ws2) :- BranchOf(Drop(ws1, 2));
    var (rVar, rBody, ws3) :- BranchOf(Drop(ws2, if At(ws2, 0) == "," then 2 else 1));
    Success((Match(scrutinee, lVar, lBody, rVar, rBody), Drop(ws3, 1)))
  }

  function LetOf(ws: seq<string>): (r: Parsed)
    ensures r.Success? ==> |r.value.1| < |ws|
    decreases |ws|, 1
  {
    var recursive := At(ws, 0) == "rec";
    var ws0 := if recursive then Drop(ws, 1) else ws;
    var (val, ws1) :- ExprOf(Drop(ws0, 2));
    var (body, ws2) :- ExprOf(Drop(ws1, 1));
    Success((if recursive then LetRec(At(ws0, 0), val, body) else Let(At(ws0, 0), val, body), ws2))
  }

  function UnpackOf(ws: seq<string>): (r: Parsed)
    ensures r.Success? ==> |r.value.1| < |ws|
    decreases |ws|, 1
  {
    var (pair, ws1) :- ExprOf(Drop(ws, 3));
    var (body, ws2) :- ExprOf(Drop(ws1, 1));
    Success((Unpack(At(ws, 0), At(ws, 1), pair, body), ws2))
  }

  function LambdaOf(ws: seq<string>): (r: Parsed)
    ensures r.Success? ==> |r.value.1| < |ws|
    decreases |ws|, 1
  {
    var (t, ws1) :- TypeOf(Drop(ws, 2));
    var (body, ws2) :- ExprOf(Drop(ws1, 1));
    Success((Lambda(At(ws, 0), t, body), ws2))
  }

  /** One expression in parentheses stands for itself; two are an application. */
  function GroupOf(ws: seq<string>): (r: Parsed)
    ensures r.Success? ==> |r.value.1| < |ws|
    decreases |ws|, 1
  {
    var (first, ws1) :- ExprOf(ws);
    if At(ws1, 0) == ")" then Success((first, Drop(ws1, 1)))
    else
      var (second, ws2) :- ExprOf(ws1);
      Success((App(first, second, false), Drop(ws2, 1)))
  }
}

/**
 The parser inverts printing: the words of an expression, laid out with any blanks between them,
 parse to exactly that expression and leave nothing over.
 */
module RoundTrip {
  import opened Machine
  import opened Wrappers
  import opened Ast
  import opened Lexer
  import opened Numerals
  import opened Grammar
  import opened Parsing
  import opened Quarantine

  // ----- words -----

  /** Letters only: nothing that would break the word. */
  predicate IsWord(w: string) {
    && w != ""
    && (forall i :: 0 <= i < |w| ==> !IsBlank(w[i]) && !IsSeparator(w[i]))
    && (forall i :: 0 <= i < |w| ==> !StartsArrow(w[i..]))
  }

  const PUNCTUATION: set<string> := {"(", ")", ":", "=", "{", "}", ",", "\\", "#", "=>", "->"}

  predicate IsToken(w: string) {
    IsWord(w) || w in PUNCTUATION
  }

  const KEYWORDS: set<string> :=
    {"add", "sub", "mul", "div", "eq", "gt", "lt", "ge", "le", "pair", "Left", "Right", "match", "let", "unpack"}

  /** A variable that reads back as itself: not a keyword and not a number. */
  predicate IsName(x: string) {
    IsWord(x) && x !in KEYWORDS && ParseInt64(x).None? && !IsFloat64(x)
  }

  predicate ParseableType(t: Type) {
    match t
    case Func(_, _) => false
    case Pair(a, b) => ParseableType(a) && ParseableType(b)
    case Either(a, b) => ParseableType(a) && ParseableType(b)
    case _ => true
  }

  /** Binders may be any word at all, save that a plain `let` cannot bind "rec". */
  predicate Printable(e: Expr) {
    match e
    case IntLiteral(_) => true
    case FloatLiteral(f) => IsWord(f.text) && f.text !in KEYWORDS && IsFloat64(f.text) && ParseInt64(f.text).None?
    case Var(x) => IsName(x)
    case Binary(_, l, r) => Printable(l) && Printable(r)
    case Lambda(x, t, body) => IsWord(x) && ParseableType(t) && Printable(body)
    case App(f, a, tail) => Printable(f) && Printable(a) && !tail
    case Pair(l, r) => Printable(l) && Printable(r)
    case Unpack(a, b, pair, body) => IsWord(a) && IsWord(b) && Printable(pair) && Printable(body)
    case Left(inner) => Printable(inner)
    case Right(inner) => Printable(inner)
    case Match(s, x, l, y, r) => Printable(s) && IsWord(x) && Printable(l) && IsWord(y) && Printable(r)
    case Let(x, val, body) => IsWord(x) && x != "rec" && Printable(val) && Printable(body)
    case LetRec(x, val, body) => IsWord(x) && Printable(val) && Printable(body)
  }

  function OpWord(op: Op): string {
    match op
    case Add => "add"
    case Sub => "sub"
    case Mul => "mul"
    case Div => "div"
    case Eq => "eq"
    case Gt => "gt"
    case Lt => "lt"
    case Ge => "ge"
    case Le => "le"
  }

  function ShowType(t: Type): seq<string>
    requires ParseableType(t)
  {
    match t
    case Int => ["Int"]
    case Float => ["Float"]
    case Any => ["Any"]
    case Pair(a, b) => ["Pair"] + ShowTypes("(", ShowType(a), ",", ShowType(b), ")")
    case Either(a, b) => ["Either"] + ShowTypes("(", ShowType(a), ",", ShowType(b), ")")
  }

  function ShowTypes(p: string, a: seq<string>, q: string, b: seq<string>, r: string): seq<string> {
    [p] + a + [q] + b + [r]
  }

  /**
   How a text uses its freedom: how many pairs of parentheses stand around each subexpression, and which
   matches have a comma between their branches. Subexpressions are told apart by the way down to them.
   */
  datatype Style = Style(parentheses: seq<nat> -> nat, comma: seq<nat> -> bool) {
    /** The style of the `i`-th subexpression. */
    function At(i: nat): Style {
      Style(way => parentheses([i] + way), way => comma([i] + way))
    }
  }

  function Show(e: Expr, s: Style): seq<string>
    requires Printable(e)
    decreases e, 1
  {
    Parenthesised(s.parentheses([]), Bare(e, s))
  }

  function Parenthesised(n: nat, ws: seq<string>): seq<string> {
    if n == 0 then ws else Enclosed("(", Parenthesised(n - 1, ws), ")")
  }

  function Bare(e: Expr, s: Style): seq<string>
    requires Printable(e)
    decreases e, 0
  {
    match e
    case IntLiteral(n) => [ShowInt(n)]
    case FloatLiteral(f) => [f.text]
    case Var(x) => [x]
    case Binary(op, l, r) => [OpWord(op)] + (Show(l, s.At(0)) + Show(r, s.At(1)))
    case Pair(l, r) => ["pair"] + (Show(l, s.At(0)) + Show(r, s.At(1)))
    case Lambda(x, t, body) => ["\\"] + Chained([x, ":"], ShowType(t), "=>", Show(body, s.At(0)))
    case App(f, a, _) => ["("] + (Show(f, s.At(0)) + Show(a, s.At(1)) + [")"])
    case Unpack(a, b, pair, body) =>
      ["unpack"] + Chained([a, b, "="], Show(pair, s.At(0)), "in", Show(body, s.At(1)))
    case Left(inner) => ["Left"] + Enclosed("(", Show(inner, s.At(0)), ")")
    case Right(inner) => ["Right"] + Enclosed("(", Show(inner, s.At(0)), ")")
    case Match(scrutinee, x, l, y, r) =>
      ["match"] + MatchWords(Show(scrutinee, s.At(0)), x, Show(l, s.At(1)), s.comma([]), y, Show(r, s.At(2)))
    case Let(x, val, body) => ["let"] + Chained([x, "="], Show(val, s.At(0)), "in", Show(body, s.At(1)))
    case LetRec(x, val, body) =>
      ["let"] + (["rec"] + Chained([x, "="], Show(val, s.At(0)), "in", Show(body, s.At(1))))
  }

  function MatchWords(
    scrutinee: seq<string>, x: string, l: seq<string>, comma: bool, y: string, r: seq<string>): seq<string> {
    Branching(scrutinee, ["{", "Left"], Branch("(", x, ")", "=>", l),
              Between(comma), Branch("(", y, ")", "=>", r), "}")
  }

  /** What stands between the branches of a match. */
  function Between(comma: bool): seq<string> {
    if comma then [",", "Right"] else ["Right"]
  }

  function Chained(front: seq<string>, a: seq<string>, q: string, b: seq<string>): seq<string> {
    front + a + [q] + b
  }

  function Enclosed(p: string, a: seq<string>, q: string): seq<string> {
    [p] + a + [q]
  }

  function Branch(p: string, x: string, q: string, r: string, body: seq<string>): seq<string> {
    [p, x, q, r] + body
  }

  function Branching(
    s: seq<string>, p: seq<string>, l: seq<string>, q: seq<string>, r: seq<string>, z: string): seq<string> {
    s + p + l + q + r + [z]
  }

  // ----- the grammar inverts printing -----
  //
  // The words that the parser reads and throws away are variables here: any words would do.

  lemma DropFront(front: seq<string>, rest: seq<string>)
    ensures Drop(front + rest, |front|) == rest
    ensures forall i :: 0 <= i < |front| ==> At(front + rest, i) == front[i]
  {
  }

  lemma ChainedThen(front: seq<string>, a: seq<string>, q: string, b: seq<string>, more: seq<string>)
    ensures Chained(front, a, q, b) + more == front + (a + ([q] + (b + more)))
    ensures Drop(Chained(front, a, q, b) + more, |front|) == a + ([q] + (b + more))
    ensures forall i :: 0 <= i < |front| ==> At(Chained(front, a, q, b) + more, i) == front[i]
    ensures Drop([q] + (b + more), 1) == b + more
  {
    assert Chained(front, a, q, b) + more == front + (a + ([q] + (b + more)));
    DropFront(front, a + ([q] + (b + more)));
    DropFront([q], b + more);
  }

  lemma FirstWordDecidesTheType(word: string, ws: seq<string>)
    ensures word == "Int" ==> TypeOf([word] + ws) == Success((Type.Int, ws))
    ensures word == "Float" ==> TypeOf([word] + ws) == Success((Type.Float, ws))
    ensures word == "Any" ==> TypeOf([word] + ws) == Success((Type.Any, ws))
    ensures word == "Pair" || word == "Either" ==> TypeOf([word] + ws) == CompoundOf(word == "Pair", ws)
  {
    DropFront([word], ws);
    assert At([word] + ws, 0) == word;
  }

  lemma GlueType(word: string, ws: seq<string>, more: seq<string>)
    ensures word == "Pair" || word == "Either" ==>
              TypeOf(([word] + ws) + more) == CompoundOf(word == "Pair", ws + more)
  {
    assert ([word] + ws) + more == [word] + (ws + more);
    FirstWordDecidesTheType(word, ws + more);
  }

  lemma {:induction false} TypesReadBack(t: Type, more: seq<string>)
    requires ParseableType(t)
    ensures TypeOf(ShowType(t) + more) == Success((t, more))
    decreases t, 1
  {
    match t
    case Int => FirstWordDecidesTheType("Int", more);
    case Float => FirstWordDecidesTheType("Float", more);
    case Any => FirstWordDecidesTheType("Any", more);
    case Pair(a, b) =>
      CompoundTypesReadBack(t, true, a, b, "(", ",", ")", more);
      GlueType("Pair", ShowTypes("(", ShowType(a), ",", ShowType(b), ")"), more);
    case Either(a, b) =>
      CompoundTypesReadBack(t, false, a, b, "(", ",", ")", more);
      GlueType("Either", ShowTypes("(", ShowType(a), ",", ShowType(b), ")"), more);
  }

  lemma {:induction false} CompoundTypesReadBack(
    t: Type, pair: bool, a: Type, b: Type, p: string, q: string, r: string, more: seq<string>)
    requires a < t && b < t && ParseableType(a) && ParseableType(b)
    ensures CompoundOf(pair, ShowTypes(p, ShowType(a), q, ShowType(b), r) + more) ==
            Success((if pair then Type.Pair(a, b) else Type.Either(a, b), more))
    decreases t, 0
  {
    TypesReadBack(a, [q] + (ShowType(b) + ([r] + more)));
    TypesReadBack(b, [r] + more);
    CompoundText(p, ShowType(a), q, ShowType(b), r, more);
    CompoundRule(pair, ShowTypes(p, ShowType(a), q, ShowType(b), r) + more,
                 a, [q] + (ShowType(b) + ([r] + more)), b, [r] + more);
  }

  lemma CompoundText(p: string, a: seq<string>, q: string, b: seq<string>, r: string, more: seq<string>)
    ensures Drop(ShowTypes(p, a, q, b, r) + more, 1) == a + ([q] + (b + ([r] + more)))
    ensures Drop([q] + (b + ([r] + more)), 1) == b + ([r] + more) && Drop([r] + more, 1) == more
  {
    assert ShowTypes(p, a, q, b, r) + more == [p] + (a + ([q] + (b + ([r] + more))));
  }

  lemma CompoundRule(pair: bool, ws: seq<string>, a: Type, ws1: seq<string>, b: Type, ws2: seq<string>)
    requires TypeOf(Drop(ws, 1)) == Success((a, ws1)) && TypeOf(Drop(ws1, 1)) == Success((b, ws2))
    ensures CompoundOf(pair, ws) == Success((if pair then Type.Pair(a, b) else Type.Either(a, b), Drop(ws2, 1)))
  {
  }

  /** The first word never closes a group. */
  lemma {:induction false} NothingStartsWithACloser(e: Expr, s: Style)
    requires Printable(e)
    ensures Show(e, s) != [] && Show(e, s)[0] != ")"
  {
    BareStartsWithNoCloser(e, s);
    ParenthesesStartWithNoCloser(s.parentheses([]), Bare(e, s));
  }

  lemma {:induction false} ParenthesesStartWithNoCloser(n: nat, ws: seq<string>)
    requires ws != [] && ws[0] != ")"
    ensures Parenthesised(n, ws) != [] && Parenthesised(n, ws)[0] != ")"
  {
    KeywordsAreNoClosers();
  }

  lemma {:induction false} BareStartsWithNoCloser(e: Expr, s: Style)
    requires Printable(e)
    ensures Bare(e, s) != [] && Bare(e, s)[0] != ")"
  {
    match e
    case IntLiteral(n) => NumbersAreWords(n);
    case Var(x) => WordsAreNoSeparators(x);
    case FloatLiteral(f) => WordsAreNoSeparators(f.text);
    case _ => KeywordsAreNoClosers();
  }

  lemma KeywordsAreNoClosers()
    ensures ")" !in KEYWORDS && forall op :: OpWord(op) in KEYWORDS
    ensures "(" != ")" && "\\" != ")"
  {
  }

  /** What a number looks like as a word. */
  lemma NumbersAreWords(n: Int64)
    ensures IsWord(ShowInt(n))
    ensures IsDigit(ShowInt(n)[0]) || ShowInt(n)[0] == '-'
  {
    var w := ShowInt(n);
    var m: int := n;
    var digits := ShowNat(if m < 0 then -m else m);
    assert IsDigit(digits[0]);
    assert w == if m < 0 then ['-'] + digits else digits;
    forall i | 0 <= i < |w| ensures !IsBlank(w[i]) && !IsSeparator(w[i]) && !StartsArrow(w[i..]) {
      assert IsDigit(w[i]) || (i == 0 && w[i] == '-' && |w| > 1 && IsDigit(w[1]));
      assert |w[i..]| >= 2 ==> w[i..][0] == w[i] && w[i..][1] == w[i + 1];
    }
  }

  /** Words that do not begin an expression form by themselves. */
  predicate IsLeafWord(w: string) {
    && OpOf(w).None? && w != "pair" && w != "Left" && w != "Right" && w != "match" && w != "let" && w != "unpack"
    && w != "\\" && w != "("
  }

  lemma NamesAreLeafWords(x: string)
    requires IsName(x)
    ensures IsLeafWord(x)
  {
    WordsAreNoSeparators(x);
    OtherWordsAreNoKeywords(x);
  }

  lemma FloatsAreLeafWords(w: string)
    requires IsWord(w) && w !in KEYWORDS && IsFloat64(w) && ParseInt64(w).None?
    ensures IsLeafWord(w) && Leaf(w) == FloatLiteral(Nearest(w))
  {
    WordsAreNoSeparators(w);
    OtherWordsAreNoKeywords(w);
  }

  lemma WordsAreNoSeparators(w: string)
    requires w != "" && !IsSeparator(w[0])
    ensures w != "(" && w != "\\" && w != ")"
  {
    assert IsSeparator('(') && IsSeparator('\\') && IsSeparator(')');
  }

  lemma OtherWordsAreNoKeywords(w: string)
    requires w !in KEYWORDS
    ensures OpOf(w).None? && w != "pair" && w != "Left" && w != "Right" && w != "match" && w != "let" && w != "unpack"
  {
  }

  lemma LeafWordsByFirstLetter(w: string)
    requires w != "" && w[0] !in "asmdeglpLRu\\("
    ensures IsLeafWord(w)
  {
  }

  lemma NumbersAreLeafWords(n: Int64)
    ensures IsLeafWord(ShowInt(n)) && Leaf(ShowInt(n)) == IntLiteral(n)
  {
    var w := ShowInt(n);
    assert w != "" && w[0] !in "asmdeglpLRu\\(" by {
      NumbersAreWords(n);
    }
    LeafWordsByFirstLetter(w);
    ReadingAShownInt(n);
  }

  lemma LeavesReadBack(w: string, more: seq<string>)
    requires IsLeafWord(w)
    ensures ExprOf([w] + more) == Success((Leaf(w), more))
  {
    assert ([w] + more)[1..] == more;
  }

  /** Which rule reads on after each first word. */
  lemma FirstWordDecides(word: string, ws: seq<string>)
    ensures OpOf(word).Some? ==> ExprOf([word] + ws) == BinaryOf(OpOf(word).value, ws)
    ensures word == "pair" ==> ExprOf([word] + ws) == PairOf(ws)
    ensures word == "Left" || word == "Right" ==> ExprOf([word] + ws) == InjectionOf(word == "Left", ws)
    ensures word == "match" ==> ExprOf([word] + ws) == MatchOf(ws)
  {
    var all := [word] + ws;
    assert all[0] == word && all[1..] == ws;
  }

  lemma BinderWordDecides(word: string, ws: seq<string>)
    ensures word == "let" ==> ExprOf([word] + ws) == LetOf(ws)
    ensures word == "unpack" ==> ExprOf([word] + ws) == UnpackOf(ws)
    ensures word == "\\" ==> ExprOf([word] + ws) == LambdaOf(ws)
    ensures word == "(" ==> ExprOf([word] + ws) == GroupOf(ws)
  {
    var all := [word] + ws;
    assert all[0] == word && all[1..] == ws;
  }

  /** Main theorem on words, whatever the style. */
  lemma {:induction false} ExpressionsReadBack(e: Expr, s: Style, more: seq<string>)
    requires Printable(e)
    ensures ExprOf(Show(e, s) + more) == Success((e, more))
    decreases e, 4
  {
    ParenthesesReadBack(e, s, s.parentheses([]), more);
  }

  lemma {:induction false} ParenthesesReadBack(e: Expr, s: Style, n: nat, more: seq<string>)
    requires Printable(e)
    ensures ExprOf(Parenthesised(n, Bare(e, s)) + more) == Success((e, more))
    decreases e, 3, n
  {
    if n == 0 {
      BareReadsBack(e, s, more);
    } else {
      var inner := Parenthesised(n - 1, Bare(e, s));
      ParenthesesReadBack(e, s, n - 1, [")"] + more);
      InParentheses("(", inner, ")", more, e);
    }
  }

  lemma InParentheses(p: string, inner: seq<string>, q: string, more: seq<string>, e: Expr)
    requires p == "(" && q == ")" && ExprOf(inner + ([q] + more)) == Success((e, [q] + more))
    ensures ExprOf(Enclosed(p, inner, q) + more) == Success((e, more))
  {
    var tail := [q] + more;
    var ws := inner + tail;
    assert Enclosed(p, inner, q) + more == [p] + ws;
    assert ExprOf([p] + ws) == GroupOf(ws) by {
      BinderWordDecides(p, ws);
    }
    assert At(tail, 0) == q && Drop(tail, 1) == more by {
      DropFront([q], more);
    }
    OneExpressionIsItself(ws, e, tail);
  }

  lemma OneExpressionIsItself(ws: seq<string>, e: Expr, ws1: seq<string>)
    requires ExprOf(ws) == Success((e, ws1)) && At(ws1, 0) == ")"
    ensures GroupOf(ws) == Success((e, Drop(ws1, 1)))
  {
  }

  lemma {:induction false} BareReadsBack(e: Expr, s: Style, more: seq<string>)
    requires Printable(e)
    ensures ExprOf(Bare(e, s) + more) == Success((e, more))
    decreases e, 2
  {
    match e
    case IntLiteral(n) => NumbersAreLeafWords(n); LeavesReadBack(ShowInt(n), more);
    case Var(x) => NamesAreLeafWords(x); LeavesReadBack(x, more);
    case Binary(_, _, _) => BracketsReadBack(e, s, more);
    case Pair(_, _) => BracketsReadBack(e, s, more);
    case App(_, _, _) => BracketsReadBack(e, s, more);
    case Left(_) => BracketsReadBack(e, s, more);
    case Right(_) => BracketsReadBack(e, s, more);
    case FloatLiteral(f) => FloatsAreLeafWords(f.text); LeavesReadBack(f.text, more);
    case Match(_, _, _, _, _) => MatchReadsBack(e, s, more);
    case _ => BindersReadBack(e, s, more);
  }

  lemma {:induction false} BracketsReadBack(e: Expr, s: Style, more: seq<string>)
    requires e.Binary? || e.Pair? || e.App? || e.Left? || e.Right?
    requires Printable(e)
    ensures ExprOf(Bare(e, s) + more) == Success((e, more))
    decreases e, 1
  {
    var a, b := s.At(0), s.At(1);
    match e
    case Binary(op, l, r) =>
      OperandsReadBack(e, l, a, r, b, more);
      OperatorsReadBack(op);
      Glue(OpWord(op), Show(l, a) + Show(r, b), more);
    case Pair(l, r) =>
      OperandsReadBack(e, l, a, r, b, more);
      Glue("pair", Show(l, a) + Show(r, b), more);
    case App(f, x, _) =>
      GroupsReadBack(e, f, a, x, b, ")", more);
      Glue("(", Show(f, a) + Show(x, b) + [")"], more);
    case Left(inner) =>
      InjectionsReadBack(e, true, "(", inner, a, ")", more);
      Glue("Left", Enclosed("(", Show(inner, a), ")"), more);
    case Right(inner) =>
      InjectionsReadBack(e, false, "(", inner, a, ")", more);
      Glue("Right", Enclosed("(", Show(inner, a), ")"), more);
  }

  lemma {:induction false} BindersReadBack(e: Expr, s: Style, more: seq<string>)
    requires e.Lambda? || e.Unpack? || e.Let? || e.LetRec?
    requires Printable(e)
    ensures ExprOf(Bare(e, s) + more) == Success((e, more))
    decreases e, 1
  {
    var c, d := s.At(0), s.At(1);
    match e
    case Lambda(x, t, body) =>
      LambdasReadBack(e, x, ":", t, "=>", body, c, more);
      Glue("\\", Chained([x, ":"], ShowType(t), "=>", Show(body, c)), more);
    case Unpack(a, b, pair, body) =>
      UnpacksReadBack(e, a, b, "=", pair, c, "in", body, d, more);
      Glue("unpack", Chained([a, b, "="], Show(pair, c), "in", Show(body, d)), more);
    case Let(x, val, body) =>
      LetsReadBack(e, x, "=", val, c, "in", body, d, more);
      Glue("let", Chained([x, "="], Show(val, c), "in", Show(body, d)), more);
    case LetRec(x, val, body) =>
      LetRecsReadBack(e, "rec", x, "=", val, c, "in", body, d, more);
      Glue("let", ["rec"] + Chained([x, "="], Show(val, c), "in", Show(body, d)), more);
  }

  lemma {:induction false} MatchReadsBack(e: Expr, s: Style, more: seq<string>)
    requires e.Match? && Printable(e)
    ensures ExprOf(Bare(e, s) + more) == Success((e, more))
    decreases e, 1
  {
    var a, b, c, mid := s.At(0), s.At(1), s.At(2), Between(s.comma([]));
    MatchesReadBack(e, a, b, c, ["{", "Left"], "(", ")", "=>", mid, "}", more);
    Glue("match", Branching(Show(e.scrutinee, a), ["{", "Left"], Branch("(", e.lVar, ")", "=>", Show(e.lBody, b)),
                            mid, Branch("(", e.rVar, ")", "=>", Show(e.rBody, c)), "}"), more);
  }

  lemma Glue(word: string, ws: seq<string>, more: seq<string>)
    ensures ([word] + ws) + more == [word] + (ws + more)
    ensures OpOf(word).Some? ==> ExprOf(([word] + ws) + more) == BinaryOf(OpOf(word).value, ws + more)
    ensures word == "pair" ==> ExprOf(([word] + ws) + more) == PairOf(ws + more)
    ensures word == "Left" || word == "Right" ==> ExprOf(([word] + ws) + more) == InjectionOf(word == "Left", ws + more)
    ensures word == "match" ==> ExprOf(([word] + ws) + more) == MatchOf(ws + more)
    ensures word == "let" ==> ExprOf(([word] + ws) + more) == LetOf(ws + more)
    ensures word == "unpack" ==> ExprOf(([word] + ws) + more) == UnpackOf(ws + more)
    ensures word == "\\" ==> ExprOf(([word] + ws) + more) == LambdaOf(ws + more)
    ensures word == "(" ==> ExprOf(([word] + ws) + more) == GroupOf(ws + more)
  {
    assert ([word] + ws) + more == [word] + (ws + more);
    FirstWordDecides(word, ws + more);
    BinderWordDecides(word, ws + more);
  }

  lemma {:induction false} OperandsReadBack(e: Expr, l: Expr, a: Style, r: Expr, b: Style, more: seq<string>)
    requires l < e && r < e && Printable(l) && Printable(r)
    ensures forall op :: BinaryOf(op, Show(l, a) + Show(r, b) + more) == Success((Binary(op, l, r), more))
    ensures PairOf(Show(l, a) + Show(r, b) + more) == Success((Expr.Pair(l, r), more))
    decreases e, 0
  {
    ExpressionsReadBack(l, a, Show(r, b) + more);
    ExpressionsReadBack(r, b, more);
    Associate(Show(l, a), Show(r, b), more);
    TwoOperands(l, r, Show(l, a) + (Show(r, b) + more), Show(r, b) + more, more);
  }

  lemma Associate(a: seq<string>, b: seq<string>, c: seq<string>)
    ensures a + b + c == a + (b + c)
  {
  }

  lemma TwoOperands(l: Expr, r: Expr, ws: seq<string>, ws1: seq<string>, ws2: seq<string>)
    requires ExprOf(ws) == Success((l, ws1)) && ExprOf(ws1) == Success((r, ws2))
    ensures forall op :: BinaryOf(op, ws) == Success((Binary(op, l, r), ws2))
    ensures PairOf(ws) == Success((Expr.Pair(l, r), ws2))
  {
  }

  lemma OperatorsReadBack(op: Op)
    ensures OpOf(OpWord(op)) == Some(op)
  {
  }

  lemma TwoExpressionsAreAnApplication(f: Expr, a: Expr, ws: seq<string>, ws1: seq<string>, ws2: seq<string>)
    requires ExprOf(ws) == Success((f, ws1)) && At(ws1, 0) != ")" && ExprOf(ws1) == Success((a, ws2))
    ensures GroupOf(ws) == Success((App(f, a, false), Drop(ws2, 1)))
  {
  }

  lemma {:induction false} GroupsReadBack(
    e: Expr, f: Expr, fs: Style, a: Expr, at: Style, q: string, more: seq<string>)
    requires f < e && a < e && Printable(f) && Printable(a)
    ensures GroupOf(Show(f, fs) + Show(a, at) + [q] + more) == Success((App(f, a, false), more))
    decreases e, 0
  {
    var tail, ws := [q] + more, Show(f, fs) + Show(a, at) + [q] + more;
    ExpressionsReadBack(f, fs, Show(a, at) + tail);
    ExpressionsReadBack(a, at, tail);
    assert ws == Show(f, fs) + (Show(a, at) + tail) by {
      GroupText(Show(f, fs), Show(a, at), q, more);
    }
    assert At(Show(a, at) + tail, 0) != ")" by {
      NothingStartsWithACloser(a, at);
    }
    assert Drop(tail, 1) == more by {
      DropFront([q], more);
    }
    TwoExpressionsAreAnApplication(f, a, ws, Show(a, at) + tail, tail);
  }

  lemma GroupText(f: seq<string>, a: seq<string>, q: string, more: seq<string>)
    ensures f + a + [q] + more == f + (a + ([q] + more))
  {
  }

  lemma {:induction false} InjectionsReadBack(
    e: Expr, left: bool, p: string, inner: Expr, s: Style, q: string, more: seq<string>)
    requires inner < e && Printable(inner)
    ensures InjectionOf(left, Enclosed(p, Show(inner, s), q) + more) ==
            Success((if left then Expr.Left(inner) else Expr.Right(inner), more))
    decreases e, 0
  {
    var tail := [q] + more;
    ExpressionsReadBack(inner, s, tail);
    EnclosedText(p, Show(inner, s), q, more);
    InjectionRule(left, Enclosed(p, Show(inner, s), q) + more, inner, tail);
  }

  lemma EnclosedText(p: string, inner: seq<string>, q: string, more: seq<string>)
    ensures Drop(Enclosed(p, inner, q) + more, 1) == inner + ([q] + more) && Drop([q] + more, 1) == more
  {
    assert Enclosed(p, inner, q) + more == [p] + (inner + ([q] + more));
  }

  lemma InjectionRule(left: bool, ws: seq<string>, inner: Expr, ws1: seq<string>)
    requires ExprOf(Drop(ws, 1)) == Success((inner, ws1))
    ensures InjectionOf(left, ws) == Success((if left then Expr.Left(inner) else Expr.Right(inner), Drop(ws1, 1)))
  {
  }

  lemma {:induction false} LambdasReadBack(
    e: Expr, x: string, p: string, t: Type, q: string, body: Expr, s: Style, more: seq<string>)
    requires body < e && ParseableType(t) && Printable(body)
    ensures LambdaOf(Chained([x, p], ShowType(t), q, Show(body, s)) + more) == Success((Lambda(x, t, body), more))
    decreases e, 0
  {
    var tail := [q] + (Show(body, s) + more);
    TypesReadBack(t, tail);
    ExpressionsReadBack(body, s, more);
    ChainedThen([x, p], ShowType(t), q, Show(body, s), more);
  }

  lemma {:induction false} UnpacksReadBack(
    e: Expr, a: string, b: string, p: string, pair: Expr, s: Style, q: string, body: Expr, t: Style, more: seq<string>)
    requires pair < e && body < e && Printable(pair) && Printable(body)
    ensures UnpackOf(Chained([a, b, p], Show(pair, s), q, Show(body, t)) + more) ==
            Success((Unpack(a, b, pair, body), more))
    decreases e, 0
  {
    var tail := [q] + (Show(body, t) + more);
    ExpressionsReadBack(pair, s, tail);
    ExpressionsReadBack(body, t, more);
    ChainedThen([a, b, p], Show(pair, s), q, Show(body, t), more);
  }

  lemma {:induction false} LetsReadBack(
    e: Expr, x: string, p: string, val: Expr, s: Style, q: string, body: Expr, t: Style, more: seq<string>)
    requires val < e && body < e && Printable(val) && Printable(body) && x != "rec"
    ensures LetOf(Chained([x, p], Show(val, s), q, Show(body, t)) + more) == Success((Let(x, val, body), more))
    decreases e, 0
  {
    var tail := [q] + (Show(body, t) + more);
    ExpressionsReadBack(val, s, tail);
    ExpressionsReadBack(body, t, more);
    ChainedThen([x, p], Show(val, s), q, Show(body, t), more);
  }

  lemma {:induction false} LetRecsReadBack(
    e: Expr, rec: string, x: string, p: string, val: Expr, s: Style, q: string, body: Expr, t: Style, more: seq<string>)
    requires val < e && body < e && Printable(val) && Printable(body) && rec == "rec"
    ensures LetOf([rec] + Chained([x, p], Show(val, s), q, Show(body, t)) + more) ==
            Success((LetRec(x, val, body), more))
    decreases e, 0
  {
    var ws := Chained([x, p], Show(val, s), q, Show(body, t)) + more;
    var tail := [q] + (Show(body, t) + more);
    ExpressionsReadBack(val, s, tail);
    ExpressionsReadBack(body, t, more);
    ChainedThen([x, p], Show(val, s), q, Show(body, t), more);
    assert [rec] + Chained([x, p], Show(val, s), q, Show(body, t)) + more == [rec] + ws;
    DropFront([rec], ws);
  }

  lemma {:induction false} MatchesReadBack(
    e: Expr, s: Style, t: Style, u: Style, open: seq<string>, p: string, q: string, r: string, mid: seq<string>,
    z: string, more: seq<string>)
    requires e.Match? && Printable(e) && |open| == 2 && exists comma :: mid == Between(comma)
    ensures MatchOf(Branching(Show(e.scrutinee, s), open, Branch(p, e.lVar, q, r, Show(e.lBody, t)),
                              mid, Branch(p, e.rVar, q, r, Show(e.rBody, u)), z) + more) == Success((e, more))
    decreases e, 0
  {
    var lhs, rhs := Branch(p, e.lVar, q, r, Show(e.lBody, t)), Branch(p, e.rVar, q, r, Show(e.rBody, u));
    var close := [z] + more;
    var second := mid + (rhs + close);
    var first := open + (lhs + second);
    ExpressionsReadBack(e.scrutinee, s, first);
    BranchingThen(Show(e.scrutinee, s), open, lhs, mid, rhs, z, more);
    DropFront(open, lhs + second);
    BranchesReadBack(e, p, e.lVar, q, r, e.lBody, t, second);
    TheCommaIsFree(mid, rhs + close);
    BranchesReadBack(e, p, e.rVar, q, r, e.rBody, u, close);
    DropFront([z], more);
  }

  /** With or without a comma, the second branch starts in the same place. */
  lemma TheCommaIsFree(mid: seq<string>, rest: seq<string>)
    requires exists comma :: mid == Between(comma)
    ensures Drop(mid + rest, if At(mid + rest, 0) == "," then 2 else 1) == rest
  {
    DropFront(mid, rest);
  }

  lemma BranchingThen(
    s: seq<string>, p: seq<string>, l: seq<string>, q: seq<string>, r: seq<string>, z: string, more: seq<string>)
    ensures Branching(s, p, l, q, r, z) + more == s + (p + (l + (q + (r + ([z] + more)))))
  {
  }

  lemma {:induction false} BranchesReadBack(
    e: Expr, p: string, x: string, q: string, r: string, body: Expr, s: Style, more: seq<string>)
    requires body < e && Printable(body)
    ensures BranchOf(Branch(p, x, q, r, Show(body, s)) + more) == Success((x, body, more))
    decreases e, 0, 0
  {
    ExpressionsReadBack(body, s, more);
    BranchText(p, x, q, r, Show(body, s), more);
    BranchRule(Branch(p, x, q, r, Show(body, s)) + more, x, body, more);
  }

  lemma BranchText(p: string, x: string, q: string, r: string, body: seq<string>, more: seq<string>)
    ensures At(Branch(p, x, q, r, body) + more, 1) == x && Drop(Branch(p, x, q, r, body) + more, 4) == body + more
  {
    assert Branch(p, x, q, r, body) + more == [p, x, q, r] + (body + more);
    DropFront([p, x, q, r], body + more);
  }

  lemma BranchRule(ws: seq<string>, x: string, body: Expr, ws1: seq<string>)
    requires At(ws, 1) == x && ExprOf(Drop(ws, 4)) == Success((body, ws1))
    ensures BranchOf(ws) == Success((x, body, ws1))
  {
  }

  // ----- text with any blanks between the words -----

  predicate AllBlank(gap: string) {
    forall i :: 0 <= i < |gap| ==> IsBlank(gap[i])
  }

  /** Two words that stay apart even with nothing between them. */
  predicate Touching(a: string, b: string) {
    (a in PUNCTUATION && !(a == "=" && b != "" && b[0] == '>')) || b in PUNCTUATION
  }

  /** A gap before each word and one at the end. */
  function Layout(gaps: seq<string>, ws: seq<string>): string
    requires |gaps| == |ws| + 1
  {
    if ws == [] then gaps[0] else gaps[0] + (ws[0] + Layout(gaps[1..], ws[1..]))
  }

  predicate KeepsApart(gaps: seq<string>, ws: seq<string>)
    requires |gaps| == |ws| + 1
  {
    && (forall i :: 0 <= i < |gaps| ==> AllBlank(gaps[i]))
    && (forall i :: 0 < i < |ws| && gaps[i] == "" ==> Touching(ws[i - 1], ws[i]))
  }

  predicate Tokens(ws: seq<string>) {
    forall w :: w in ws ==> IsToken(w)
  }

  lemma PunctuationIsReadWhole(w: string, rest: string)
    requires w in PUNCTUATION && (w == "=" ==> rest == "" || rest[0] != '>')
    ensures w != "" && !IsBlank(w[0]) && w[0] != '@' && EndsWord(w + rest)
    ensures HeadLength(w + rest) == |w|
  {
    if w == "=>" || w == "->" {
      assert StartsArrow(w + rest);
    } else {
      assert |w| == 1 && IsSeparator(w[0]);
    }
  }

  lemma {:induction false} LettersAreReadWhole(w: string, rest: string)
    requires forall i :: 0 <= i < |w| ==> !IsBlank(w[i]) && !IsSeparator(w[i])
    requires forall i :: 0 <= i < |w| ==> !StartsArrow(w[i..])
    requires EndsWord(rest)
    ensures WordLength(w + rest) == |w|
  {
    if w == "" {
      assert w + rest == rest;
    } else {
      assert w[0..] == w && !StartsArrow(w + rest);
      forall i | 0 <= i < |w[1..]| ensures !StartsArrow(w[1..][i..]) {
        assert w[1..][i..] == w[i + 1..];
      }
      LettersAreReadWhole(w[1..], rest);
      assert (w + rest)[1..] == w[1..] + rest;
    }
  }

  /** What may follow a word for it to be read whole. */
  predicate CutsOff(w: string, rest: string) {
    if w in PUNCTUATION then w == "=" ==> rest == "" || rest[0] != '>' else EndsWord(rest)
  }

  lemma TokensAreReadWhole(w: string, rest: string)
    requires IsToken(w) && CutsOff(w, rest)
    ensures w != "" && !IsBlank(w[0]) && w[0] != '@' && HeadLength(w + rest) == |w|
  {
    if w in PUNCTUATION {
      PunctuationIsReadWhole(w, rest);
    } else {
      LettersAreReadWhole(w, rest);
      assert w[0..] == w && IsSeparator('@');
      assert !StartsArrow(w + rest);
    }
  }

  lemma {:induction false} BlanksAreSkipped(gap: string, rest: string)
    requires AllBlank(gap)
    ensures Skip(gap + rest) == Skip(rest)
  {
    if gap == "" {
      assert gap + rest == rest;
    } else {
      assert (gap + rest)[1..] == gap[1..] + rest;
      BlanksAreSkipped(gap[1..], rest);
    }
  }

  lemma NextReadsAToken(gap: string, w: string, rest: string)
    requires AllBlank(gap) && IsToken(w) && CutsOff(w, rest)
    ensures Next(gap + (w + rest)) == (w, rest) && Skip(gap + (w + rest)) != ""
  {
    TokensAreReadWhole(w, rest);
    NextReadsAHead(gap, w, rest);
  }

  lemma NextReadsAHead(gap: string, w: string, rest: string)
    requires AllBlank(gap) && w != "" && !IsBlank(w[0]) && w[0] != '@' && HeadLength(w + rest) == |w|
    ensures Next(gap + (w + rest)) == (w, rest) && Skip(gap + (w + rest)) != ""
  {
    BlanksAreSkipped(gap, w + rest);
    assert Skip(w + rest) == w + rest;
    assert (w + rest)[..|w|] == w && (w + rest)[|w|..] == rest;
  }

  lemma GapsCutWordsOff(gaps: seq<string>, ws: seq<string>)
    requires |gaps| == |ws| + 1 && |ws| > 0 && KeepsApart(gaps, ws) && Tokens(ws)
    ensures CutsOff(ws[0], Layout(gaps[1..], ws[1..]))
  {
    var rest := Layout(gaps[1..], ws[1..]);
    if gaps[1] != "" {
      assert rest[0] == gaps[1][0] && IsBlank(rest[0]);
    } else if |ws| > 1 {
      assert Touching(ws[0], ws[1]);
      assert rest == ws[1] + Layout(gaps[1..][1..], ws[1..][1..]);
      StartOfAToken(ws[1], Layout(gaps[1..][1..], ws[1..][1..]));
    }
  }

  lemma StartOfAToken(w: string, rest: string)
    requires IsToken(w)
    ensures w != "" && (w + rest)[0] == w[0]
    ensures w in PUNCTUATION ==> EndsWord(w + rest) && w[0] != '>'
  {
    if w == "=>" || w == "->" {
      assert StartsArrow(w + rest);
    } else if w in PUNCTUATION {
      assert IsSeparator(w[0]);
    }
  }

  lemma TheTailKeepsApart(gaps: seq<string>, ws: seq<string>)
    requires |gaps| == |ws| + 1 && |ws| > 0 && KeepsApart(gaps, ws) && Tokens(ws)
    ensures KeepsApart(gaps[1..], ws[1..]) && Tokens(ws[1..])
  {
    forall i | 0 < i < |ws[1..]| && gaps[1..][i] == "" ensures Touching(ws[1..][i - 1], ws[1..][i]) {
      assert gaps[i + 1] == "";
    }
  }

  lemma {:induction false} LayoutsReadBack(gaps: seq<string>, ws: seq<string>)
    requires |gaps| == |ws| + 1 && KeepsApart(gaps, ws) && Tokens(ws)
    ensures Words(Layout(gaps, ws)) == ws
    decreases |ws|
  {
    if ws == [] {
      BlanksAreSkipped(gaps[0], "");
      assert gaps[0] + "" == gaps[0];
    } else {
      var rest := Layout(gaps[1..], ws[1..]);
      GapsCutWordsOff(gaps, ws);
      NextReadsAToken(gaps[0], ws[0], rest);
      TheTailKeepsApart(gaps, ws);
      LayoutsReadBack(gaps[1..], ws[1..]);
      OneWordThenTheRest(gaps[0] + (ws[0] + rest), ws[0], rest);
    }
  }

  lemma OneWordThenTheRest(t: string, w: string, rest: string)
    requires Skip(t) != "" && Next(t) == (w, rest)
    ensures Words(t) == [w] + Words(rest)
  {
  }

  lemma LettersMakeAWord(w: string)
    requires w != "" && forall i :: 0 <= i < |w| ==> 'a' <= w[i] <= 'z' || 'A' <= w[i] <= 'Z'
    ensures IsToken(w)
  {
    forall i | 0 <= i < |w| ensures !StartsArrow(w[i..]) {
      assert w[i..][0] == w[i];
    }
  }

  lemma FixedWordsAreTokens()
    ensures forall op :: IsToken(OpWord(op))
    ensures IsToken("pair") && IsToken("Left") && IsToken("Right") && IsToken("match") && IsToken("let")
    ensures IsToken("unpack") && IsToken("rec") && IsToken("in")
    ensures IsToken("Int") && IsToken("Float") && IsToken("Any") && IsToken("Pair") && IsToken("Either")
  {
    forall op ensures IsToken(OpWord(op)) {
      LettersMakeAWord(OpWord(op));
    }
    LettersMakeAWord("pair");
    LettersMakeAWord("Left");
    LettersMakeAWord("Right");
    LettersMakeAWord("match");
    LettersMakeAWord("let");
    LettersMakeAWord("unpack");
    LettersMakeAWord("rec");
    LettersMakeAWord("in");
    LettersMakeAWord("Int");
    LettersMakeAWord("Float");
    LettersMakeAWord("Any");
    LettersMakeAWord("Pair");
    LettersMakeAWord("Either");
  }

  lemma TokensOfShapes(
    p: string, q: string, r: string, z: string, a: seq<string>, b: seq<string>, c: seq<string>, d: seq<string>)
    requires IsToken(p) && IsToken(q) && IsToken(r) && IsToken(z) && Tokens(a) && Tokens(b) && Tokens(c) && Tokens(d)
    ensures Tokens([p]) && Tokens([p, q]) && Tokens([p, q, r]) && Tokens(a + b)
    ensures Tokens(ShowTypes(p, a, q, b, r)) && Tokens(Chained(a, b, q, c)) && Tokens(Enclosed(p, a, q))
    ensures Tokens(Branch(p, q, r, z, a))
  {
  }

  lemma {:induction false} TypesAreTokens(t: Type)
    requires ParseableType(t)
    ensures Tokens(ShowType(t))
  {
    FixedWordsAreTokens();
    match t
    case Pair(a, b) =>
      TypesAreTokens(a);
      TypesAreTokens(b);
      TokensOfShapes("(", ",", ")", ")", ShowType(a), ShowType(b), [], []);
    case Either(a, b) =>
      TypesAreTokens(a);
      TypesAreTokens(b);
      TokensOfShapes("(", ",", ")", ")", ShowType(a), ShowType(b), [], []);
    case _ =>
  }

  lemma Prepend(word: string, ws: seq<string>)
    requires IsToken(word) && Tokens(ws)
    ensures Tokens([word] + ws)
  {
  }

  lemma ChainsAreTokens(word: string, front: seq<string>, a: seq<string>, q: string, b: seq<string>)
    requires IsToken(word) && Tokens(front) && Tokens(a) && IsToken(q) && Tokens(b)
    ensures Tokens([word] + Chained(front, a, q, b))
  {
    TokensOfShapes(word, q, word, word, front, a, b, []);
  }

  lemma BranchingIsTokens(s: seq<string>, p: seq<string>, l: seq<string>, q: seq<string>, r: seq<string>, z: string)
    requires Tokens(s) && Tokens(p) && Tokens(l) && Tokens(q) && Tokens(r) && IsToken(z)
    ensures Tokens(Branching(s, p, l, q, r, z))
  {
  }

  lemma {:induction false} ParenthesesAreTokens(n: nat, ws: seq<string>)
    requires Tokens(ws)
    ensures Tokens(Parenthesised(n, ws))
  {
    if n > 0 {
      ParenthesesAreTokens(n - 1, ws);
      TokensOfShapes("(", ")", ")", ")", Parenthesised(n - 1, ws), [], [], []);
    }
  }

  lemma {:induction false} ExpressionsAreTokens(e: Expr, s: Style)
    requires Printable(e)
    ensures Tokens(Show(e, s))
    decreases e, 2
  {
    BareIsTokens(e, s);
    ParenthesesAreTokens(s.parentheses([]), Bare(e, s));
  }

  lemma {:induction false} BareIsTokens(e: Expr, s: Style)
    requires Printable(e)
    ensures Tokens(Bare(e, s))
    decreases e, 1
  {
    match e
    case IntLiteral(n) => NumbersAreWords(n);
    case Var(x) =>
    case FloatLiteral(_) =>
    case Binary(_, _, _) => BracketsAreTokens(e, s);
    case Pair(_, _) => BracketsAreTokens(e, s);
    case App(_, _, _) => BracketsAreTokens(e, s);
    case Left(_) => InjectionsAreTokens(e, s);
    case Right(_) => InjectionsAreTokens(e, s);
    case Lambda(_, _, _) => BindersAreTokens(e, s);
    case Unpack(_, _, _, _) => BindersAreTokens(e, s);
    case Let(_, _, _) => BindersAreTokens(e, s);
    case LetRec(_, _, _) => LetRecsAreTokens(e, s);
    case Match(_, _, _, _, _) => MatchesAreTokens(e, s);
  }

  lemma {:induction false} BracketsAreTokens(e: Expr, s: Style)
    requires e.Binary? || e.Pair? || e.App?
    requires Printable(e)
    ensures Tokens(Bare(e, s))
    decreases e, 0
  {
    var a, b := s.At(0), s.At(1);
    match e
    case Binary(op, l, r) =>
      ExpressionsAreTokens(l, a);
      ExpressionsAreTokens(r, b);
      assert IsToken(OpWord(op)) by {
        FixedWordsAreTokens();
      }
      Prepend(OpWord(op), Show(l, a) + Show(r, b));
    case Pair(l, r) =>
      ExpressionsAreTokens(l, a);
      ExpressionsAreTokens(r, b);
      assert IsToken("pair") by {
        FixedWordsAreTokens();
      }
      Prepend("pair", Show(l, a) + Show(r, b));
    case App(f, x, _) =>
      ExpressionsAreTokens(f, a);
      ExpressionsAreTokens(x, b);
      Prepend("(", Show(f, a) + Show(x, b) + [")"]);
  }

  lemma {:induction false} InjectionsAreTokens(e: Expr, s: Style)
    requires e.Left? || e.Right?
    requires Printable(e)
    ensures Tokens(Bare(e, s))
    decreases e, 0
  {
    var c := s.At(0);
    ExpressionsAreTokens(e.inner, c);
    assert IsToken("Left") && IsToken("Right") by {
      FixedWordsAreTokens();
    }
    Prepend("Left", Enclosed("(", Show(e.inner, c), ")"));
    Prepend("Right", Enclosed("(", Show(e.inner, c), ")"));
  }

  lemma {:induction false} BindersAreTokens(e: Expr, s: Style)
    requires e.Lambda? || e.Unpack? || e.Let?
    requires Printable(e)
    ensures Tokens(Bare(e, s))
    decreases e, 0
  {
    assert IsToken("unpack") && IsToken("let") && IsToken("in") by {
      FixedWordsAreTokens();
    }
    var c, d := s.At(0), s.At(1);
    match e
    case Lambda(x, t, body) =>
      TypesAreTokens(t);
      ExpressionsAreTokens(body, c);
      ChainsAreTokens("\\", [x, ":"], ShowType(t), "=>", Show(body, c));
    case Unpack(a, b, pair, body) =>
      ExpressionsAreTokens(pair, c);
      ExpressionsAreTokens(body, d);
      ChainsAreTokens("unpack", [a, b, "="], Show(pair, c), "in", Show(body, d));
    case Let(x, val, body) =>
      ExpressionsAreTokens(val, c);
      ExpressionsAreTokens(body, d);
      ChainsAreTokens("let", [x, "="], Show(val, c), "in", Show(body, d));
  }

  lemma {:induction false} LetRecsAreTokens(e: Expr, s: Style)
    requires e.LetRec? && Printable(e)
    ensures Tokens(Bare(e, s))
    decreases e, 0
  {
    assert IsToken("let") && IsToken("rec") && IsToken("in") by {
      FixedWordsAreTokens();
    }
    var c, d := s.At(0), s.At(1);
    ExpressionsAreTokens(e.val, c);
    ExpressionsAreTokens(e.body, d);
    ChainsAreTokens("rec", [e.name, "="], Show(e.val, c), "in", Show(e.body, d));
    Prepend("let", ["rec"] + Chained([e.name, "="], Show(e.val, c), "in", Show(e.body, d)));
  }

  lemma {:induction false} MatchesAreTokens(e: Expr, s: Style)
    requires e.Match? && Printable(e)
    ensures Tokens(Bare(e, s))
    decreases e, 0
  {
    assert IsToken("match") && IsToken("Left") && IsToken("Right") by {
      FixedWordsAreTokens();
    }
    var a, b, c, mid := s.At(0), s.At(1), s.At(2), Between(s.comma([]));
    ExpressionsAreTokens(e.scrutinee, a);
    ExpressionsAreTokens(e.lBody, b);
    ExpressionsAreTokens(e.rBody, c);
    var l, r := Branch("(", e.lVar, ")", "=>", Show(e.lBody, b)), Branch("(", e.rVar, ")", "=>", Show(e.rBody, c));
    TokensOfShapes("(", e.lVar, ")", "=>", Show(e.lBody, b), [], [], []);
    TokensOfShapes("(", e.rVar, ")", "=>", Show(e.rBody, c), [], [], []);
    TokensOfShapes("{", "Left", ",", "Right", [], [], [], []);
    TokensOfShapes(",", "Right", ",", "Right", [], [], [], []);
    TokensOfShapes("Right", "Right", ",", "Right", [], [], [], []);
    BranchingIsTokens(Show(e.scrutinee, a), ["{", "Left"], l, mid, r, "}");
    Prepend("match", Branching(Show(e.scrutinee, a), ["{", "Left"], l, mid, r, "}"));
  }

  /**
   Main theorem on text: the words of `e` in any style, with any blanks between them, and after them
   either the end or the wall and anything at all, are a whole program that reads back as `e`.
   */
  lemma PrintedProgramsReadBack(e: Expr, s: Style, gaps: seq<string>, junk: string)
    requires Printable(e) && |gaps| == |Show(e, s)| + 1 && KeepsApart(gaps, Show(e, s))
    ensures ProgramOf(Words(Layout(gaps, Show(e, s)))) == Some(Success(e))
    ensures ProgramOf(Words(Walled(Layout(gaps, Show(e, s)), junk))) == Some(Success(e))
  {
    ExpressionsAreTokens(e, s);
    LayoutsReadBack(gaps, Show(e, s));
    WordsBeforeTheWall(Layout(gaps, Show(e, s)), junk);
    ExpressionsReadBack(e, s, []);
    assert Show(e, s) + [] == Show(e, s);
  }
}

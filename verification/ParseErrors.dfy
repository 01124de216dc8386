/**
 What the parser's errors mean: "EOF" is only said when no word is left, and a type is only called
 unknown after a word that names none, where that word stands. Whatever it answers, the parser has
 read words from the front and leaves the rest.
 */
module ParseErrors {
  import opened Wrappers
  import opened Ast
  import opened Grammar

  ghost predicate IsRest(rest: seq<string>, ws: seq<string>) {
    exists n: nat :: rest == Drop(ws, n)
  }

  /** The word in front of `rest` names no type; the empty word stands for the end of the text. */
  ghost predicate NamesNoType(word: string, rest: seq<string>, ws: seq<string>) {
    && word !in {"Int", "Float", "Any", "Pair", "Either"}
    && exists n: nat :: word == At(ws, n) && rest == Drop(ws, n + 1)
  }

  ghost predicate IsCause(stuck: Stuck, ws: seq<string>) {
    match stuck.error
    case Eof => stuck.rest == []
    case UnknownType(word) => NamesNoType(word, stuck.rest, ws)
  }

  ghost predicate Explains<T>(ws: seq<string>, r: Result<(T, seq<string>), Stuck>) {
    match r
    case Success((_, rest)) => IsRest(rest, ws)
    case Failure(stuck) => IsCause(stuck, ws)
  }

  lemma Further(ws: seq<string>, n: nat)
    ensures IsRest(Drop(ws, n), ws)
  {
  }

  lemma RestOfRest(a: seq<string>, b: seq<string>, c: seq<string>)
    requires IsRest(a, b) && IsRest(b, c)
    ensures IsRest(a, c)
  {
    var m: nat :| a == Drop(b, m);
    var n: nat :| b == Drop(c, n);
    DropsAdd(c, n, m);
    Further(c, n + m);
  }

  /** What explains an answer to some of the words explains it to all of them. */
  lemma ExplainsFromFurtherBack<T>(ws: seq<string>, all: seq<string>, r: Result<(T, seq<string>), Stuck>)
    requires IsRest(ws, all) && Explains(ws, r)
    ensures Explains(all, r)
  {
    match r
    case Success((_, rest)) => RestOfRest(rest, ws, all);
    case Failure(stuck) =>
      if stuck.error.UnknownType? {
        var m: nat :| stuck.error.word == At(ws, m) && stuck.rest == Drop(ws, m + 1);
        var n: nat :| ws == Drop(all, n);
        DropsAdd(all, n, m);
        DropsAdd(all, n, m + 1);
        assert stuck.error.word == At(all, n + m) && stuck.rest == Drop(all, n + m + 1);
      }
  }

  /** A rest, and so many words further. */
  lemma Skipping(rest: seq<string>, ws: seq<string>, n: nat)
    requires IsRest(rest, ws)
    ensures IsRest(Drop(rest, n), ws)
  {
    Further(rest, n);
    RestOfRest(Drop(rest, n), rest, ws);
  }

  lemma ItsOwnRest(ws: seq<string>)
    ensures IsRest(ws, ws)
  {
    Further(ws, 0);
  }

  // ----- types -----

  lemma {:induction false} TypesExplain(ws: seq<string>)
    ensures Explains(ws, TypeOf(ws))
    ensures ws == [] ==> TypeOf(ws) == Failure(Stuck(UnknownType(""), []))
    decreases |ws|, 1
  {
    Further(ws, 1);
    var word := At(ws, 0);
    if word == "Pair" || word == "Either" {
      if ws != [] {
        CompoundsExplain(word == "Pair", Drop(ws, 1));
        ExplainsFromFurtherBack(Drop(ws, 1), ws, CompoundOf(word == "Pair", Drop(ws, 1)));
      }
    } else if word !in {"Int", "Float", "Any"} {
      assert word == At(ws, 0) && Drop(ws, 1) == Drop(ws, 0 + 1);
    }
  }

  lemma {:induction false} CompoundsExplain(pair: bool, ws: seq<string>)
    ensures Explains(ws, CompoundOf(pair, ws))
    decreases |ws|, 2
  {
    TypeBehind(ws, ws, 1);
    if TypeOf(Drop(ws, 1)).Success? {
      var ws1 := TypeOf(Drop(ws, 1)).value.1;
      TypeBehind(ws, ws1, 1);
      if TypeOf(Drop(ws1, 1)).Success? {
        Skipping(TypeOf(Drop(ws1, 1)).value.1, ws, 1);
      }
    }
  }

  lemma {:induction false} TypeBehind(all: seq<string>, rest: seq<string>, n: nat)
    requires |rest| <= |all| && (n > 0 || |rest| < |all|) && (rest == all || IsRest(rest, all))
    ensures Explains(all, TypeOf(Drop(rest, n)))
    decreases |all|, 1, 1
  {
    ItsOwnRest(all);
    Skipping(rest, all, n);
    if |Drop(rest, n)| < |all| {
      TypesExplain(Drop(rest, n));
      ExplainsFromFurtherBack(Drop(rest, n), all, TypeOf(Drop(rest, n)));
    }
  }

  // ----- expressions -----

  /** Main theorem: every answer of the parser is explained by the words it was given. */
  lemma {:induction false} AnswersAreExplained(ws: seq<string>)
    ensures Explains(ws, ExprOf(ws))
    ensures ws == [] ==> ExprOf(ws) == Failure(Stuck(Eof, []))
    decreases |ws|, 1
  {
    if ws != [] {
      var word, rest := ws[0], ws[1..];
      assert Drop(ws, 1) == rest;
      Further(ws, 1);
      if OpOf(word).Some? {
        OperandsExplain(rest);
        ExplainsFromFurtherBack(rest, ws, BinaryOf(OpOf(word).value, rest));
      } else if word == "pair" {
        OperandsExplain(rest);
        ExplainsFromFurtherBack(rest, ws, PairOf(rest));
      } else if word == "Left" || word == "Right" {
        InjectionsExplain(word == "Left", rest);
        ExplainsFromFurtherBack(rest, ws, InjectionOf(word == "Left", rest));
      } else if word == "match" {
        MatchesExplain(rest);
        ExplainsFromFurtherBack(rest, ws, MatchOf(rest));
      } else {
        BindersAndGroupsExplain(word, ws, rest);
      }
    }
  }

  lemma {:induction false} BindersAndGroupsExplain(word: string, ws: seq<string>, rest: seq<string>)
    requires ws != [] && word == ws[0] && rest == ws[1..] && IsRest(rest, ws)
    requires OpOf(word).None? && word != "pair" && word != "Left" && word != "Right" && word != "match"
    ensures Explains(ws, ExprOf(ws))
    decreases |ws|, 0
  {
    if word == "let" {
      LetsExplain(rest);
      ExplainsFromFurtherBack(rest, ws, LetOf(rest));
    } else if word == "unpack" {
      UnpacksExplain(rest);
      ExplainsFromFurtherBack(rest, ws, UnpackOf(rest));
    } else if word == "\\" {
      LambdasExplain(rest);
      ExplainsFromFurtherBack(rest, ws, LambdaOf(rest));
    } else if word == "(" {
      GroupsExplain(rest);
      ExplainsFromFurtherBack(rest, ws, GroupOf(rest));
    }
  }

  /** An expression `n` words behind a rest. */
  lemma {:induction false} ExpressionBehind(all: seq<string>, rest: seq<string>, n: nat)
    requires IsRest(rest, all)
    ensures Explains(all, ExprOf(Drop(rest, n)))
    decreases |all|, 2
  {
    Skipping(rest, all, n);
    RestsAreNoLonger(Drop(rest, n), all);
    AnswersAreExplained(Drop(rest, n));
    ExplainsFromFurtherBack(Drop(rest, n), all, ExprOf(Drop(rest, n)));
  }

  lemma RestsAreNoLonger(rest: seq<string>, ws: seq<string>)
    requires IsRest(rest, ws)
    ensures |rest| <= |ws|
  {
  }

  lemma NoWordsFurther(ws: seq<string>)
    ensures Drop(ws, 0) == ws
  {
  }

  lemma {:induction false} OperandsExplain(ws: seq<string>)
    ensures Explains(ws, PairOf(ws)) && forall op :: Explains(ws, BinaryOf(op, ws))
    decreases |ws|, 3
  {
    ItsOwnRest(ws);
    NoWordsFurther(ws);
    ExpressionBehind(ws, ws, 0);
    if ExprOf(ws).Success? {
      var ws1 := ExprOf(ws).value.1;
      NoWordsFurther(ws1);
      ExpressionBehind(ws, ws1, 0);
    }
  }

  lemma InjectionRule(left: bool, ws: seq<string>, first: Parsed)
    requires first == ExprOf(Drop(ws, 1))
    ensures first.Failure? ==> InjectionOf(left, ws) == first
    ensures first.Success? ==>
              InjectionOf(left, ws).Success? && InjectionOf(left, ws).value.1 == Drop(first.value.1, 1)
  {
  }

  lemma {:induction false} InjectionsExplain(left: bool, ws: seq<string>)
    ensures Explains(ws, InjectionOf(left, ws))
    decreases |ws|, 3
  {
    var first := ExprOf(Drop(ws, 1));
    ItsOwnRest(ws);
    ExpressionBehind(ws, ws, 1);
    InjectionRule(left, ws, first);
    if first.Success? {
      Skipping(first.value.1, ws, 1);
    }
  }

  /** A branch of a match, and what is left behind it. */
  lemma {:induction false} BranchBehind(all: seq<string>, rest: seq<string>)
    requires IsRest(rest, all)
    ensures match BranchOf(rest)
            case Success((_, _, ws)) => IsRest(ws, all)
            case Failure(stuck) => IsCause(stuck, all)
    decreases |all|, 3
  {
    ExpressionBehind(all, rest, 4);
  }

  lemma {:induction false} MatchesExplain(ws: seq<string>)
    ensures Explains(ws, MatchOf(ws))
    decreases |ws|, 4
  {
    ItsOwnRest(ws);
    NoWordsFurther(ws);
    ExpressionBehind(ws, ws, 0);
    if ExprOf(ws).Success? {
      var ws1 := ExprOf(ws).value.1;
      Skipping(ws1, ws, 2);
      BranchBehind(ws, Drop(ws1, 2));
      if BranchOf(Drop(ws1, 2)).Success? {
        var ws2 := BranchOf(Drop(ws1, 2)).value.2;
        var n := if At(ws2, 0) == "," then 2 else 1;
        Skipping(ws2, ws, n);
        BranchBehind(ws, Drop(ws2, n));
        if BranchOf(Drop(ws2, n)).Success? {
          Skipping(BranchOf(Drop(ws2, n)).value.2, ws, 1);
        }
      }
    }
  }

  /** Two answers in a row, one word apart, the second of which is the answer to all. */
  ghost predicate InARow(first: Parsed, second: Parsed, all: Parsed) {
    if first.Failure? then all == first
    else
      && second == ExprOf(Drop(first.value.1, 1))
      && if second.Failure? then all == second else all.Success? && all.value.1 == second.value.1
  }

  lemma {:induction false} InARowExplains(ws: seq<string>, first: Parsed, second: Parsed, all: Parsed)
    requires InARow(first, second, all) && Explains(ws, first)
    ensures Explains(ws, all)
    decreases |ws|, 3
  {
    if first.Success? {
      ExpressionBehind(ws, first.value.1, 1);
    }
  }

  lemma LetRule(ws: seq<string>, ws0: seq<string>, first: Parsed, second: Parsed)
    requires ws0 == (if At(ws, 0) == "rec" then Drop(ws, 1) else ws) && first == ExprOf(Drop(ws0, 2))
    requires first.Success? ==> second == ExprOf(Drop(first.value.1, 1))
    ensures InARow(first, second, LetOf(ws))
  {
  }

  lemma {:induction false} LetsExplain(ws: seq<string>)
    ensures Explains(ws, LetOf(ws))
    decreases |ws|, 4
  {
    var ws0 := if At(ws, 0) == "rec" then Drop(ws, 1) else ws;
    var first := ExprOf(Drop(ws0, 2));
    var second := if first.Success? then ExprOf(Drop(first.value.1, 1)) else first;
    ItsOwnRest(ws);
    Skipping(ws, ws, 1);
    ExpressionBehind(ws, ws0, 2);
    LetRule(ws, ws0, first, second);
    InARowExplains(ws, first, second, LetOf(ws));
  }

  lemma UnpackRule(ws: seq<string>, first: Parsed, second: Parsed)
    requires first == ExprOf(Drop(ws, 3)) && (first.Success? ==> second == ExprOf(Drop(first.value.1, 1)))
    ensures InARow(first, second, UnpackOf(ws))
  {
  }

  lemma {:induction false} UnpacksExplain(ws: seq<string>)
    ensures Explains(ws, UnpackOf(ws))
    decreases |ws|, 4
  {
    var first := ExprOf(Drop(ws, 3));
    var second := if first.Success? then ExprOf(Drop(first.value.1, 1)) else first;
    ItsOwnRest(ws);
    ExpressionBehind(ws, ws, 3);
    UnpackRule(ws, first, second);
    InARowExplains(ws, first, second, UnpackOf(ws));
  }

  lemma LambdaRule(ws: seq<string>, t: Result<(Type, seq<string>), Stuck>, body: Parsed)
    requires t == TypeOf(Drop(ws, 2)) && (t.Success? ==> body == ExprOf(Drop(t.value.1, 1)))
    ensures t.Failure? ==> LambdaOf(ws) == Failure(t.error)
    ensures t.Success? && body.Failure? ==> LambdaOf(ws) == body
    ensures t.Success? && body.Success? ==> LambdaOf(ws).Success? && LambdaOf(ws).value.1 == body.value.1
  {
  }

  lemma {:induction false} LambdasExplain(ws: seq<string>)
    ensures Explains(ws, LambdaOf(ws))
    decreases |ws|, 3
  {
    var at := Drop(ws, 2);
    var t := TypeOf(at);
    var body: Parsed := if t.Success? then ExprOf(Drop(t.value.1, 1)) else Failure(t.error);
    ItsOwnRest(ws);
    Skipping(ws, ws, 2);
    TypesExplain(at);
    ExplainsFromFurtherBack(at, ws, t);
    LambdaRule(ws, t, body);
    if t.Success? {
      ExpressionBehind(ws, t.value.1, 1);
    }
  }

  lemma {:induction false} GroupsExplain(ws: seq<string>)
    ensures Explains(ws, GroupOf(ws))
    decreases |ws|, 3
  {
    ItsOwnRest(ws);
    NoWordsFurther(ws);
    ExpressionBehind(ws, ws, 0);
    if ExprOf(ws).Success? {
      var ws1 := ExprOf(ws).value.1;
      Skipping(ws1, ws, 1);
      NoWordsFurther(ws1);
      ExpressionBehind(ws, ws1, 0);
      if ExprOf(ws1).Success? {
        Skipping(ExprOf(ws1).value.1, ws, 1);
      }
    }
  }
}

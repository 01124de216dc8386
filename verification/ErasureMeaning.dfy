/**
 Erasing types and tail flags preserves meaning: a semantics given directly to the surface syntax,
 whose closures keep their annotations, commutes with erasure at every amount of fuel.
 */
module ErasureMeaning {
  import opened Machine
  import opened Wrappers
  import opened Ast
  import opened Ir
  import Vm

  /** Values of the surface language: a closure keeps the annotated lambda it came from. */
  datatype Meaning =
    | Int(n: Int64)
    | Float(f: Float64)
    | Pair(fst: Meaning, snd: Meaning)
    | Left(inner: Meaning)
    | Right(inner: Meaning)
    | Closure(param: string, paramType: Type, body: Expr, env: map<string, Meaning>, recName: Option<string>)

  type Scope = map<string, Meaning>

  type Failed = o: Vm.Outcome | !o.Done? witness Vm.OutOfFuel

  datatype Answer = Done(value: Meaning, next: nat) | Stuck(outcome: Failed) {
    predicate IsFailure() {
      Stuck?
    }

    function PropagateFailure(): Answer
      requires Stuck?
    {
      this
    }

    function Extract(): (Meaning, nat)
      requires Done?
    {
      (value, next)
    }
  }

  function Truth(b: bool): Meaning {
    if b then Meaning.Left(Meaning.Int(0)) else Meaning.Right(Meaning.Int(0))
  }

  function Operate(op: Op, a: Meaning, b: Meaning, k: nat): Answer {
    if !a.Int? || !b.Int? then
      Stuck(Vm.Fault(if op.Arithmetic() then Vm.MathRequiresInt else Vm.RelationRequiresInt(op), k))
    else if !op.Arithmetic() then Done(Truth(Vm.Compare(op, a.n, b.n)), k)
    else
      var o := Vm.Operate(op, Vm.Value.Int(a.n), Vm.Value.Int(b.n), k);
      if o.Done? then Done(Meaning.Int(o.value.n), k) else Stuck(o)
  }

  function Scoped(f: Meaning, arg: Meaning): Scope
    requires f.Closure?
  {
    var env := f.env[f.param := arg];
    if f.recName.Some? then env[f.recName.value := f] else env
  }

  function Run(fuel: nat, env: Scope, e: Expr, polls: Vm.Polls, k: nat): Answer
    decreases fuel, 1, e
  {
    match e
    case IntLiteral(n) => Done(Meaning.Int(n), k)
    case FloatLiteral(f) => Done(Meaning.Float(f), k)
    case Var(name) =>
      if name == "POLL" then Done(Meaning.Int(polls(k)), k + 1)
      else if name in env then Done(env[name], k)
      else Stuck(Vm.Fault(Vm.UnboundVariable(name), k))
    case Binary(op, l, r) =>
      var (a, k1) :- Run(fuel, env, l, polls, k);
      var (b, k2) :- Run(fuel, env, r, polls, k1);
      Operate(op, a, b, k2)
    case Pair(l, r) =>
      var (a, k1) :- Run(fuel, env, l, polls, k);
      var (b, k2) :- Run(fuel, env, r, polls, k1);
      Done(Meaning.Pair(a, b), k2)
    case Left(inner) =>
      var (v, k1) :- Run(fuel, env, inner, polls, k);
      Done(Meaning.Left(v), k1)
    case Right(inner) =>
      var (v, k1) :- Run(fuel, env, inner, polls, k);
      Done(Meaning.Right(v), k1)
    case Lambda(param, paramType, body) => Done(Closure(param, paramType, body, env, None), k)
    case App(func, arg, _) =>
      var (f, k1) :- Run(fuel, env, func, polls, k);
      var (a, k2) :- Run(fuel, env, arg, polls, k1);
      Apply(fuel, f, a, polls, k2)
    case Match(scrutinee, lVar, lBody, rVar, rBody) =>
      var (v, k1) :- Run(fuel, env, scrutinee, polls, k);
      if v.Left? then Run(fuel, env[lVar := v.inner], lBody, polls, k1)
      else if v.Right? then Run(fuel, env[rVar := v.inner], rBody, polls, k1)
      else Stuck(Vm.Fault(Vm.MatchRequiresEither, k1))
    case Let(name, val, body) =>
      var (v, k1) :- Run(fuel, env, val, polls, k);
      Run(fuel, env[name := v], body, polls, k1)
    case LetRec(name, val, body) =>
      var (v, k1) :- Run(fuel, env, val, polls, k);
      Run(fuel, env[name := if v.Closure? then v.(recName := Some(name)) else v], body, polls, k1)
    case Unpack(a, b, pair, body) =>
      var (v, k1) :- Run(fuel, env, pair, polls, k);
      if v.Pair? then Run(fuel, env[a := v.fst][b := v.snd], body, polls, k1)
      else Stuck(Vm.Fault(Vm.UnpackRequiresPair, k1))
  }

  function Apply(fuel: nat, f: Meaning, arg: Meaning, polls: Vm.Polls, k: nat): Answer
    decreases fuel, 0
  {
    if !f.Closure? then Stuck(Vm.Fault(Vm.AppOnNonClosure, k))
    else if fuel == 0 then Stuck(Vm.OutOfFuel)
    else Run(fuel - 1, Scoped(f, arg), f.body, polls, k)
  }

  /** What is left of a value when annotations are erased from every body it holds. */
  function Erased(v: Meaning): Vm.Value
    decreases v
  {
    match v
    case Int(n) => Vm.Value.Int(n)
    case Float(f) => Vm.Value.Float(f)
    case Pair(a, b) => Vm.Value.Pair(Erased(a), Erased(b))
    case Left(a) => Vm.Value.Left(Erased(a))
    case Right(a) => Vm.Value.Right(Erased(a))
    case Closure(param, _, body, env, recName) =>
      Vm.Closure(param, EraseProofs(body), map x | x in env :: Erased(env[x]), recName)
  }

  function ErasedEnv(env: Scope): Vm.Env {
    map x | x in env :: Erased(env[x])
  }

  function ErasedAnswer(a: Answer): Vm.Outcome {
    match a
    case Done(v, k) => Vm.Done(Erased(v), k)
    case Stuck(o) => o
  }

  /** Main theorem: same fault, same POLLs, same exhaustion, and the erasure of the same value. */
  lemma {:induction false} ErasurePreservesMeaning(fuel: nat, env: Scope, e: Expr, polls: Vm.Polls, k: nat)
    ensures Vm.Eval(fuel, ErasedEnv(env), EraseProofs(e), polls, k) == ErasedAnswer(Run(fuel, env, e, polls, k))
    decreases fuel, 1, e, 2
  {
    match e
    case IntLiteral(_) =>
    case FloatLiteral(_) =>
    case Var(_) =>
    case Lambda(param, paramType, body) =>
      assert Erased(Meaning.Closure(param, paramType, body, env, None)).env == ErasedEnv(env);
    case Left(inner) =>
      ErasurePreservesMeaning(fuel, env, inner, polls, k);
    case Right(inner) =>
      ErasurePreservesMeaning(fuel, env, inner, polls, k);
    case Binary(_, _, _) => BinaryPreserved(fuel, env, e, polls, k);
    case Pair(l, r) => BothPreserved(fuel, env, e, l, r, polls, k);
    case App(_, _, _) => AppPreserved(fuel, env, e, polls, k);
    case Let(_, _, _) => LetPreserved(fuel, env, e, polls, k);
    case LetRec(_, _, _) => LetRecPreserved(fuel, env, e, polls, k);
    case Match(_, _, _, _, _) => MatchPreserved(fuel, env, e, polls, k);
    case Unpack(_, _, _, _) => UnpackPreserved(fuel, env, e, polls, k);
  }

  lemma OperatorsPreserved(op: Op, a: Meaning, b: Meaning, k: nat)
    ensures Vm.Operate(op, Erased(a), Erased(b), k) == ErasedAnswer(Operate(op, a, b, k))
  {
    assert Erased(Truth(true)) == Vm.Truth(true) && Erased(Truth(false)) == Vm.Truth(false);
  }

  lemma TagsPreserved(v: Meaning, name: string)
    requires v.Closure?
    ensures Vm.Tag(Erased(v), name) == Erased(v.(recName := Some(name)))
  {
  }

  lemma {:induction false} BinaryPreserved(fuel: nat, env: Scope, e: Expr, polls: Vm.Polls, k: nat)
    requires e.Binary?
    ensures Vm.Eval(fuel, ErasedEnv(env), EraseProofs(e), polls, k) == ErasedAnswer(Run(fuel, env, e, polls, k))
    decreases fuel, 1, e, 1
  {
    BothPreserved(fuel, env, e, e.l, e.r, polls, k);
    var a := Run(fuel, env, e.l, polls, k);
    if a.Done? {
      var b := Run(fuel, env, e.r, polls, a.next);
      if b.Done? {
        OperatorsPreserved(e.op, a.value, b.value, b.next);
      }
    }
  }

  lemma {:induction false} AppPreserved(fuel: nat, env: Scope, e: Expr, polls: Vm.Polls, k: nat)
    requires e.App?
    ensures Vm.Eval(fuel, ErasedEnv(env), EraseProofs(e), polls, k) == ErasedAnswer(Run(fuel, env, e, polls, k))
    decreases fuel, 1, e, 1
  {
    BothPreserved(fuel, env, e, e.func, e.arg, polls, k);
    var f := Run(fuel, env, e.func, polls, k);
    if f.Done? {
      var a := Run(fuel, env, e.arg, polls, f.next);
      if a.Done? {
        CallPreserved(fuel, f.value, a.value, polls, a.next);
      }
    }
  }

  lemma {:induction false} BothPreserved(fuel: nat, env: Scope, e: Expr, s: Expr, t: Expr, polls: Vm.Polls, k: nat)
    requires s < e && t < e
    ensures Vm.Eval(fuel, ErasedEnv(env), EraseProofs(s), polls, k) == ErasedAnswer(Run(fuel, env, s, polls, k))
    ensures var a := Run(fuel, env, s, polls, k);
            a.Done? ==> Vm.Eval(fuel, ErasedEnv(env), EraseProofs(t), polls, a.next) ==
                        ErasedAnswer(Run(fuel, env, t, polls, a.next))
    decreases fuel, 1, e, 0
  {
    ErasurePreservesMeaning(fuel, env, s, polls, k);
    var a := Run(fuel, env, s, polls, k);
    if a.Done? {
      ErasurePreservesMeaning(fuel, env, t, polls, a.next);
    }
  }

  lemma {:induction false} CallPreserved(fuel: nat, f: Meaning, arg: Meaning, polls: Vm.Polls, k: nat)
    ensures Vm.Call(fuel, Erased(f), Erased(arg), polls, k) == ErasedAnswer(Apply(fuel, f, arg, polls, k))
    decreases fuel, 0
  {
    if f.Closure? && fuel > 0 {
      ErasurePreservesMeaning(fuel - 1, Scoped(f, arg), f.body, polls, k);
      ScopesPreserved(f, arg);
    }
  }

  lemma ScopesPreserved(f: Meaning, arg: Meaning)
    requires f.Closure?
    ensures Vm.CallEnv(Erased(f), Erased(arg)) == ErasedEnv(Scoped(f, arg))
  {
  }

  lemma ExtensionPreserved(env: Scope, x: string, v: Meaning)
    ensures ErasedEnv(env[x := v]) == ErasedEnv(env)[x := Erased(v)]
  {
  }

  lemma {:induction false} LetPreserved(fuel: nat, env: Scope, e: Expr, polls: Vm.Polls, k: nat)
    requires e.Let?
    ensures Vm.Eval(fuel, ErasedEnv(env), EraseProofs(e), polls, k) == ErasedAnswer(Run(fuel, env, e, polls, k))
    decreases fuel, 1, e, 0
  {
    ErasurePreservesMeaning(fuel, env, e.val, polls, k);
    var a := Run(fuel, env, e.val, polls, k);
    if a.Done? {
      ErasurePreservesMeaning(fuel, env[e.name := a.value], e.body, polls, a.next);
      ExtensionPreserved(env, e.name, a.value);
    }
  }

  lemma {:induction false} LetRecPreserved(fuel: nat, env: Scope, e: Expr, polls: Vm.Polls, k: nat)
    requires e.LetRec?
    ensures Vm.Eval(fuel, ErasedEnv(env), EraseProofs(e), polls, k) == ErasedAnswer(Run(fuel, env, e, polls, k))
    decreases fuel, 1, e, 0
  {
    ErasurePreservesMeaning(fuel, env, e.val, polls, k);
    var a := Run(fuel, env, e.val, polls, k);
    if a.Done? && a.value.Closure? {
      var v := a.value.(recName := Some(e.name));
      TagsPreserved(a.value, e.name);
      ErasurePreservesMeaning(fuel, env[e.name := v], e.body, polls, a.next);
      ExtensionPreserved(env, e.name, v);
    } else if a.Done? {
      ErasurePreservesMeaning(fuel, env[e.name := a.value], e.body, polls, a.next);
      ExtensionPreserved(env, e.name, a.value);
    }
  }

  lemma {:induction false} MatchPreserved(fuel: nat, env: Scope, e: Expr, polls: Vm.Polls, k: nat)
    requires e.Match?
    ensures Vm.Eval(fuel, ErasedEnv(env), EraseProofs(e), polls, k) == ErasedAnswer(Run(fuel, env, e, polls, k))
    decreases fuel, 1, e, 0
  {
    ErasurePreservesMeaning(fuel, env, e.scrutinee, polls, k);
    var a := Run(fuel, env, e.scrutinee, polls, k);
    if a.Done? && (a.value.Left? || a.value.Right?) {
      var x, body := if a.value.Left? then e.lVar else e.rVar, if a.value.Left? then e.lBody else e.rBody;
      ErasurePreservesMeaning(fuel, env[x := a.value.inner], body, polls, a.next);
      ExtensionPreserved(env, x, a.value.inner);
      assert Run(fuel, env, e, polls, k) == Run(fuel, env[x := a.value.inner], body, polls, a.next);
    }
  }

  lemma {:induction false} UnpackPreserved(fuel: nat, env: Scope, e: Expr, polls: Vm.Polls, k: nat)
    requires e.Unpack?
    ensures Vm.Eval(fuel, ErasedEnv(env), EraseProofs(e), polls, k) == ErasedAnswer(Run(fuel, env, e, polls, k))
    decreases fuel, 1, e, 0
  {
    ErasurePreservesMeaning(fuel, env, e.pair, polls, k);
    var a := Run(fuel, env, e.pair, polls, k);
    if a.Done? && a.value.Pair? {
      ErasurePreservesMeaning(fuel, env[e.a := a.value.fst][e.b := a.value.snd], e.body, polls, a.next);
      ExtensionPreserved(env, e.a, a.value.fst);
      ExtensionPreserved(env[e.a := a.value.fst], e.b, a.value.snd);
    }
  }

  /** Two programs that differ only in annotations and tail flags print the same answer. */
  lemma AnnotationsNeverMatter(fuel: nat, env: Scope, e: Expr, d: Expr, polls: Vm.Polls, k: nat)
    requires EraseProofs(e) == EraseProofs(d)
    ensures ErasedAnswer(Run(fuel, env, e, polls, k)) == ErasedAnswer(Run(fuel, env, d, polls, k))
  {
    ErasurePreservesMeaning(fuel, env, e, polls, k);
    ErasurePreservesMeaning(fuel, env, d, polls, k);
  }
}

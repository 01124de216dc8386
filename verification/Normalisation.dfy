/**
 Simple types for the surface language and the theorem they buy: a well-typed program without
 `let rec` always finishes, whatever the POLL stream answers, and the only ways it can fail are
 the two failures of division. The proof is a logical relation over types.

 The program ships no type checker; `HasType` is the reading its annotations invite. `Any` is kept
 as a type about whose values nothing is known.
 */
module Normalisation {
  import opened Wrappers
  import opened Ast
  import opened Ir
  import opened Vm

  type Context = map<string, Type>

  ghost predicate HasType(ctx: Context, e: Expr, t: Type)
    decreases e
  {
    match e
    case IntLiteral(_) => t.Int?
    case FloatLiteral(_) => t.Float?
    case Var(name) => if name == "POLL" then t.Int? else name in ctx && ctx[name] == t
    case Binary(op, l, r) =>
      && HasType(ctx, l, Type.Int) && HasType(ctx, r, Type.Int)
      && t == (if op.Arithmetic() then Type.Int else Type.Either(Type.Int, Type.Int))
    case Lambda(param, paramType, body) =>
      t.Func? && t.dom == paramType && HasType(ctx[param := paramType], body, t.cod)
    case App(func, arg, _) =>
      exists a :: HasType(ctx, func, Func(a, t)) && HasType(ctx, arg, a)
    case Pair(l, r) => t.Pair? && HasType(ctx, l, t.fst) && HasType(ctx, r, t.snd)
    case Unpack(a, b, pair, body) =>
      exists ta, tb :: HasType(ctx, pair, Type.Pair(ta, tb)) && HasType(ctx[a := ta][b := tb], body, t)
    case Left(inner) => t.Either? && HasType(ctx, inner, t.lft)
    case Right(inner) => t.Either? && HasType(ctx, inner, t.rgt)
    case Match(scrutinee, lVar, lBody, rVar, rBody) =>
      exists a, b ::
        && HasType(ctx, scrutinee, Either(a, b))
        && HasType(ctx[lVar := a], lBody, t) && HasType(ctx[rVar := b], rBody, t)
    case Let(name, val, body) =>
      exists a :: HasType(ctx, val, a) && HasType(ctx[name := a], body, t)
    case LetRec(_, _, _) => false
  }

  /** The values of a type. A closure belongs to a function type by what its calls do. */
  ghost predicate ValueOf(t: Type, v: Value)
    decreases t, 0
  {
    match t
    case Int => v.Int?
    case Float => v.Float?
    case Any => true
    case Pair(a, b) => v.Pair? && ValueOf(a, v.fst) && ValueOf(b, v.snd)
    case Either(a, b) => (v.Left? && ValueOf(a, v.inner)) || (v.Right? && ValueOf(b, v.inner))
    case Func(a, b) =>
      && v.Closure?
      && forall arg, polls, k :: ValueOf(a, arg) ==> Finishes(b, CallEnv(v, arg), v.body, polls, k)
  }

  /** The outcomes a term of type `t` may have. */
  ghost predicate SafeOutcome(t: Type, o: Outcome)
    decreases t, 1
  {
    match o
    case Done(v, _) => ValueOf(t, v)
    case Fault(error, _) => error == DivByZero
    case Abort(_) => true
    case OutOfFuel => false
  }

  ghost predicate Finishes(t: Type, env: Env, node: IrNode, polls: Polls, k: nat)
    decreases t, 2
  {
    exists fuel: nat :: SafeOutcome(t, Eval(fuel, env, node, polls, k))
  }

  ghost predicate EnvOf(ctx: Context, env: Env) {
    forall x :: x in ctx ==> x in env && ValueOf(ctx[x], env[x])
  }

  /** Main theorem: closed well-typed programs finish safely, in every environment and POLL stream. */
  lemma WellTypedProgramsFinish(e: Expr, t: Type, env: Env, polls: Polls, k: nat)
    requires HasType(map[], e, t)
    ensures Finishes(t, env, EraseProofs(e), polls, k)
  {
    Fundamental(map[], e, t, env, polls, k);
  }

  /** At the ground type this reads: an integer, or one of the two failures of division. */
  lemma IntegerProgramsYieldIntegers(e: Expr, env: Env, polls: Polls)
    requires HasType(map[], e, Type.Int)
    ensures exists fuel: nat ::
              var o := Eval(fuel, env, EraseProofs(e), polls, 0);
              (o.Done? && o.value.Int?) || o.Abort? || (o.Fault? && o.error == DivByZero)
  {
    WellTypedProgramsFinish(e, Type.Int, env, polls, 0);
    var fuel: nat :| SafeOutcome(Type.Int, Eval(fuel, env, EraseProofs(e), polls, 0));
  }

  lemma {:induction false} Fundamental(ctx: Context, e: Expr, t: Type, env: Env, polls: Polls, k: nat)
    requires HasType(ctx, e, t) && EnvOf(ctx, env)
    ensures Finishes(t, env, EraseProofs(e), polls, k)
    decreases e, 3
  {
    var node := EraseProofs(e);
    match e
    case IntLiteral(_) => assert SafeOutcome(t, Eval(0, env, node, polls, k));
    case FloatLiteral(_) => assert SafeOutcome(t, Eval(0, env, node, polls, k));
    case Var(_) => assert SafeOutcome(t, Eval(0, env, node, polls, k));
    case Lambda(param, paramType, body) => FundamentalLambda(ctx, e, t, env, polls, k);
    case Binary(op, l, r) =>
      var fuel, o, p := RunTwo(ctx, e, l, r, Type.Int, Type.Int, env, polls, k);
      assert SafeOutcome(t, Eval(fuel, env, node, polls, k));
    case Pair(l, r) =>
      var fuel, o, p := RunTwo(ctx, e, l, r, t.fst, t.snd, env, polls, k);
      assert SafeOutcome(t, Eval(fuel, env, node, polls, k));
    case App(_, _, _) => FundamentalApp(ctx, e, t, env, polls, k);
    case Left(inner) =>
      var fuel, o := Run(ctx, e, inner, t.lft, env, polls, k);
      assert SafeOutcome(t, Eval(fuel, env, node, polls, k));
    case Right(inner) =>
      var fuel, o := Run(ctx, e, inner, t.rgt, env, polls, k);
      assert SafeOutcome(t, Eval(fuel, env, node, polls, k));
    case Let(_, _, _) => FundamentalLet(ctx, e, t, env, polls, k);
    case Match(_, _, _, _, _) => FundamentalMatch(ctx, e, t, env, polls, k);
    case Unpack(_, _, _, _) => FundamentalUnpack(ctx, e, t, env, polls, k);
  }

  lemma {:induction false} FundamentalApp(ctx: Context, e: Expr, t: Type, env: Env, polls: Polls, k: nat)
    requires e.App? && HasType(ctx, e, t) && EnvOf(ctx, env)
    ensures Finishes(t, env, EraseProofs(e), polls, k)
    decreases e, 2
  {
    var node := EraseProofs(e);
    var a :| HasType(ctx, e.func, Func(a, t)) && HasType(ctx, e.arg, a);
    var fuel, o, p := RunTwo(ctx, e, e.func, e.arg, Func(a, t), a, env, polls, k);
    if o.Done? && p.Done? {
      var f, inner := o.value, CallEnv(o.value, p.value);
      assert Finishes(t, inner, f.body, polls, p.next);
      var inside: nat :| SafeOutcome(t, Eval(inside, inner, f.body, polls, p.next));
      var all := fuel + inside + 1;
      FuelIsMonotone(fuel, all, env, node.func, polls, k);
      FuelIsMonotone(fuel, all, env, node.arg, polls, o.next);
      FuelIsMonotone(inside, all - 1, inner, f.body, polls, p.next);
      assert Call(all, f, p.value, polls, p.next) == Eval(all - 1, inner, f.body, polls, p.next);
      assert SafeOutcome(t, Eval(all, env, node, polls, k));
    } else {
      assert SafeOutcome(t, Eval(fuel, env, node, polls, k));
    }
  }

  lemma {:induction false} FundamentalLet(ctx: Context, e: Expr, t: Type, env: Env, polls: Polls, k: nat)
    requires e.Let? && HasType(ctx, e, t) && EnvOf(ctx, env)
    ensures Finishes(t, env, EraseProofs(e), polls, k)
    decreases e, 2
  {
    var a :| HasType(ctx, e.val, a) && HasType(ctx[e.name := a], e.body, t);
    var fuel, o := Run(ctx, e, e.val, a, env, polls, k);
    if o.Done? {
      fuel := RunThen(ctx[e.name := a], e, e.body, t, env[e.name := o.value], env, EraseProofs(e.val), fuel, o, polls,
                      k);
    }
    assert SafeOutcome(t, Eval(fuel, env, EraseProofs(e), polls, k));
  }

  lemma {:induction false} FundamentalMatch(ctx: Context, e: Expr, t: Type, env: Env, polls: Polls, k: nat)
    requires e.Match? && HasType(ctx, e, t) && EnvOf(ctx, env)
    ensures Finishes(t, env, EraseProofs(e), polls, k)
    decreases e, 2
  {
    var a, b :| && HasType(ctx, e.scrutinee, Either(a, b))
                && HasType(ctx[e.lVar := a], e.lBody, t) && HasType(ctx[e.rVar := b], e.rBody, t);
    var fuel, o := Run(ctx, e, e.scrutinee, Either(a, b), env, polls, k);
    var first := EraseProofs(e.scrutinee);
    if o.Done? && o.value.Left? {
      fuel := RunThen(ctx[e.lVar := a], e, e.lBody, t, env[e.lVar := o.value.inner], env, first, fuel, o, polls, k);
    } else if o.Done? {
      fuel := RunThen(ctx[e.rVar := b], e, e.rBody, t, env[e.rVar := o.value.inner], env, first, fuel, o, polls, k);
    }
    assert SafeOutcome(t, Eval(fuel, env, EraseProofs(e), polls, k));
  }

  lemma {:induction false} FundamentalUnpack(ctx: Context, e: Expr, t: Type, env: Env, polls: Polls, k: nat)
    requires e.Unpack? && HasType(ctx, e, t) && EnvOf(ctx, env)
    ensures Finishes(t, env, EraseProofs(e), polls, k)
    decreases e, 2
  {
    var a, b :| HasType(ctx, e.pair, Type.Pair(a, b)) && HasType(ctx[e.a := a][e.b := b], e.body, t);
    var fuel, o := Run(ctx, e, e.pair, Type.Pair(a, b), env, polls, k);
    if o.Done? {
      fuel := RunThen(ctx[e.a := a][e.b := b], e, e.body, t, env[e.a := o.value.fst][e.b := o.value.snd], env,
                      EraseProofs(e.pair), fuel, o, polls, k);
    }
    assert SafeOutcome(t, Eval(fuel, env, EraseProofs(e), polls, k));
  }

  lemma {:induction false} FundamentalLambda(ctx: Context, e: Expr, t: Type, env: Env, polls: Polls, k: nat)
    requires e.Lambda? && HasType(ctx, e, t) && EnvOf(ctx, env)
    ensures Finishes(t, env, EraseProofs(e), polls, k)
    decreases e, 2
  {
    var v := Closure(e.param, EraseProofs(e.body), env, None);
    forall arg, polls', k' | ValueOf(t.dom, arg)
      ensures Finishes(t.cod, CallEnv(v, arg), v.body, polls', k')
    {
      Fundamental(ctx[e.param := t.dom], e.body, t.cod, CallEnv(v, arg), polls', k');
    }
    assert Eval(0, env, EraseProofs(e), polls, k) == Done(v, k);
    assert SafeOutcome(t, Eval(0, env, EraseProofs(e), polls, k));
  }

  /** Running one subterm of `whole`. */
  lemma {:induction false} Run(ctx: Context, whole: Expr, e: Expr, t: Type, env: Env, polls: Polls, k: nat)
    returns (fuel: nat, o: Outcome)
    requires e < whole && HasType(ctx, e, t) && EnvOf(ctx, env)
    ensures o == Eval(fuel, env, EraseProofs(e), polls, k) && SafeOutcome(t, o)
    decreases whole, 0
  {
    Fundamental(ctx, e, t, env, polls, k);
    fuel :| SafeOutcome(t, Eval(fuel, env, EraseProofs(e), polls, k));
    o := Eval(fuel, env, EraseProofs(e), polls, k);
  }

  /** Running two subterms in order, with fuel enough for both. */
  lemma {:induction false} RunTwo(
    ctx: Context, whole: Expr, l: Expr, r: Expr, tl: Type, tr: Type, env: Env, polls: Polls, k: nat)
    returns (fuel: nat, o: Outcome, p: Outcome)
    requires l < whole && r < whole
    requires HasType(ctx, l, tl) && HasType(ctx, r, tr) && EnvOf(ctx, env)
    ensures o == Eval(fuel, env, EraseProofs(l), polls, k) && SafeOutcome(tl, o)
    ensures o.Done? ==> p == Eval(fuel, env, EraseProofs(r), polls, o.next) && SafeOutcome(tr, p)
    decreases whole, 1
  {
    fuel, o := Run(ctx, whole, l, tl, env, polls, k);
    p := OutOfFuel;
    if o.Done? {
      var second: nat;
      second, p := Run(ctx, whole, r, tr, env, polls, o.next);
      FuelIsMonotone(fuel, fuel + second, env, EraseProofs(l), polls, k);
      FuelIsMonotone(second, fuel + second, env, EraseProofs(r), polls, o.next);
      fuel := fuel + second;
    }
  }

  /** Continuing into a body once the subterm `first` has produced a value. */
  lemma {:induction false} RunThen(
    ctx: Context, whole: Expr, body: Expr, t: Type, inner: Env, env: Env, first: IrNode,
    fuel: nat, o: Outcome, polls: Polls, k: nat)
    returns (all: nat)
    requires body < whole && HasType(ctx, body, t) && EnvOf(ctx, inner)
    requires o.Done? && o == Eval(fuel, env, first, polls, k)
    ensures Eval(all, env, first, polls, k) == o
    ensures SafeOutcome(t, Eval(all, inner, EraseProofs(body), polls, o.next))
    decreases whole, 1
  {
    var second, p := Run(ctx, whole, body, t, inner, polls, o.next);
    all := fuel + second;
    FuelIsMonotone(fuel, all, env, first, polls, k);
    FuelIsMonotone(second, all, inner, EraseProofs(body), polls, o.next);
  }

  /** The theorem stops at `let rec`: this annotated program runs out of any amount of fuel. */
  const LOOP: Expr :=
    Expr.LetRec("f", Expr.Lambda("x", Type.Int, Expr.App(Expr.Var("f"), Expr.Var("x"), false)),
                Expr.App(Expr.Var("f"), Expr.IntLiteral(0), false))

  lemma LetRecCanDiverge(fuel: nat, env: Env, polls: Polls, k: nat)
    ensures Eval(fuel, env, EraseProofs(LOOP), polls, k) == OutOfFuel
  {
    var body := IrNode.App(IrNode.Var("f"), IrNode.Var("x"));
    assert EraseProofs(LOOP) ==
           IrNode.LetRec("f", IrNode.Lambda("x", body), IrNode.App(IrNode.Var("f"), IrNode.IntLiteral(0)));
    var f := Closure("x", body, env, Some("f"));
    LoopingCall(fuel, f, Value.Int(0), polls, k);
    var inner := env["f" := f];
    assert Eval(fuel, inner, IrNode.Var("f"), polls, k) == Done(f, k);
    assert Eval(fuel, inner, IrNode.IntLiteral(0), polls, k) == Done(Value.Int(0), k);
    assert Eval(fuel, env, IrNode.Lambda("x", body), polls, k) == Done(Closure("x", body, env, None), k);
  }

  lemma {:induction false} LoopingCall(fuel: nat, f: Value, arg: Value, polls: Polls, k: nat)
    requires f.Closure? && f.param == "x" && f.recName == Some("f")
    requires f.body == IrNode.App(IrNode.Var("f"), IrNode.Var("x"))
    ensures Call(fuel, f, arg, polls, k) == OutOfFuel
  {
    if fuel > 0 {
      var env := CallEnv(f, arg);
      assert env["f"] == f && env["x"] == arg;
      LoopingCall(fuel - 1, f, arg, polls, k);
      assert Eval(fuel - 1, env, IrNode.Var("f"), polls, k) == Done(f, k);
      assert Eval(fuel - 1, env, IrNode.Var("x"), polls, k) == Done(arg, k);
    }
  }
}

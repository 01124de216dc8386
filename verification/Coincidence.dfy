/**
 Evaluation looks only at the free variables: two environments that agree on them give the same
 fault, abort or exhaustion, or values that differ at most in parts of closure environments that
 no call can reach, after the same number of POLLs. POLL itself is never free, because it is looked
 up before the environment.
 */
module Coincidence {
  import opened Machine
  import opened Wrappers
  import opened Ir
  import opened Vm
  import opened LetRecForm

  /** In `let rec f = v in e` the name is bound in `v` too: the tag puts it there at every call. */
  function FreeVariables(node: IrNode): set<string> {
    match node
    case IntLiteral(_) => {}
    case FloatLiteral(_) => {}
    case Var(name) => if name == "POLL" then {} else {name}
    case Binary(_, l, r) => FreeVariables(l) + FreeVariables(r)
    case Lambda(param, body) => FreeVariables(body) - {param}
    case App(func, arg) => FreeVariables(func) + FreeVariables(arg)
    case Pair(l, r) => FreeVariables(l) + FreeVariables(r)
    case Unpack(a, b, pair, body) => FreeVariables(pair) + (FreeVariables(body) - {a, b})
    case Left(inner) => FreeVariables(inner)
    case Right(inner) => FreeVariables(inner)
    case Match(scrutinee, lVar, lBody, rVar, rBody) =>
      FreeVariables(scrutinee) + (FreeVariables(lBody) - {lVar}) + (FreeVariables(rBody) - {rVar})
    case Let(name, val, body) => FreeVariables(val) + (FreeVariables(body) - {name})
    case LetRec(name, val, body) => (FreeVariables(val) + FreeVariables(body)) - {name}
  }

  /** The variables whose value a call takes from the closure's environment. */
  function Captured(param: string, body: IrNode, recName: Option<string>): set<string> {
    FreeVariables(body) - {param} - (if recName.Some? then {recName.value} else {})
  }

  /** Equal up to the unreachable parts of closure environments. */
  ghost predicate Alike(v: Value, w: Value)
    decreases v
  {
    match v
    case Int(_) => w == v
    case Float(_) => w == v
    case Pair(a, b) => w.Pair? && Alike(a, w.fst) && Alike(b, w.snd)
    case Left(a) => w.Left? && Alike(a, w.inner)
    case Right(a) => w.Right? && Alike(a, w.inner)
    case Closure(param, body, env, recName) =>
      && w.Closure? && w.param == param && w.body == body && w.recName == recName
      && BindsLambdas(body)
      && forall x | x in Captured(param, body, recName) ::
           (x in env <==> x in w.env) && (x in env ==> Alike(env[x], w.env[x]))
  }

  ghost predicate Agree(names: set<string>, e: Env, d: Env) {
    forall x | x in names :: (x in e <==> x in d) && (x in e ==> Alike(e[x], d[x]))
  }

  ghost predicate AlikeOutcomes(o: Outcome, p: Outcome) {
    if o.Done? then p.Done? && p.next == o.next && Alike(o.value, p.value) else p == o
  }

  lemma {:induction false} GroundValuesAreAlikeOnlyIfEqual(v: Value, w: Value)
    requires Ground(v) && Alike(v, w)
    ensures v == w
    decreases v
  {
    match v
    case Int(_) =>
    case Float(_) =>
    case Pair(a, b) => GroundValuesAreAlikeOnlyIfEqual(a, w.fst); GroundValuesAreAlikeOnlyIfEqual(b, w.snd);
    case Left(a) => GroundValuesAreAlikeOnlyIfEqual(a, w.inner);
    case Right(a) => GroundValuesAreAlikeOnlyIfEqual(a, w.inner);
  }

  /** Main theorem. */
  lemma {:induction false} Coincide(fuel: nat, e: Env, d: Env, node: IrNode, polls: Polls, k: nat)
    requires BindsLambdas(node) && Agree(FreeVariables(node), e, d)
    ensures AlikeOutcomes(Eval(fuel, e, node, polls, k), Eval(fuel, d, node, polls, k))
    decreases fuel, 1, node, 2
  {
    match node
    case IntLiteral(_) =>
    case FloatLiteral(_) =>
    case Var(_) =>
    case Lambda(_, _) =>
    case Left(_) => CoincideOperands(fuel, e, d, node, polls, k);
    case Right(_) => CoincideOperands(fuel, e, d, node, polls, k);
    case Binary(_, _, _) => CoincideOperands(fuel, e, d, node, polls, k);
    case Pair(_, _) => CoincideOperands(fuel, e, d, node, polls, k);
    case App(_, _) => CoincideApp(fuel, e, d, node, polls, k);
    case Let(_, _, _) => CoincideBinder(fuel, e, d, node, polls, k);
    case LetRec(_, _, _) => CoincideBinder(fuel, e, d, node, polls, k);
    case Match(_, _, _, _, _) => CoincideElimination(fuel, e, d, node, polls, k);
    case Unpack(_, _, _, _) => CoincideElimination(fuel, e, d, node, polls, k);
  }

  lemma {:induction false} CoincideOperands(fuel: nat, e: Env, d: Env, node: IrNode, polls: Polls, k: nat)
    requires node.Left? || node.Right? || node.Binary? || node.Pair?
    requires BindsLambdas(node) && Agree(FreeVariables(node), e, d)
    ensures AlikeOutcomes(Eval(fuel, e, node, polls, k), Eval(fuel, d, node, polls, k))
    decreases fuel, 1, node, 1
  {
    match node
    case Left(inner) => Coincide(fuel, e, d, inner, polls, k);
    case Right(inner) => Coincide(fuel, e, d, inner, polls, k);
    case Binary(_, l, r) => CoincideBoth(fuel, e, d, node, l, r, polls, k);
    case Pair(l, r) => CoincideBoth(fuel, e, d, node, l, r, polls, k);
  }

  lemma {:induction false} CoincideApp(fuel: nat, e: Env, d: Env, node: IrNode, polls: Polls, k: nat)
    requires node.App? && BindsLambdas(node) && Agree(FreeVariables(node), e, d)
    ensures AlikeOutcomes(Eval(fuel, e, node, polls, k), Eval(fuel, d, node, polls, k))
    decreases fuel, 1, node, 1
  {
    CoincideBoth(fuel, e, d, node, node.func, node.arg, polls, k);
    var o, p := Eval(fuel, e, node.func, polls, k), Eval(fuel, d, node.func, polls, k);
    if o.Done? {
      var a, b := Eval(fuel, e, node.arg, polls, o.next), Eval(fuel, d, node.arg, polls, o.next);
      if a.Done? {
        CoincideCall(fuel, o.value, p.value, a.value, b.value, polls, a.next);
      }
    }
  }

  lemma {:induction false} CoincideBoth(
    fuel: nat, e: Env, d: Env, node: IrNode, s: IrNode, t: IrNode, polls: Polls, k: nat)
    requires s < node && t < node && BindsLambdas(s) && BindsLambdas(t)
    requires Agree(FreeVariables(s) + FreeVariables(t), e, d)
    ensures AlikeOutcomes(Eval(fuel, e, s, polls, k), Eval(fuel, d, s, polls, k))
    ensures var o := Eval(fuel, e, s, polls, k);
            o.Done? ==> AlikeOutcomes(Eval(fuel, e, t, polls, o.next), Eval(fuel, d, t, polls, o.next))
    decreases fuel, 1, node, 0
  {
    Coincide(fuel, e, d, s, polls, k);
    var o := Eval(fuel, e, s, polls, k);
    if o.Done? {
      Coincide(fuel, e, d, t, polls, o.next);
    }
  }

  lemma {:induction false} CoincideCall(fuel: nat, f: Value, g: Value, a: Value, b: Value, polls: Polls, k: nat)
    requires Alike(f, g) && Alike(a, b)
    ensures AlikeOutcomes(Call(fuel, f, a, polls, k), Call(fuel, g, b, polls, k))
    decreases fuel, 0
  {
    if f.Closure? && fuel > 0 {
      assert Agree(FreeVariables(f.body), CallEnv(f, a), CallEnv(g, b));
      Coincide(fuel - 1, CallEnv(f, a), CallEnv(g, b), f.body, polls, k);
    }
  }

  lemma {:induction false} CoincideBinder(fuel: nat, e: Env, d: Env, node: IrNode, polls: Polls, k: nat)
    requires node.Let? || node.LetRec?
    requires BindsLambdas(node) && Agree(FreeVariables(node), e, d)
    ensures AlikeOutcomes(Eval(fuel, e, node, polls, k), Eval(fuel, d, node, polls, k))
    decreases fuel, 1, node, 0
  {
    match node
    case Let(x, val, body) =>
      Coincide(fuel, e, d, val, polls, k);
      var o, p := Eval(fuel, e, val, polls, k), Eval(fuel, d, val, polls, k);
      if o.Done? {
        Coincide(fuel, e[x := o.value], d[x := p.value], body, polls, o.next);
      }
    case LetRec(x, val, body) =>
      var f := Closure(val.param, val.body, e, Some(x));
      var g := Closure(val.param, val.body, d, Some(x));
      assert Eval(fuel, e, val, polls, k) == Done(f.(recName := None), k);
      assert Eval(fuel, d, val, polls, k) == Done(g.(recName := None), k);
      assert Captured(val.param, val.body, Some(x)) <= FreeVariables(node);
      assert Alike(f, g);
      Coincide(fuel, e[x := f], d[x := g], body, polls, k);
  }

  lemma {:induction false} CoincideElimination(fuel: nat, e: Env, d: Env, node: IrNode, polls: Polls, k: nat)
    requires node.Match? || node.Unpack?
    requires BindsLambdas(node) && Agree(FreeVariables(node), e, d)
    ensures AlikeOutcomes(Eval(fuel, e, node, polls, k), Eval(fuel, d, node, polls, k))
    decreases fuel, 1, node, 0
  {
    match node
    case Match(scrutinee, lVar, lBody, rVar, rBody) =>
      Coincide(fuel, e, d, scrutinee, polls, k);
      var o, p := Eval(fuel, e, scrutinee, polls, k), Eval(fuel, d, scrutinee, polls, k);
      if o.Done? && o.value.Left? {
        Coincide(fuel, e[lVar := o.value.inner], d[lVar := p.value.inner], lBody, polls, o.next);
      } else if o.Done? && o.value.Right? {
        Coincide(fuel, e[rVar := o.value.inner], d[rVar := p.value.inner], rBody, polls, o.next);
      }
    case Unpack(a, b, pair, body) =>
      Coincide(fuel, e, d, pair, polls, k);
      var o, p := Eval(fuel, e, pair, polls, k), Eval(fuel, d, pair, polls, k);
      if o.Done? && o.value.Pair? {
        Coincide(fuel, e[a := o.value.fst][b := o.value.snd], d[a := p.value.fst][b := p.value.snd], body, polls,
                 o.next);
      }
  }

  /**
   A program with no free variables prints the same answer in every environment, the one seeded
   with SYS_COMPUTE and SYS_CREDITS included. "POLL" may be bound or not: it makes no difference.
   */
  lemma ClosedProgramsIgnoreTheirEnvironment(fuel: nat, e: Env, d: Env, node: IrNode, polls: Polls, k: nat)
    requires BindsLambdas(node) && FreeVariables(node) == {}
    requires GroundOutcome(Eval(fuel, e, node, polls, k))
    ensures Eval(fuel, d, node, polls, k) == Eval(fuel, e, node, polls, k)
  {
    Coincide(fuel, e, d, node, polls, k);
    var o := Eval(fuel, e, node, polls, k);
    if o.Done? {
      GroundValuesAreAlikeOnlyIfEqual(o.value, Eval(fuel, d, node, polls, k).value);
    }
  }

  /**
   Why `BindsLambdas` is asked: `let rec g = f in g 0`, where `f` is a closure tagged "f" whose body is
   the variable "f". The tag "g" replaces "f", so the closure's own entry for "f", unreachable before,
   becomes the result. The two environments agree on the only free variable and the answers differ.
   */
  lemma RetaggingRevealsTheEnvironment(n: Int64, fuel: nat, node: IrNode, polls: Polls, k: nat)
    requires node == IrNode.LetRec("g", IrNode.Var("f"), IrNode.App(IrNode.Var("g"), IrNode.IntLiteral(0)))
    requires fuel >= 1
    ensures var clo := (i: Int64) => Closure("x", IrNode.Var("f"), map["f" := Value.Int(i)], Some("f"));
            && FreeVariables(node) == {"f"}
            && Agree({"f"}, map["f" := clo(0)], map["f" := clo(n)])
            && Eval(fuel, map["f" := clo(n)], node, polls, k) == Done(Value.Int(n), k)
  {
    var f := Closure("x", IrNode.Var("f"), map["f" := Value.Int(n)], Some("f"));
    var z := Closure("x", IrNode.Var("f"), map["f" := Value.Int(0)], Some("f"));
    assert Captured("x", IrNode.Var("f"), Some("f")) == {};
    assert Alike(z, f);
    var g := Closure("x", IrNode.Var("f"), map["f" := Value.Int(n)], Some("g"));
    var env := map["f" := f]["g" := g];
    assert Eval(fuel, map["f" := f], IrNode.Var("f"), polls, k) == Done(f, k);
    assert Eval(fuel, env, IrNode.Var("g"), polls, k) == Done(g, k);
    assert Eval(fuel, env, IrNode.IntLiteral(0), polls, k) == Done(Value.Int(0), k);
    assert Call(fuel, g, Value.Int(0), polls, k) == Done(Value.Int(n), k);
    assert Eval(fuel, env, node.body, polls, k) == Done(Value.Int(n), k);
  }
}

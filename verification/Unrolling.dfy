/**
 Recursion by name tag is finite unrolling.

 `let rec f = \x. b in e` binds `f` to a closure that is put back into its own environment at every
 call. Replace that closure by a chain of ordinary closures, each one holding the next as its `f`,
 with a closure that never returns at the bottom. The two programs reach the same outcomes: an
 outcome free of closures, a fault or an abort is reached with the tagged closure exactly when it
 is reached with some chain, and then with every chain that is deep enough, after the same POLLs.
 */
module Unrolling {
  import opened Wrappers
  import opened Ast
  import opened Ir
  import opened Vm
  import opened LetRecForm

  /** `(\y. y y) (\y. y y)` */
  const SELF: IrNode := IrNode.App(IrNode.Var("y"), IrNode.Var("y"))
  const OMEGA: IrNode := IrNode.App(IrNode.Lambda("y", SELF), IrNode.Lambda("y", SELF))

  /** The recursive function of one `let rec`: name, parameter, body and defining environment. */
  datatype Rec = Rec(f: string, x: string, b: IrNode, env: Env) {

    /** The closure that `let rec` builds. */
    function Tagged(): Value {
      Closure(x, b, env, Some(f))
    }

    /** A chain of `depth` ordinary closures over one that diverges when called. */
    function Chain(depth: nat): Value {
      if depth == 0 then Closure(x, OMEGA, map[], None)
      else Closure(x, b, env[f := Chain(depth - 1)], None)
    }

    ghost predicate Valid() {
      f != x && BindsLambdas(b) && DisciplinedEnv(env)
    }
  }

  lemma OmegaDiverges(fuel: nat, env: Env, polls: Polls, k: nat)
    ensures Eval(fuel, env, OMEGA, polls, k) == OutOfFuel
  {
    var clo := Closure("y", SELF, env, None);
    assert Eval(fuel, env, OMEGA.func, polls, k) == Done(clo, k);
    SelfApplicationDiverges(fuel, clo, clo, polls, k);
  }

  lemma {:induction false} SelfApplicationDiverges(fuel: nat, f: Value, arg: Value, polls: Polls, k: nat)
    requires f.Closure? && f.param == "y" && f.body == SELF && f.recName == None
    requires arg == f
    ensures Call(fuel, f, arg, polls, k) == OutOfFuel
  {
    if fuel > 0 {
      SelfApplicationDiverges(fuel - 1, f, arg, polls, k);
      assert Eval(fuel - 1, CallEnv(f, arg), IrNode.Var("y"), polls, k) == Done(f, k);
    }
  }

  /** `w` is `v` with every occurrence of the tagged closure replaced by some chain of depth `n` or more. */
  ghost predicate Unrolled(r: Rec, n: nat, v: Value, w: Value)
    decreases v
  {
    || (v == r.Tagged() && exists m: nat :: m >= n && w == r.Chain(m))
    || match v
       case Int(_) => w == v
       case Float(_) => w == v
       case Pair(a, b) => w.Pair? && Unrolled(r, n, a, w.fst) && Unrolled(r, n, b, w.snd)
       case Left(a) => w.Left? && Unrolled(r, n, a, w.inner)
       case Right(a) => w.Right? && Unrolled(r, n, a, w.inner)
       case Closure(param, body, env, recName) =>
         && w.Closure? && w.param == param && w.body == body && w.recName == recName
         && BindsLambdas(body) && w.env.Keys == env.Keys
         && forall x | x in env :: Unrolled(r, n, env[x], w.env[x])
  }

  ghost predicate UnrolledEnv(r: Rec, n: nat, e: Env, d: Env) {
    d.Keys == e.Keys && forall x | x in e :: Unrolled(r, n, e[x], d[x])
  }

  ghost predicate UnrolledOutcome(r: Rec, n: nat, o: Outcome, p: Outcome) {
    match o
    case Done(v, k) => p.Done? && p.next == k && Unrolled(r, n, v, p.value)
    case _ => p == o
  }

  lemma {:induction false} EveryValueUnrollsToItself(r: Rec, n: nat, v: Value)
    requires Disciplined(v)
    ensures Unrolled(r, n, v, v)
    decreases v
  {
    match v
    case Int(_) =>
    case Float(_) =>
    case Pair(a, b) => EveryValueUnrollsToItself(r, n, a); EveryValueUnrollsToItself(r, n, b);
    case Left(a) => EveryValueUnrollsToItself(r, n, a);
    case Right(a) => EveryValueUnrollsToItself(r, n, a);
    case Closure(_, _, env, _) =>
      forall x | x in env ensures Unrolled(r, n, env[x], env[x]) {
        EveryValueUnrollsToItself(r, n, env[x]);
      }
  }

  lemma {:induction false} DeeperIsUnrolled(r: Rec, n: nat, m: nat, v: Value, w: Value)
    requires m <= n && Unrolled(r, n, v, w)
    ensures Unrolled(r, m, v, w)
    decreases v
  {
    if v == r.Tagged() && exists j: nat :: j >= n && w == r.Chain(j) {
      var j: nat :| j >= n && w == r.Chain(j);
    } else {
      match v
      case Int(_) =>
      case Float(_) =>
      case Pair(a, b) => DeeperIsUnrolled(r, n, m, a, w.fst); DeeperIsUnrolled(r, n, m, b, w.snd);
      case Left(a) => DeeperIsUnrolled(r, n, m, a, w.inner);
      case Right(a) => DeeperIsUnrolled(r, n, m, a, w.inner);
      case Closure(_, _, env, _) =>
        forall x | x in env ensures Unrolled(r, m, env[x], w.env[x]) {
          DeeperIsUnrolled(r, n, m, env[x], w.env[x]);
        }
    }
  }

  lemma DeeperEnvIsUnrolled(r: Rec, n: nat, m: nat, e: Env, d: Env)
    requires m <= n && UnrolledEnv(r, n, e, d)
    ensures UnrolledEnv(r, m, e, d)
  {
    forall x | x in e ensures Unrolled(r, m, e[x], d[x]) {
      DeeperIsUnrolled(r, n, m, e[x], d[x]);
    }
  }

  lemma TaggedCallsUnroll(r: Rec, n: nat, m: nat, a: Value, b: Value)
    requires r.Valid() && m >= n + 1 && Unrolled(r, n, a, b)
    ensures r.Chain(m).body == r.b && UnrolledEnv(r, n, CallEnv(r.Tagged(), a), CallEnv(r.Chain(m), b))
  {
    assert r.Chain(m) == Closure(r.x, r.b, r.env[r.f := r.Chain(m - 1)], None);
    assert Unrolled(r, n, r.Tagged(), r.Chain(m - 1));
    forall x | x in r.env ensures Unrolled(r, n, r.env[x], r.env[x]) {
      EveryValueUnrollsToItself(r, n, r.env[x]);
    }
  }

  /** Calling the tagged closure and calling a chain enter the same body in related environments. */
  lemma {:induction false} CallsUnroll(r: Rec, n: nat, f: Value, g: Value, a: Value, b: Value)
    requires r.Valid()
    requires Unrolled(r, n + 1, f, g) && f.Closure? && Unrolled(r, n, a, b)
    ensures g.Closure? && g.body == f.body && BindsLambdas(f.body) && UnrolledEnv(r, n, CallEnv(f, a), CallEnv(g, b))
  {
    if f == r.Tagged() && exists m: nat :: m >= n + 1 && g == r.Chain(m) {
      var m: nat :| m >= n + 1 && g == r.Chain(m);
      TaggedCallsUnroll(r, n, m, a, b);
    } else {
      DeeperIsUnrolled(r, n + 1, n, f, g);
      forall x | x in f.env ensures Unrolled(r, n, f.env[x], g.env[x]) {
        DeeperIsUnrolled(r, n + 1, n, f.env[x], g.env[x]);
      }
    }
  }

  /** What is left of `n` levels when `d` are paid. */
  function Below(n: nat, d: nat): nat
    requires d <= n
  {
    n - d
  }

  /**
   In related environments `d` levels of chain pay for the whole run of `node`: the loss does not
   depend on how deep the chains are.
   */
  ghost predicate Costs(r: Rec, d: nat, fuel: nat, env: Env, node: IrNode, polls: Polls, k: nat) {
    forall n: nat, other {:trigger UnrolledEnv(r, n, env, other)} | n >= d && UnrolledEnv(r, n, env, other) ::
      UnrolledOutcome(r, Below(n, d), Eval(fuel, env, node, polls, k), Eval(fuel, other, node, polls, k))
  }

  /** From the tagged closure to the chains. */
  lemma {:induction false} TaggedToChain(r: Rec, fuel: nat, env: Env, node: IrNode, polls: Polls, k: nat)
    returns (d: nat)
    requires r.Valid() && BindsLambdas(node)
    requires Eval(fuel, env, node, polls, k) != OutOfFuel
    ensures Costs(r, d, fuel, env, node, polls, k)
    decreases fuel, node, 2
  {
    match node
    case IntLiteral(_) => d := 0;
    case FloatLiteral(_) => d := 0;
    case Var(_) => d := 0;
    case Lambda(_, _) => d := 0;
    case Left(inner) =>
      d := TaggedToChain(r, fuel, env, inner, polls, k);
      assert Costs(r, d, fuel, env, inner, polls, k);
      TaggedToChainInjection(r, d, fuel, env, node, inner, polls, k);
    case Right(inner) =>
      d := TaggedToChain(r, fuel, env, inner, polls, k);
      TaggedToChainInjection(r, d, fuel, env, node, inner, polls, k);
    case Binary(_, _, _) =>
      d := TaggedToChainBoth(r, fuel, env, node, node.l, node.r, polls, k);
      TaggedToChainCombine(r, d, fuel, env, node, node.l, node.r, polls, k);
    case Pair(_, _) =>
      d := TaggedToChainBoth(r, fuel, env, node, node.fst, node.snd, polls, k);
      TaggedToChainCombine(r, d, fuel, env, node, node.fst, node.snd, polls, k);
    case App(_, _) => d := TaggedToChainApp(r, fuel, env, node, polls, k);
    case Match(_, _, _, _, _) => d := TaggedToChainMatch(r, fuel, env, node, polls, k);
    case Let(_, _, _) => d := TaggedToChainLet(r, fuel, env, node, polls, k);
    case LetRec(_, _, _) => d := TaggedToChainLetRec(r, fuel, env, node, polls, k);
    case Unpack(_, _, _, _) => d := TaggedToChainUnpack(r, fuel, env, node, polls, k);
  }

  /** Two subterms in order, whose values may then be combined in any way. */
  ghost predicate CostsBoth(r: Rec, d: nat, fuel: nat, env: Env, s: IrNode, t: IrNode, polls: Polls, k: nat) {
    forall n: nat, other {:trigger UnrolledEnv(r, n, env, other)} | n >= d && UnrolledEnv(r, n, env, other) ::
      var o, p := Eval(fuel, env, s, polls, k), Eval(fuel, other, s, polls, k);
      && UnrolledOutcome(r, Below(n, d), o, p)
      && (o.Done? ==>
            UnrolledOutcome(r, Below(n, d), Eval(fuel, env, t, polls, o.next), Eval(fuel, other, t, polls, o.next)))
  }

  lemma {:induction false} CostsAt(
    r: Rec, d: nat, fuel: nat, env: Env, node: IrNode, polls: Polls, k: nat, n: nat, m: nat, other: Env)
    requires Costs(r, d, fuel, env, node, polls, k) && n >= d && m == Below(n, d) && UnrolledEnv(r, n, env, other)
    ensures UnrolledOutcome(r, m, Eval(fuel, env, node, polls, k), Eval(fuel, other, node, polls, k))
  {
  }

  lemma TaggedToChainInjection(
    r: Rec, d: nat, fuel: nat, env: Env, node: IrNode, inner: IrNode, polls: Polls, k: nat)
    requires (node.Left? || node.Right?) && inner == node.inner
    requires Costs(r, d, fuel, env, inner, polls, k)
    ensures Costs(r, d, fuel, env, node, polls, k)
  {
    forall n: nat, other | n >= d && UnrolledEnv(r, n, env, other)
      ensures UnrolledOutcome(r, Below(n, d), Eval(fuel, env, node, polls, k), Eval(fuel, other, node, polls, k))
    {
      InjectionsUnroll(r, d, n, Below(n, d), fuel, env, other, node, inner, polls, k);
    }
  }

  lemma {:induction false} InjectionsUnroll(
    r: Rec, d: nat, n: nat, m: nat, fuel: nat, env: Env, other: Env, node: IrNode, inner: IrNode, polls: Polls, k: nat)
    requires (node.Left? || node.Right?) && inner == node.inner
    requires Costs(r, d, fuel, env, inner, polls, k) && n >= d && m == Below(n, d) && UnrolledEnv(r, n, env, other)
    ensures UnrolledOutcome(r, m, Eval(fuel, env, node, polls, k), Eval(fuel, other, node, polls, k))
  {
    CostsAt(r, d, fuel, env, inner, polls, k, n, m, other);
  }

  lemma {:induction false} BothAt(
    r: Rec, d: nat, fuel: nat, env: Env, s: IrNode, t: IrNode, polls: Polls, k: nat, n: nat, m: nat, other: Env)
    requires CostsBoth(r, d, fuel, env, s, t, polls, k) && n >= d && m == Below(n, d) && UnrolledEnv(r, n, env, other)
    ensures var o := Eval(fuel, env, s, polls, k);
            && UnrolledOutcome(r, m, o, Eval(fuel, other, s, polls, k))
            && (o.Done? ==>
                  UnrolledOutcome(r, m, Eval(fuel, env, t, polls, o.next), Eval(fuel, other, t, polls, o.next)))
  {
  }

  lemma TaggedToChainCombine(
    r: Rec, d: nat, fuel: nat, env: Env, node: IrNode, s: IrNode, t: IrNode, polls: Polls, k: nat)
    requires (node.Binary? && s == node.l && t == node.r) || (node.Pair? && s == node.fst && t == node.snd)
    requires CostsBoth(r, d, fuel, env, s, t, polls, k)
    ensures Costs(r, d, fuel, env, node, polls, k)
  {
    forall n: nat, other | n >= d && UnrolledEnv(r, n, env, other)
      ensures UnrolledOutcome(r, Below(n, d), Eval(fuel, env, node, polls, k), Eval(fuel, other, node, polls, k))
    {
      TwoUnroll(r, d, n, Below(n, d), fuel, env, other, node, s, t, polls, k);
    }
  }

  lemma {:induction false} TwoUnroll(
    r: Rec, d: nat, n: nat, m: nat, fuel: nat, env: Env, other: Env, node: IrNode, s: IrNode, t: IrNode,
    polls: Polls, k: nat)
    requires (node.Binary? && s == node.l && t == node.r) || (node.Pair? && s == node.fst && t == node.snd)
    requires CostsBoth(r, d, fuel, env, s, t, polls, k) && n >= d && m == Below(n, d) && UnrolledEnv(r, n, env, other)
    ensures UnrolledOutcome(r, m, Eval(fuel, env, node, polls, k), Eval(fuel, other, node, polls, k))
  {
    var o, p := EvalCombines(fuel, env, node, s, t, polls, k);
    var o', p' := EvalCombines(fuel, other, node, s, t, polls, k);
    BothAt(r, d, fuel, env, s, t, polls, k, n, m, other);
    CombinationsUnroll(r, m, node, o, p, o', p');
  }

  /** What a two-operand node makes of the outcomes of its operands. */
  function Combined(node: IrNode, o: Outcome, p: Outcome): Outcome
    requires node.Binary? || node.Pair?
  {
    if !o.Done? then o
    else if !p.Done? then p
    else if node.Binary? then Operate(node.op, o.value, p.value, p.next)
    else Done(Value.Pair(o.value, p.value), p.next)
  }

  lemma EvalCombines(fuel: nat, env: Env, node: IrNode, s: IrNode, t: IrNode, polls: Polls, k: nat)
    returns (o: Outcome, p: Outcome)
    requires (node.Binary? && s == node.l && t == node.r) || (node.Pair? && s == node.fst && t == node.snd)
    ensures o == Eval(fuel, env, s, polls, k) && (o.Done? ==> p == Eval(fuel, env, t, polls, o.next))
    ensures Eval(fuel, env, node, polls, k) == Combined(node, o, p)
  {
    o := Eval(fuel, env, s, polls, k);
    p := if o.Done? then Eval(fuel, env, t, polls, o.next) else OutOfFuel;
  }

  lemma CombinationsUnroll(r: Rec, n: nat, node: IrNode, o: Outcome, p: Outcome, o': Outcome, p': Outcome)
    requires node.Binary? || node.Pair?
    requires UnrolledOutcome(r, n, o, o') && (o.Done? ==> UnrolledOutcome(r, n, p, p'))
    ensures UnrolledOutcome(r, n, Combined(node, o, p), Combined(node, o', p'))
  {
    if o.Done? && p.Done? && node.Binary? {
      OperatorsUnroll(r, n, node.op, o.value, p.value, o'.value, p'.value, p.next);
    }
  }

  lemma OperatorsUnroll(r: Rec, n: nat, op: Op, a: Value, b: Value, a': Value, b': Value, k: nat)
    requires Unrolled(r, n, a, a') && Unrolled(r, n, b, b')
    ensures UnrolledOutcome(r, n, Operate(op, a, b, k), Operate(op, a', b', k))
  {
    if a.Int? && b.Int? {
      var o := Operate(op, a, b, k);
      if o.Done? {
        EveryValueUnrollsToItself(r, n, o.value);
      }
    }
  }

  lemma {:induction false} TaggedToChainBoth(
    r: Rec, fuel: nat, env: Env, node: IrNode, s: IrNode, t: IrNode, polls: Polls, k: nat)
    returns (d: nat)
    requires r.Valid() && BindsLambdas(s) && BindsLambdas(t) && s < node && t < node
    requires Eval(fuel, env, s, polls, k) != OutOfFuel
    requires var o := Eval(fuel, env, s, polls, k); o.Done? ==> Eval(fuel, env, t, polls, o.next) != OutOfFuel
    ensures CostsBoth(r, d, fuel, env, s, t, polls, k)
    decreases fuel, node, 0
  {
    var d1 := TaggedToChain(r, fuel, env, s, polls, k);
    var o := Eval(fuel, env, s, polls, k);
    var d2 := 0;
    if o.Done? {
      d2 := TaggedToChain(r, fuel, env, t, polls, o.next);
    }
    d := d1 + d2;
    forall n: nat, other | n >= d && UnrolledEnv(r, n, env, other)
      ensures UnrolledOutcome(r, Below(n, d), o, Eval(fuel, other, s, polls, k))
      ensures o.Done? ==>
                UnrolledOutcome(r, Below(n, d), Eval(fuel, env, t, polls, o.next), Eval(fuel, other, t, polls, o.next))
    {
      DeeperOutcomeIsUnrolled(r, Below(n, d1), Below(n, d), o, Eval(fuel, other, s, polls, k));
      if o.Done? {
        DeeperOutcomeIsUnrolled(r, Below(n, d2), Below(n, d),
                                Eval(fuel, env, t, polls, o.next), Eval(fuel, other, t, polls, o.next));
      }
    }
  }

  lemma DeeperOutcomeIsUnrolled(r: Rec, n: nat, m: nat, o: Outcome, p: Outcome)
    requires m <= n && UnrolledOutcome(r, n, o, p)
    ensures UnrolledOutcome(r, m, o, p)
  {
    if o.Done? {
      DeeperIsUnrolled(r, n, m, o.value, p.value);
    }
  }

  lemma {:induction false} TaggedToChainApp(r: Rec, fuel: nat, env: Env, node: IrNode, polls: Polls, k: nat)
    returns (d: nat)
    requires r.Valid() && node.App? && BindsLambdas(node)
    requires Eval(fuel, env, node, polls, k) != OutOfFuel
    ensures Costs(r, d, fuel, env, node, polls, k)
    decreases fuel, node, 1
  {
    var d1 := TaggedToChainBoth(r, fuel, env, node, node.func, node.arg, polls, k);
    var o := Eval(fuel, env, node.func, polls, k);
    var p := if o.Done? then Eval(fuel, env, node.arg, polls, o.next) else OutOfFuel;
    if o.Done? && p.Done? && o.value.Closure? {
      var d2 := 0;
      if BindsLambdas(o.value.body) {
        d2 := TaggedToChain(r, fuel - 1, CallEnv(o.value, p.value), o.value.body, polls, p.next);
      }
      d := d1 + d2 + 1;
      CallsAddTheirCost(r, d1, d2, d, fuel, env, node, o, p, polls, k);
    } else {
      d := d1;
      StuckCallsCostNothing(r, d, fuel, env, node, polls, k);
    }
  }

  lemma {:induction false} CallsAddTheirCost(
    r: Rec, d1: nat, d2: nat, d: nat, fuel: nat, env: Env, node: IrNode, o: Outcome, p: Outcome, polls: Polls, k: nat)
    requires r.Valid() && node.App? && fuel > 0 && d == d1 + d2 + 1
    requires CostsBoth(r, d1, fuel, env, node.func, node.arg, polls, k)
    requires o == Eval(fuel, env, node.func, polls, k) && o.Done? && o.value.Closure?
    requires p == Eval(fuel, env, node.arg, polls, o.next) && p.Done?
    requires BindsLambdas(o.value.body) ==>
               Costs(r, d2, fuel - 1, CallEnv(o.value, p.value), o.value.body, polls, p.next)
    ensures Costs(r, d, fuel, env, node, polls, k)
  {
    forall n: nat, other | n >= d && UnrolledEnv(r, n, env, other)
      ensures UnrolledOutcome(r, Below(n, d), Eval(fuel, env, node, polls, k), Eval(fuel, other, node, polls, k))
    {
      var o', p' := Eval(fuel, other, node.func, polls, k), Eval(fuel, other, node.arg, polls, o.next);
      CallOutcomesUnroll(r, n - d1 - 1, d2, fuel, o.value, o'.value, p.value, p'.value, polls, p.next);
    }
  }

  lemma {:induction false} StuckCallsCostNothing(
    r: Rec, d: nat, fuel: nat, env: Env, node: IrNode, polls: Polls, k: nat)
    requires r.Valid() && node.App? && CostsBoth(r, d, fuel, env, node.func, node.arg, polls, k)
    requires var o := Eval(fuel, env, node.func, polls, k);
             !(o.Done? && Eval(fuel, env, node.arg, polls, o.next).Done? && o.value.Closure?)
    requires Eval(fuel, env, node, polls, k) != OutOfFuel
    ensures Costs(r, d, fuel, env, node, polls, k)
  {
    forall n: nat, other | n >= d && UnrolledEnv(r, n, env, other)
      ensures UnrolledOutcome(r, Below(n, d), Eval(fuel, env, node, polls, k), Eval(fuel, other, node, polls, k))
    {
      BothAt(r, d, fuel, env, node.func, node.arg, polls, k, n, Below(n, d), other);
    }
  }

  lemma CallOutcomesUnroll(
    r: Rec, n: nat, d: nat, fuel: nat, f: Value, g: Value, a: Value, b: Value, polls: Polls, k: nat)
    requires r.Valid() && f.Closure? && fuel > 0 && d <= n
    requires Unrolled(r, n + 1, f, g) && Unrolled(r, n + 1, a, b)
    requires BindsLambdas(f.body) ==> Costs(r, d, fuel - 1, CallEnv(f, a), f.body, polls, k)
    ensures UnrolledOutcome(r, Below(n, d), Call(fuel, f, a, polls, k), Call(fuel, g, b, polls, k))
  {
    DeeperIsUnrolled(r, n + 1, n, a, b);
    CallsUnroll(r, n, f, g, a, b);
  }

  lemma {:induction false} TaggedToChainLet(r: Rec, fuel: nat, env: Env, node: IrNode, polls: Polls, k: nat)
    returns (d: nat)
    requires r.Valid() && node.Let? && BindsLambdas(node)
    requires Eval(fuel, env, node, polls, k) != OutOfFuel
    ensures Costs(r, d, fuel, env, node, polls, k)
    decreases fuel, node, 0
  {
    var d1 := TaggedToChain(r, fuel, env, node.val, polls, k);
    var o := Eval(fuel, env, node.val, polls, k);
    d := d1;
    if o.Done? {
      var d2 := TaggedToChain(r, fuel, env[node.name := o.value], node.body, polls, o.next);
      d := d1 + d2;
      forall n: nat, other | n >= d && UnrolledEnv(r, n, env, other)
        ensures UnrolledOutcome(r, Below(n, d), Eval(fuel, env, node, polls, k), Eval(fuel, other, node, polls, k))
      {
        var p := Eval(fuel, other, node.val, polls, k);
        BindingsUnroll(r, Below(n, d1), d2, Below(n, d), fuel, env, other, node.name, o.value, p.value, node.body,
                       polls, o.next, n);
      }
    }
  }

  lemma {:induction false} BindingsUnroll(
    r: Rec, n: nat, d: nat, m: nat, fuel: nat, env: Env, other: Env, x: string, v: Value, w: Value, body: IrNode,
    polls: Polls, k: nat, above: nat)
    requires n >= d && m == Below(n, d) && n <= above && UnrolledEnv(r, above, env, other) && Unrolled(r, n, v, w)
    requires Costs(r, d, fuel, env[x := v], body, polls, k)
    ensures UnrolledOutcome(r, m, Eval(fuel, env[x := v], body, polls, k), Eval(fuel, other[x := w], body, polls, k))
  {
    DeeperEnvIsUnrolled(r, above, n, env, other);
    assert UnrolledEnv(r, n, env[x := v], other[x := w]);
    CostsAt(r, d, fuel, env[x := v], body, polls, k, n, m, other[x := w]);
  }

  lemma {:induction false} TaggedToChainLetRec(r: Rec, fuel: nat, env: Env, node: IrNode, polls: Polls, k: nat)
    returns (d: nat)
    requires r.Valid() && node.LetRec? && BindsLambdas(node)
    requires Eval(fuel, env, node, polls, k) != OutOfFuel
    ensures Costs(r, d, fuel, env, node, polls, k)
    decreases fuel, node, 0
  {
    var lam := node.val;
    var inner := env[node.name := Closure(lam.param, lam.body, env, Some(node.name))];
    LambdaIsTagged(fuel, env, node, polls, k);
    d := TaggedToChain(r, fuel, inner, node.body, polls, k);
    forall n: nat, other | n >= d && UnrolledEnv(r, n, env, other)
      ensures UnrolledOutcome(r, Below(n, d), Eval(fuel, env, node, polls, k), Eval(fuel, other, node, polls, k))
    {
      var outer := other[node.name := Closure(lam.param, lam.body, other, Some(node.name))];
      assert UnrolledEnv(r, n, inner, outer);
      CostsAt(r, d, fuel, inner, node.body, polls, k, n, Below(n, d), outer);
      LambdaIsTagged(fuel, other, node, polls, k);
    }
  }

  lemma LambdaIsTagged(fuel: nat, env: Env, node: IrNode, polls: Polls, k: nat)
    requires node.LetRec? && node.val.Lambda?
    ensures var g := Closure(node.val.param, node.val.body, env, Some(node.name));
            Eval(fuel, env, node, polls, k) == Eval(fuel, env[node.name := g], node.body, polls, k)
  {
    var f := Closure(node.val.param, node.val.body, env, None);
    assert Eval(fuel, env, node.val, polls, k) == Done(f, k);
  }

  lemma MatchTakesItsBranch(fuel: nat, env: Env, node: IrNode, o: Outcome, polls: Polls, k: nat)
    requires node.Match? && o == Eval(fuel, env, node.scrutinee, polls, k)
    requires o.Done? && (o.value.Left? || o.value.Right?)
    ensures Eval(fuel, env, node, polls, k) ==
            if o.value.Left? then Eval(fuel, env[node.lVar := o.value.inner], node.lBody, polls, o.next)
            else Eval(fuel, env[node.rVar := o.value.inner], node.rBody, polls, o.next)
  {
  }

  lemma {:induction false} TaggedToChainMatch(r: Rec, fuel: nat, env: Env, node: IrNode, polls: Polls, k: nat)
    returns (d: nat)
    requires r.Valid() && node.Match? && BindsLambdas(node)
    requires Eval(fuel, env, node, polls, k) != OutOfFuel
    ensures Costs(r, d, fuel, env, node, polls, k)
    decreases fuel, node, 0
  {
    var d1 := TaggedToChain(r, fuel, env, node.scrutinee, polls, k);
    var o := Eval(fuel, env, node.scrutinee, polls, k);
    d := d1;
    if o.Done? && (o.value.Left? || o.value.Right?) {
      var x, body := if o.value.Left? then node.lVar else node.rVar, if o.value.Left? then node.lBody else node.rBody;
      var d2 := TaggedToChain(r, fuel, env[x := o.value.inner], body, polls, o.next);
      d := d1 + d2;
      forall n: nat, other | n >= d && UnrolledEnv(r, n, env, other)
        ensures UnrolledOutcome(r, Below(n, d), Eval(fuel, env, node, polls, k), Eval(fuel, other, node, polls, k))
      {
        BranchesUnroll(r, d1, d2, n, Below(n, d1), Below(n, d), fuel, env, other, node, o, x, body, polls, k);
      }
    }
  }

  lemma {:induction false} BranchesUnroll(
    r: Rec, d1: nat, d2: nat, n: nat, m: nat, l: nat, fuel: nat, env: Env, other: Env, node: IrNode, o: Outcome,
    x: string, body: IrNode, polls: Polls, k: nat)
    requires node.Match? && o == Eval(fuel, env, node.scrutinee, polls, k) && o.Done?
    requires (o.value.Left? && x == node.lVar && body == node.lBody) ||
             (o.value.Right? && x == node.rVar && body == node.rBody)
    requires Costs(r, d1, fuel, env, node.scrutinee, polls, k) && UnrolledEnv(r, n, env, other)
    requires n >= d1 && m == Below(n, d1) && m >= d2 && l == Below(m, d2)
    requires Costs(r, d2, fuel, env[x := o.value.inner], body, polls, o.next)
    ensures UnrolledOutcome(r, l, Eval(fuel, env, node, polls, k), Eval(fuel, other, node, polls, k))
  {
    var p := Eval(fuel, other, node.scrutinee, polls, k);
    CostsAt(r, d1, fuel, env, node.scrutinee, polls, k, n, m, other);
    BindingsUnroll(r, m, d2, l, fuel, env, other, x, o.value.inner, p.value.inner, body, polls, o.next, n);
    MatchTakesItsBranch(fuel, env, node, o, polls, k);
    MatchTakesItsBranch(fuel, other, node, p, polls, k);
  }

  lemma {:induction false} TaggedToChainUnpack(r: Rec, fuel: nat, env: Env, node: IrNode, polls: Polls, k: nat)
    returns (d: nat)
    requires r.Valid() && node.Unpack? && BindsLambdas(node)
    requires Eval(fuel, env, node, polls, k) != OutOfFuel
    ensures Costs(r, d, fuel, env, node, polls, k)
    decreases fuel, node, 0
  {
    var d1 := TaggedToChain(r, fuel, env, node.pair, polls, k);
    var o := Eval(fuel, env, node.pair, polls, k);
    d := d1;
    if o.Done? && o.value.Pair? {
      var d2 := TaggedToChain(r, fuel, env[node.a := o.value.fst][node.b := o.value.snd], node.body, polls, o.next);
      d := d1 + d2;
      forall n: nat, other | n >= d && UnrolledEnv(r, n, env, other)
        ensures UnrolledOutcome(r, Below(n, d), Eval(fuel, env, node, polls, k), Eval(fuel, other, node, polls, k))
      {
        var p := Eval(fuel, other, node.pair, polls, k);
        assert UnrolledOutcome(r, Below(n, d1), o, p);
        UnpackUnrolls(r, n, d1, d2, fuel, env, other, node, o.value, p.value, polls, k, o.next);
      }
    } else {
      forall n: nat, other | n >= d && UnrolledEnv(r, n, env, other)
        ensures UnrolledOutcome(r, Below(n, d), Eval(fuel, env, node, polls, k), Eval(fuel, other, node, polls, k))
      {
        UnpackFaultsAlike(r, Below(n, d), fuel, env, other, node, polls, k);
      }
    }
  }

  lemma UnpackFaultsAlike(r: Rec, n: nat, fuel: nat, env: Env, other: Env, node: IrNode, polls: Polls, k: nat)
    requires node.Unpack?
             && !(Eval(fuel, env, node.pair, polls, k).Done? && Eval(fuel, env, node.pair, polls, k).value.Pair?)
    requires UnrolledOutcome(r, n, Eval(fuel, env, node.pair, polls, k), Eval(fuel, other, node.pair, polls, k))
    ensures UnrolledOutcome(r, n, Eval(fuel, env, node, polls, k), Eval(fuel, other, node, polls, k))
  {
  }

  lemma UnpackUnrolls(
    r: Rec, n: nat, d1: nat, d2: nat, fuel: nat, env: Env, other: Env, node: IrNode, v: Value, w: Value,
    polls: Polls, k: nat, next: nat)
    requires d1 + d2 <= n && UnrolledEnv(r, n, env, other) && node.Unpack? && v.Pair? && Unrolled(r, n - d1, v, w)
    requires Eval(fuel, env, node.pair, polls, k) == Done(v, next)
    requires Eval(fuel, other, node.pair, polls, k) == Done(w, next)
    requires Costs(r, d2, fuel, env[node.a := v.fst][node.b := v.snd], node.body, polls, next)
    ensures UnrolledOutcome(r, n - d1 - d2, Eval(fuel, env, node, polls, k), Eval(fuel, other, node, polls, k))
  {
    UnpackingUnrolls(r, n - d1, d2, fuel, env, other, node, v, w, polls, next, n);
    UnpackRule(fuel, env, node, v.fst, v.snd, polls, k, next);
    UnpackRule(fuel, other, node, w.fst, w.snd, polls, k, next);
  }

  lemma UnpackRule(fuel: nat, env: Env, node: IrNode, v: Value, w: Value, polls: Polls, k: nat, next: nat)
    requires node.Unpack? && Eval(fuel, env, node.pair, polls, k) == Done(Value.Pair(v, w), next)
    ensures Eval(fuel, env, node, polls, k) == Eval(fuel, env[node.a := v][node.b := w], node.body, polls, next)
  {
  }

  lemma UnpackingUnrolls(
    r: Rec, n: nat, d: nat, fuel: nat, env: Env, other: Env, node: IrNode, v: Value, w: Value,
    polls: Polls, k: nat, above: nat)
    requires d <= n <= above && UnrolledEnv(r, above, env, other)
    requires node.Unpack? && v.Pair? && Unrolled(r, n, v, w)
    requires Costs(r, d, fuel, env[node.a := v.fst][node.b := v.snd], node.body, polls, k)
    ensures w.Pair?
    ensures UnrolledOutcome(r, Below(n, d), Eval(fuel, env[node.a := v.fst][node.b := v.snd], node.body, polls, k),
                            Eval(fuel, other[node.a := w.fst][node.b := w.snd], node.body, polls, k))
  {
    DeeperEnvIsUnrolled(r, above, n, env, other);
    assert UnrolledEnv(r, n, env[node.a := v.fst][node.b := v.snd], other[node.a := w.fst][node.b := w.snd]);
  }

  /** From the chains to the tagged closure: a run that ends never reached the bottom of its chain. */
  lemma {:induction false} ChainToTagged(
    r: Rec, fuel: nat, env: Env, other: Env, node: IrNode, polls: Polls, k: nat)
    requires r.Valid() && BindsLambdas(node) && UnrolledEnv(r, 0, env, other)
    requires Eval(fuel, other, node, polls, k) != OutOfFuel
    ensures UnrolledOutcome(r, 0, Eval(fuel, env, node, polls, k), Eval(fuel, other, node, polls, k))
    decreases fuel, 1, node, 1
  {
    match node
    case IntLiteral(_) =>
    case FloatLiteral(_) =>
    case Var(_) =>
    case Lambda(_, _) =>
    case Left(inner) => ChainToTagged(r, fuel, env, other, inner, polls, k);
    case Right(inner) => ChainToTagged(r, fuel, env, other, inner, polls, k);
    case Binary(op, l, r') =>
      ChainToTagged(r, fuel, env, other, l, polls, k);
      var p := Eval(fuel, other, l, polls, k);
      if p.Done? {
        ChainToTagged(r, fuel, env, other, r', polls, p.next);
        var q := Eval(fuel, other, r', polls, p.next);
        if q.Done? {
          OperatorsUnroll(r, 0, op, Eval(fuel, env, l, polls, k).value, Eval(fuel, env, r', polls, p.next).value,
                          p.value, q.value, q.next);
        }
      }
    case Pair(l, r') =>
      ChainToTagged(r, fuel, env, other, l, polls, k);
      var p := Eval(fuel, other, l, polls, k);
      if p.Done? {
        ChainToTagged(r, fuel, env, other, r', polls, p.next);
      }
    case App(_, _) => ChainToTaggedApp(r, fuel, env, other, node, polls, k);
    case Let(_, _, _) => ChainToTaggedBinder(r, fuel, env, other, node, polls, k);
    case LetRec(_, _, _) => ChainToTaggedBinder(r, fuel, env, other, node, polls, k);
    case Match(_, _, _, _, _) => ChainToTaggedElimination(r, fuel, env, other, node, polls, k);
    case Unpack(_, _, _, _) => ChainToTaggedElimination(r, fuel, env, other, node, polls, k);
  }

  lemma {:induction false} ChainToTaggedApp(
    r: Rec, fuel: nat, env: Env, other: Env, node: IrNode, polls: Polls, k: nat)
    requires r.Valid() && node.App? && BindsLambdas(node) && UnrolledEnv(r, 0, env, other)
    requires Eval(fuel, other, node, polls, k) != OutOfFuel
    ensures UnrolledOutcome(r, 0, Eval(fuel, env, node, polls, k), Eval(fuel, other, node, polls, k))
    decreases fuel, 1, node, 0
  {
    ChainToTagged(r, fuel, env, other, node.func, polls, k);
    var p := Eval(fuel, other, node.func, polls, k);
    if p.Done? {
      ChainToTagged(r, fuel, env, other, node.arg, polls, p.next);
      var q := Eval(fuel, other, node.arg, polls, p.next);
      if q.Done? {
        var f, a := Eval(fuel, env, node.func, polls, k).value, Eval(fuel, env, node.arg, polls, p.next).value;
        assert Eval(fuel, other, node, polls, k) == Call(fuel, p.value, q.value, polls, q.next);
        assert Eval(fuel, env, node, polls, k) == Call(fuel, f, a, polls, q.next);
        ChainCallToTagged(r, fuel, f, p.value, a, q.value, polls, q.next);
      }
    }
  }

  lemma {:induction false} ChainCallToTagged(
    r: Rec, fuel: nat, f: Value, g: Value, a: Value, b: Value, polls: Polls, k: nat)
    requires r.Valid() && Unrolled(r, 0, f, g) && Unrolled(r, 0, a, b)
    requires Call(fuel, g, b, polls, k) != OutOfFuel
    ensures UnrolledOutcome(r, 0, Call(fuel, f, a, polls, k), Call(fuel, g, b, polls, k))
    decreases fuel, 0
  {
    if g.Closure? {
      LiveCallsUnroll(r, fuel, f, g, a, b, polls, k);
      ChainToTagged(r, fuel - 1, CallEnv(f, a), CallEnv(g, b), f.body, polls, k);
    }
  }

  /** As `CallsUnroll`, knowing instead of a depth that the call of `g` returns. */
  lemma {:induction false} LiveCallsUnroll(
    r: Rec, fuel: nat, f: Value, g: Value, a: Value, b: Value, polls: Polls, k: nat)
    requires r.Valid() && g.Closure? && Unrolled(r, 0, f, g) && Unrolled(r, 0, a, b)
    requires Call(fuel, g, b, polls, k) != OutOfFuel
    ensures f.Closure? && g.body == f.body && BindsLambdas(f.body) && UnrolledEnv(r, 0, CallEnv(f, a), CallEnv(g, b))
  {
    if f == r.Tagged() && exists m: nat :: m >= 0 && g == r.Chain(m) {
      var m: nat :| m >= 0 && g == r.Chain(m);
      if m == 0 {
        OmegaDiverges(fuel - 1, CallEnv(g, b), polls, k);
      } else {
        assert Unrolled(r, 1, f, g);
        CallsUnroll(r, 0, f, g, a, b);
      }
    }
  }

  lemma {:induction false} ChainToTaggedBinder(
    r: Rec, fuel: nat, env: Env, other: Env, node: IrNode, polls: Polls, k: nat)
    requires r.Valid() && (node.Let? || node.LetRec?)
    requires BindsLambdas(node) && UnrolledEnv(r, 0, env, other)
    requires Eval(fuel, other, node, polls, k) != OutOfFuel
    ensures UnrolledOutcome(r, 0, Eval(fuel, env, node, polls, k), Eval(fuel, other, node, polls, k))
    decreases fuel, 1, node, 0
  {
    match node
    case Let(x, val, body) =>
      ChainToTagged(r, fuel, env, other, val, polls, k);
      var o, p := Eval(fuel, env, val, polls, k), Eval(fuel, other, val, polls, k);
      if p.Done? {
        ChainToTagged(r, fuel, env[x := o.value], other[x := p.value], body, polls, p.next);
      }
    case LetRec(x, val, body) =>
      assert Eval(fuel, env, val, polls, k) == Done(Closure(val.param, val.body, env, None), k);
      assert Eval(fuel, other, val, polls, k) == Done(Closure(val.param, val.body, other, None), k);
      ChainToTagged(r, fuel, env[x := Closure(val.param, val.body, env, Some(x))],
                    other[x := Closure(val.param, val.body, other, Some(x))], body, polls, k);
  }

  lemma {:induction false} ChainToTaggedElimination(
    r: Rec, fuel: nat, env: Env, other: Env, node: IrNode, polls: Polls, k: nat)
    requires r.Valid() && (node.Match? || node.Unpack?)
    requires BindsLambdas(node) && UnrolledEnv(r, 0, env, other)
    requires Eval(fuel, other, node, polls, k) != OutOfFuel
    ensures UnrolledOutcome(r, 0, Eval(fuel, env, node, polls, k), Eval(fuel, other, node, polls, k))
    decreases fuel, 1, node, 0
  {
    match node
    case Match(scrutinee, lVar, lBody, rVar, rBody) =>
      ChainToTagged(r, fuel, env, other, scrutinee, polls, k);
      var o, p := Eval(fuel, env, scrutinee, polls, k), Eval(fuel, other, scrutinee, polls, k);
      if p.Done? && p.value.Left? {
        ChainToTagged(r, fuel, env[lVar := o.value.inner], other[lVar := p.value.inner], lBody, polls, p.next);
      } else if p.Done? && p.value.Right? {
        ChainToTagged(r, fuel, env[rVar := o.value.inner], other[rVar := p.value.inner], rBody, polls, p.next);
      }
    case Unpack(a, b, pair, body) =>
      ChainToTagged(r, fuel, env, other, pair, polls, k);
      var o, p := Eval(fuel, env, pair, polls, k), Eval(fuel, other, pair, polls, k);
      if p.Done? && p.value.Pair? {
        ChainToTagged(r, fuel, env[a := o.value.fst][b := o.value.snd], other[a := p.value.fst][b := p.value.snd],
                      body, polls, p.next);
      }
  }

  /** Some amount of fuel is enough to reach this outcome. */
  ghost predicate Reaches(env: Env, node: IrNode, polls: Polls, k: nat, o: Outcome) {
    o != OutOfFuel && exists fuel: nat :: Eval(fuel, env, node, polls, k) == o
  }

  lemma {:induction false} GroundValuesAreUnchanged(r: Rec, n: nat, v: Value, w: Value)
    requires Unrolled(r, n, v, w) && (Ground(v) || Ground(w))
    ensures v == w
    decreases v
  {
    match v
    case Int(_) =>
    case Float(_) =>
    case Pair(a, b) =>
      GroundValuesAreUnchanged(r, n, a, w.fst);
      GroundValuesAreUnchanged(r, n, b, w.snd);
    case Left(a) => GroundValuesAreUnchanged(r, n, a, w.inner);
    case Right(a) => GroundValuesAreUnchanged(r, n, a, w.inner);
    case Closure(_, _, _, _) =>
  }

  ghost predicate ReachesWithChain(r: Rec, depth: nat, e: IrNode, polls: Polls, k: nat, o: Outcome) {
    Reaches(r.env[r.f := r.Chain(depth)], e, polls, k, o)
  }

  ghost predicate ReachesFromDepth(r: Rec, enough: nat, e: IrNode, polls: Polls, k: nat, o: Outcome) {
    forall depth: nat :: depth >= enough ==> ReachesWithChain(r, depth, e, polls, k, o)
  }

  /** Main theorem, with `r` the function bound by the `let rec` and `e` its scope. */
  lemma RecursionIsFiniteUnrolling(r: Rec, e: IrNode, polls: Polls, k: nat, o: Outcome)
    requires r.Valid() && BindsLambdas(e) && GroundOutcome(o)
    ensures Reaches(r.env, IrNode.LetRec(r.f, IrNode.Lambda(r.x, r.b), e), polls, k, o) <==>
            exists depth: nat :: ReachesWithChain(r, depth, e, polls, k, o)
    ensures Reaches(r.env, IrNode.LetRec(r.f, IrNode.Lambda(r.x, r.b), e), polls, k, o) ==>
            exists enough: nat :: ReachesFromDepth(r, enough, e, polls, k, o)
  {
    var program := IrNode.LetRec(r.f, IrNode.Lambda(r.x, r.b), e);
    var tagged := r.env[r.f := r.Tagged()];
    forall fuel: nat ensures Eval(fuel, r.env, program, polls, k) == Eval(fuel, tagged, e, polls, k) {
      LetRecBindsTheTaggedClosure(r, e, fuel, polls, k);
    }
    if Reaches(r.env, program, polls, k, o) {
      var fuel: nat :| Eval(fuel, r.env, program, polls, k) == o;
      var enough := TaggedToChain(r, fuel, tagged, e, polls, k);
      forall depth: nat | depth >= enough ensures ReachesWithChain(r, depth, e, polls, k, o) {
        TheTwoEnvironmentsAreRelated(r, depth);
        var p := Eval(fuel, r.env[r.f := r.Chain(depth)], e, polls, k);
        assert UnrolledOutcome(r, depth - enough, o, p);
        if o.Done? {
          GroundValuesAreUnchanged(r, depth - enough, o.value, p.value);
        }
      }
      assert ReachesFromDepth(r, enough, e, polls, k, o);
      assert ReachesWithChain(r, enough, e, polls, k, o);
    }
    if exists depth: nat :: ReachesWithChain(r, depth, e, polls, k, o) {
      var depth: nat :| ReachesWithChain(r, depth, e, polls, k, o);
      var fuel: nat :| Eval(fuel, r.env[r.f := r.Chain(depth)], e, polls, k) == o;
      TheTwoEnvironmentsAreRelated(r, depth);
      DeeperEnvIsUnrolled(r, depth, 0, tagged, r.env[r.f := r.Chain(depth)]);
      ChainToTagged(r, fuel, tagged, r.env[r.f := r.Chain(depth)], e, polls, k);
      var p := Eval(fuel, tagged, e, polls, k);
      if o.Done? {
        GroundValuesAreUnchanged(r, 0, p.value, o.value);
      }
      assert Eval(fuel, r.env, program, polls, k) == o;
    }
  }

  lemma LetRecBindsTheTaggedClosure(r: Rec, e: IrNode, fuel: nat, polls: Polls, k: nat)
    ensures Eval(fuel, r.env, IrNode.LetRec(r.f, IrNode.Lambda(r.x, r.b), e), polls, k) ==
            Eval(fuel, r.env[r.f := r.Tagged()], e, polls, k)
  {
    assert Eval(fuel, r.env, IrNode.Lambda(r.x, r.b), polls, k) == Done(Closure(r.x, r.b, r.env, None), k);
  }

  lemma TheTwoEnvironmentsAreRelated(r: Rec, depth: nat)
    requires r.Valid()
    ensures UnrolledEnv(r, depth, r.env[r.f := r.Tagged()], r.env[r.f := r.Chain(depth)])
  {
    forall x | x in r.env ensures Unrolled(r, depth, r.env[x], r.env[x]) {
      EveryValueUnrollsToItself(r, depth, r.env[x]);
    }
  }

  /**
   Why `BindsLambdas` is asked of the scope: `let rec g = f in g (Left 0)` tags the closure of `f` a
   second time. Its own name is then no longer put back, and the run faults on `f`, while with a
   chain in place of the closure it returns 7.
   */
  const RECALL: IrNode := IrNode.App(IrNode.Var("f"), IrNode.Right(IrNode.IntLiteral(0)))
  const TWICE: Rec :=
    Rec("f", "x", IrNode.Match(IrNode.Var("x"), "u", RECALL, "u", IrNode.IntLiteral(7)), map[])
  const START: IrNode := IrNode.App(IrNode.Var("g"), IrNode.Left(IrNode.IntLiteral(0)))
  const RETAGGED: IrNode := IrNode.LetRec("g", IrNode.Var("f"), START)

  lemma TaggingTwiceForgetsTheFirstName(r: Rec, e: IrNode, depth: nat, polls: Polls, k: nat)
    requires r == TWICE && e == RETAGGED
    ensures r.Valid() && !BindsLambdas(e)
    ensures Reaches(r.env, IrNode.LetRec(r.f, IrNode.Lambda(r.x, r.b), e), polls, k, Fault(UnboundVariable("f"), k))
    ensures ReachesWithChain(r, depth + 2, e, polls, k, Done(Value.Int(7), k))
  {
    var fuel := TheTaggedRunFaults(polls, k);
    LetRecBindsTheTaggedClosure(r, e, fuel, polls, k);
    OneRunSuffices(fuel, r.env, IrNode.LetRec(r.f, IrNode.Lambda(r.x, r.b), e), polls, k);
    fuel := TheChainReturnsSeven(depth, polls, k);
    OneRunSuffices(fuel, r.env[r.f := r.Chain(depth + 2)], e, polls, k);
  }

  lemma OneRunSuffices(fuel: nat, env: Env, node: IrNode, polls: Polls, k: nat)
    requires Eval(fuel, env, node, polls, k) != OutOfFuel
    ensures Reaches(env, node, polls, k, Eval(fuel, env, node, polls, k))
  {
  }

  lemma TheTaggedRunFaults(polls: Polls, k: nat) returns (fuel: nat)
    ensures Eval(fuel, TWICE.env[TWICE.f := TWICE.Tagged()], RETAGGED, polls, k) == Fault(UnboundVariable("f"), k)
  {
    var zero, g := Value.Left(Value.Int(0)), Closure("x", TWICE.b, map[], Some("g"));
    var inner := CallEnv(g, zero);
    assert Eval(1, inner["u" := Value.Int(0)], RECALL, polls, k) == Fault(UnboundVariable("f"), k);
    assert Eval(1, inner, IrNode.Var("x"), polls, k) == Done(zero, k);
    assert Eval(1, inner, TWICE.b, polls, k) == Fault(UnboundVariable("f"), k);
    assert Call(2, g, zero, polls, k) == Fault(UnboundVariable("f"), k);

    var top := map["f" := TWICE.Tagged()]["g" := g];
    assert Eval(2, top, IrNode.Var("g"), polls, k) == Done(g, k);
    assert Eval(2, top, START.arg, polls, k) == Done(zero, k);
    assert Eval(2, top, START, polls, k) == Fault(UnboundVariable("f"), k);
    assert Tag(TWICE.Tagged(), "g") == g;
    fuel := 2;
  }

  lemma TheChainReturnsSeven(depth: nat, polls: Polls, k: nat) returns (fuel: nat)
    ensures Eval(fuel, TWICE.env[TWICE.f := TWICE.Chain(depth + 2)], RETAGGED, polls, k) == Done(Value.Int(7), k)
  {
    var below, g := TWICE.Chain(depth + 1), Closure("x", TWICE.b, map["f" := TWICE.Chain(depth + 1)], Some("g"));
    assert below.Closure? && below.param == "x" && below.body == TWICE.b && below.recName == None;
    fuel := 2;
    TheRetaggedCallReturnsSeven(below, g, polls, k);
    var top := map["f" := TWICE.Chain(depth + 2)];
    assert Eval(fuel, top["g" := g], START, polls, k) == Done(Value.Int(7), k) by {
      assert Eval(fuel, top["g" := g], IrNode.Var("g"), polls, k) == Done(g, k);
      assert Eval(fuel, top["g" := g], START.arg, polls, k) == Done(Value.Left(Value.Int(0)), k);
    }
    LetRecBinds(fuel, top, RETAGGED, TWICE.Chain(depth + 2), g, polls, k);
    assert top == TWICE.env[TWICE.f := TWICE.Chain(depth + 2)];
  }

  lemma LetRecBinds(fuel: nat, env: Env, node: IrNode, v: Value, g: Value, polls: Polls, k: nat)
    requires node.LetRec? && Eval(fuel, env, node.val, polls, k) == Done(v, k) && v.Closure? && g == Tag(v, node.name)
    ensures Eval(fuel, env, node, polls, k) == Eval(fuel, env[node.name := g], node.body, polls, k)
  {
  }

  /** The closure under the new name still finds the chain under "f". */
  lemma TheRetaggedCallReturnsSeven(below: Value, g: Value, polls: Polls, k: nat)
    requires below.Closure? && below.param == "x" && below.body == TWICE.b && below.recName == None
    requires g == Closure("x", TWICE.b, map["f" := below], Some("g"))
    ensures Call(2, g, Value.Left(Value.Int(0)), polls, k) == Done(Value.Int(7), k)
  {
    var zero, one := Value.Left(Value.Int(0)), Value.Right(Value.Int(0));
    var inner := CallEnv(g, zero);
    assert Eval(1, inner, IrNode.Var("x"), polls, k) == Done(zero, k);
    assert Eval(1, inner["u" := Value.Int(0)], RECALL, polls, k) == Done(Value.Int(7), k) by {
      assert Eval(1, inner["u" := Value.Int(0)], RECALL.func, polls, k) == Done(below, k);
      assert Eval(1, inner["u" := Value.Int(0)], RECALL.arg, polls, k) == Done(one, k);
      TheLastCallReturnsSeven(below, polls, k);
    }
    assert Eval(1, inner, TWICE.b, polls, k) == Done(Value.Int(7), k);
  }

  lemma TheLastCallReturnsSeven(below: Value, polls: Polls, k: nat)
    requires below.Closure? && below.param == "x" && below.body == TWICE.b && below.recName == None
    ensures Call(1, below, Value.Right(Value.Int(0)), polls, k) == Done(Value.Int(7), k)
  {
    var one := Value.Right(Value.Int(0));
    var last := CallEnv(below, one);
    assert Eval(0, last, IrNode.Var("x"), polls, k) == Done(one, k);
    assert Eval(0, last, TWICE.b, polls, k) == Done(Value.Int(7), k);
  }
}

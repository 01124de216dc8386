/**
 The call-by-value interpreter.

 `Eval` threads the number of POLL answers consumed so far (`k`) and is given the whole stream
 of answers. `fuel` bounds only the nesting of closure calls: everything else is structural.
 */
module Vm {
  import opened Machine
  import opened Wrappers
  import opened Ast
  import opened Ir

  datatype Value =
    | Int(n: Int64)
    | Float(f: Float64)
    | Pair(fst: Value, snd: Value)
    | Left(inner: Value)
    | Right(inner: Value)
    | Closure(param: string, body: IrNode, env: map<string, Value>, recName: Option<string>)

  type Env = map<string, Value>
  type Polls = nat -> Int32

  datatype Error =
    | UnboundVariable(name: string)
    | MathRequiresInt
    | RelationRequiresInt(op: Op)
    | DivByZero
    | AppOnNonClosure
    | MatchRequiresEither
    | UnpackRequiresPair

  /** `Abort` is the panic of dividing the least integer by -1; `next` counts the POLLs consumed. */
  datatype Outcome =
    | Done(value: Value, next: nat)
    | Fault(error: Error, next: nat)
    | Abort(next: nat)
    | OutOfFuel
  {
    predicate IsFailure() {
      !Done?
    }

    function PropagateFailure(): Outcome
      requires !Done?
    {
      this
    }

    function Extract(): (Value, nat)
      requires Done?
    {
      (value, next)
    }
  }

  /** Left(0) is the language's true and Right(0) its false. */
  function Truth(b: bool): Value {
    if b then Value.Left(Value.Int(0)) else Value.Right(Value.Int(0))
  }

  function Compare(op: Op, a: Int64, b: Int64): bool
    requires !op.Arithmetic()
  {
    match op
    case Eq => a == b
    case Gt => a > b
    case Lt => a < b
    case Ge => a >= b
    case Le => a <= b
  }

  function Operate(op: Op, l: Value, r: Value, k: nat): Outcome {
    if !l.Int? || !r.Int? then
      Fault(if op.Arithmetic() then MathRequiresInt else RelationRequiresInt(op), k)
    else
      match op
      case Add => Done(Value.Int(Wrap64(l.n + r.n)), k)
      case Sub => Done(Value.Int(Wrap64(l.n - r.n)), k)
      case Mul => Done(Value.Int(Wrap64(l.n * r.n)), k)
      case Div =>
        if r.n == 0 then Fault(DivByZero, k)
        else if l.n == MIN_INT64 && r.n == -1 then Abort(k)
        else Done(Value.Int(Wrap64(TruncatedDiv(l.n, r.n))), k)
      case _ => Done(Truth(Compare(op, l.n, r.n)), k)
  }

  /** `let rec` marks a closure with its own name; any other value passes through. */
  function Tag(v: Value, name: string): Value {
    if v.Closure? then v.(recName := Some(name)) else v
  }

  /** The environment in which the body of `f` runs: argument first, then the closure itself. */
  function CallEnv(f: Value, arg: Value): Env
    requires f.Closure?
  {
    var env := f.env[f.param := arg];
    if f.recName.Some? then env[f.recName.value := f] else env
  }

  function Eval(fuel: nat, env: Env, node: IrNode, polls: Polls, k: nat): Outcome
    decreases fuel, 1, node
  {
    match node
    case IntLiteral(n) => Done(Value.Int(n), k)
    case FloatLiteral(f) => Done(Value.Float(f), k)
    case Var(name) =>
      if name == "POLL" then Done(Value.Int(polls(k)), k + 1)
      else if name in env then Done(env[name], k)
      else Fault(UnboundVariable(name), k)
    case Binary(op, l, r) =>
      var (a, k1) :- Eval(fuel, env, l, polls, k);
      var (b, k2) :- Eval(fuel, env, r, polls, k1);
      Operate(op, a, b, k2)
    case Pair(l, r) =>
      var (a, k1) :- Eval(fuel, env, l, polls, k);
      var (b, k2) :- Eval(fuel, env, r, polls, k1);
      Done(Value.Pair(a, b), k2)
    case Left(inner) =>
      var (v, k1) :- Eval(fuel, env, inner, polls, k);
      Done(Value.Left(v), k1)
    case Right(inner) =>
      var (v, k1) :- Eval(fuel, env, inner, polls, k);
      Done(Value.Right(v), k1)
    case Lambda(param, body) => Done(Closure(param, body, env, None), k)
    case App(func, arg) =>
      var (f, k1) :- Eval(fuel, env, func, polls, k);
      var (a, k2) :- Eval(fuel, env, arg, polls, k1);
      Call(fuel, f, a, polls, k2)
    case Match(scrutinee, lVar, lBody, rVar, rBody) =>
      var (v, k1) :- Eval(fuel, env, scrutinee, polls, k);
      if v.Left? then Eval(fuel, env[lVar := v.inner], lBody, polls, k1)
      else if v.Right? then Eval(fuel, env[rVar := v.inner], rBody, polls, k1)
      else Fault(MatchRequiresEither, k1)
    case Let(name, val, body) =>
      var (v, k1) :- Eval(fuel, env, val, polls, k);
      Eval(fuel, env[name := v], body, polls, k1)
    case LetRec(name, val, body) =>
      var (v, k1) :- Eval(fuel, env, val, polls, k);
      Eval(fuel, env[name := Tag(v, name)], body, polls, k1)
    case Unpack(a, b, pair, body) =>
      var (v, k1) :- Eval(fuel, env, pair, polls, k);
      if v.Pair? then Eval(fuel, env[a := v.fst][b := v.snd], body, polls, k1)
      else Fault(UnpackRequiresPair, k1)
  }

  /** Applying an evaluated function to an evaluated argument; the one place that spends fuel. */
  function Call(fuel: nat, f: Value, arg: Value, polls: Polls, k: nat): Outcome
    decreases fuel, 0
  {
    if !f.Closure? then Fault(AppOnNonClosure, k)
    else if fuel == 0 then OutOfFuel
    else Eval(fuel - 1, CallEnv(f, arg), f.body, polls, k)
  }

  /** An outcome, once reached, does not depend on how much more fuel is available. */
  lemma {:induction false} FuelIsMonotone(fuel: nat, more: nat, env: Env, node: IrNode, polls: Polls, k: nat)
    requires fuel <= more
    requires Eval(fuel, env, node, polls, k) != OutOfFuel
    ensures Eval(more, env, node, polls, k) == Eval(fuel, env, node, polls, k)
    decreases fuel, node
  {
    match node
    case IntLiteral(_) =>
    case FloatLiteral(_) =>
    case Var(_) =>
    case Lambda(_, _) =>
    case Left(inner) => FuelIsMonotone(fuel, more, env, inner, polls, k);
    case Right(inner) => FuelIsMonotone(fuel, more, env, inner, polls, k);
    case Binary(_, l, r) => FuelIsMonotoneForTwo(fuel, more, env, node, l, r, polls, k);
    case Pair(l, r) => FuelIsMonotoneForTwo(fuel, more, env, node, l, r, polls, k);
    case App(func, arg) =>
      FuelIsMonotoneForTwo(fuel, more, env, node, func, arg, polls, k);
      var f := Eval(fuel, env, func, polls, k);
      if f.Done? {
        var a := Eval(fuel, env, arg, polls, f.next);
        if a.Done? && f.value.Closure? {
          FuelIsMonotone(fuel - 1, more - 1, CallEnv(f.value, a.value), f.value.body, polls, a.next);
        }
      }
    case Match(scrutinee, lVar, lBody, rVar, rBody) =>
      FuelIsMonotone(fuel, more, env, scrutinee, polls, k);
      var v := Eval(fuel, env, scrutinee, polls, k);
      if v.Done? && v.value.Left? {
        FuelIsMonotone(fuel, more, env[lVar := v.value.inner], lBody, polls, v.next);
      } else if v.Done? && v.value.Right? {
        FuelIsMonotone(fuel, more, env[rVar := v.value.inner], rBody, polls, v.next);
      }
    case Let(name, val, body) =>
      FuelIsMonotone(fuel, more, env, val, polls, k);
      var v := Eval(fuel, env, val, polls, k);
      if v.Done? {
        FuelIsMonotone(fuel, more, env[name := v.value], body, polls, v.next);
      }
    case LetRec(name, val, body) =>
      FuelIsMonotone(fuel, more, env, val, polls, k);
      var v := Eval(fuel, env, val, polls, k);
      if v.Done? {
        FuelIsMonotone(fuel, more, env[name := Tag(v.value, name)], body, polls, v.next);
      }
    case Unpack(a, b, pair, body) =>
      FuelIsMonotone(fuel, more, env, pair, polls, k);
      var v := Eval(fuel, env, pair, polls, k);
      if v.Done? && v.value.Pair? {
        FuelIsMonotone(fuel, more, env[a := v.value.fst][b := v.value.snd], body, polls, v.next);
      }
  }

  /** The two subterms that a binary node evaluates in order. */
  lemma {:induction false} FuelIsMonotoneForTwo(
    fuel: nat, more: nat, env: Env, node: IrNode, l: IrNode, r: IrNode, polls: Polls, k: nat)
    requires fuel <= more && l < node && r < node
    requires Eval(fuel, env, l, polls, k) != OutOfFuel
    requires var a := Eval(fuel, env, l, polls, k); a.Done? ==> Eval(fuel, env, r, polls, a.next) != OutOfFuel
    ensures Eval(more, env, l, polls, k) == Eval(fuel, env, l, polls, k)
    ensures var a := Eval(fuel, env, l, polls, k);
            a.Done? ==> Eval(more, env, r, polls, a.next) == Eval(fuel, env, r, polls, a.next)
    decreases fuel, node, 0
  {
    FuelIsMonotone(fuel, more, env, l, polls, k);
    var a := Eval(fuel, env, l, polls, k);
    if a.Done? {
      FuelIsMonotone(fuel, more, env, r, polls, a.next);
    }
  }
}

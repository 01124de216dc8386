/**
 The discipline under which a name tag is harmless: every `let rec` binds a lambda written on the
 spot. Without it a closure can be tagged a second time, and its first name stops being put back.
 */
module LetRecForm {
  import opened Ir
  import opened Vm

  predicate BindsLambdas(node: IrNode) {
    match node
    case IntLiteral(_) => true
    case FloatLiteral(_) => true
    case Var(_) => true
    case Binary(_, l, r) => BindsLambdas(l) && BindsLambdas(r)
    case Lambda(_, body) => BindsLambdas(body)
    case App(func, arg) => BindsLambdas(func) && BindsLambdas(arg)
    case Pair(l, r) => BindsLambdas(l) && BindsLambdas(r)
    case Unpack(_, _, pair, body) => BindsLambdas(pair) && BindsLambdas(body)
    case Left(inner) => BindsLambdas(inner)
    case Right(inner) => BindsLambdas(inner)
    case Match(scrutinee, _, lBody, _, rBody) =>
      BindsLambdas(scrutinee) && BindsLambdas(lBody) && BindsLambdas(rBody)
    case Let(_, val, body) => BindsLambdas(val) && BindsLambdas(body)
    case LetRec(_, val, body) => val.Lambda? && BindsLambdas(val) && BindsLambdas(body)
  }

  /** The same of every body held by the closures inside a value. */
  ghost predicate Disciplined(v: Value)
    decreases v
  {
    match v
    case Int(_) => true
    case Float(_) => true
    case Pair(a, b) => Disciplined(a) && Disciplined(b)
    case Left(a) => Disciplined(a)
    case Right(a) => Disciplined(a)
    case Closure(_, body, env, _) => BindsLambdas(body) && forall x | x in env :: Disciplined(env[x])
  }

  ghost predicate DisciplinedEnv(env: Env) {
    forall x | x in env :: Disciplined(env[x])
  }

  /** Values without closures: what a program can print. */
  predicate Ground(v: Value) {
    match v
    case Int(_) => true
    case Float(_) => true
    case Pair(a, b) => Ground(a) && Ground(b)
    case Left(a) => Ground(a)
    case Right(a) => Ground(a)
    case Closure(_, _, _, _) => false
  }

  predicate GroundOutcome(o: Outcome) {
    !o.OutOfFuel? && (o.Done? ==> Ground(o.value))
  }
}

/** The surface syntax of the Autarky language. */
module Ast {
  import opened Machine

  /** A 64-bit float. No operation of the language inspects one, so it is the text it was read from. */
  datatype Float64 = Nearest(text: string)

  datatype Type =
    | Int
    | Float
    | Any
    | Func(dom: Type, cod: Type)
    | Pair(fst: Type, snd: Type)
    | Either(lft: Type, rgt: Type)

  /** The nine two-operand operators, in the order in which the enum lists them. */
  datatype Op = Add | Sub | Mul | Div | Eq | Gt | Lt | Ge | Le {
    predicate Arithmetic() {
      Add? || Sub? || Mul? || Div?
    }
  }

  datatype Expr =
    | IntLiteral(n: Int64)
    | FloatLiteral(f: Float64)
    | Var(name: string)
    | Binary(op: Op, l: Expr, r: Expr)
    | Lambda(param: string, paramType: Type, body: Expr)
    | App(func: Expr, arg: Expr, tailPosition: bool)
    | Pair(fst: Expr, snd: Expr)
    | Unpack(a: string, b: string, pair: Expr, body: Expr)
    | Left(inner: Expr)
    | Right(inner: Expr)
    | Match(scrutinee: Expr, lVar: string, lBody: Expr, rVar: string, rBody: Expr)
    | Let(name: string, val: Expr, body: Expr)
    | LetRec(name: string, val: Expr, body: Expr)
}

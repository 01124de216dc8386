/** The untyped intermediate form and the translation that drops types and tail flags. */
module Ir {
  import opened Machine
  import opened Ast

  datatype IrNode =
    | IntLiteral(n: Int64)
    | FloatLiteral(f: Float64)
    | Var(name: string)
    | Binary(op: Op, l: IrNode, r: IrNode)
    | Lambda(param: string, body: IrNode)
    | App(func: IrNode, arg: IrNode)
    | Pair(fst: IrNode, snd: IrNode)
    | Unpack(a: string, b: string, pair: IrNode, body: IrNode)
    | Left(inner: IrNode)
    | Right(inner: IrNode)
    | Match(scrutinee: IrNode, lVar: string, lBody: IrNode, rVar: string, rBody: IrNode)
    | Let(name: string, val: IrNode, body: IrNode)
    | LetRec(name: string, val: IrNode, body: IrNode)

  function EraseProofs(e: Expr): IrNode {
    match e
    case IntLiteral(n) => IrNode.IntLiteral(n)
    case FloatLiteral(f) => IrNode.FloatLiteral(f)
    case Var(name) => IrNode.Var(name)
    case Binary(op, l, r) => IrNode.Binary(op, EraseProofs(l), EraseProofs(r))
    case Lambda(param, _, body) => IrNode.Lambda(param, EraseProofs(body))
    case App(func, arg, _) => IrNode.App(EraseProofs(func), EraseProofs(arg))
    case Pair(l, r) => IrNode.Pair(EraseProofs(l), EraseProofs(r))
    case Unpack(a, b, pair, body) => IrNode.Unpack(a, b, EraseProofs(pair), EraseProofs(body))
    case Left(inner) => IrNode.Left(EraseProofs(inner))
    case Right(inner) => IrNode.Right(EraseProofs(inner))
    case Match(scrutinee, lVar, lBody, rVar, rBody) =>
      IrNode.Match(EraseProofs(scrutinee), lVar, EraseProofs(lBody), rVar, EraseProofs(rBody))
    case Let(name, val, body) => IrNode.Let(name, EraseProofs(val), EraseProofs(body))
    case LetRec(name, val, body) => IrNode.LetRec(name, EraseProofs(val), EraseProofs(body))
  }
}

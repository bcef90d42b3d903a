/** The syntax tree: expressions and statements as closed sum types. Each
    consumer (interpreter, printer) matches on them exhaustively where the
    source dispatches through `accept` and a visitor. */
module Ast {
  import opened Values
  import opened Tokens

  datatype Expr =
    | Binary(left: Expr, operator: Token, right: Expr)
    | Grouping(expression: Expr)
    | Literal(value: Value)
    | Unary(operator: Token, right: Expr)
    | Variable(name: Token)
    | Assign(name: Token, rhs: Expr)

  datatype Stmt =
    | ExprStmt(expression: Expr)
    | PrintStmt(expression: Expr)
    | VarStmt(name: Token, initializer: Expr)
    | BlockStmt(statements: seq<Stmt>)
}

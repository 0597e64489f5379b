/** The syntax tree the parser builds and the executor walks: every node
    carries its kind and its source span, and a piece of the script the
    parser could not make sense of is an `Error` node holding the
    diagnostic. */
module Ast {
  import opened Locations
  import Tokens
  import opened Reporting

  datatype Operator = Add | Sub | Mul | Div

  datatype Expression = Expression(kind: ExpressionKind, location: Location)

  datatype ExpressionKind =
    | Integer(value: Tokens.I64)
    | Variable(name: string)
    | BinaryOperation(lhs: Expression, operator: Operator, rhs: Expression)
    | Error(message: Message)

  datatype Statement = Statement(kind: StatementKind, location: Location)

  datatype StatementKind =
    | Variable(name: string, value: Expression)
    | Print(value: Expression)
    | Error(message: Message)
}

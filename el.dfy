/** The expression language (el) trees that legacy model definitions are parsed into
    and that entity classes carry as model and decal definitions. Evaluation of these
    trees is not part of this model; they are values that are built and compared. */
module El {

  datatype Value =
    | Undefined
    | StringValue(s: string)
    | NumberValue(n: int)
    | MapValue(entries: map<string, Value>)

  datatype BinaryOperation = Equal | Case

  datatype Expression =
    | Literal(value: Value)
    | Variable(name: string)
    | Switch(cases: seq<Expression>)
    | Binary(op: BinaryOperation, lhs: Expression, rhs: Expression)
    | MapExpression(entries: map<string, Expression>)
}

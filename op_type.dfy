/**
 * The user-defined conversion of examples/math.cpp: how a caller plugs a
 * type of its own (the enum OpType) into the lexical conversion.
 */
module OpTypes {
  import opened Wrappers
  import opened Errors

  datatype OpType = Plus | Sub | Mul | Div

  /** The character that names each operation on the command line. */
  function Symbol(op: OpType): char {
    match op
    case Plus => '+'
    case Sub => '-'
    case Mul => '*'
    case Div => '/'
  }

  /**
   * `lexical_conversion(input, lexical_type<OpType>)`: only the first
   * character is looked at; an empty input and an unknown first character
   * are the two failures.
   */
  function ConvertOp(input: string): (r: Result<OpType, Cause>)
    ensures r == Failure(NoOperation) <==> |input| == 0
    ensures r.Success? <==> |input| > 0 && input[0] in "+-*/"
    ensures r.Success? ==> Symbol(r.value) == input[0]
    ensures |input| > 0 && input[0] !in "+-*/" ==> r == Failure(UnknownOperation)
  {
    if |input| == 0 then Failure(NoOperation)
    else
      match input[0]
      case '+' => Success(Plus)
      case '-' => Success(Sub)
      case '*' => Success(Mul)
      case '/' => Success(Div)
      case _ => Failure(UnknownOperation)
  }

  /** Each operation's symbol converts back to it, whatever follows it. */
  lemma SymbolRoundTrip(op: OpType, rest: string)
    ensures ConvertOp([Symbol(op)] + rest) == Success(op)
  {
  }

  /** No two operations share a symbol, so the conversion loses nothing. */
  lemma SymbolInjective(a: OpType, b: OpType)
    ensures Symbol(a) == Symbol(b) ==> a == b
  {
  }
}

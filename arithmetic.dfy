/** The arithmetic service: a dispatcher over the four binary operations and a
    guarded square root, each returning its result as text or an error. */
module Arithmetic {
  import opened Wrappers
  import opened Models

  /** The two standard-library functions the service calls: rendering a number
      as shortest decimal text (`strconv.FormatFloat(x, 'f', -1, 64)`) and the
      square root (`math.Sqrt`). */
  datatype Numerics = Numerics(formatFloat: real -> string, sqrt: real -> real)

  const DivisionByZero := "division by zero is not allowed"
  const UnsupportedOperation := "unsupported operation"
  const NegativeSquareRoot := "cannot calculate square root of a negative number"

  predicate IsBinary(operation: string)
  {
    operation == Addition || operation == Subtraction || operation == Multiplication || operation == Division
  }

  /** The numeric value the dispatcher computes before rendering it. Each result
      is characterised by the inverse operation rather than by its formula. */
  function Calculate(operation: string, num1: real, num2: real): (r: Result<real, string>)
    ensures r.Err? <==> !IsBinary(operation) || (operation == Division && num2 == 0.0)
    ensures r.Err? ==> r.error == if operation == Division then DivisionByZero else UnsupportedOperation
    ensures operation == Addition ==> r.Ok? && r.value - num2 == num1
    ensures operation == Subtraction ==> r.Ok? && r.value + num2 == num1
    ensures operation == Multiplication ==> r.Ok? && (num2 == 0.0 ==> r.value == 0.0) && (num2 != 0.0 ==> r.value / num2 == num1)
    ensures operation == Division && num2 != 0.0 ==> r.Ok? && r.value * num2 == num1
  {
    if operation == Addition then Ok(num1 + num2)
    else if operation == Subtraction then Ok(num1 - num2)
    else if operation == Multiplication then Ok(num1 * num2)
    else if operation == Division then
      if num2 == 0.0 then Err(DivisionByZero) else Ok(num1 / num2)
    else Err(UnsupportedOperation)
  }

  /** The dispatcher: the computed value rendered as text, or the error. The
      Result type makes a result and an error mutually exclusive, as the
      source's empty result string on every error return does. */
  function PerformArithmeticOperation(operation: string, num1: real, num2: real, numerics: Numerics): (r: Result<string, string>)
    ensures r.Ok? <==> Calculate(operation, num1, num2).Ok?
    ensures r.Ok? ==> r.value == numerics.formatFloat(Calculate(operation, num1, num2).value)
    ensures r.Err? ==> r.error == Calculate(operation, num1, num2).error
  {
    match Calculate(operation, num1, num2)
    case Ok(value) => Ok(numerics.formatFloat(value))
    case Err(e) => Err(e)
  }

  /** A square-root function that is exact on the non-negative reals. */
  ghost predicate ExactRoot(sqrt: real -> real)
  {
    forall x: real :: 0.0 <= x ==> 0.0 <= sqrt(x) && sqrt(x) * sqrt(x) == x
  }

  function Sqrt(num: real, numerics: Numerics): (r: Result<string, string>)
    ensures r.Err? <==> num < 0.0
    ensures r.Err? ==> r.error == NegativeSquareRoot
    ensures r.Ok? ==> r.value == numerics.formatFloat(numerics.sqrt(num))
  {
    if num < 0.0 then Err(NegativeSquareRoot) else Ok(numerics.formatFloat(numerics.sqrt(num)))
  }

  /** With an exact root, a successful square root renders a non-negative
      number whose square is the input. */
  lemma SqrtSquaresBack(num: real, numerics: Numerics)
    requires ExactRoot(numerics.sqrt)
    requires 0.0 <= num
    ensures exists root: real {:trigger numerics.formatFloat(root)} ::
      Sqrt(num, numerics) == Ok(numerics.formatFloat(root)) && 0.0 <= root && root * root == num
  {
    var root := numerics.sqrt(num);
    assert Sqrt(num, numerics) == Ok(numerics.formatFloat(root));
  }

  /** Subtraction undoes addition and division undoes multiplication. */
  lemma InversePairs(a: real, b: real)
    ensures Calculate(Subtraction, Calculate(Addition, a, b).value, b) == Ok(a)
    ensures b != 0.0 ==> Calculate(Division, Calculate(Multiplication, a, b).value, b) == Ok(a)
  {
  }
}

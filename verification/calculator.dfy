/**
 * The arithmetic utility. PHP integers are signed 64-bit; when `+`, `-` or
 * `*` leave that range PHP produces a float, and because the file declares
 * `strict_types=1` returning that float from a function declared `: int`
 * throws a TypeError. The model makes that failure explicit.
 */
module Calculator {
  import opened Wrappers

  const MinInt: int := -0x8000_0000_0000_0000
  const MaxInt: int := 0x7FFF_FFFF_FFFF_FFFF

  /** PHP's `int` (PHP_INT_MIN .. PHP_INT_MAX). */
  type Int64 = x: int | MinInt <= x <= MaxInt

  predicate InRange(x: int)
  {
    MinInt <= x <= MaxInt
  }

  const NegativeFactorialMessage: string := "Factorial of negative number"

  datatype CalcError =
    | InvalidArgument(message: string)  // \InvalidArgumentException
    | DivisionByZero                    // \DivisionByZeroError
    | ReturnTypeError                   // \TypeError: a float returned where `int` is declared

  /** An integer result, or the TypeError PHP raises when it overflowed into a float. */
  function Checked(x: int): Result<Int64, CalcError>
  {
    if InRange(x) then Success(x) else Failure(ReturnTypeError)
  }

  function Sum(a: Int64, b: Int64): (r: Result<Int64, CalcError>)
    ensures r.Success? <==> InRange(a + b)
    ensures r.Success? ==> r.value == a + b
    ensures r.Failure? ==> r.error == ReturnTypeError
  {
    Checked(a + b)
  }

  function Subtract(a: Int64, b: Int64): (r: Result<Int64, CalcError>)
    ensures r.Success? <==> InRange(a - b)
    ensures r.Success? ==> r.value == a - b
    ensures r.Failure? ==> r.error == ReturnTypeError
  {
    Checked(a - b)
  }

  function Multiply(a: Int64, b: Int64): (r: Result<Int64, CalcError>)
    ensures r.Success? <==> InRange(a * b)
    ensures r.Success? ==> r.value == a * b
    ensures r.Failure? ==> r.error == ReturnTypeError
  {
    Checked(a * b)
  }

  /**
   * Division over the reals: an exactly-zero divisor is rejected, any other
   * divisor yields the exact quotient (floating-point rounding is not modelled).
   */
  function Divide(a: real, b: real): (r: Result<real, CalcError>)
    ensures r.Failure? <==> b == 0.0
    ensures r.Failure? ==> r.error == DivisionByZero
    ensures r.Success? ==> r.value * b == a
  {
    if b == 0.0 then Failure(DivisionByZero) else Success(a / b)
  }

  /** The mathematical factorial, the reference the PHP code is measured against. */
  function Fact(n: nat): nat
  {
    if n == 0 then 1 else n * Fact(n - 1)
  }

  /** The largest argument whose factorial fits in a PHP int. */
  const MaxFactorialArg: nat := 20

  /**
   * `factorial($n)`: rejects negative input, returns 1 for 0 and 1, and
   * otherwise multiplies `n` by the recursive result. The recursion
   * terminates because `n` strictly decreases towards 1.
   */
  function Factorial(n: Int64): (r: Result<Int64, CalcError>)
    ensures n < 0 <==> r == Failure(InvalidArgument(NegativeFactorialMessage))
    ensures r.Success? <==> 0 <= n <= MaxFactorialArg
    ensures r.Success? ==> r.value == Fact(n)
    ensures n > MaxFactorialArg ==> r == Failure(ReturnTypeError)
    decreases if n < 0 then 0 else n
  {
    if n < 0 then
      Failure(InvalidArgument(NegativeFactorialMessage))
    else if n == 0 || n == 1 then
      Success(1)
    else
      var f :- Factorial(n - 1);
      FactBounds(n);
      Checked(n * f)
  }

  /** Fact(20) fits in a PHP int, Fact(21) does not, and Fact grows from there on. */
  lemma FactBounds(n: nat)
    ensures n <= MaxFactorialArg ==> Fact(n) <= MaxInt
    ensures n > MaxFactorialArg ==> n * Fact(n - 1) > MaxInt
  {
    FactValues();
    if n > MaxFactorialArg {
      FactGrows(n - 1);
    } else if n < MaxFactorialArg {
      FactMonotone(n, MaxFactorialArg);
    }
  }

  lemma FactValues()
    ensures Fact(20) == 2432902008176640000
    ensures 21 * Fact(20) > MaxInt
  {
    assert Fact(5) == 120;
    assert Fact(10) == 3628800;
    assert Fact(15) == 1307674368000;
  }

  lemma {:induction false} FactMonotone(m: nat, n: nat)
    requires m <= n
    ensures Fact(m) <= Fact(n)
  {
    if m < n {
      FactMonotone(m, n - 1);
      var prev := Fact(n - 1);
      assert Fact(n) == prev + (n - 1) * prev;
    }
  }

  /** Beyond 20, n * Fact(n) keeps exceeding the PHP int range. */
  lemma {:induction false} FactGrows(n: nat)
    requires n >= MaxFactorialArg
    ensures (n + 1) * Fact(n) > MaxInt
  {
    FactValues();
    FactMonotone(MaxFactorialArg, n);
  }

  /** The recursive step of `factorial`, stated on the PHP-level function. */
  lemma FactorialStep(n: Int64)
    requires 2 <= n <= MaxFactorialArg
    ensures Factorial(n - 1).Success?
    ensures Factorial(n) == Success(n * Factorial(n - 1).value)
  {
  }

  /** Every factorial that is returned is at least 1. */
  lemma FactorialAtLeastOne(n: Int64)
    requires 0 <= n <= MaxFactorialArg
    ensures Factorial(n).Success? && Factorial(n).value >= 1
  {
  }

  /** Adding then subtracting the same operand gives back the original. */
  lemma SumSubtractInverse(a: Int64, b: Int64)
    requires Sum(a, b).Success?
    ensures Subtract(Sum(a, b).value, b) == Success(a)
  {
  }

  lemma SumAndMultiplyCommute(a: Int64, b: Int64)
    ensures Sum(a, b) == Sum(b, a)
    ensures Multiply(a, b) == Multiply(b, a)
  {
  }

  /** The values the unit tests expect, plus the overflow edge. */
  lemma CalculatorExamples()
    ensures Sum(2, 3) == Success(5) && Sum(-2, -3) == Success(-5)
    ensures Sum(10, -5) == Success(5) && Sum(5, 0) == Success(5)
    ensures Subtract(10, 3) == Success(7)
    ensures Multiply(4, 5) == Success(20)
    ensures Divide(10.0, 2.0) == Success(5.0)
    ensures Divide(10.0, 0.0) == Failure(DivisionByZero)
    ensures Factorial(0) == Success(1) && Factorial(1) == Success(1)
    ensures Factorial(3) == Success(6) && Factorial(5) == Success(120)
    ensures Factorial(-1) == Failure(InvalidArgument(NegativeFactorialMessage))
    ensures Sum(MaxInt, 1) == Failure(ReturnTypeError)
    ensures Factorial(21) == Failure(ReturnTypeError)
  {
  }
}

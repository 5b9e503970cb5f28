/** The example calculator handed to the agent: a `Calculator` object with a history of the
    operations it performed, and the helper functions `factorial`, `fibonacci` and `is_prime`. */
module Calculator {
  import opened Wrappers

  /** The two exceptions the module raises, with their messages. */
  datatype CalcError = ZeroDivisionError(msg: string) | ValueError(msg: string)

  const DivideByZero := "Cannot divide by zero"
  const NegativeExponent := "Exponent must be non-negative"
  const NegativeFactorial := "Factorial is not defined for negative numbers"
  const NegativeFibonacci := "Fibonacci is not defined for negative indices"

  // ---------------------------------------------------------------- arithmetic

  datatype Op = Plus | Minus | Times | Over

  /** The value of a binary operation; division needs a non-zero divisor. */
  function Apply(op: Op, a: real, b: real): real
    requires op == Over ==> b != 0.0
  {
    match op
    case Plus => a + b
    case Minus => a - b
    case Times => a * b
    case Over => a / b
  }

  /** `base ** exponent` for a non-negative integer exponent (`0 ** 0` is 1, as in Python). */
  function Pow(base: real, exponent: nat): real {
    if exponent == 0 then 1.0 else base * Pow(base, exponent - 1)
  }

  // ---------------------------------------------------------------- the history

  /** One line of the history: the operation, its operands and the result it returned. The
      source keeps these as formatted strings such as "2 + 3 = 5". */
  datatype Entry =
    | Arith(op: Op, a: real, b: real, result: real)
    | Raised(base: real, exponent: nat, result: real)

  /** An entry records the value the operation actually computed. */
  predicate Correct(e: Entry) {
    match e
    case Arith(op, a, b, result) => (op == Over ==> b != 0.0) && result == Apply(op, a, b)
    case Raised(base, exponent, result) => result == Pow(base, exponent)
  }

  class Calculator {
    var history: seq<Entry>

    /** Every recorded line is arithmetically right. */
    predicate Valid()
      reads this
    {
      forall i :: 0 <= i < |history| ==> Correct(history[i])
    }

    constructor ()
      ensures history == [] && Valid()
    {
      history := [];
    }

    method Add(a: real, b: real) returns (r: real)
      requires Valid()
      modifies this
      ensures r == a + b
      ensures history == old(history) + [Arith(Plus, a, b, r)] && Valid()
    {
      r := a + b;
      history := history + [Arith(Plus, a, b, r)];
    }

    method Subtract(a: real, b: real) returns (r: real)
      requires Valid()
      modifies this
      ensures r == a - b
      ensures history == old(history) + [Arith(Minus, a, b, r)] && Valid()
    {
      r := a - b;
      history := history + [Arith(Minus, a, b, r)];
    }

    method Multiply(a: real, b: real) returns (r: real)
      requires Valid()
      modifies this
      ensures r == a * b
      ensures history == old(history) + [Arith(Times, a, b, r)] && Valid()
    {
      r := a * b;
      history := history + [Arith(Times, a, b, r)];
    }

    /** Division by zero raises before anything is recorded. */
    method Divide(a: real, b: real) returns (r: Result<real, CalcError>)
      requires Valid()
      modifies this
      ensures b == 0.0 <==> r.Failure?
      ensures r.Failure? ==> r.error == ZeroDivisionError(DivideByZero) && history == old(history)
      ensures r.Success? ==> r.value * b == a && history == old(history) + [Arith(Over, a, b, r.value)]
      ensures Valid()
    {
      if b == 0.0 {
        return Failure(ZeroDivisionError(DivideByZero));
      }
      var q := a / b;
      history := history + [Arith(Over, a, b, q)];
      r := Success(q);
    }

    /** A negative exponent raises before anything is recorded. */
    method Power(base: real, exponent: int) returns (r: Result<real, CalcError>)
      requires Valid()
      modifies this
      ensures exponent < 0 <==> r.Failure?
      ensures r.Failure? ==> r.error == ValueError(NegativeExponent) && history == old(history)
      ensures r.Success? ==> r.value == Pow(base, exponent) && history == old(history) + [Raised(base, exponent, r.value)]
      ensures Valid()
    {
      if exponent < 0 {
        return Failure(ValueError(NegativeExponent));
      }
      var p := Pow(base, exponent);
      history := history + [Raised(base, exponent, p)];
      r := Success(p);
    }

    /** A copy of the history; the calculator itself is left alone. */
    method GetHistory() returns (h: seq<Entry>)
      requires Valid()
      ensures h == history
      ensures forall i :: 0 <= i < |h| ==> Correct(h[i])
    {
      h := history;
    }

    method ClearHistory()
      modifies this
      ensures history == [] && Valid()
    {
      history := [];
    }
  }

  // ---------------------------------------------------------------- factorial

  /** lo * (lo + 1) * ... * hi, the empty product being 1. */
  function Product(lo: int, hi: int): int
    decreases hi - lo
  {
    if lo > hi then 1 else lo * Product(lo + 1, hi)
  }

  /** Extending the product by one factor on the right. */
  lemma {:induction false} ProductStep(lo: int, hi: int)
    requires lo <= hi + 1
    ensures Product(lo, hi + 1) == Product(lo, hi) * (hi + 1)
    decreases hi - lo
  {
    if lo <= hi {
      ProductStep(lo + 1, hi);
    }
  }

  /** `factorial` raises on negative input and otherwise equals n! = 1 * 2 * ... * n. */
  function Factorial(n: int): (r: Result<nat, CalcError>)
    ensures n < 0 <==> r.Failure?
    ensures r.Failure? ==> r.error == ValueError(NegativeFactorial)
    ensures r.Success? ==> r.value == Product(1, n) && r.value >= 1
    decreases if n < 0 then 0 else n
  {
    if n < 0 then Failure(ValueError(NegativeFactorial))
    else if n <= 1 then Success(1)
    else
      var prev := Factorial(n - 1);
      ProductStep(1, n - 1);
      Success(n * prev.value)
  }

  // ---------------------------------------------------------------- fibonacci

  /** The recursive definition the loop computes. */
  function Fib(n: nat): nat {
    if n <= 1 then n else Fib(n - 1) + Fib(n - 2)
  }

  /** `fibonacci` walks the pair (fib(i-2), fib(i-1)) up to n. */
  method Fibonacci(n: int) returns (r: Result<nat, CalcError>)
    ensures n < 0 <==> r.Failure?
    ensures r.Failure? ==> r.error == ValueError(NegativeFibonacci)
    ensures r.Success? ==> r.value == Fib(n)
  {
    if n < 0 {
      return Failure(ValueError(NegativeFibonacci));
    }
    if n <= 1 {
      return Success(n);
    }
    var a: nat, b: nat := 0, 1;
    for i := 2 to n + 1
      invariant a == Fib(i - 2) && b == Fib(i - 1)
    {
      a, b := b, a + b;
    }
    r := Success(b);
  }

  // ---------------------------------------------------------------- is_prime

  /** n is prime: at least 2 and without a divisor strictly between 1 and n. */
  predicate Prime(n: int) {
    n >= 2 && forall d :: 2 <= d < n ==> n % d != 0
  }

  /** Multiplication of non-negative numbers is monotone in both factors. */
  lemma MulMono(a: int, b: int, c: int, e: int)
    requires 0 <= a <= c && 0 <= b <= e
    ensures a * b <= c * e
  {
    assert c * b - a * b == (c - a) * b;
    assert c * e - c * b == c * (e - b);
  }

  /** An even number never divides an odd one: the remainder keeps the parity of n. */
  lemma EvenDoesNotDivideOdd(n: int, d: int)
    requires n % 2 == 1 && d > 0 && d % 2 == 0
    ensures n % d != 0
  {
    var q, r, k := n / d, n % d, d / 2;
    assert d == 2 * k;
    assert n == d * q + r;
    assert d * q == 2 * (k * q);
    assert r % 2 == 1;
  }

  /** The sign of a product with a positive factor is the sign of the other factor. */
  lemma MulSign(q: int, e: int)
    requires q > 0
    ensures e >= 1 ==> q * e >= q
    ensures e <= -1 ==> q * e <= -q
    ensures e == 0 ==> q * e == 0
  {
    if e >= 1 {
      MulMono(q, 1, q, e);
    } else if e <= -1 {
      MulMono(q, 1, q, -e);
      assert q * -e == -(q * e);
    }
  }

  /** A multiple of q leaves no remainder modulo q. */
  lemma ModOfMultiple(q: int, d: int)
    requires q > 0
    ensures (q * d) % q == 0
  {
    var m := q * d;
    var t, r := m / q, m % q;
    assert m == q * t + r;
    assert q * (d - t) == r by {
      assert q * d - q * t == q * (d - t);
    }
    MulSign(q, d - t);
  }

  /** A divisor d of n with i <= d pairs with the cofactor n / d, which lies in [2, i) once
      i * i exceeds n. */
  lemma CofactorBelowRoot(n: int, d: int, i: int)
    requires 2 <= i <= d < n && i * i > n
    ensures n % d == 0 ==> 2 <= n / d < i && n % (n / d) == 0
  {
    if n % d == 0 {
      var q := n / d;
      assert n == d * q;
      MulSign(d, q);
      assert q >= 2;
      if q >= i {
        MulMono(i, i, d, q);
      }
      assert q < i;
      ModOfMultiple(q, d);
      assert n == q * d;
    }
  }

  /** Trial division may stop at the first i whose square exceeds n. */
  lemma NoDivisorBelowRoot(n: int, i: int)
    requires n >= 2 && i >= 2 && i * i > n
    requires forall d :: 2 <= d < i ==> n % d != 0
    ensures Prime(n)
  {
    forall d | 2 <= d < n && i <= d
      ensures n % d != 0
    {
      CofactorBelowRoot(n, d, i);
    }
  }

  /** A candidate whose square stays within n is a proper divisor candidate. */
  lemma SquareBelow(n: int, i: int)
    requires 3 <= i && i * i <= n
    ensures i < n
  {
    MulMono(3, i, i, i);
  }

  /** An odd n with no divisor below the odd candidate i, which does not divide it, has none
      below the next odd candidate either. */
  lemma TrialStep(n: int, i: int)
    requires n % 2 == 1 && 3 <= i && i % 2 == 1 && n % i != 0
    requires forall d :: 2 <= d < i ==> n % d != 0
    ensures forall d :: 2 <= d < i + 2 ==> n % d != 0
  {
    EvenDoesNotDivideOdd(n, i + 1);
  }

  /** `is_prime` rules out n < 2 and the even numbers, then tries the odd divisors from 3
      while their square stays within n. */
  method IsPrime(n: int) returns (p: bool)
    ensures p <==> Prime(n)
  {
    if n < 2 {
      return false;
    }
    if n == 2 {
      return true;
    }
    if n % 2 == 0 {
      assert n % 2 == 0 && 2 < n;
      return false;
    }
    var i := 3;
    while i * i <= n
      invariant 3 <= i && i % 2 == 1
      invariant forall d :: 2 <= d < i ==> n % d != 0
      decreases n - i
    {
      SquareBelow(n, i);
      if n % i == 0 {
        return false;
      }
      TrialStep(n, i);
      i := i + 2;
    }
    NoDivisorBelowRoot(n, i);
    p := true;
  }
}

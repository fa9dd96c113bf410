/** fib of the timing lab: the naive doubly recursive Fibonacci function,
    with Java's int addition. */
module StopwatchDemo {
  import opened JavaInt

  /** fib: 0 below zero, 1 at one, and otherwise the sum of the two
      previous values; fib(0) is fib(-1) + fib(-2) = 0. The sum wraps like
      an int. */
  function Fib(n: int): (r: int)
    ensures InInt(r)
    decreases n
  {
    if n < 0 then 0 else if n == 1 then 1 else Wrap32(Fib(n - 1) + Fib(n - 2))
  }

  /** The Fibonacci numbers 0, 1, 1, 2, 3, 5, ... */
  function Fibonacci(n: nat): nat
  {
    if n < 2 then n else Fibonacci(n - 1) + Fibonacci(n - 2)
  }

  /** fib is the Fibonacci sequence wrapped to 32 bits. */
  lemma {:induction false} FibIsFibonacci(n: nat)
    ensures Fib(n) == Wrap32(Fibonacci(n))
  {
    if n >= 2 {
      FibIsFibonacci(n - 1);
      FibIsFibonacci(n - 2);
      FibStep(n);
    }
  }

  /** One step of the induction: wrapping each summand first does not
      change the wrapped sum. */
  lemma FibStep(n: nat)
    requires n >= 2
    requires Fib(n - 1) == Wrap32(Fibonacci(n - 1)) && Fib(n - 2) == Wrap32(Fibonacci(n - 2))
    ensures Fib(n) == Wrap32(Fibonacci(n))
  {
    Wrap32Add(Fibonacci(n - 1), Fibonacci(n - 2));
  }

  /** While the Fibonacci numbers fit in an int (up to fib(46)) fib is
      exactly the Fibonacci sequence. */
  lemma FibExact(n: nat)
    requires InInt(Fibonacci(n))
    ensures Fib(n) == Fibonacci(n)
  {
    FibIsFibonacci(n);
  }

  /** The base cases: fib is 0 for every negative argument, fib(0) is 0
      and fib(1) is 1. */
  lemma FibBaseCases(n: int)
    requires n < 0
    ensures Fib(n) == 0 && Fib(0) == 0 && Fib(1) == 1
  {
  }
}

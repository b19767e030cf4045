/**
 * The doubly recursive Fibonacci function of spec/fixtures/08.rb.
 *
 * The argument is any integer (Ruby integers are unbounded, as are
 * Dafny's): up to 1 the argument itself is returned, negative values
 * included; from 2 on the result is the sum of the two previous values.
 */
module Fibonacci {

  /** fibonacci(n). Every recursive call is made with `n >= 2` and lowers `n`, so it terminates. */
  function Fib(n: int): (r: int)
    decreases n
    ensures n <= 1 ==> r == n
    ensures 0 <= n ==> 0 <= r
  {
    if n <= 1 then n else Fib(n - 1) + Fib(n - 2)
  }

  /** An independent reference: the pair (F(n), F(n + 1)) of the sequence seeded 0, 1, built by a single pass. */
  function FibPair(n: nat): (p: (int, int)) {
    if n == 0 then (0, 1) else var (x, y) := FibPair(n - 1); (y, x + y)
  }

  /** On the natural numbers `Fib` is the Fibonacci sequence with F(0) = 0 and F(1) = 1. */
  lemma {:induction false} FibMatchesSequence(n: nat)
    ensures FibPair(n) == (Fib(n), Fib(n + 1))
  {
    if n > 0 {
      FibMatchesSequence(n - 1);
      assert FibPair(n - 1) == (Fib(n - 1), Fib(n));
      assert Fib(n + 1) == Fib(n) + Fib(n - 1);
    }
  }

  /** From 0 on the values never decrease. */
  lemma {:induction false} FibMonotone(m: int, n: int)
    requires 0 <= m <= n
    ensures Fib(m) <= Fib(n)
    decreases n - m
  {
    if m < n {
      FibMonotone(m, n - 1);
      if n >= 2 {
        assert Fib(n) == Fib(n - 1) + Fib(n - 2);
      }
    }
  }

  /** The sample call. */
  lemma FibTen()
    ensures Fib(10) == 55
  {
    FibMatchesSequence(10);
  }
}

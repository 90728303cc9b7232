/** `modern_python_demo/cache.py`: `fib` and the memo table `lru_cache`
    keeps for it. */
module Cache {

  /** `fib(n)`: `n` itself below 2, negatives included, and the sum of the
      two previous values from 2 on. */
  function Fib(n: int): (r: int)
    decreases if n < 2 then 0 else n
  {
    if n < 2 then n else Fib(n - 1) + Fib(n - 2)
  }

  /** The base cases: every `n < 2` is its own value. */
  lemma FibBelowTwo(n: int)
    requires n < 2
    ensures Fib(n) == n
  {
  }

  /** The recurrence, from 2 on. */
  lemma FibRecurrence(n: int)
    requires n >= 2
    ensures Fib(n) == Fib(n - 1) + Fib(n - 2)
  {
  }

  /** The base cases and the recurrence pin `fib` down: any function that
      satisfies both agrees with it everywhere. */
  lemma {:induction false} FibUnique(g: int -> int, n: int)
    requires forall k :: k < 2 ==> g(k) == k
    requires forall k :: k >= 2 ==> g(k) == g(k - 1) + g(k - 2)
    ensures g(n) == Fib(n)
    decreases if n < 2 then 0 else n
  {
    if n >= 2 {
      FibUnique(g, n - 1);
      FibUnique(g, n - 2);
    }
  }

  /** `fib(0) == 0`, `fib(1) == 1`, `fib(5) == 5`. */
  lemma FibExamples()
    ensures Fib(0) == 0 && Fib(1) == 1 && Fib(5) == 5
  {
    assert Fib(2) == 1;
    assert Fib(3) == 2;
    assert Fib(4) == 3;
  }

  /** No natural number has a negative value. */
  lemma {:induction false} FibNonNegative(n: int)
    requires n >= 0
    ensures Fib(n) >= 0
    decreases n
  {
    if n >= 2 {
      FibNonNegative(n - 1);
      FibNonNegative(n - 2);
    }
  }

  /** From 1 on the values never decrease. */
  lemma {:induction false} FibMonotone(m: int, n: int)
    requires 1 <= m <= n
    ensures Fib(m) <= Fib(n)
    decreases n - m
  {
    if m < n {
      FibMonotone(m, n - 1);
      FibNonNegative(n - 2);
    }
  }

  /** A memo table: every entry holds the value of `fib` at its key. */
  predicate FibTable(table: map<int, int>) {
    forall k :: k in table ==> table[k] == Fib(k)
  }

  /** The memoised call: a hit answers from the table; a miss computes the
      value from the (memoised) recursive calls and stores it. The table
      threads through the calls in the order Python makes them. */
  function MemoFib(n: int, table: map<int, int>): (res: (int, map<int, int>))
    requires FibTable(table)
    ensures res.0 == Fib(n)
    ensures FibTable(res.1) && table.Keys <= res.1.Keys && n in res.1
    decreases if n < 2 then 0 else n
  {
    if n in table then (table[n], table)
    else if n < 2 then (n, table[n := n])
    else
      var (a, t1) := MemoFib(n - 1, table);
      var (b, t2) := MemoFib(n - 2, t1);
      (a + b, t2[n := a + b])
  }

  /** With recursion depth unbounded, a fresh cache gives the plain
      recursion's value. (In CPython a deep cold call can instead raise
      `RecursionError`; that is not modelled.) */
  lemma MemoFibFromEmpty(n: int)
    ensures FibTable(map[])
    ensures MemoFib(n, map[]).0 == Fib(n)
  {
  }

  /** A second call with the table the first one left is a hit and leaves
      the table as it is. */
  lemma MemoFibHit(n: int, table: map<int, int>)
    requires FibTable(table)
    ensures var t := MemoFib(n, table).1; MemoFib(n, t) == (Fib(n), t)
  {
  }
}

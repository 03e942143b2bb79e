/** Fibonacci numbers, plain and memoised (python/algorithms/fibonacci.py). */
module Fibonacci {

  /** `fibonacci_basic`: n itself for n <= 1 (negative inputs included), else the sum of the two predecessors. */
  function Fib(n: int): int
    decreases if n < 0 then 0 else n
  {
    if n <= 1 then n else Fib(n - 1) + Fib(n - 2)
  }

  /** Every cached entry holds the Fibonacci number of its key. */
  ghost predicate CacheCorrect(memory: map<int, int>)
  {
    forall m | m in memory :: memory[m] == Fib(m)
  }

  /**
   * A cache that holds both predecessors of every key from 2 up, as every cache the memoised
   * recursion fills from an empty one does.
   */
  ghost predicate Closed(memory: map<int, int>)
  {
    forall j | j in memory && j >= 2 :: j - 1 in memory && j - 2 in memory
  }

  /**
   * `fibonacci_memoization` with the caller's dictionary: `memory` is the dictionary on entry and
   * `memo` the same dictionary on return (the source mutates it in place).
   */
  method FibMemo(n: int, memory: map<int, int>) returns (result: int, memo: map<int, int>)
    requires CacheCorrect(memory)
    ensures result == Fib(n)
    ensures CacheCorrect(memo)
    ensures n in memo && memo[n] == result
    ensures forall m | m in memory :: m in memo && memo[m] == memory[m]
    ensures n in memory ==> memo == memory
    ensures forall m | m in memo && m !in memory :: m == n || 0 <= m < n
    ensures Closed(memory) ==> Closed(memo)
    decreases if n < 0 then 0 else n
  {
    if n in memory {
      return memory[n], memory;
    }
    memo := memory;
    if n <= 1 {
      result := n;
    } else {
      var a, b;
      a, memo := FibMemo(n - 1, memo);
      b, memo := FibMemo(n - 2, memo);
      result := a + b;
    }
    memo := memo[n := result];
  }

  /** A closed cache holding some n >= 2 holds every key from 0 to n. */
  lemma {:induction false} ClosedCovers(memory: map<int, int>, n: int)
    requires Closed(memory) && n in memory && n >= 2
    ensures forall j | 0 <= j <= n :: j in memory
    decreases n
  {
    if n > 2 {
      ClosedCovers(memory, n - 1);
    }
  }

  /** The docstring's cache: `fibonacci_memoization(5, {})` returns 5 and leaves the six keys 0 to 5. */
  method CacheExample() returns (result: int, memo: map<int, int>)
    ensures result == 5
    ensures memo.Keys == {0, 1, 2, 3, 4, 5} && |memo| == 6
    ensures memo[0] == 0 && memo[1] == 1 && memo[5] == 5
  {
    assert Closed(map[]);
    result, memo := FibMemo(5, map[]);
    ClosedCovers(memo, 5);
    SixKeys(memo);
    assert Fib(2) == 1 && Fib(3) == 2 && Fib(4) == 3;
  }

  /** A cache holding exactly the keys 0..5 has six entries. */
  lemma SixKeys(memo: map<int, int>)
    requires forall j | 0 <= j <= 5 :: j in memo
    requires forall j | j in memo :: 0 <= j <= 5
    ensures memo.Keys == {0, 1, 2, 3, 4, 5} && |memo| == 6
  {
    forall j | j in memo
      ensures j in {0, 1, 2, 3, 4, 5}
    {
      assert j == 0 || j == 1 || j == 2 || j == 3 || j == 4 || j == 5;
    }
    assert memo.Keys == {0, 1, 2, 3, 4, 5};
  }

  /** A warm call: after `fibonacci_memoization(10, cache)`, asking for 8 returns 21 and adds nothing. */
  method WarmCall() returns (first: map<int, int>, result: int, second: map<int, int>)
    ensures result == 21
    ensures second == first
  {
    var tenth;
    assert Closed(map[]);
    tenth, first := FibMemo(10, map[]);
    ClosedCovers(first, 10);
    result, second := FibMemo(8, first);
    assert Fib(2) == 1 && Fib(3) == 2 && Fib(4) == 3 && Fib(5) == 5 && Fib(6) == 8 && Fib(7) == 13;
  }

  /** The value the tests pin down; every step is the two-predecessor recurrence. */
  lemma FibTwenty()
    ensures Fib(20) == 6765
  {
    assert Fib(2) == 1;
    assert Fib(3) == 2;
    assert Fib(4) == 3;
    assert Fib(5) == 5;
    assert Fib(6) == 8;
    assert Fib(7) == 13;
    assert Fib(8) == 21;
    assert Fib(9) == 34;
    assert Fib(10) == 55;
    assert Fib(11) == 89;
    assert Fib(12) == 144;
    assert Fib(13) == 233;
    assert Fib(14) == 377;
    assert Fib(15) == 610;
    assert Fib(16) == 987;
    assert Fib(17) == 1597;
    assert Fib(18) == 2584;
    assert Fib(19) == 4181;
  }
}

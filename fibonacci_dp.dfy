/** The DP tracer: the table dp[0 .. n] of Fibonacci numbers, filled bottom-up. */
module FibonacciDp {

  /** The Fibonacci numbers 0, 1, 1, 2, 3, 5, 8, ... */
  function Fib(i: nat): nat
  {
    if i < 2 then i else Fib(i - 1) + Fib(i - 2)
  }

  /** Fills dp[0 .. n] and reports dp[n]. The returned table is the sequence of
      printed cells "dp[i] = ..."; result is the printed "Fibonacci(n) = ..." value. */
  method FillTable(n: nat) returns (table: seq<int>, result: int)
    ensures |table| == n + 1
    ensures forall i :: 0 <= i <= n ==> table[i] == Fib(i)
    ensures result == Fib(n)
  {
    var dp := new int[n + 1](_ => 0);
    dp[0] := 0;
    if n >= 1 {
      dp[1] := 1;
    }
    var i := 2;
    while i <= n
      invariant 2 <= i <= n + 2
      invariant n >= 1 ==> i <= n + 1
      invariant forall k :: 0 <= k < i && k <= n ==> dp[k] == Fib(k)
    {
      dp[i] := dp[i - 1] + dp[i - 2];
      i := i + 1;
    }
    table := dp[..];
    result := dp[n];
  }

  /** The table grows: every entry from index 1 on is at least the one before. */
  lemma {:induction false} FibMonotone(i: nat, j: nat)
    requires i <= j
    ensures Fib(i) <= Fib(j)
  {
    if i < j {
      FibMonotone(i, j - 1);
      assert Fib(j - 1) <= Fib(j);
    }
  }

  /** With the program's 32-bit int, dp[n] is exact up to n = 46; Fib(47) no longer fits. */
  lemma FibFitsInt32(n: nat)
    requires n <= 46
    ensures Fib(n) <= 0x7fff_ffff
    ensures Fib(47) > 0x7fff_ffff
  {
    assert Fib(9) == 34 && Fib(10) == 55;
    assert Fib(17) == 1597 && Fib(18) == 2584;
    assert Fib(25) == 75025 && Fib(26) == 121393;
    assert Fib(33) == 3524578 && Fib(34) == 5702887;
    assert Fib(40) == 102334155 && Fib(41) == 165580141;
    assert Fib(46) == 1836311903 && Fib(47) == 2971215073;
    FibMonotone(n, 46);
  }

  /** n = 5 fills 0, 1, 1, 2, 3, 5 and reports Fibonacci(5) = 5. */
  lemma ScenarioFive()
    ensures [Fib(0), Fib(1), Fib(2), Fib(3), Fib(4), Fib(5)] == [0, 1, 1, 2, 3, 5]
  {
  }

  /** Running the tracer with n = 5 prints the cells 0 1 1 2 3 5 and reports 5. */
  method RunFive() returns (table: seq<int>, result: int)
    ensures table == [0, 1, 1, 2, 3, 5] && result == 5
  {
    table, result := FillTable(5);
    ScenarioFive();
    assert table[0] == Fib(0) && table[1] == Fib(1) && table[2] == Fib(2);
    assert table[3] == Fib(3) && table[4] == Fib(4) && table[5] == Fib(5);
  }
}

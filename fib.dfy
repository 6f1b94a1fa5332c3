/** Six ways of computing Fibonacci numbers: plain recursion, recursion with a memo
    table, recursion in the other order, iteration, and iteration that yields every
    number along the way. */
module Fib {

  /** `fib2`, the plain recursion, and the reference every other variant is proved
      against. Below 2 it returns its argument, negative ones included. */
  function Fib2(n: int): (r: int)
    ensures n < 2 ==> r == n
    ensures n >= 0 ==> r >= 0
    decreases n
  {
    if n < 2 then n else Fib2(n - 1) + Fib2(n - 2)
  }

  /** `fib4`: the same recursion with its two calls in the other order (the cache that
      decorates it changes only its speed). */
  function Fib4(n: int): (r: int)
    decreases n
  {
    if n < 2 then n else Fib4(n - 2) + Fib4(n - 1)
  }

  lemma {:induction false} Fib4Agrees(n: int)
    ensures Fib4(n) == Fib2(n)
    decreases n
  {
    if n >= 2 {
      Fib4Agrees(n - 1);
      Fib4Agrees(n - 2);
    }
  }

  /** `fib3`'s module-level memo table, `{0: 0, 1: 1}` at the start. */
  class FibMemo {
    var memo: map<int, int>

    /** Every entry is right, and the entries are 0, 1, ... up to some number. */
    ghost predicate Valid()
      reads this
    {
      && 0 in memo && 1 in memo
      && (forall k :: k in memo ==> k >= 0 && memo[k] == Fib2(k))
      && (forall k, j :: k in memo && 0 <= j <= k ==> j in memo)
    }

    constructor ()
      ensures Valid() && memo == map[0 := 0, 1 := 1]
    {
      memo := map[0 := 0, 1 := 1];
    }

    /** `fib3`: looks `n` up, filling in the missing entries below it first. A negative
        `n` is never in the table and recurses without end, so it is excluded. */
    method Fib3(n: int) returns (r: int)
      requires Valid() && n >= 0
      modifies this
      ensures Valid()
      ensures r == Fib2(n)
      ensures forall k :: 0 <= k <= n ==> k in memo
      ensures forall k :: k in old(memo) ==> k in memo
      ensures forall k :: k in memo ==> k in old(memo) || 0 <= k <= n
      decreases n
    {
      if n !in memo {
        var a := Fib3(n - 1);
        var b := Fib3(n - 2);
        memo := memo[n := a + b];
      }
      return memo[n];
    }
  }

  /** `fib5`: iterates, keeping the last two numbers. Returns 0 for 0 and, as the loop
      does not run, 1 for every negative `n`. */
  method Fib5(n: int) returns (r: int)
    ensures n >= 0 ==> r == Fib2(n)
    ensures n < 0 ==> r == 1
  {
    if n == 0 {
      return n;
    }
    var last, next := 0, 1;
    var i := 1;
    while i < n
      invariant n >= 1 ==> 1 <= i <= n
      invariant n < 1 ==> i == 1
      invariant last == Fib2(i - 1) && next == Fib2(i)
    {
      last, next := next, last + next;
      i := i + 1;
    }
    return next;
  }

  /** `fib6`, the generator, as the sequence of what it yields: `[0]` for 0, the numbers
      `fib(1)` to `fib(n)` for a positive `n`, nothing for a negative one. */
  method Fib6(n: int) returns (yielded: seq<int>)
    ensures n == 0 ==> yielded == [0]
    ensures n < 0 ==> yielded == []
    ensures n > 0 ==> |yielded| == n && forall i :: 0 <= i < n ==> yielded[i] == Fib2(i + 1)
  {
    yielded := [];
    if n == 0 {
      yielded := yielded + [0];
    }
    if n > 0 {
      yielded := yielded + [1];
    }
    var last, next := 0, 1;
    var i := 1;
    while i < n
      invariant n >= 1 ==> 1 <= i <= n
      invariant n < 1 ==> i == 1
      invariant last == Fib2(i - 1) && next == Fib2(i)
      invariant n > 0 ==> |yielded| == i && forall k :: 0 <= k < i ==> yielded[k] == Fib2(k + 1)
      invariant n <= 0 ==> yielded == (if n == 0 then [0] else [])
    {
      last, next := next, last + next;
      yielded := yielded + [next];
      i := i + 1;
    }
  }
}

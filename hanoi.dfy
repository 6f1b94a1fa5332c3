/** The towers of Hanoi on three stacks: the top `n` discs of one tower are moved to
    another, one disc at a time, using the third as a way station. The towers are the
    last-in first-out stacks of the generic search module, which behave the same. */
module Hanoi {
  import GenericSearch
  import opened PythonInt

  /** The number of single moves `hanoi` makes for `n` discs: one for a single disc,
      and for more, twice the moves for `n - 1` discs plus one. */
  function Moves(n: int): (m: nat)
    requires n >= 1
    ensures m >= n
    decreases n
  {
    if n == 1 then 1 else 2 * Moves(n - 1) + 1
  }

  /** The closed form: `2^n - 1` moves. */
  lemma {:induction false} MovesClosedForm(n: int)
    requires n >= 1
    ensures Moves(n) == Pow2(n) - 1
    decreases n
  {
    if n > 1 {
      MovesClosedForm(n - 1);
    }
  }

  /** `hanoi`: moves the top `n` items of `begin` onto `end`, keeping their order, with
      `temp` back as it was afterwards; `moves` counts the single moves. The only base
      case is `n == 1`, so `n` must be at least 1, and `begin` must hold `n` items. */
  method Hanoi(begin: GenericSearch.Stack<int>, end: GenericSearch.Stack<int>, temp: GenericSearch.Stack<int>, n: int)
    returns (ghost moves: nat)
    requires n >= 1 && |begin.items| >= n
    requires begin != end && begin != temp && end != temp
    modifies begin, end, temp
    ensures begin.items == old(begin.items)[..|old(begin.items)| - n]
    ensures end.items == old(end.items) + old(begin.items)[|old(begin.items)| - n..]
    ensures temp.items == old(temp.items)
    ensures |begin.items| + |end.items| + |temp.items| == old(|begin.items| + |end.items| + |temp.items|)
    ensures moves == Moves(n)
    decreases n
  {
    if n == 1 {
      var disc := begin.Pop();
      end.Push(disc);
      moves := 1;
    } else {
      ghost var b0, e0, t0 := begin.items, end.items, temp.items;
      ghost var k := |b0| - n;
      var m1 := Hanoi(begin, temp, end, n - 1);
      assert temp.items == t0 + b0[k + 1..];
      assert begin.items == b0[..k + 1];
      var m2 := Hanoi(begin, end, temp, 1);
      assert end.items == e0 + [b0[k]];
      var m3 := Hanoi(temp, end, begin, n - 1);
      assert b0[k..] == [b0[k]] + b0[k + 1..];
      moves := m1 + m2 + m3;
    }
  }

  /** The program's run: discs 1, 2 and 3 pushed onto tower A and moved to tower C; A
      and B end empty and C holds the discs in their order. */
  method ThreeDiscs() returns (towerA: GenericSearch.Stack<int>, towerB: GenericSearch.Stack<int>,
                               towerC: GenericSearch.Stack<int>)
    ensures towerA.items == [] && towerB.items == [] && towerC.items == [1, 2, 3]
  {
    var numDiscs := 3;
    towerA := new GenericSearch.Stack<int>();
    towerB := new GenericSearch.Stack<int>();
    towerC := new GenericSearch.Stack<int>();
    for i := 1 to numDiscs + 1
      invariant towerA.items == seq(i - 1, k => k + 1)
      invariant towerB.items == [] && towerC.items == []
    {
      towerA.Push(i);
    }
    assert towerA.items == [1, 2, 3];
    ghost var moves := Hanoi(towerA, towerC, towerB, numDiscs);
    assert towerA.items == [1, 2, 3][..0];
    assert towerC.items == [] + [1, 2, 3][0..];
  }
}

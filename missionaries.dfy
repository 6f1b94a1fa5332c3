/** The missionaries and cannibals puzzle as a search problem: three missionaries and
    three cannibals must cross from the west bank to the east bank in a boat that carries
    one or two people, and on neither bank may the missionaries present be outnumbered by
    cannibals. A state counts the people on each bank and says where the boat is. */
module Missionaries {

  const MaxNum: int := 3

  /** `wm`/`wc`: missionaries and cannibals on the west bank; `em`/`ec`: on the east
      bank; `boat`: whether the boat is at the west bank. */
  datatype MCState = MCState(wm: int, wc: int, em: int, ec: int, boat: bool)

  /** The constructor: the east bank holds whoever is not on the west bank. */
  function MakeState(missionaries: int, cannibals: int, boat: bool): (s: MCState)
    ensures s.wm + s.em == MaxNum && s.wc + s.ec == MaxNum
    ensures s.wm == missionaries && s.wc == cannibals && s.boat == boat
  {
    MCState(missionaries, cannibals, MaxNum - missionaries, MaxNum - cannibals, boat)
  }

  /** Each kind of person totals `MaxNum` across the two banks. */
  ghost predicate Balanced(s: MCState)
  {
    s.wm + s.em == MaxNum && s.wc + s.ec == MaxNum
  }

  /** The west bank holds between none and all of each kind (for a balanced state, so
      does the east bank). */
  ghost predicate InRange(s: MCState)
  {
    0 <= s.wm <= MaxNum && 0 <= s.wc <= MaxNum
  }

  predicate IsLegal(s: MCState)
  {
    !(s.wm < s.wc && s.wm > 0) && !(s.em < s.ec && s.em > 0)
  }

  predicate GoalTest(s: MCState)
  {
    IsLegal(s) && s.em == MaxNum && s.ec == MaxNum
  }

  /** The missionaries on a bank are outnumbered. */
  ghost predicate Outnumbered(missionaries: int, cannibals: int)
  {
    0 < missionaries < cannibals
  }

  /** A state is illegal exactly when, on some bank, missionaries are present and
      outnumbered by cannibals. */
  lemma LegalIff(s: MCState)
    ensures !IsLegal(s) <==> Outnumbered(s.wm, s.wc) || Outnumbered(s.em, s.ec)
  {
  }

  /** For a balanced state in range, legality has a closed form: all missionaries are on
      one bank, or each bank has as many missionaries as cannibals. */
  lemma LegalStates(s: MCState)
    requires Balanced(s) && InRange(s)
    ensures IsLegal(s) <==> s.wm == 0 || s.wm == MaxNum || s.wm == s.wc
  {
  }

  /** The goal is reached exactly when everyone is on the east bank. */
  lemma GoalIff(s: MCState)
    requires Balanced(s)
    ensures GoalTest(s) <==> s.wm == 0 && s.wc == 0
  {
  }

  /** The program's guard for a crossing: each kind that crosses (`dm` missionaries,
      `dc` cannibals) has that many people on the boat's bank. A kind that does not
      cross is not looked at. */
  predicate Available(s: MCState, dm: int, dc: int)
  {
    if s.boat then (dm == 0 || s.wm >= dm) && (dc == 0 || s.wc >= dc)
    else (dm == 0 || s.em >= dm) && (dc == 0 || s.ec >= dc)
  }

  /** The state after `dm` missionaries and `dc` cannibals cross from the boat's bank. */
  function Cross(s: MCState, dm: int, dc: int): (x: MCState)
    requires 0 <= dm && 0 <= dc && 1 <= dm + dc <= 2
    ensures Balanced(x)
    ensures Available(s, dm, dc) ==> IsMove(s, x)
  {
    if s.boat then MakeState(s.wm - dm, s.wc - dc, !s.boat)
    else MakeState(s.wm + dm, s.wc + dc, !s.boat)
  }

  /** One of the program's five tries: the crossing, when the boat's bank has the people
      who cross. */
  function Try(s: MCState, dm: int, dc: int): (r: seq<MCState>)
    requires 0 <= dm && 0 <= dc && 1 <= dm + dc <= 2
    ensures |r| <= 1
    ensures forall x :: x in r ==> Balanced(x) && IsMove(s, x)
  {
    if Available(s, dm, dc) then [Cross(s, dm, dc)] else []
  }

  /** The crossings the program tries, in its order, before filtering: two missionaries,
      one missionary, two cannibals, one cannibal, one of each, each from the bank where
      the boat is and only when that bank has the people who cross. */
  function Candidates(s: MCState): (r: seq<MCState>)
    ensures |r| <= 5
    ensures forall x :: x in r ==> Balanced(x) && IsMove(s, x)
  {
    Try(s, 2, 0) + Try(s, 1, 0) + Try(s, 0, 2) + Try(s, 0, 1) + Try(s, 1, 1)
  }

  /** The legal states of `xs`: the list comprehension filtering on `is_legal`. */
  function KeepLegal(xs: seq<MCState>): (r: seq<MCState>)
    ensures |r| <= |xs|
    ensures forall x :: x in r <==> x in xs && IsLegal(x)
  {
    if xs == [] then []
    else (if IsLegal(xs[0]) then [xs[0]] else []) + KeepLegal(xs[1..])
  }

  /** The reference meaning of one crossing from `s` to `x`: the boat changes bank and
      carries one or two people, all from the bank it left, which had each kind that
      crossed. */
  ghost predicate IsMove(s: MCState, x: MCState)
  {
    var dm := if s.boat then s.wm - x.wm else x.wm - s.wm;
    var dc := if s.boat then s.wc - x.wc else x.wc - s.wc;
    && x.boat == !s.boat
    && 0 <= dm && 0 <= dc && 1 <= dm + dc <= 2
    && (if s.boat then (dm == 0 || dm <= s.wm) && (dc == 0 || dc <= s.wc)
        else (dm == 0 || dm <= s.em) && (dc == 0 || dc <= s.ec))
  }

  function Successors(s: MCState): (r: seq<MCState>)
    ensures |r| <= 5
    ensures forall x :: x in r ==> IsLegal(x) && Balanced(x) && x.boat == !s.boat && IsMove(s, x)
  {
    KeepLegal(Candidates(s))
  }

  /** Every crossing of one or two people is among the five the program tries. */
  lemma TriedAll(s: MCState, dm: int, dc: int)
    requires 0 <= dm && 0 <= dc && 1 <= dm + dc <= 2
    ensures forall x :: x in Try(s, dm, dc) ==> x in Candidates(s)
  {
    var a, b, c, d, e := Try(s, 2, 0), Try(s, 1, 0), Try(s, 0, 2), Try(s, 0, 1), Try(s, 1, 1);
    assert Candidates(s) == a + b + c + d + e;
    if dm == 2 {
      assert dc == 0;
    } else if dm == 1 {
      assert dc == 0 || dc == 1;
    } else {
      assert dc == 1 || dc == 2;
    }
  }

  /** The successors of a balanced state are exactly the legal balanced states one
      crossing away. */
  lemma SuccessorsExact(s: MCState, x: MCState)
    requires Balanced(s)
    ensures x in Successors(s) <==> Balanced(x) && IsMove(s, x) && IsLegal(x)
  {
    if Balanced(x) && IsMove(s, x) && IsLegal(x) {
      var dm := if s.boat then s.wm - x.wm else x.wm - s.wm;
      var dc := if s.boat then s.wc - x.wc else x.wc - s.wc;
      assert x == Cross(s, dm, dc);
      assert x in Try(s, dm, dc);
      TriedAll(s, dm, dc);
    }
  }

  /** The five tries from west-bank counts (5, -1): only the missionary crossings pass
      the guard. */
  lemma MissionariesOnlyCandidates()
    ensures Candidates(MakeState(5, -1, true)) == [MakeState(3, -1, false), MakeState(4, -1, false)]
  {
    var s := MakeState(5, -1, true);
    assert Try(s, 2, 0) == [MakeState(3, -1, false)];
    assert Try(s, 1, 0) == [MakeState(4, -1, false)];
    assert !Available(s, 0, 2) && !Available(s, 0, 1) && !Available(s, 1, 1);
  }

  /** The five tries from west-bank counts (-1, 2): only the cannibal crossings pass the
      guard. */
  lemma CannibalsOnlyCandidates()
    ensures Candidates(MakeState(-1, 2, true)) == [MakeState(-1, 0, false), MakeState(-1, 1, false)]
  {
    var t := MakeState(-1, 2, true);
    assert !Available(t, 2, 0) && !Available(t, 1, 0) && !Available(t, 1, 1);
    assert Try(t, 0, 2) == [MakeState(-1, 0, false)];
    assert Try(t, 0, 1) == [MakeState(-1, 1, false)];
  }

  /** The guard looks only at the kinds that cross: from a west bank with five
      missionaries and a negative number of cannibals, the two missionary crossings are
      tried and kept, while every crossing with a cannibal is skipped. */
  lemma MissionaryCrossingsOnly(s: MCState)
    requires s == MakeState(5, -1, true)
    ensures Successors(s) == [MakeState(3, -1, false), MakeState(4, -1, false)]
  {
    MissionariesOnlyCandidates();
    FilterBoth(Candidates(s), MakeState(3, -1, false), MakeState(4, -1, false));
  }

  /** The same from a west bank with a negative number of missionaries and two
      cannibals: only the two cannibal crossings are tried and kept. */
  lemma CannibalCrossingsOnly(s: MCState)
    requires s == MakeState(-1, 2, true)
    ensures Successors(s) == [MakeState(-1, 0, false), MakeState(-1, 1, false)]
  {
    CannibalsOnlyCandidates();
    FilterBoth(Candidates(s), MakeState(-1, 0, false), MakeState(-1, 1, false));
  }

  /** Two legal states both pass the filter, in order. */
  lemma FilterBoth(xs: seq<MCState>, a: MCState, b: MCState)
    requires xs == [a, b] && IsLegal(a) && IsLegal(b)
    ensures KeepLegal(xs) == xs
  {
    assert xs[1..] == [b];
    assert KeepLegal([b]) == [b] + KeepLegal([]);
  }

  /** A crossing from a balanced state in range stays in range. */
  lemma MoveInRange(s: MCState, x: MCState)
    requires Balanced(s) && InRange(s) && Balanced(x) && IsMove(s, x)
    ensures InRange(x)
  {
  }

  /** Every successor of a balanced state in range is in range. */
  lemma SuccessorsInRange(s: MCState)
    requires Balanced(s) && InRange(s)
    ensures forall x :: x in Successors(s) ==> InRange(x)
  {
    forall x | x in Successors(s)
      ensures InRange(x)
    {
      SuccessorsExact(s, x);
      MoveInRange(s, x);
    }
  }

  /** The program's start: everyone, and the boat, on the west bank. */
  function Start(): (s: MCState)
    ensures s.wm == MaxNum && s.wc == MaxNum && s.boat && Balanced(s)
  {
    MakeState(MaxNum, MaxNum, true)
  }

  /** The start is a legal, balanced state in range that is not the goal. */
  lemma StartState(s: MCState)
    requires s.wm == MaxNum && s.wc == MaxNum && s.boat && Balanced(s)
    ensures InRange(s) && IsLegal(s) && !GoalTest(s)
  {
  }
}

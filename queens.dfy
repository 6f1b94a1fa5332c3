/** The eight queens puzzle as a constraint satisfaction problem: one variable per
    column (1 to 8), whose value is the row (1 to 8) of the queen placed in it, and a
    single constraint over all columns that rejects two queens sharing a row or a
    diagonal. */
module Queens {
  import opened Wrappers
  import opened Csp
  import GenericSearch

  function Abs(x: int): nat
  {
    if x < 0 then -x else x
  }

  /** The queen constraint's test on a partial placement `a` (column to row) for a board
      of `n` columns: every two placed queens whose columns are ordered `q1c < q2c <= n`
      are in different rows and not on a common diagonal. The second column of a pair
      runs only up to `n`, so queens in columns above `n` are compared with no later
      column. */
  predicate Satisfied(n: int, a: map<int, int>)
  {
    forall q1c, q2c :: q1c in a && q2c in a && q1c < q2c <= n ==>
      a[q1c] != a[q2c] && Abs(a[q1c] - a[q2c]) != Abs(q1c - q2c)
  }

  /** The reference meaning of a safe placement: no two distinct placed queens attack
      each other along a row or a diagonal. */
  ghost predicate NonAttacking(a: map<int, int>)
  {
    forall c1, c2 :: c1 in a && c2 in a && c1 != c2 ==>
      a[c1] != a[c2] && Abs(a[c1] - a[c2]) != Abs(c1 - c2)
  }

  /** A complete solution of the `n`-queens puzzle: one queen in every column 1..n, each
      in a row 1..n, none attacking another. */
  ghost predicate IsPlacement(n: int, a: map<int, int>)
  {
    && (forall c :: 1 <= c <= n ==> c in a)
    && (forall c :: c in a ==> 1 <= c <= n && 1 <= a[c] <= n)
    && NonAttacking(a)
  }

  /** The constraint over `columns`, deciding with `Satisfied` for a board of as many
      columns as `columns` has. */
  function QueenConstraint(columns: seq<int>): (c: Constraint<int, int>)
    ensures c.scope == columns
  {
    Constraint(columns, a => Satisfied(|columns|, a))
  }

  lemma QueenSat(columns: seq<int>, a: map<int, int>)
    ensures QueenConstraint(columns).sat(a) == Satisfied(|columns|, a)
  {
  }

  /** When every placed column is at most `n`, the constraint's test is exactly the
      absence of attacks. */
  lemma SatisfiedIff(n: int, a: map<int, int>)
    requires forall c :: c in a ==> c <= n
    ensures Satisfied(n, a) <==> NonAttacking(a)
  {
    if Satisfied(n, a) {
      forall c1, c2 | c1 in a && c2 in a && c1 != c2
        ensures a[c1] != a[c2] && Abs(a[c1] - a[c2]) != Abs(c1 - c2)
      {
        if c1 < c2 {
          assert c2 <= n;
        } else {
          assert c1 <= n;
          assert Abs(c1 - c2) == Abs(c2 - c1);
          assert Abs(a[c1] - a[c2]) == Abs(a[c2] - a[c1]);
        }
      }
    }
  }

  /** Two queens in one row are rejected. */
  lemma SameRowRejected(n: int, a: map<int, int>, c1: int, c2: int)
    requires c1 in a && c2 in a && c1 < c2 <= n
    requires a[c1] == a[c2]
    ensures !Satisfied(n, a)
  {
  }

  /** Two queens on one diagonal are rejected. */
  lemma SameDiagonalRejected(n: int, a: map<int, int>, c1: int, c2: int)
    requires c1 in a && c2 in a && c1 < c2 <= n
    requires Abs(a[c1] - a[c2]) == c2 - c1
    ensures !Satisfied(n, a)
  {
  }

  /** No queen, or a single queen, is never rejected. */
  lemma FewQueensAccepted(n: int, a: map<int, int>)
    requires |a| <= 1
    ensures Satisfied(n, a)
  {
    forall q1c, q2c | q1c in a && q2c in a && q1c < q2c <= n
      ensures false
    {
      assert {q1c, q2c} <= a.Keys;
      assert |{q1c, q2c}| == 2;
      GenericSearch.SubsetCardinality({q1c, q2c}, a.Keys);
    }
  }

  /** The bound matters: a queen in a column beyond `n` is never compared, so on a
      one-column board two queens in the same row pass the test. */
  lemma BeyondBoardIgnored()
    ensures Satisfied(1, map[1 := 1, 2 := 1])
    ensures !NonAttacking(map[1 := 1, 2 := 1])
  {
    var a := map[1 := 1, 2 := 1];
    assert a[1] == a[2];
  }

  /** The columns (and also the rows) of an `n`-column board: 1, 2, ..., n. */
  function Board(n: nat): (s: seq<int>)
    ensures |s| == n
    ensures forall i :: 0 <= i < n ==> s[i] == i + 1
  {
    if n == 0 then [] else Board(n - 1) + [n]
  }

  lemma BoardMembers(n: nat, c: int)
    ensures c in Board(n) <==> 1 <= c <= n
  {
    if 1 <= c <= n {
      assert Board(n)[c - 1] == c;
    }
  }

  lemma BoardDistinct(n: nat)
    ensures Distinct(Board(n))
  {
  }

  /** Every column may take any row of the board. */
  function Rows(n: nat): (m: map<int, seq<int>>)
    ensures forall c :: c in m <==> c in Board(n)
    ensures forall c :: c in m ==> m[c] == Board(n)
  {
    map c | c in Board(n) :: Board(n)
  }

  /** A complete assignment of rows 1..n to columns 1..n that the queen constraint
      accepts is a safe placement. */
  lemma PlacementFrom(n: nat, r: map<int, int>)
    requires forall c :: c in r <==> c in Board(n)
    requires forall c :: c in r ==> r[c] in Board(n)
    requires QueenConstraint(Board(n)).sat(r)
    ensures IsPlacement(n, r)
  {
    QueenSat(Board(n), r);
    forall c | c in r
      ensures 1 <= c <= n && 1 <= r[c] <= n
    {
      BoardMembers(n, c);
      BoardMembers(n, r[c]);
    }
    forall c | 1 <= c <= n
      ensures c in r
    {
      BoardMembers(n, c);
    }
    SatisfiedIff(n, r);
  }

  /** The program's setup on an `n`-column board: columns and rows 1..n and the queen
      constraint over all columns, which becomes the only constraint listed under every
      column. Neither step can fail here. */
  method Setup(n: nat) returns (csp: Csp<int, int>)
    ensures fresh(csp) && csp.Valid()
    ensures csp.variables == Board(n) && csp.domains == Rows(n)
    ensures forall c :: c in Board(n) ==> c in csp.constraints && csp.constraints[c] == [QueenConstraint(Board(n))]
  {
    var columns := Board(n);
    var created := Csp.Create(columns, Rows(n));
    if created.Failure? {
      assert false;
    }
    csp := created.value;
    var queens := QueenConstraint(columns);
    var added := csp.AddConstraint(queens);
    if added.Failure? {
      assert false;
    }
    assert KnownPrefix(columns, columns) == |columns|;
    assert columns[..n] == columns;
    QueenTable(n);
  }

  /** Registering the queen constraint over all columns of an empty table lists it
      once under every column. */
  lemma QueenTable(n: nat)
    ensures var table := Register(EmptyLists<int, int>(Board(n)), Board(n), QueenConstraint(Board(n)));
      forall c :: c in Board(n) ==> c in table && table[c] == [QueenConstraint(Board(n))]
  {
    forall c | c in Board(n)
      ensures c in Register(EmptyLists<int, int>(Board(n)), Board(n), QueenConstraint(Board(n)))
      ensures Register(EmptyLists<int, int>(Board(n)), Board(n), QueenConstraint(Board(n)))[c] == [QueenConstraint(Board(n))]
    {
      QueenListed(n, c);
    }
  }

  lemma QueenListed(n: nat, c: int)
    requires c in Board(n)
    ensures c in Register(EmptyLists<int, int>(Board(n)), Board(n), QueenConstraint(Board(n)))
    ensures Register(EmptyLists<int, int>(Board(n)), Board(n), QueenConstraint(Board(n)))[c] == [QueenConstraint(Board(n))]
  {
    var columns := Board(n);
    var empty := EmptyLists<int, int>(columns);
    BoardDistinct(n);
    assert forall i :: 0 <= i < |columns| ==> columns[i] in empty;
    RegisterOnce(empty, columns, QueenConstraint(columns), c);
  }

  /** Every restriction of a placement is accepted by the queen constraint, so a
      placement satisfies each column's constraints on the columns up to it. */
  lemma PlacementPrefixes(n: nat, constraints: map<int, seq<Constraint<int, int>>>, r: map<int, int>)
    requires IsPlacement(n, r)
    requires forall c :: c in Board(n) ==> c in constraints && constraints[c] == [QueenConstraint(Board(n))]
    ensures PrefixesSatisfied(Board(n), constraints, r)
  {
    var columns := Board(n);
    forall i, c | 0 <= i < |columns| && columns[i] in constraints && c in constraints[columns[i]]
      ensures c.sat(Restrict(r, GenericSearch.Elements(columns[..i + 1])))
    {
      assert columns[i] in columns;
      var b := Restrict(r, GenericSearch.Elements(columns[..i + 1]));
      assert c == QueenConstraint(columns);
      assert NonAttacking(b);
      QueenSat(columns, b);
    }
  }

  /** The search is complete on the queens problem: when some safe placement of `n`
      queens exists, the search from the empty assignment finds one. */
  lemma PlacementFound(n: nat, constraints: map<int, seq<Constraint<int, int>>>, r: map<int, int>)
    requires IsPlacement(n, r)
    requires forall c :: c in Board(n) ==> c in constraints && constraints[c] == [QueenConstraint(Board(n))]
    ensures Distinct(Board(n)) && Searchable(Board(n), Rows(n), constraints)
    ensures Solve(Board(n), Rows(n), constraints, map[]).Some?
  {
    BoardDistinct(n);
    PlacementPrefixes(n, constraints, r);
    forall c | c in r
      ensures c in Board(n) && r[c] in Rows(n)[c]
    {
      BoardMembers(n, c);
      BoardMembers(n, r[c]);
    }
    forall c | c in Board(n)
      ensures c in r
    {
      BoardMembers(n, c);
    }
    SolveComplete(Board(n), Rows(n), constraints, r);
  }

  /** The program's setup and search on an `n`-column board, then a backtracking search
      from the empty assignment. Whatever it returns is a solution of the `n` queens
      puzzle, and it returns nothing only when the puzzle has no solution. */
  method NQueens(n: nat) returns (solution: Option<map<int, int>>)
    ensures solution.Some? ==> IsPlacement(n, solution.value)
    ensures solution.None? ==> forall r :: !IsPlacement(n, r)
  {
    var csp := Setup(n);
    BoardDistinct(n);
    solution := csp.BacktrackingSearch(map[]);
    ValidSearchable(csp.variables, csp.domains, csp.constraints);
    if solution.Some? {
      if n > 0 {
        assert Board(n)[n - 1] == n;
        assert csp.constraints[n] == [QueenConstraint(Board(n))] by {
          BoardMembers(n, n);
        }
        SolutionOfEmpty(Board(n), Rows(n), csp.constraints, solution.value);
        SolutionLast(Board(n), Rows(n), csp.constraints, solution.value, QueenConstraint(Board(n)));
        PlacementFrom(n, solution.value);
      } else {
        SolveUnfold(csp.variables, csp.domains, csp.constraints, map[]);
      }
    }
    forall r | IsPlacement(n, r)
      ensures solution.Some?
    {
      PlacementFound(n, csp.constraints, r);
    }
  }

  /** A safe placement of eight queens: rows 1, 5, 8, 6, 3, 7, 2, 4 in columns 1 to 8. */
  const EightRows: map<int, int> := map[1 := 1, 2 := 5, 3 := 8, 4 := 6, 5 := 3, 6 := 7, 7 := 2, 8 := 4]

  lemma EightQueensExist()
    ensures IsPlacement(8, EightRows)
  {
    forall c | 1 <= c <= 8
      ensures c in EightRows
    {
      assert c == 1 || c == 2 || c == 3 || c == 4 || c == 5 || c == 6 || c == 7 || c == 8;
    }
    forall c | c in EightRows
      ensures 1 <= c <= 8 && 1 <= EightRows[c] <= 8
    {
      EightRowsRange(c);
    }
    forall c1, c2 | c1 in EightRows && c2 in EightRows && c1 != c2
      ensures EightRows[c1] != EightRows[c2] && Abs(EightRows[c1] - EightRows[c2]) != Abs(c1 - c2)
    {
      EightRowsColumn(c1, c2);
    }
  }

  lemma EightRowsRange(c: int)
    requires c in EightRows
    ensures 1 <= c <= 8 && 1 <= EightRows[c] <= 8
  {
    assert c == 1 || c == 2 || c == 3 || c == 4 || c == 5 || c == 6 || c == 7 || c == 8;
  }

  /** The queen in column `c1` attacks no other queen of `EightRows`. */
  lemma EightRowsColumn(c1: int, c2: int)
    requires c1 in EightRows && c2 in EightRows && c1 != c2
    ensures EightRows[c1] != EightRows[c2] && Abs(EightRows[c1] - EightRows[c2]) != Abs(c1 - c2)
  {
    assert 1 <= c1 <= 8 && 1 <= c2 <= 8;
  }

  /** The program's own instance: the eight queens puzzle, which has a solution, so the
      search finds a safe placement. */
  method EightQueens() returns (solution: Option<map<int, int>>)
    ensures solution.Some? && IsPlacement(8, solution.value)
  {
    EightQueensExist();
    solution := NQueens(8);
  }
}

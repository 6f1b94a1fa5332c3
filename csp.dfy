/** The constraint-satisfaction framework: a problem is a list of variables, a domain
    (list of candidate values) per variable, and for each variable the list of
    constraints that mention it. Solutions are found by recursive backtracking that
    picks variables in declaration order and values in domain order. */
module Csp {
  import opened Wrappers
  import GenericSearch

  /** A constraint: the variables it mentions (its scope) and the test it applies to a
      possibly partial assignment. */
  datatype Constraint<!V(==), !D> = Constraint(scope: seq<V>, sat: map<V, D> -> bool)

  const MissingDomainMessage := "Every varaible should have a domain assinged to it."
  const UnknownVariableMessage := "Varaible in constraint not in CSP"

  ghost predicate Distinct<T>(s: seq<T>)
  {
    forall i, j :: 0 <= i < j < |s| ==> s[i] != s[j]
  }

  /** Every variable has a domain and a (possibly empty) constraint list, and the
      constraint lists are keyed by exactly the variables. */
  ghost predicate WellFormed<V, D>(variables: seq<V>, domains: map<V, seq<D>>,
                                      constraints: map<V, seq<Constraint<V, D>>>)
  {
    && (forall v :: v in variables ==> v in domains)
    && constraints.Keys == GenericSearch.Elements(variables)
  }

  /** What the search needs of a problem: every variable has a domain and a
      constraint list. */
  ghost predicate Searchable<V, D>(variables: seq<V>, domains: map<V, seq<D>>,
                                   constraints: map<V, seq<Constraint<V, D>>>)
  {
    forall v :: v in variables ==> v in domains && v in constraints
  }

  /** Every key of `a` is a variable. */
  ghost predicate Within<V, D>(a: map<V, D>, variables: seq<V>)
  {
    forall k :: k in a ==> k in variables
  }

  /** Every constraint of `cs` accepts `a`. */
  predicate Satisfies<V(==), D>(cs: seq<Constraint<V, D>>, a: map<V, D>)
  {
    forall i :: 0 <= i < |cs| ==> cs[i].sat(a)
  }

  /** The constraint lists right after construction: one empty list per variable. */
  function EmptyLists<V(==), D>(variables: seq<V>): (m: map<V, seq<Constraint<V, D>>>)
    ensures m.Keys == GenericSearch.Elements(variables)
    ensures forall v :: v in m ==> m[v] == []
  {
    map v | v in variables :: []
  }

  /** The constraint lists after `c` has been appended once for every entry of `scope`,
      entries taken in order. */
  function Register<V(==), D>(m: map<V, seq<Constraint<V, D>>>, scope: seq<V>, c: Constraint<V, D>)
    : (r: map<V, seq<Constraint<V, D>>>)
    requires forall i :: 0 <= i < |scope| ==> scope[i] in m
    ensures r.Keys == m.Keys
    decreases |scope|
  {
    if scope == [] then m
    else
      var prev := Register(m, scope[..|scope| - 1], c);
      prev[scope[|scope| - 1] := prev[scope[|scope| - 1]] + [c]]
  }

  /** Registering `c` over `scope` appends to the list of each variable one copy of
      `c` per occurrence of that variable in `scope`, and leaves the other lists as
      they were. */
  lemma {:induction false} RegisterEffect<V, D>(m: map<V, seq<Constraint<V, D>>>, scope: seq<V>,
                                                 c: Constraint<V, D>, v: V)
    requires forall i :: 0 <= i < |scope| ==> scope[i] in m
    requires v in m
    ensures Register(m, scope, c)[v] == m[v] + seq(multiset(scope)[v], _ => c)
    decreases |scope|
  {
    if scope != [] {
      var init := scope[..|scope| - 1];
      var last := scope[|scope| - 1];
      RegisterEffect(m, init, c, v);
      assert scope == init + [last];
      var k := multiset(init)[v];
      if v == last {
        assert multiset(scope)[v] == k + 1;
        assert seq(k, _ => c) + [c] == seq(k + 1, _ => c);
      } else {
        assert multiset(scope)[v] == k;
      }
    }
  }

  /** Over a scope of distinct variables, registering appends exactly one copy of the
      constraint to the list of each variable of the scope. */
  lemma RegisterOnce<V, D>(m: map<V, seq<Constraint<V, D>>>, scope: seq<V>, c: Constraint<V, D>, v: V)
    requires forall i :: 0 <= i < |scope| ==> scope[i] in m
    requires Distinct(scope) && v in scope
    ensures v in m && Register(m, scope, c)[v] == m[v] + [c]
  {
    var i :| 0 <= i < |scope| && scope[i] == v;
    RegisterEffect(m, scope, c, v);
    DistinctOccurrence(scope, v);
    assert seq(1, _ => c) == [c];
  }

  /** Registering only appends: every list keeps what it held. */
  lemma RegisterKeeps<V, D>(m: map<V, seq<Constraint<V, D>>>, scope: seq<V>,
                            c: Constraint<V, D>, v: V)
    requires forall i :: 0 <= i < |scope| ==> scope[i] in m
    requires v in m
    ensures m[v] <= Register(m, scope, c)[v]
  {
    RegisterEffect(m, scope, c, v);
  }

  /** After registering `c` over `scope`, every variable of the scope lists `c`. */
  lemma {:induction false} RegisterContains<V, D>(m: map<V, seq<Constraint<V, D>>>, scope: seq<V>,
                                                   c: Constraint<V, D>, v: V)
    requires forall i :: 0 <= i < |scope| ==> scope[i] in m
    requires v in scope
    ensures c in Register(m, scope, c)[v]
    decreases |scope|
  {
    var init := scope[..|scope| - 1];
    if v != scope[|scope| - 1] {
      assert scope == init + [scope[|scope| - 1]];
      RegisterContains(m, init, c, v);
    }
  }

  /** The number of leading entries of `scope` that are variables of the problem:
      `add_constraint` registers exactly these before it stops. */
  function KnownPrefix<V(==)>(scope: seq<V>, variables: seq<V>): (k: nat)
    ensures k <= |scope|
    ensures forall i :: 0 <= i < k ==> scope[i] in variables
    ensures k < |scope| ==> scope[k] !in variables
    decreases |scope|
  {
    if scope == [] || scope[0] !in variables then 0
    else 1 + KnownPrefix(scope[1..], variables)
  }

  /** The variables not yet assigned, in declaration order. */
  function Unassigned<V(==), D>(variables: seq<V>, a: map<V, D>): (u: seq<V>)
    ensures forall i :: 0 <= i < |u| ==> u[i] in variables && u[i] !in a
    ensures forall i :: 0 <= i < |variables| && variables[i] !in a ==> variables[i] in u
    decreases |variables|
  {
    if variables == [] then []
    else (if variables[0] in a then [] else [variables[0]]) + Unassigned(variables[1..], a)
  }

  /** The first unassigned variable is preceded only by assigned ones. */
  lemma {:induction false} UnassignedFirst<V, D>(variables: seq<V>, a: map<V, D>) returns (f: nat)
    requires Unassigned(variables, a) != []
    ensures f < |variables| && variables[f] == Unassigned(variables, a)[0]
    ensures forall j :: 0 <= j < f ==> variables[j] in a
    decreases |variables|
  {
    if variables[0] in a {
      assert Unassigned(variables, a) == Unassigned(variables[1..], a);
      var g := UnassignedFirst(variables[1..], a);
      f := g + 1;
      forall j | 0 <= j < f
        ensures variables[j] in a
      {
        if j > 0 {
          assert variables[j] == variables[1..][j - 1];
        }
      }
    } else {
      f := 0;
    }
  }

  /** `pos` lists positions of `variables`, strictly increasing, holding the entries of
      `u` in turn, and every position of a variable outside `a` is among them. */
  ghost predicate PositionsOf<V, D>(pos: seq<nat>, variables: seq<V>, a: map<V, D>, u: seq<V>)
  {
    && |pos| == |u|
    && (forall i :: 0 <= i < |pos| ==> pos[i] < |variables| && variables[pos[i]] == u[i])
    && (forall i, j :: 0 <= i < j < |pos| ==> pos[i] < pos[j])
    && (forall p :: 0 <= p < |variables| && variables[p] !in a ==> p in pos)
  }

  /** `Unassigned` keeps declaration order: its entries sit at strictly increasing
      positions of `variables`, and every unassigned position is among them. */
  lemma {:induction false} UnassignedOrder<V, D>(variables: seq<V>, a: map<V, D>) returns (pos: seq<nat>)
    ensures |pos| == |Unassigned(variables, a)|
    ensures forall i :: 0 <= i < |pos| ==> pos[i] < |variables| && variables[pos[i]] == Unassigned(variables, a)[i]
    ensures forall i, j :: 0 <= i < j < |pos| ==> pos[i] < pos[j]
    ensures forall p :: 0 <= p < |variables| && variables[p] !in a ==> p in pos
    decreases |variables|
  {
    if variables == [] {
      pos := [];
    } else {
      var rest := UnassignedOrder(variables[1..], a);
      pos := OrderStep(variables, a, rest);
    }
  }

  /** One step of `UnassignedOrder`: positions for the tail, moved one on, with the
      head's position in front when the head is unassigned. */
  lemma OrderStep<V, D>(variables: seq<V>, a: map<V, D>, rest: seq<nat>) returns (pos: seq<nat>)
    requires variables != []
    requires PositionsOf(rest, variables[1..], a, Unassigned(variables[1..], a))
    ensures PositionsOf(pos, variables, a, Unassigned(variables, a))
  {
    var u, ur := Unassigned(variables, a), Unassigned(variables[1..], a);
    ShiftedPositions(variables, a, rest, ur);
    if variables[0] in a {
      assert u == ur;
      pos := Shift(rest);
      KeepHead(variables, a, pos, u);
    } else {
      assert u == [variables[0]] + ur;
      pos := [0] + Shift(rest);
      PrependHead(variables, a, Shift(rest), u, ur);
    }
  }

  /** With the head assigned, the tail's positions moved one on are all the positions. */
  lemma KeepHead<V, D>(variables: seq<V>, a: map<V, D>, shifted: seq<nat>, u: seq<V>)
    requires variables != [] && variables[0] in a && |shifted| == |u|
    requires forall i :: 0 <= i < |shifted| ==> 0 < shifted[i] < |variables| && variables[shifted[i]] == u[i]
    requires forall i, j :: 0 <= i < j < |shifted| ==> shifted[i] < shifted[j]
    requires forall p :: 0 < p < |variables| && variables[p] !in a ==> p in shifted
    ensures PositionsOf(shifted, variables, a, u)
  {
    forall p | 0 <= p < |variables| && variables[p] !in a
      ensures p in shifted
    {
      assert p != 0;
    }
  }

  /** Putting the unassigned head's position in front of the tail's positions. */
  lemma PrependHead<V, D>(variables: seq<V>, a: map<V, D>, shifted: seq<nat>, u: seq<V>, ur: seq<V>)
    requires variables != [] && variables[0] !in a
    requires u == [variables[0]] + ur && |shifted| == |ur|
    requires forall i :: 0 <= i < |shifted| ==> 0 < shifted[i] < |variables| && variables[shifted[i]] == ur[i]
    requires forall i, j :: 0 <= i < j < |shifted| ==> shifted[i] < shifted[j]
    requires forall p :: 0 < p < |variables| && variables[p] !in a ==> p in shifted
    ensures PositionsOf([0] + shifted, variables, a, u)
  {
    var pos := [0] + shifted;
    forall i | 0 < i < |pos|
      ensures pos[i] < |variables| && variables[pos[i]] == u[i]
    {
      assert pos[i] == shifted[i - 1] && u[i] == ur[i - 1];
    }
    forall i, j | 0 <= i < j < |pos|
      ensures pos[i] < pos[j]
    {
      assert pos[j] == shifted[j - 1];
      if i > 0 {
        assert pos[i] == shifted[i - 1];
      }
    }
    forall p | 0 < p < |variables| && variables[p] !in a
      ensures p in pos
    {
      var k :| 0 <= k < |shifted| && shifted[k] == p;
      assert pos[k + 1] == p;
    }
  }

  /** Positions for the tail, moved one on, are positions in the whole sequence, and
      they cover every unassigned position past the head. */
  lemma ShiftedPositions<V, D>(variables: seq<V>, a: map<V, D>, rest: seq<nat>, ur: seq<V>)
    requires variables != []
    requires PositionsOf(rest, variables[1..], a, ur)
    ensures forall i :: 0 <= i < |rest| ==>
      0 < Shift(rest)[i] < |variables| && variables[Shift(rest)[i]] == ur[i]
    ensures forall i, j :: 0 <= i < j < |rest| ==> Shift(rest)[i] < Shift(rest)[j]
    ensures forall p :: 0 < p < |variables| && variables[p] !in a ==> p in Shift(rest)
  {
    var tail := variables[1..];
    var shifted := Shift(rest);
    forall i | 0 <= i < |rest|
      ensures 0 < shifted[i] < |variables| && variables[shifted[i]] == ur[i]
    {
      assert variables[shifted[i]] == tail[rest[i]];
    }
    forall p | 0 < p < |variables| && variables[p] !in a
      ensures p in shifted
    {
      assert tail[p - 1] == variables[p];
      var i :| 0 <= i < |rest| && rest[i] == p - 1;
      assert shifted[i] == p;
    }
  }

  /** Every position one further on. */
  function Shift(ps: seq<nat>): (r: seq<nat>)
    ensures |r| == |ps| && forall i :: 0 <= i < |ps| ==> r[i] == ps[i] + 1
  {
    seq(|ps|, i requires 0 <= i < |ps| => ps[i] + 1)
  }

  /** With distinct variables, `Unassigned` lists no variable twice. */
  lemma UnassignedDistinct<V, D>(variables: seq<V>, a: map<V, D>)
    requires Distinct(variables)
    ensures Distinct(Unassigned(variables, a))
  {
    var pos := UnassignedOrder(variables, a);
  }

  /** A sequence has at most as many distinct elements as entries, and exactly as many
      when its entries are distinct. */
  lemma {:induction false} ElementsCardinality<T>(s: seq<T>)
    ensures |GenericSearch.Elements(s)| <= |s|
    ensures Distinct(s) ==> |GenericSearch.Elements(s)| == |s|
    decreases |s|
  {
    if s != [] {
      var init := s[..|s| - 1];
      var last := s[|s| - 1];
      ElementsCardinality(init);
      assert s == init + [last];
      GenericSearch.ElementsPush(init, last);
      if Distinct(s) {
        assert Distinct(init);
        forall k | 0 <= k < |init|
          ensures init[k] != last
        {
          assert init[k] == s[k];
        }
        GenericSearch.NotInElements(init, last);
        assert GenericSearch.Elements(init) !! {last};
      }
    }
  }

  /** An assignment over the variables has at most one entry per variable. */
  lemma AssignmentBound<V, D>(variables: seq<V>, a: map<V, D>)
    requires Within(a, variables)
    ensures |a| <= |variables|
  {
    ElementsCardinality(variables);
    assert a.Keys <= GenericSearch.Elements(variables);
    GenericSearch.SubsetCardinality(a.Keys, GenericSearch.Elements(variables));
  }

  /** With distinct variables, an assignment over them with fewer entries than
      variables leaves one unassigned. */
  lemma AssignmentSize<V, D>(variables: seq<V>, a: map<V, D>)
    requires Within(a, variables)
    ensures |a| <= |variables|
    ensures Distinct(variables) && |a| != |variables| ==> Unassigned(variables, a) != []
  {
    AssignmentBound(variables, a);
    assert a.Keys <= GenericSearch.Elements(variables);
    if Distinct(variables) && Unassigned(variables, a) == [] {
      forall v | v in GenericSearch.Elements(variables)
        ensures v in a
      {
        var i :| 0 <= i < |variables| && variables[i] == v;
      }
      assert a.Keys == GenericSearch.Elements(variables);
      ElementsCardinality(variables);
    }
  }

  /** The first `Some` of a sequence of outcomes, or `None`. */
  function FirstSome<T>(s: seq<Option<T>>): Option<T>
    decreases |s|
  {
    if s == [] then None
    else if s[0].Some? then s[0]
    else FirstSome(s[1..])
  }

  /** Extending a run of `None` outcomes by one more. */
  lemma NoneSoFar<T>(s: seq<Option<T>>, k: nat)
    requires k < |s| && s[k].None?
    requires forall i :: 0 <= i < k ==> s[i].None?
    ensures forall i :: 0 <= i < k + 1 ==> s[i].None?
  {
  }

  /** `FirstSome` is `None` exactly when every outcome is `None`. */
  lemma {:induction false} FirstSomeNone<T>(s: seq<Option<T>>)
    ensures FirstSome(s).None? <==> forall i :: 0 <= i < |s| ==> s[i].None?
    decreases |s|
  {
    if s != [] {
      FirstSomeNone(s[1..]);
      assert forall i :: 1 <= i < |s| ==> s[i] == s[1..][i - 1];
    }
  }

  /** A `Some` result of `FirstSome` is the outcome at some index preceded only by
      `None`s, and an outcome preceded only by `None`s is the result. */
  lemma {:induction false} FirstSomeAt<T>(s: seq<Option<T>>, k: nat)
    requires k < |s| && s[k].Some?
    requires forall i :: 0 <= i < k ==> s[i].None?
    ensures FirstSome(s) == s[k]
    decreases k
  {
    if k > 0 {
      FirstSomeAt(s[1..], k - 1);
    }
  }

  /** The index of the outcome a `Some` result of `FirstSome` comes from. */
  lemma {:induction false} FirstSomeIndex<T>(s: seq<Option<T>>) returns (k: nat)
    requires FirstSome(s).Some?
    ensures k < |s| && s[k] == FirstSome(s)
    ensures forall i :: 0 <= i < k ==> s[i].None?
    decreases |s|
  {
    if s[0].Some? {
      k := 0;
    } else {
      var k' := FirstSomeIndex(s[1..]);
      k := k' + 1;
      forall i | 0 <= i < k
        ensures s[i].None?
      {
        if i > 0 {
          assert s[i] == s[1..][i - 1];
        }
      }
    }
  }

  /** What `backtracking_search` returns from `a`: `a` itself once every variable is
      assigned; otherwise the first success among the attempts at the values of the
      first unassigned variable, in domain order. */
  function Solve<V(==), D>(variables: seq<V>, domains: map<V, seq<D>>,
                           constraints: map<V, seq<Constraint<V, D>>>, a: map<V, D>): Option<map<V, D>>
    requires Searchable(variables, domains, constraints) && Distinct(variables)
    requires Within(a, variables)
    decreases |variables| - |a|, 2
  {
    AssignmentSize(variables, a);
    if |a| == |variables| then Some(a)
    else FirstSome(Attempts(variables, domains, constraints, a, Unassigned(variables, a)[0]))
  }

  /** The outcome of each value of `first`, in domain order. */
  function Attempts<V(==), D>(variables: seq<V>, domains: map<V, seq<D>>,
                              constraints: map<V, seq<Constraint<V, D>>>, a: map<V, D>, first: V)
    : (s: seq<Option<map<V, D>>>)
    requires Searchable(variables, domains, constraints) && Distinct(variables)
    requires Within(a, variables)
    requires first in variables && first !in a
    ensures |s| == |domains[first]|
    ensures forall i :: 0 <= i < |s| ==> s[i] == Attempt(variables, domains, constraints, a, first, domains[first][i])
    decreases |variables| - |a|, 1
  {
    seq(|domains[first]|, i requires 0 <= i < |domains[first]| =>
      Attempt(variables, domains, constraints, a, first, domains[first][i]))
  }

  /** One attempt: `a` with `first` set to `x` is searched further when it is
      consistent for `first`, and fails otherwise. */
  function Attempt<V(==), D>(variables: seq<V>, domains: map<V, seq<D>>,
                             constraints: map<V, seq<Constraint<V, D>>>, a: map<V, D>, first: V, x: D)
    : Option<map<V, D>>
    requires Searchable(variables, domains, constraints) && Distinct(variables)
    requires Within(a, variables)
    requires first in variables && first !in a
    decreases |variables| - |a|, 0
  {
    var local := a[first := x];
    AssignmentSize(variables, a);
    AssignmentSize(variables, local);
    if Satisfies(constraints[first], local) then Solve(variables, domains, constraints, local)
    else None
  }

  /** A well-formed problem can be searched. */
  lemma ValidSearchable<V, D>(variables: seq<V>, domains: map<V, seq<D>>,
                              constraints: map<V, seq<Constraint<V, D>>>)
    requires WellFormed(variables, domains, constraints)
    ensures Searchable(variables, domains, constraints)
  {
    assert forall v :: v in variables ==> v in GenericSearch.Elements(variables);
  }

  /** The part of `m` whose keys lie in `keys`. */
  ghost function Restrict<V, D>(m: map<V, D>, keys: set<V>): (r: map<V, D>)
    ensures r.Keys == m.Keys * keys
    ensures forall k :: k in r ==> r[k] == m[k]
  {
    map k | k in m.Keys && k in keys :: m[k]
  }

  /** Restricting to a sequence of keys keeps the entries of the keys it lists. */
  lemma RestrictHas<V, D>(m: map<V, D>, keys: seq<V>, k: V)
    requires k in m && k in keys
    ensures k in Restrict(m, GenericSearch.Elements(keys)) && Restrict(m, GenericSearch.Elements(keys))[k] == m[k]
  {
  }

  /** `Solve`, one level down: a complete assignment is its own result, otherwise the
      attempts at the first unassigned variable decide. */
  lemma SolveUnfold<V, D>(variables: seq<V>, domains: map<V, seq<D>>,
                          constraints: map<V, seq<Constraint<V, D>>>, a: map<V, D>)
    requires Searchable(variables, domains, constraints) && Distinct(variables)
    requires Within(a, variables)
    ensures |a| == |variables| ==> Solve(variables, domains, constraints, a) == Some(a)
    ensures |a| != |variables| ==> Unassigned(variables, a) != []
    ensures |a| != |variables| ==>
      Solve(variables, domains, constraints, a) == FirstSome(Attempts(variables, domains, constraints, a, Unassigned(variables, a)[0]))
  {
    AssignmentSize(variables, a);
  }

  /** While some variable is unassigned, the search fails exactly when every value of
      the first unassigned variable is inconsistent or leads to a failed search. */
  lemma SolveNone<V, D>(variables: seq<V>, domains: map<V, seq<D>>,
                        constraints: map<V, seq<Constraint<V, D>>>, a: map<V, D>)
    requires Searchable(variables, domains, constraints) && Distinct(variables)
    requires Within(a, variables)
    requires |a| != |variables|
    ensures Unassigned(variables, a) != []
    ensures var first := Unassigned(variables, a)[0];
      Solve(variables, domains, constraints, a).None? <==>
      forall i :: 0 <= i < |domains[first]| ==>
        Attempt(variables, domains, constraints, a, first, domains[first][i]).None?
  {
    SolveUnfold(variables, domains, constraints, a);
    var first := Unassigned(variables, a)[0];
    FirstSomeNone(Attempts(variables, domains, constraints, a, first));
  }

  /** A `Some` result is the search result of the first value, in domain order, that is
      consistent and whose search succeeds; every earlier value is inconsistent or its
      search fails. */
  lemma SolveFirst<V, D>(variables: seq<V>, domains: map<V, seq<D>>,
                         constraints: map<V, seq<Constraint<V, D>>>, a: map<V, D>, r: map<V, D>)
    returns (k: nat)
    requires Searchable(variables, domains, constraints) && Distinct(variables)
    requires Within(a, variables)
    requires |a| != |variables| && Solve(variables, domains, constraints, a) == Some(r)
    ensures Unassigned(variables, a) != []
    ensures var first := Unassigned(variables, a)[0];
      && k < |domains[first]|
      && Attempt(variables, domains, constraints, a, first, domains[first][k]) == Some(r)
      && forall i :: 0 <= i < k ==> Attempt(variables, domains, constraints, a, first, domains[first][i]).None?
  {
    SolveUnfold(variables, domains, constraints, a);
    var first := Unassigned(variables, a)[0];
    k := FirstSomeIndex(Attempts(variables, domains, constraints, a, first));
  }

  /** A subset of a finite set with as many elements is the whole set. */
  lemma SameSizeSubset<T>(a: set<T>, b: set<T>)
    requires a <= b && |a| == |b|
    ensures a == b
  {
    GenericSearch.SubsetCardinality(a, b);
  }

  /** What it means for `r` to be a solution found from `a`: it assigns every
      variable, keeps the entries of `a`, takes every new value from the variable's
      domain, and, for each variable it added, satisfies that variable's constraints on
      the entries present when it was added (those of `a` and of the variables declared
      up to it). */
  ghost predicate SolvedFrom<V, D>(variables: seq<V>, domains: map<V, seq<D>>,
                                   constraints: map<V, seq<Constraint<V, D>>>, a: map<V, D>, r: map<V, D>)
    requires Searchable(variables, domains, constraints)
  {
    && Within(r, variables) && (forall i :: 0 <= i < |variables| ==> variables[i] in r)
    && (forall k :: k in a ==> k in r && r[k] == a[k])
    && (forall k :: k in r && k !in a ==> k in domains && r[k] in domains[k])
    && (forall i :: 0 <= i < |variables| && variables[i] !in a ==>
          Satisfies(constraints[variables[i]], Restrict(r, a.Keys + GenericSearch.Elements(variables[..i + 1]))))
  }

  /** With distinct variables, an assignment over them with as many entries as there
      are variables assigns every variable. */
  lemma FullAssignment<V, D>(variables: seq<V>, a: map<V, D>)
    requires Distinct(variables) && Within(a, variables) && |a| == |variables|
    ensures forall i :: 0 <= i < |variables| ==> variables[i] in a
  {
    ElementsCardinality(variables);
    assert a.Keys <= GenericSearch.Elements(variables);
    SameSizeSubset(a.Keys, GenericSearch.Elements(variables));
    assert forall i :: 0 <= i < |variables| ==> variables[i] in GenericSearch.Elements(variables);
  }

  /** A solution found from `a` with its first unassigned variable set to a consistent
      domain value is a solution found from `a`. */
  lemma ExtendStep<V, D>(variables: seq<V>, domains: map<V, seq<D>>,
                         constraints: map<V, seq<Constraint<V, D>>>,
                         a: map<V, D>, first: V, f: nat, x: D, r: map<V, D>)
    requires Searchable(variables, domains, constraints) && Distinct(variables)
    requires f < |variables| && variables[f] == first && first !in a
    requires forall j :: 0 <= j < f ==> variables[j] in a
    requires x in domains[first]
    requires Satisfies(constraints[first], a[first := x])
    requires SolvedFrom(variables, domains, constraints, a[first := x], r)
    ensures SolvedFrom(variables, domains, constraints, a, r)
  {
    var local := a[first := x];
    forall i | 0 <= i < |variables| && variables[i] !in a
      ensures Satisfies(constraints[variables[i]], Restrict(r, a.Keys + GenericSearch.Elements(variables[..i + 1])))
    {
      PrefixStep(variables, a, local, first, f, i, r);
    }
  }

  /** Every result of the search from `a` is a solution found from `a`. */
  lemma {:induction false} SolveSound<V, D>(variables: seq<V>, domains: map<V, seq<D>>,
                                            constraints: map<V, seq<Constraint<V, D>>>,
                                            a: map<V, D>, r: map<V, D>)
    requires Searchable(variables, domains, constraints) && Distinct(variables)
    requires Within(a, variables)
    requires Solve(variables, domains, constraints, a) == Some(r)
    ensures SolvedFrom(variables, domains, constraints, a, r)
    decreases |variables| - |a|
  {
    SolveUnfold(variables, domains, constraints, a);
    AssignmentSize(variables, a);
    if |a| == |variables| {
      FullAssignment(variables, a);
    } else {
      var first := Unassigned(variables, a)[0];
      var f := UnassignedFirst(variables, a);
      var k := SolveFirst(variables, domains, constraints, a, r);
      var local := a[first := domains[first][k]];
      AssignmentSize(variables, local);
      SolveSound(variables, domains, constraints, local, r);
      ExtendStep(variables, domains, constraints, a, first, f, domains[first][k], r);
    }
  }

  /** The bookkeeping behind `SolveSound`'s last clause: the entries present when a
      variable was added are the same whether counted from `a` or from `a` extended
      with its first unassigned variable. */
  lemma PrefixStep<V, D>(variables: seq<V>, a: map<V, D>, local: map<V, D>, first: V, f: nat, i: nat,
                         r: map<V, D>)
    requires Distinct(variables)
    requires f < |variables| && variables[f] == first
    requires forall j :: 0 <= j < f ==> variables[j] in a
    requires first in local && local.Keys == a.Keys + {first}
    requires forall k :: k in local ==> k in r && r[k] == local[k]
    requires i < |variables| && variables[i] !in a
    ensures i == f ==> Restrict(r, a.Keys + GenericSearch.Elements(variables[..i + 1])) == local
    ensures i != f ==> variables[i] !in local
    ensures i != f ==> a.Keys + GenericSearch.Elements(variables[..i + 1]) == local.Keys + GenericSearch.Elements(variables[..i + 1])
  {
    var prefix := GenericSearch.Elements(variables[..i + 1]);
    if i == f {
      assert a.Keys + prefix == local.Keys by {
        forall v | v in prefix
          ensures v in local.Keys
        {
          var j :| 0 <= j < i + 1 && variables[..i + 1][j] == v;
          assert v == variables[j];
        }
        assert first == variables[..i + 1][i];
      }
    } else {
      assert i > f;
      assert first in prefix by {
        assert first == variables[..i + 1][f];
      }
    }
  }

  /** A solution found from the empty assignment assigns exactly the variables, each a
      value of its domain, and satisfies in full every constraint listed under the last
      variable. */
  lemma SolvedFromEmpty<V, D>(variables: seq<V>, domains: map<V, seq<D>>,
                              constraints: map<V, seq<Constraint<V, D>>>, r: map<V, D>)
    requires Searchable(variables, domains, constraints) && |variables| > 0
    requires SolvedFrom(variables, domains, constraints, map[], r)
    ensures forall k :: k in r <==> k in variables
    ensures forall k :: k in r ==> k in domains && r[k] in domains[k]
    ensures Satisfies(constraints[variables[|variables| - 1]], r)
  {
    var none: map<V, D> := map[];
    var n := |variables|;
    assert variables[..n] == variables;
    var all := Restrict(r, none.Keys + GenericSearch.Elements(variables));
    assert Satisfies(constraints[variables[n - 1]], all);
    forall k | k in r
      ensures k in all
    {
      assert k in variables;
    }
    assert all == r;
  }

  /** What the search from the empty assignment returns assigns exactly the variables,
      each a value of its domain. */
  lemma SolutionOfEmpty<V, D>(variables: seq<V>, domains: map<V, seq<D>>,
                              constraints: map<V, seq<Constraint<V, D>>>, r: map<V, D>)
    requires Searchable(variables, domains, constraints) && Distinct(variables)
    requires Solve(variables, domains, constraints, map[]) == Some(r)
    ensures forall k :: k in r <==> k in variables
    ensures forall k :: k in r ==> k in domains && r[k] in domains[k]
  {
    SolveSound(variables, domains, constraints, map[], r);
  }

  /** What the search from the empty assignment returns satisfies, in full, every
      constraint listed under the last variable. */
  lemma SolutionLast<V, D>(variables: seq<V>, domains: map<V, seq<D>>,
                           constraints: map<V, seq<Constraint<V, D>>>, r: map<V, D>,
                           c: Constraint<V, D>)
    requires Searchable(variables, domains, constraints) && Distinct(variables) && |variables| > 0
    requires Solve(variables, domains, constraints, map[]) == Some(r)
    requires c in constraints[variables[|variables| - 1]]
    ensures c.sat(r)
  {
    SolveSound(variables, domains, constraints, map[], r);
    SolvedFromEmpty(variables, domains, constraints, r);
  }

  /** What the search from the empty assignment returns satisfies each constraint
      listed under the `i`-th variable on the part of it that assigns the first `i + 1`
      variables. */
  lemma SolutionPrefix<V, D>(variables: seq<V>, domains: map<V, seq<D>>,
                             constraints: map<V, seq<Constraint<V, D>>>, r: map<V, D>,
                             i: nat, c: Constraint<V, D>)
    requires Searchable(variables, domains, constraints) && Distinct(variables)
    requires Solve(variables, domains, constraints, map[]) == Some(r)
    requires i < |variables| && c in constraints[variables[i]]
    ensures c.sat(Restrict(r, GenericSearch.Elements(variables[..i + 1])))
  {
    var none: map<V, D> := map[];
    SolveSound(variables, domains, constraints, none, r);
    assert none.Keys + GenericSearch.Elements(variables[..i + 1]) == GenericSearch.Elements(variables[..i + 1]);
    assert Satisfies(constraints[variables[i]], Restrict(r, GenericSearch.Elements(variables[..i + 1])));
  }

  /** Each constraint listed under the `i`-th variable accepts the part of `r` that
      assigns the first `i + 1` variables. */
  ghost predicate PrefixesSatisfied<V, D>(variables: seq<V>, constraints: map<V, seq<Constraint<V, D>>>,
                                          r: map<V, D>)
  {
    forall i, c :: 0 <= i < |variables| && variables[i] in constraints && c in constraints[variables[i]] ==>
      c.sat(Restrict(r, GenericSearch.Elements(variables[..i + 1])))
  }

  /** What the search from the empty assignment returns satisfies every constraint on
      the part of it fixed by the time the constraint's variable was assigned. */
  lemma SolutionPrefixes<V, D>(variables: seq<V>, domains: map<V, seq<D>>,
                               constraints: map<V, seq<Constraint<V, D>>>, r: map<V, D>)
    requires Searchable(variables, domains, constraints) && Distinct(variables)
    requires Solve(variables, domains, constraints, map[]) == Some(r)
    ensures PrefixesSatisfied(variables, constraints, r)
  {
    forall i, c | 0 <= i < |variables| && variables[i] in constraints && c in constraints[variables[i]]
      ensures c.sat(Restrict(r, GenericSearch.Elements(variables[..i + 1])))
    {
      SolutionPrefix(variables, domains, constraints, r, i, c);
    }
  }

  /** A variable occurs exactly once in a sequence of distinct entries. */
  lemma {:induction false} DistinctOccurrence<T>(s: seq<T>, v: T)
    requires Distinct(s) && v in s
    ensures multiset(s)[v] == 1
    decreases |s|
  {
    assert s == [s[0]] + s[1..];
    if v == s[0] {
      assert v !in s[1..] by {
        forall j | 0 <= j < |s[1..]|
          ensures s[1..][j] != v
        {
          assert s[1..][j] == s[j + 1];
        }
      }
    } else {
      DistinctOccurrence(s[1..], v);
    }
  }

  /** With distinct variables, the `k`-th variable is not among the first `k`. */
  lemma NotInPrefix<V>(variables: seq<V>, k: nat)
    requires Distinct(variables) && k < |variables|
    ensures variables[k] !in GenericSearch.Elements(variables[..k])
  {
  }

  /** The search from any declaration-order prefix of `s` succeeds when `s` gives every
      variable a value of its domain and satisfies each variable's constraints on the
      first variables up to it: at each level the value `s` chooses is consistent, so
      its branch is tried and succeeds. */
  lemma {:induction false} SolveCompleteFrom<V, D>(variables: seq<V>, domains: map<V, seq<D>>,
                                                   constraints: map<V, seq<Constraint<V, D>>>,
                                                   s: map<V, D>, k: nat)
    requires Searchable(variables, domains, constraints) && Distinct(variables)
    requires forall v :: v in s <==> v in variables
    requires forall v :: v in s ==> s[v] in domains[v]
    requires PrefixesSatisfied(variables, constraints, s)
    requires k <= |variables|
    ensures Within(Restrict(s, GenericSearch.Elements(variables[..k])), variables)
    ensures Solve(variables, domains, constraints, Restrict(s, GenericSearch.Elements(variables[..k]))).Some?
    decreases |variables| - k
  {
    var a := Restrict(s, GenericSearch.Elements(variables[..k]));
    SolveUnfold(variables, domains, constraints, a);
    if |a| != |variables| {
      var first := Unassigned(variables, a)[0];
      var f := UnassignedFirst(variables, a);
      PrefixNext(variables, s, k, f);
      PrefixStepConsistent(variables, constraints, s, k);
      SolveCompleteFrom(variables, domains, constraints, s, k + 1);
      ConsistentBranch(variables, domains, constraints, a, s[first]);
    }
  }

  /** A value of the first unassigned variable that is consistent and whose branch
      succeeds makes the search succeed. */
  lemma ConsistentBranch<V, D>(variables: seq<V>, domains: map<V, seq<D>>,
                               constraints: map<V, seq<Constraint<V, D>>>, a: map<V, D>, x: D)
    requires Searchable(variables, domains, constraints) && Distinct(variables)
    requires Within(a, variables) && |a| != |variables|
    requires Unassigned(variables, a) != []
    requires var first := Unassigned(variables, a)[0];
      && x in domains[first]
      && Satisfies(constraints[first], a[first := x])
      && Within(a[first := x], variables)
      && Solve(variables, domains, constraints, a[first := x]).Some?
    ensures Solve(variables, domains, constraints, a).Some?
  {
    var first := Unassigned(variables, a)[0];
    var i :| 0 <= i < |domains[first]| && domains[first][i] == x;
    SolveUnfold(variables, domains, constraints, a);
    var attempts := Attempts(variables, domains, constraints, a, first);
    assert attempts[i].Some?;
    FirstSomeNone(attempts);
  }

  /** When `s` is restricted to the first `k` variables, the first unassigned variable
      is the `k`-th. */
  lemma PrefixNext<V, D>(variables: seq<V>, s: map<V, D>, k: nat, f: nat)
    requires Distinct(variables) && k <= |variables|
    requires forall v :: v in s <==> v in variables
    requires f < |variables| && variables[f] !in Restrict(s, GenericSearch.Elements(variables[..k]))
    requires forall j :: 0 <= j < f ==> variables[j] in Restrict(s, GenericSearch.Elements(variables[..k]))
    ensures f == k
  {
    var a := Restrict(s, GenericSearch.Elements(variables[..k]));
    forall j | 0 <= j < k
      ensures variables[j] in a
    {
      assert variables[..k][j] == variables[j];
    }
    assert k <= f;
    NotInPrefix(variables, k);
  }

  /** Setting the `k`-th variable to its value in `s` extends the restriction of `s` to
      the first `k` variables to the first `k + 1`, and that extension passes the `k`-th
      variable's constraints. */
  lemma PrefixStepConsistent<V, D>(variables: seq<V>, constraints: map<V, seq<Constraint<V, D>>>,
                                   s: map<V, D>, k: nat)
    requires k < |variables| && variables[k] in constraints
    requires forall v :: v in s <==> v in variables
    requires PrefixesSatisfied(variables, constraints, s)
    ensures var first := variables[k];
      && Restrict(s, GenericSearch.Elements(variables[..k]))[first := s[first]]
         == Restrict(s, GenericSearch.Elements(variables[..k + 1]))
      && Satisfies(constraints[first], Restrict(s, GenericSearch.Elements(variables[..k + 1])))
  {
    var first := variables[k];
    assert variables[..k + 1] == variables[..k] + [first];
    GenericSearch.ElementsPush(variables[..k], first);
    var cs := constraints[first];
    forall j | 0 <= j < |cs|
      ensures cs[j].sat(Restrict(s, GenericSearch.Elements(variables[..k + 1])))
    {
      assert cs[j] in cs;
    }
  }

  /** The search is complete: when some assignment gives every variable a value of its
      domain and satisfies each variable's constraints on the first variables up to it,
      the search from the empty assignment finds a solution. */
  lemma SolveComplete<V, D>(variables: seq<V>, domains: map<V, seq<D>>,
                            constraints: map<V, seq<Constraint<V, D>>>, s: map<V, D>)
    requires Searchable(variables, domains, constraints) && Distinct(variables)
    requires forall v :: v in s <==> v in variables
    requires forall v :: v in s ==> s[v] in domains[v]
    requires PrefixesSatisfied(variables, constraints, s)
    ensures Solve(variables, domains, constraints, map[]).Some?
  {
    SolveCompleteFrom(variables, domains, constraints, s, 0);
    assert Restrict(s, GenericSearch.Elements(variables[..0])) == map[];
  }

  class Csp<V(==), D> {
    const variables: seq<V>
    const domains: map<V, seq<D>>
    var constraints: map<V, seq<Constraint<V, D>>>

    ghost predicate Valid()
      reads this
    {
      WellFormed(variables, domains, constraints)
    }

    constructor Init(variables: seq<V>, domains: map<V, seq<D>>)
      ensures this.variables == variables && this.domains == domains && constraints == map[]
    {
      this.variables := variables;
      this.domains := domains;
      constraints := map[];
    }

    /** The constructor: gives every variable an empty constraint list, and fails with a
        `LookupError` when some variable has no domain. */
    static method Create(variables: seq<V>, domains: map<V, seq<D>>) returns (r: Result<Csp<V, D>, string>)
      ensures r.Failure? <==> exists i :: 0 <= i < |variables| && variables[i] !in domains
      ensures r.Failure? ==> r.error == MissingDomainMessage
      ensures r.Success? ==> fresh(r.value) && r.value.Valid()
      ensures r.Success? ==> r.value.variables == variables && r.value.domains == domains
      ensures r.Success? ==> r.value.constraints == EmptyLists(variables)
    {
      var csp := new Csp.Init(variables, domains);
      for i := 0 to |variables|
        invariant csp.variables == variables && csp.domains == domains
        invariant csp.constraints == EmptyLists(variables[..i])
        invariant forall j :: 0 <= j < i ==> variables[j] in domains
      {
        var variable := variables[i];
        assert variables[..i + 1] == variables[..i] + [variable];
        csp.constraints := csp.constraints[variable := []];
        if variable !in domains {
          return Failure(MissingDomainMessage);
        }
      }
      assert variables[..|variables|] == variables;
      return Success(csp);
    }

    /** Registers `c` under each variable of its scope, in order; stops with a
        `LookupError` at the first scope entry that is not a variable, after registering
        the entries before it. */
    method AddConstraint(c: Constraint<V, D>) returns (r: Result<(), string>)
      requires Valid()
      modifies this
      ensures Valid()
      ensures r.Failure? <==> exists i :: 0 <= i < |c.scope| && c.scope[i] !in variables
      ensures r.Failure? ==> r.error == UnknownVariableMessage
      ensures constraints == Register(old(constraints), c.scope[..KnownPrefix(c.scope, variables)], c)
    {
      for i := 0 to |c.scope|
        invariant constraints.Keys == old(constraints).Keys
        invariant forall j :: 0 <= j < i ==> c.scope[j] in variables
        invariant constraints == Register(old(constraints), c.scope[..i], c)
      {
        var variable := c.scope[i];
        if variable !in variables {
          return Failure(UnknownVariableMessage);
        }
        assert c.scope[..i + 1][..i] == c.scope[..i];
        constraints := constraints[variable := constraints[variable] + [c]];
      }
      assert c.scope[..|c.scope|] == c.scope;
      return Success(());
    }

    /** True when every constraint registered under `variable` accepts `assignment`. */
    method Consistent(variable: V, assignment: map<V, D>) returns (b: bool)
      requires Valid() && variable in variables
      ensures b == Satisfies(constraints[variable], assignment)
    {
      var cs := constraints[variable];
      for i := 0 to |cs|
        invariant forall j :: 0 <= j < i ==> cs[j].sat(assignment)
      {
        if !cs[i].sat(assignment) {
          return false;
        }
      }
      return true;
    }

    /** Recursive backtracking: each value is tried on a copy of `assignment`, so the
        caller's map is left as it was. */
    method BacktrackingSearch(assignment: map<V, D>) returns (r: Option<map<V, D>>)
      requires Valid() && Distinct(variables)
      requires Within(assignment, variables)
      ensures r == Solve(variables, domains, constraints, assignment)
      decreases |variables| - |assignment|, 1
    {
      ValidSearchable(variables, domains, constraints);
      AssignmentSize(variables, assignment);
      SolveUnfold(variables, domains, constraints, assignment);
      if |assignment| == |variables| {
        return Some(assignment);
      }
      var unassigned := Unassigned(variables, assignment);
      var first := unassigned[0];
      var values := domains[first];
      ghost var attempts := Attempts(variables, domains, constraints, assignment, first);
      for k := 0 to |values|
        invariant forall i :: 0 <= i < k ==> attempts[i].None?
      {
        assert attempts[k] == Attempt(variables, domains, constraints, assignment, first, values[k]);
        var result := TryValue(assignment, first, values[k]);
        if result.Some? {
          FirstSomeAt(attempts, k);
          return result;
        }
        NoneSoFar(attempts, k);
      }
      FirstSomeNone(attempts);
      return None;
    }

    /** One pass of the loop in `backtracking_search`: the copy of `assignment` with
        `first` set to `value` is searched further when it is consistent. */
    method TryValue(assignment: map<V, D>, first: V, value: D) returns (r: Option<map<V, D>>)
      requires Valid() && Distinct(variables)
      requires Within(assignment, variables) && first in variables && first !in assignment
      ensures r == Attempt(variables, domains, constraints, assignment, first, value)
      decreases |variables| - |assignment|, 0
    {
      ValidSearchable(variables, domains, constraints);
      var localAssignment := assignment[first := value];
      AssignmentSize(variables, assignment);
      AssignmentSize(variables, localAssignment);
      var ok := Consistent(first, localAssignment);
      if ok {
        r := BacktrackingSearch(localAssignment);
      } else {
        r := None;
      }
    }
  }
}

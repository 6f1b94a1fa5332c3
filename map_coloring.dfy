/** Colouring the map of Australia as a constraint satisfaction problem: one variable
    per region, three colours, and one constraint per pair of neighbouring regions that
    rejects giving both the same colour. */
module MapColoring {
  import opened Wrappers
  import opened Csp
  import GenericSearch

  datatype Place = WA | NT | SA | QL | NSW | VI | TA

  datatype Color = Red | Green | Blue

  /** The string value of each region. */
  function PlaceName(p: Place): (s: string)
    ensures |s| > 0
  {
    match p
    case WA => "westeraustralia"
    case NT => "Northern Territory"
    case SA => "South Australia"
    case QL => "Queesland"
    case NSW => "New South Wales"
    case VI => "Victoria"
    case TA => "Tasmania"
  }

  /** The string value of each colour. */
  function ColorName(c: Color): (s: string)
    ensures |s| > 0
  {
    match c
    case Red => "red"
    case Green => "green"
    case Blue => "blue"
  }

  /** Distinct regions, and distinct colours, have distinct string values. */
  lemma NamesDistinct(p: Place, q: Place, c: Color, d: Color)
    ensures p != q ==> PlaceName(p) != PlaceName(q)
    ensures c != d ==> ColorName(c) != ColorName(d)
  {
    if p != q {
      assert PlaceName(p)[0] != PlaceName(q)[0] || PlaceName(p)[1] != PlaceName(q)[1];
    }
    if c != d {
      assert ColorName(c)[0] != ColorName(d)[0];
    }
  }

  /** The test of the constraint between `place1` and `place2`: it passes while either
      region is uncoloured, and otherwise exactly when their colours differ. */
  predicate Differ(place1: Place, place2: Place, a: map<Place, Color>)
  {
    place1 !in a || place2 !in a || a[place1] != a[place2]
  }

  function MapColoringConstraint(place1: Place, place2: Place): (c: Constraint<Place, Color>)
    ensures c.scope == [place1, place2]
  {
    Constraint([place1, place2], a => Differ(place1, place2, a))
  }

  lemma ConstraintSat(place1: Place, place2: Place, a: map<Place, Color>)
    ensures MapColoringConstraint(place1, place2).sat(a) == Differ(place1, place2, a)
  {
  }

  /** The constraint rejects exactly the assignments that colour both regions alike. */
  lemma ConstraintRejects(place1: Place, place2: Place, a: map<Place, Color>)
    ensures !MapColoringConstraint(place1, place2).sat(a) <==>
            place1 in a && place2 in a && a[place1] == a[place2]
  {
    ConstraintSat(place1, place2, a);
  }

  /** Whether the constraint accepts an assignment depends only on the two regions it
      names: every assignment that agrees with `a` on them gets the same answer. */
  lemma ConstraintLocal(place1: Place, place2: Place, a: map<Place, Color>, b: map<Place, Color>)
    requires place1 in a <==> place1 in b
    requires place2 in a <==> place2 in b
    requires place1 in a ==> a[place1] == b[place1]
    requires place2 in a ==> a[place2] == b[place2]
    ensures MapColoringConstraint(place1, place2).sat(a) == MapColoringConstraint(place1, place2).sat(b)
  {
    ConstraintSat(place1, place2, a);
    ConstraintSat(place1, place2, b);
  }

  const Variables: seq<Place> := [WA, NT, SA, QL, NSW, VI, TA]

  const Colors: seq<Color> := [Red, Green, Blue]

  /** The neighbouring pairs, in the order the program adds their constraints. */
  const Borders: seq<(Place, Place)> :=
    [(WA, NT), (WA, SA), (SA, NT), (QL, NT), (QL, SA), (QL, NSW), (NSW, SA), (VI, SA), (VI, NSW), (VI, TA)]

  /** The position of each region in `Variables`. */
  function Index(p: Place): (i: nat)
    ensures i < |Variables| && Variables[i] == p
  {
    match p
    case WA => 0
    case NT => 1
    case SA => 2
    case QL => 3
    case NSW => 4
    case VI => 5
    case TA => 6
  }

  /** Every region may take any of the three colours. */
  function Domains(): (m: map<Place, seq<Color>>)
    ensures forall p: Place :: p in m
    ensures forall p :: p in m ==> m[p] == Colors
  {
    var m := map p | p in Variables :: Colors;
    assert forall p :: Variables[Index(p)] == p && p in m;
    m
  }

  lemma VariablesDistinct()
    ensures Distinct(Variables)
  {
  }

  /** The constraint between `place1` and `place2` is listed under both regions. */
  ghost predicate Listed(m: map<Place, seq<Constraint<Place, Color>>>, place1: Place, place2: Place)
  {
    && place1 in m && MapColoringConstraint(place1, place2) in m[place1]
    && place2 in m && MapColoringConstraint(place1, place2) in m[place2]
  }

  /** The constraints of the first `k` borders are listed. */
  ghost predicate ListedUpTo(m: map<Place, seq<Constraint<Place, Color>>>, k: nat)
  {
    forall i :: 0 <= i < k && i < |Borders| ==> Listed(m, Borders[i].0, Borders[i].1)
  }

  /** A complete colouring of the map in which no two neighbours share a colour. */
  ghost predicate ProperColoring(a: map<Place, Color>)
  {
    && (forall p: Place :: p in a)
    && (forall i :: 0 <= i < |Borders| ==> a[Borders[i].0] != a[Borders[i].1])
  }

  /** The constraints of the first `k` borders that touch `p`, in the order the borders
      are added. */
  ghost function Touching(p: Place, k: nat): (cs: seq<Constraint<Place, Color>>)
    requires k <= |Borders|
    decreases k
  {
    if k == 0 then []
    else
      var (place1, place2) := Borders[k - 1];
      Touching(p, k - 1) + (if p == place1 || p == place2 then [MapColoringConstraint(place1, place2)] else [])
  }

  /** Every constraint listed for `p` among the first `k` borders is the constraint of
      one of those borders, and `p` lies on that border. */
  lemma {:induction false} TouchingFrom(p: Place, k: nat, c: Constraint<Place, Color>) returns (j: nat)
    requires k <= |Borders| && c in Touching(p, k)
    ensures j < k && c == MapColoringConstraint(Borders[j].0, Borders[j].1)
    ensures p == Borders[j].0 || p == Borders[j].1
    decreases k
  {
    var (place1, place2) := Borders[k - 1];
    if c in Touching(p, k - 1) {
      j := TouchingFrom(p, k - 1, c);
    } else {
      j := k - 1;
    }
  }

  /** Every one of the first `k` borders has its constraint listed for both of its
      regions. */
  lemma {:induction false} TouchingListed(k: nat)
    requires k <= |Borders|
    ensures forall i :: 0 <= i < k ==>
      var (place1, place2) := Borders[i];
      MapColoringConstraint(place1, place2) in Touching(place1, k)
      && MapColoringConstraint(place1, place2) in Touching(place2, k)
    decreases k
  {
    if k > 0 {
      TouchingListed(k - 1);
      forall i | 0 <= i < k
        ensures MapColoringConstraint(Borders[i].0, Borders[i].1) in Touching(Borders[i].0, k)
        ensures MapColoringConstraint(Borders[i].0, Borders[i].1) in Touching(Borders[i].1, k)
      {
        var (place1, place2) := Borders[i];
        var c := MapColoringConstraint(place1, place2);
        if i < k - 1 {
          assert Touching(place1, k - 1) <= Touching(place1, k);
          assert Touching(place2, k - 1) <= Touching(place2, k);
        } else {
          assert Touching(place1, k)[|Touching(place1, k)| - 1] == c;
          assert Touching(place2, k)[|Touching(place2, k)| - 1] == c;
        }
      }
    }
  }

  /** The constraint lists once the first `k` borders are added, one registration
      after the other. */
  ghost function Table(k: nat): (m: map<Place, seq<Constraint<Place, Color>>>)
    requires k <= |Borders|
    ensures forall p: Place :: p in m
    decreases k
  {
    if k == 0 then
      assert forall p: Place :: Variables[Index(p)] == p && p in GenericSearch.Elements(Variables);
      EmptyLists(Variables)
    else
      var (place1, place2) := Borders[k - 1];
      Register(Table(k - 1), [place1, place2], MapColoringConstraint(place1, place2))
  }

  /** After the first `k` borders, each region lists the constraints of exactly those
      borders it lies on, in the order they were added. */
  lemma TableAt(k: nat)
    requires k <= |Borders|
    ensures forall p: Place :: p in Table(k) && Table(k)[p] == Touching(p, k)
  {
    forall p: Place
      ensures p in Table(k) && Table(k)[p] == Touching(p, k)
    {
      TableAtPlace(k, p);
    }
  }

  /** `TableAt` for one region, by induction on the number of borders. */
  lemma {:induction false} TableAtPlace(k: nat, p: Place)
    requires k <= |Borders|
    ensures Table(k)[p] == Touching(p, k)
    decreases k
  {
    if k == 0 {
      TableEmpty(p);
    } else {
      TableAtPlace(k - 1, p);
      TableStep(k, p);
    }
  }

  /** Before any border is added, every region's list is empty. */
  lemma TableEmpty(p: Place)
    ensures Table(0)[p] == []
  {
    assert Variables[Index(p)] == p;
  }

  /** No region borders itself. */
  lemma BorderEnds(k: nat)
    requires k < |Borders|
    ensures Borders[k].0 != Borders[k].1
  {
  }

  /** Registering a constraint over two different regions appends it to the list of
      each of them, and to no other. */
  lemma RegisterPair(m: map<Place, seq<Constraint<Place, Color>>>, place1: Place, place2: Place,
                     c: Constraint<Place, Color>, p: Place)
    requires place1 != place2 && place1 in m && place2 in m && p in m
    ensures Register(m, [place1, place2], c)[p] == m[p] + if p == place1 || p == place2 then [c] else []
  {
    var first := Register(m, [place1], c);
    assert [place1, place2][..1] == [place1] && [place1][..0] == [];
    assert Register(m, [place1][..0], c) == m;
    assert first == m[place1 := m[place1] + [c]];
    assert Register(m, [place1, place2], c) == first[place2 := first[place2] + [c]];
  }

  /** One region's list after the `k`-th border's constraint is registered. */
  lemma TableStep(k: nat, p: Place)
    requires 0 < k <= |Borders|
    requires Table(k - 1)[p] == Touching(p, k - 1)
    ensures Table(k)[p] == Touching(p, k)
  {
    var (place1, place2) := Borders[k - 1];
    BorderEnds(k - 1);
    RegisterPair(Table(k - 1), place1, place2, MapColoringConstraint(place1, place2), p);
  }

  /** The `add_constraint` call of the program's setup for the `k`-th border: the
      constraint between the two neighbours is registered under both, which cannot fail
      since both are variables. */
  method Connect(csp: Csp<Place, Color>, k: nat)
    requires csp.Valid() && csp.variables == Variables
    requires k < |Borders|
    modifies csp
    ensures csp.Valid() && csp.variables == Variables
    ensures csp.constraints == Register(old(csp.constraints), [Borders[k].0, Borders[k].1],
                                        MapColoringConstraint(Borders[k].0, Borders[k].1))
  {
    var (place1, place2) := Borders[k];
    var c := MapColoringConstraint(place1, place2);
    assert Variables[Index(place1)] == place1 && Variables[Index(place2)] == place2;
    var added := csp.AddConstraint(c);
    if added.Failure? {
      assert false;
    }
    assert KnownPrefix(c.scope, Variables) == 2;
    assert c.scope[..2] == [place1, place2];
  }

  /** The program's setup: the seven regions, three colours each, and the ten border
      constraints; each region lists the constraints of exactly the borders it lies on,
      in the order they were added. */
  method Setup() returns (csp: Csp<Place, Color>)
    ensures fresh(csp) && csp.Valid()
    ensures csp.variables == Variables && csp.domains == Domains()
    ensures csp.constraints == Table(|Borders|)
    ensures forall p: Place :: p in csp.constraints && csp.constraints[p] == Touching(p, |Borders|)
  {
    var created := Csp.Create(Variables, Domains());
    if created.Failure? {
      assert false;
    }
    csp := created.value;
    Connect(csp, 0);
    Connect(csp, 1);
    Connect(csp, 2);
    Connect(csp, 3);
    Connect(csp, 4);
    Connect(csp, 5);
    Connect(csp, 6);
    Connect(csp, 7);
    Connect(csp, 8);
    Connect(csp, 9);
    TableAt(|Borders|);
  }

  /** With the lists of all borders, every border is listed for both of its regions. */
  lemma AllListed(constraints: map<Place, seq<Constraint<Place, Color>>>)
    requires forall p: Place :: p in constraints && constraints[p] == Touching(p, |Borders|)
    ensures ListedUpTo(constraints, |Borders|)
  {
    TouchingListed(|Borders|);
  }

  /** Two neighbours of a solution get different colours: the constraint between them is
      listed under whichever of the two comes later among the variables, where the search
      checked it with both coloured. */
  lemma BorderRespected(constraints: map<Place, seq<Constraint<Place, Color>>>, r: map<Place, Color>,
                        place1: Place, place2: Place)
    requires PrefixesSatisfied(Variables, constraints, r)
    requires place1 in r && place2 in r
    requires Listed(constraints, place1, place2)
    ensures r[place1] != r[place2]
  {
    var c := MapColoringConstraint(place1, place2);
    var j := if Index(place1) < Index(place2) then Index(place2) else Index(place1);
    assert c in constraints[Variables[j]];
    var prefix := Variables[..j + 1];
    assert c.sat(Restrict(r, GenericSearch.Elements(prefix)));
    assert prefix[Index(place1)] == place1 && prefix[Index(place2)] == place2;
    RestrictHas(r, prefix, place1);
    RestrictHas(r, prefix, place2);
    ConstraintLocal(place1, place2, Restrict(r, GenericSearch.Elements(prefix)), r);
    ConstraintSat(place1, place2, r);
  }

  /** An assignment of exactly the variables colours every region. */
  lemma EveryPlace(r: map<Place, Color>)
    requires forall k :: k in r <==> k in Variables
    ensures forall p: Place :: p in r
  {
    forall p: Place
      ensures p in r
    {
      assert Variables[Index(p)] == p;
    }
  }

  /** A complete assignment that passes every constraint at the point the search checked
      it, with every border constraint registered, is a proper colouring of the map. */
  lemma SolutionIsProper(constraints: map<Place, seq<Constraint<Place, Color>>>, r: map<Place, Color>)
    requires forall p: Place :: p in r
    requires PrefixesSatisfied(Variables, constraints, r)
    requires ListedUpTo(constraints, |Borders|)
    ensures ProperColoring(r)
  {
    forall i | 0 <= i < |Borders|
      ensures r[Borders[i].0] != r[Borders[i].1]
    {
      BorderRespected(constraints, r, Borders[i].0, Borders[i].1);
    }
  }

  /** A proper colouring passes every border constraint on each part of it. */
  lemma ColoringPrefixes(constraints: map<Place, seq<Constraint<Place, Color>>>, r: map<Place, Color>)
    requires ProperColoring(r)
    requires forall p: Place :: p in constraints && constraints[p] == Touching(p, |Borders|)
    ensures PrefixesSatisfied(Variables, constraints, r)
  {
    forall i, c | 0 <= i < |Variables| && Variables[i] in constraints && c in constraints[Variables[i]]
      ensures c.sat(Restrict(r, GenericSearch.Elements(Variables[..i + 1])))
    {
      var b := Restrict(r, GenericSearch.Elements(Variables[..i + 1]));
      var j := TouchingFrom(Variables[i], |Borders|, c);
      ConstraintSat(Borders[j].0, Borders[j].1, b);
    }
  }

  /** The search is complete on the map: when a proper colouring exists, the search
      from the empty assignment finds a solution. */
  lemma ColoringFound(constraints: map<Place, seq<Constraint<Place, Color>>>, r: map<Place, Color>)
    requires ProperColoring(r)
    requires forall p: Place :: p in constraints && constraints[p] == Touching(p, |Borders|)
    ensures Distinct(Variables) && Searchable(Variables, Domains(), constraints)
    ensures Solve(Variables, Domains(), constraints, map[]).Some?
  {
    VariablesDistinct();
    ColoringPrefixes(constraints, r);
    forall k | k in r
      ensures k in Variables && r[k] in Domains()[k]
    {
      assert Variables[Index(k)] == k;
      assert r[k] == Red || r[k] == Green || r[k] == Blue;
    }
    SolveComplete(Variables, Domains(), constraints, r);
  }

  /** A proper colouring of the map exists: WA, QL and VI red, NT, NSW and TA green, SA
      blue. */
  lemma ColoringExists()
    ensures ProperColoring(map[WA := Red, NT := Green, SA := Blue, QL := Red, NSW := Green, VI := Red, TA := Green])
  {
    var a := map[WA := Red, NT := Green, SA := Blue, QL := Red, NSW := Green, VI := Red, TA := Green];
    forall p: Place
      ensures p in a
    {
      assert p == Variables[Index(p)];
    }
  }

  /** The program's setup and search: since the map can be coloured, it returns a
      colouring of every region with no two neighbours alike. */
  method Australia() returns (solution: Option<map<Place, Color>>)
    ensures solution.Some? && ProperColoring(solution.value)
  {
    var csp := Setup();
    VariablesDistinct();
    solution := csp.BacktrackingSearch(map[]);
    ValidSearchable(csp.variables, csp.domains, csp.constraints);
    ColoringExists();
    ColoringFound(csp.constraints, map[WA := Red, NT := Green, SA := Blue, QL := Red, NSW := Green, VI := Red, TA := Green]);
    SolutionOfEmpty(csp.variables, csp.domains, csp.constraints, solution.value);
    SolutionPrefixes(csp.variables, csp.domains, csp.constraints, solution.value);
    EveryPlace(solution.value);
    AllListed(csp.constraints);
    SolutionIsProper(csp.constraints, solution.value);
  }
}

/** Generic state-space search: LIFO and FIFO frontiers, the parent-linked search
    node, depth-first and breadth-first search, path reconstruction, and linear and
    binary membership search (generic_search.py). */
module GenericSearch {
  import opened Wrappers

  /** A LIFO container; `push` appends and `pop` removes the last element. */
  class Stack<T> {
    var items: seq<T>

    constructor()
      ensures items == []
    {
      items := [];
    }

    /** The `empty` property. */
    function Empty(): (b: bool)
      reads this
      ensures b <==> items == []
    {
      |items| == 0
    }

    method Push(x: T)
      modifies this
      ensures items == old(items) + [x]
    {
      items := items + [x];
    }

    /** Removes and returns the most recently pushed item; the earlier items are kept. */
    method Pop() returns (x: T)
      requires items != []
      modifies this
      ensures old(items) == items + [x]
    {
      x := items[|items| - 1];
      items := items[..|items| - 1];
    }
  }

  /** A FIFO container; `push` appends and `pop` removes the first element. */
  class Queue<T> {
    var items: seq<T>

    constructor()
      ensures items == []
    {
      items := [];
    }

    function Empty(): (b: bool)
      reads this
      ensures b <==> items == []
    {
      |items| == 0
    }

    method Push(x: T)
      modifies this
      ensures items == old(items) + [x]
    {
      items := items + [x];
    }

    /** Removes and returns the earliest pushed item still present. */
    method Pop() returns (x: T)
      requires items != []
      modifies this
      ensures old(items) == [x] + items
    {
      x := items[0];
      items := items[1..];
    }
  }

  /** A client of the two containers: what pushing two items and popping them back shows. */
  method ContainerOrder<T>(x: T, y: T) returns (fromStack: seq<T>, fromQueue: seq<T>)
    ensures fromStack == [y, x]
    ensures fromQueue == [x, y]
  {
    var s := new Stack<T>();
    s.Push(x);
    s.Push(y);
    var a := s.Pop();
    assert [x, y] == s.items + [a];
    assert a == [x, y][1] && s.items == [x, y][..1];
    var b := s.Pop();
    assert [x] == s.items + [b];
    assert b == [x][0];
    var q := new Queue<T>();
    q.Push(x);
    q.Push(y);
    var c := q.Pop();
    assert [x, y] == [c] + q.items;
    assert c == [x, y][0] && q.items == [x, y][1..];
    var d := q.Pop();
    assert [y] == [d] + q.items;
    assert d == [y][0];
    fromStack, fromQueue := [a, b], [c, d];
  }

  /** `linear_contains`: an early-exit scan. */
  method LinearContains<T(==)>(s: seq<T>, key: T) returns (found: bool)
    ensures found <==> key in s
  {
    for i := 0 to |s|
      invariant key !in s[..i]
    {
      if s[i] == key {
        return true;
      }
    }
    return false;
  }

  /** A search node: a state and the node it was discovered from (None at the root).
      Nodes are never updated after creation. */
  datatype Node<T> = Node(state: T, parent: Option<Node<T>>)

  /** The node's parent links form a discovery chain from `initial`: the root holds
      `initial` and every other node holds a successor of its parent's state. */
  ghost predicate IsChain<T>(n: Node<T>, initial: T, successors: T -> seq<T>)
    decreases n
  {
    match n.parent
    case None => n.state == initial
    case Some(p) => n.state in successors(p.state) && IsChain(p, initial, successors)
  }

  /** The states from the root to `n`, in that order. */
  function Path<T>(n: Node<T>): (p: seq<T>)
    ensures |p| >= 1 && p[|p| - 1] == n.state
    decreases n
  {
    match n.parent
    case None => [n.state]
    case Some(q) => Path(q) + [n.state]
  }

  /** Python's in-place `list.reverse()`, as a value. */
  function Reverse<T>(s: seq<T>): (r: seq<T>)
    ensures |r| == |s|
    ensures forall i :: 0 <= i < |s| ==> r[i] == s[|s| - 1 - i]
  {
    if s == [] then [] else [s[|s| - 1]] + Reverse(s[..|s| - 1])
  }

  /** The path of a discovery chain starts at `initial`, ends at the node's state and
      steps from each state to one of its successors. */
  lemma {:induction false} ChainPath<T>(n: Node<T>, initial: T, successors: T -> seq<T>)
    requires IsChain(n, initial, successors)
    ensures Path(n)[0] == initial
    ensures Path(n)[|Path(n)| - 1] == n.state
    ensures forall i :: 0 <= i < |Path(n)| - 1 ==> Path(n)[i + 1] in successors(Path(n)[i])
    decreases n
  {
    match n.parent
    case None =>
    case Some(p) =>
      ChainPath(p, initial, successors);
      var pp := Path(p);
      assert Path(n) == pp + [n.state];
      assert pp[|pp| - 1] == p.state;
  }

  /** `node_to_path`: collects states along the parent links, then reverses them. */
  method NodeToPath<T>(node: Node<T>) returns (path: seq<T>)
    ensures path == Path(node)
  {
    var current := node;
    var collected := [node.state];
    while current.parent.Some?
      invariant |collected| >= 1 && collected[|collected| - 1] == current.state
      invariant Path(node) == Path(current) + Reverse(collected[..|collected| - 1])
      decreases current
    {
      var previous := collected;
      var child := current;
      current := current.parent.value;
      collected := collected + [current.state];
      assert collected[..|collected| - 1] == previous;
      assert previous == previous[..|previous| - 1] + [child.state];
      assert Reverse(previous) == [child.state] + Reverse(previous[..|previous| - 1]);
    }
    assert collected == collected[..|collected| - 1] + [current.state];
    path := Reverse(collected);
  }

  /** Every state of `universe` has all its successors in `universe`. */
  ghost predicate Closed<T>(universe: set<T>, successors: T -> seq<T>)
  {
    forall s, c :: s in universe && c in successors(s) ==> c in universe
  }

  /** The states held by a sequence of nodes. */
  ghost function StatesOf<T>(ns: seq<Node<T>>): set<T>
  {
    if ns == [] then {} else StatesOf(ns[..|ns| - 1]) + {ns[|ns| - 1].state}
  }

  lemma StatesOfPush<T>(ns: seq<Node<T>>, n: Node<T>)
    ensures StatesOf(ns + [n]) == StatesOf(ns) + {n.state}
  {
    assert (ns + [n])[..|ns|] == ns;
  }

  lemma {:induction false} StatesOfFront<T>(n: Node<T>, ns: seq<Node<T>>)
    ensures StatesOf([n] + ns) == {n.state} + StatesOf(ns)
    decreases |ns|
  {
    if ns == [] {
      assert [n] + ns == [n];
      assert [n][..0] == [];
    } else {
      var init := ns[..|ns| - 1];
      StatesOfFront(n, init);
      assert ([n] + ns)[..|ns|] == [n] + init;
    }
  }

  lemma {:induction false} StatesOfContains<T>(ns: seq<Node<T>>, i: int)
    requires 0 <= i < |ns|
    ensures ns[i].state in StatesOf(ns)
    decreases |ns|
  {
    if i < |ns| - 1 {
      StatesOfContains(ns[..|ns| - 1], i);
    }
  }

  /** Adding distinct new elements grows a set by their number. */
  lemma {:induction false} FreshElementsCardinality<T>(s: set<T>, xs: seq<T>)
    requires forall k :: 0 <= k < |xs| ==> xs[k] !in s
    requires forall k, l :: 0 <= k < l < |xs| ==> xs[k] != xs[l]
    ensures |s + Elements(xs)| == |s| + |xs|
    decreases |xs|
  {
    if xs != [] {
      var init := xs[..|xs| - 1];
      var last := xs[|xs| - 1];
      FreshElementsCardinality(s, init);
      assert xs == init + [last];
      ElementsPush(init, last);
      NotInElements(init, last);
      var prev := s + Elements(init);
      assert prev !! {last};
      assert s + Elements(xs) == prev + {last};
    }
  }

  /** A value different from every element of a sequence is not among its elements. */
  lemma NotInElements<T>(xs: seq<T>, x: T)
    requires forall k :: 0 <= k < |xs| ==> xs[k] != x
    ensures x !in Elements(xs)
  {
  }

  /** A strict subset has fewer elements. */
  lemma {:induction false} SubsetCardinality<T>(a: set<T>, b: set<T>)
    requires a <= b
    ensures |a| <= |b|
    ensures a < b ==> |a| < |b|
    decreases |a|
  {
    if a != {} {
      var x :| x in a;
      if a < b {
        var y :| y in b && y !in a;
        assert y in b - {x} && y !in a - {x};
      }
      SubsetCardinality(a - {x}, b - {x});
    } else if a < b {
      var y :| y in b;
    }
  }

  /** Every node of a discovery chain holds a state of any set that contains
      `initial` and is closed under `successors`. */
  lemma {:induction false} ChainInClosedSet<T>(n: Node<T>, initial: T, successors: T -> seq<T>, s: set<T>)
    requires IsChain(n, initial, successors)
    requires initial in s && Closed(s, successors)
    ensures n.state in s
    decreases n
  {
    match n.parent
    case None =>
    case Some(p) =>
      ChainInClosedSet(p, initial, successors, s);
  }

  /** The elements of a sequence, as a set. */
  ghost function Elements<T>(s: seq<T>): set<T>
  {
    set c | c in s
  }

  lemma ElementsPush<T>(s: seq<T>, x: T)
    ensures Elements(s + [x]) == Elements(s) + {x}
  {
  }

  /** The nodes `dfs`/`bfs` create for the successors `states` of `current`. */
  function ChildNodes<T>(states: seq<T>, current: Node<T>): (ns: seq<Node<T>>)
    ensures |ns| == |states|
    ensures forall k :: 0 <= k < |ns| ==> ns[k].state == states[k] && ns[k].parent == Some(current)
  {
    seq(|states|, k requires 0 <= k < |states| => Node(states[k], Some(current)))
  }

  lemma ChildNodesPush<T>(states: seq<T>, x: T, current: Node<T>)
    ensures ChildNodes(states + [x], current) == ChildNodes(states, current) + [Node(x, Some(current))]
  {
  }

  lemma {:induction false} StatesOfChildren<T>(rest: seq<Node<T>>, added: seq<T>, current: Node<T>)
    ensures StatesOf(rest + ChildNodes(added, current)) == StatesOf(rest) + Elements(added)
    decreases |added|
  {
    if added == [] {
      assert rest + ChildNodes(added, current) == rest;
    } else {
      var init := added[..|added| - 1];
      var last := added[|added| - 1];
      StatesOfChildren(rest, init, current);
      assert ChildNodes(added, current) == ChildNodes(init, current) + [Node(last, Some(current))];
      assert rest + ChildNodes(added, current) == (rest + ChildNodes(init, current)) + [Node(last, Some(current))];
      StatesOfPush(rest + ChildNodes(init, current), Node(last, Some(current)));
      assert added == init + [last];
      assert Elements(added) == Elements(init) + {last};
    }
  }

  lemma {:induction false} WeightChildren<T>(rest: seq<Node<T>>, added: seq<T>, current: Node<T>,
                                            explored: set<T>, successors: T -> seq<T>)
    requires forall k :: 0 <= k < |added| ==> added[k] !in explored
    ensures Weight(rest + ChildNodes(added, current), explored, successors)
      == Weight(rest, explored, successors) + |added|
    decreases |added|
  {
    if added == [] {
      assert rest + ChildNodes(added, current) == rest;
    } else {
      var init := added[..|added| - 1];
      var last := added[|added| - 1];
      WeightChildren(rest, init, current, explored, successors);
      assert ChildNodes(added, current) == ChildNodes(init, current) + [Node(last, Some(current))];
      assert rest + ChildNodes(added, current) == (rest + ChildNodes(init, current)) + [Node(last, Some(current))];
      WeightPush(rest + ChildNodes(init, current), Node(last, Some(current)), explored, successors);
    }
  }

  /** The inner loop of `dfs`: every successor not yet explored is marked explored
      and then pushed as a child of `current`. The ghost result `added` lists the
      states pushed, in order. */
  method PushUnexplored<T(==)>(frontier: Stack<Node<T>>, current: Node<T>, children: seq<T>, explored: set<T>)
    returns (newExplored: set<T>, ghost added: seq<T>)
    modifies frontier
    ensures frontier.items == old(frontier.items) + ChildNodes(added, current)
    ensures newExplored == explored + Elements(added)
    ensures forall c :: c in children ==> c in newExplored
    ensures forall k :: 0 <= k < |added| ==> added[k] in children && added[k] !in explored
    ensures |newExplored| == |explored| + |added|
  {
    newExplored, added := explored, [];
    for i := 0 to |children|
      invariant frontier.items == old(frontier.items) + ChildNodes(added, current)
      invariant newExplored == explored + Elements(added)
      invariant forall j :: 0 <= j < i ==> children[j] in newExplored
      invariant forall k :: 0 <= k < |added| ==> added[k] in children && added[k] !in explored
      invariant forall k, l :: 0 <= k < l < |added| ==> added[k] != added[l]
    {
      var child := children[i];
      if child !in newExplored {
        ElementsPush(added, child);
        ChildNodesPush(added, child, current);
        newExplored := newExplored + {child};
        added := added + [child];
        frontier.Push(Node(child, Some(current)));
      }
    }
    FreshElementsCardinality(explored, added);
  }

  /** What holds between iterations of `dfs`: every queued node is a discovery chain
      whose state is explored; an explored state is either expanded or queued; an
      expanded state failed the goal test and all its successors are explored; and
      each pop matches one explored state. */
  ghost predicate DfsInvariant<T>(items: seq<Node<T>>, explored: set<T>, expanded: set<T>, expansions: nat,
                                  initial: T, goalTest: T -> bool, successors: T -> seq<T>, universe: set<T>)
  {
    && explored <= universe && initial in explored
    && (forall i :: 0 <= i < |items| ==> IsChain(items[i], initial, successors))
    && (forall i :: 0 <= i < |items| ==> items[i].state in explored)
    && explored == expanded + StatesOf(items)
    && (forall e, c :: e in expanded && c in successors(e) ==> c in explored)
    && (forall e :: e in expanded ==> !goalTest(e))
    && expansions + |items| == |explored|
  }

  /** One iteration of `dfs` keeps `DfsInvariant` and either explores a new state or
      shrinks the stack. */
  lemma DfsStep<T>(rest: seq<Node<T>>, current: Node<T>, added: seq<T>, items: seq<Node<T>>,
                   explored0: set<T>, explored: set<T>, expanded: set<T>, expansions: nat,
                   initial: T, goalTest: T -> bool, successors: T -> seq<T>, universe: set<T>)
    requires DfsInvariant(rest + [current], explored0, expanded, expansions, initial, goalTest, successors, universe)
    requires Closed(universe, successors)
    requires !goalTest(current.state)
    requires items == rest + ChildNodes(added, current)
    requires explored == explored0 + Elements(added)
    requires forall c :: c in successors(current.state) ==> c in explored
    requires forall k :: 0 <= k < |added| ==> added[k] in successors(current.state) && added[k] !in explored0
    requires |explored| == |explored0| + |added|
    ensures DfsInvariant(items, explored, expanded + {current.state}, expansions + 1,
                         initial, goalTest, successors, universe)
    ensures |universe - explored| < |universe - explored0| || (explored == explored0 && |items| < |rest| + 1)
  {
    var before := rest + [current];
    assert before[..|before| - 1] == rest;
    assert current == before[|before| - 1];
    assert forall i :: 0 <= i < |rest| ==> rest[i] == before[i];
    ChildChains(rest, current, added, initial, successors);
    DfsStepSets(rest, current, added, explored0, explored, expanded, universe, successors);
    forall i | 0 <= i < |items|
      ensures items[i].state in explored
    {
      StatesOfContains(items, i);
    }
  }

  /** The set and counting part of one `dfs` iteration: the popped state moves to the
      expanded set, the pushed children join the explored set, and the unexplored part
      of `universe` shrinks whenever a child is pushed. */
  lemma DfsStepSets<T>(rest: seq<Node<T>>, current: Node<T>, added: seq<T>,
                       explored0: set<T>, explored: set<T>, expanded: set<T>, universe: set<T>, successors: T -> seq<T>)
    requires explored0 <= universe && current.state in universe && Closed(universe, successors)
    requires explored0 == expanded + StatesOf(rest + [current])
    requires rest == (rest + [current])[..|rest|]
    requires explored == explored0 + Elements(added)
    requires forall k :: 0 <= k < |added| ==> added[k] in successors(current.state) && added[k] !in explored0
    ensures explored <= universe
    ensures explored == expanded + {current.state} + StatesOf(rest + ChildNodes(added, current))
    ensures |universe - explored| < |universe - explored0| || (explored == explored0 && added == [])
  {
    StatesOfPush(rest, current);
    StatesOfChildren(rest, added, current);
    UnionShift(explored0, expanded, StatesOf(rest), current.state, Elements(added));
    ElementsWithin(added, successors(current.state), universe);
    if added != [] {
      assert added[0] in Elements(added);
      Shrink(universe, explored0, explored, added[0]);
    } else {
      assert Elements(added) == {};
    }
  }

  /** Moving one state from the queued part to the expanded part of the explored set. */
  lemma UnionShift<T>(explored0: set<T>, expanded: set<T>, queued: set<T>, x: T, news: set<T>)
    requires explored0 == expanded + (queued + {x})
    ensures explored0 + news == (expanded + {x}) + (queued + news)
  {
  }

  /** A sequence whose every element is a successor of a state of a closed set
      stays within that set. */
  lemma ElementsWithin<T>(xs: seq<T>, next: seq<T>, universe: set<T>)
    requires forall k :: 0 <= k < |xs| ==> xs[k] in next
    requires forall c :: c in next ==> c in universe
    ensures Elements(xs) <= universe
  {
    forall c | c in Elements(xs)
      ensures c in universe
    {
      var k :| 0 <= k < |xs| && xs[k] == c;
    }
  }

  /** Exploring one more state of `universe` leaves fewer unexplored. */
  lemma Shrink<T>(universe: set<T>, explored0: set<T>, explored: set<T>, x: T)
    requires explored0 <= explored <= universe
    requires x in explored && x !in explored0
    ensures |universe - explored| < |universe - explored0|
  {
    assert x in universe - explored0 && x !in universe - explored;
    SubsetCardinality(universe - explored, universe - explored0);
  }

  /** Pushing the children of a popped chain keeps every queued node a discovery chain
      whose state is explored. */
  lemma ChildChains<T>(rest: seq<Node<T>>, current: Node<T>, added: seq<T>, initial: T, successors: T -> seq<T>)
    requires IsChain(current, initial, successors)
    requires forall i :: 0 <= i < |rest| ==> IsChain(rest[i], initial, successors)
    requires forall k :: 0 <= k < |added| ==> added[k] in successors(current.state)
    ensures forall i :: 0 <= i < |rest + ChildNodes(added, current)| ==>
      IsChain((rest + ChildNodes(added, current))[i], initial, successors)
  {
    var items := rest + ChildNodes(added, current);
    forall i | 0 <= i < |items|
      ensures IsChain(items[i], initial, successors)
    {
      if i < |rest| {
        assert items[i] == rest[i];
      } else {
        assert items[i] == Node(added[i - |rest|], Some(current));
      }
    }
  }

  /** `dfs` starts with the root alone on the stack and explored. */
  lemma DfsStart<T>(initial: T, goalTest: T -> bool, successors: T -> seq<T>, universe: set<T>)
    requires initial in universe
    ensures DfsInvariant([Node(initial, None)], {initial}, {}, 0, initial, goalTest, successors, universe)
  {
    assert [Node(initial, None)][..0] == [];
  }

  /** The node `dfs` pops is a discovery chain, and counting it keeps the number of
      pops within the number of states. */
  lemma DfsFound<T>(items: seq<Node<T>>, explored: set<T>, expanded: set<T>, expansions: nat,
                    initial: T, goalTest: T -> bool, successors: T -> seq<T>, universe: set<T>)
    requires DfsInvariant(items, explored, expanded, expansions, initial, goalTest, successors, universe)
    requires items != []
    ensures IsChain(items[|items| - 1], initial, successors)
    ensures expansions + 1 <= |universe|
  {
    SubsetCardinality(explored, universe);
  }

  /** When `dfs` empties its stack, the explored states are closed under `successors`
      and none is a goal, so no discovery chain reaches a goal. */
  lemma DfsExhausted<T>(explored: set<T>, expanded: set<T>, expansions: nat,
                        initial: T, goalTest: T -> bool, successors: T -> seq<T>, universe: set<T>)
    requires DfsInvariant([], explored, expanded, expansions, initial, goalTest, successors, universe)
    ensures forall n :: IsChain(n, initial, successors) ==> !goalTest(n.state)
    ensures expansions <= |universe|
  {
    SubsetCardinality(explored, universe);
    forall n | IsChain(n, initial, successors)
      ensures !goalTest(n.state)
    {
      ChainInClosedSet(n, initial, successors, explored);
    }
  }

  /** `dfs`: a stack frontier, and every child is marked explored before it is pushed,
      so no state is pushed twice. `universe` is a finite set of states closed under
      `successors`; it stands for the finiteness the loop needs to stop. The ghost
      result `expansions` counts the nodes popped: at most one per state. */
  method Dfs<T(==)>(initial: T, goalTest: T -> bool, successors: T -> seq<T>, ghost universe: set<T>)
    returns (r: Option<Node<T>>, ghost expansions: nat)
    requires initial in universe && Closed(universe, successors)
    ensures goalTest(initial) ==> r == Some(Node(initial, None))
    ensures r.Some? ==> goalTest(r.value.state) && IsChain(r.value, initial, successors)
    ensures r.None? ==> forall n :: IsChain(n, initial, successors) ==> !goalTest(n.state)
    ensures expansions <= |universe|
  {
    var frontier := new Stack<Node<T>>();
    frontier.Push(Node(initial, None));
    var explored := {initial};
    ghost var expanded: set<T> := {};
    expansions := 0;
    DfsStart(initial, goalTest, successors, universe);
    while !frontier.Empty()
      invariant DfsInvariant(frontier.items, explored, expanded, expansions, initial, goalTest, successors, universe)
      invariant goalTest(initial) ==> frontier.items == [Node(initial, None)]
      decreases |universe - explored|, |frontier.items|
    {
      ghost var before := frontier.items;
      var current := frontier.Pop();
      ghost var rest := frontier.items;
      if goalTest(current.state) {
        DfsFound(before, explored, expanded, expansions, initial, goalTest, successors, universe);
        return Some(current), expansions + 1;
      }
      ghost var explored0 := explored;
      ghost var added;
      explored, added := PushUnexplored(frontier, current, successors(current.state), explored);
      DfsStep(rest, current, added, frontier.items, explored0, explored, expanded, expansions,
              initial, goalTest, successors, universe);
      expanded := expanded + {current.state};
      expansions := expansions + 1;
    }
    DfsExhausted(explored, expanded, expansions, initial, goalTest, successors, universe);
    return None, expansions;
  }

  /** The termination measure of `bfs`: a queued node whose state is already explored
      may still push each of its successors once, a node whose state is not explored
      pushes nothing without first marking its state explored. */
  ghost function Weight<T>(ns: seq<Node<T>>, explored: set<T>, successors: T -> seq<T>): nat
  {
    if ns == [] then 0
    else
      var last := ns[|ns| - 1];
      Weight(ns[..|ns| - 1], explored, successors)
        + (if last.state in explored then 1 + |successors(last.state)| else 1)
  }

  lemma WeightPush<T>(ns: seq<Node<T>>, n: Node<T>, explored: set<T>, successors: T -> seq<T>)
    ensures Weight(ns + [n], explored, successors)
      == Weight(ns, explored, successors) + (if n.state in explored then 1 + |successors(n.state)| else 1)
  {
    assert (ns + [n])[..|ns|] == ns;
  }

  lemma {:induction false} WeightFront<T>(n: Node<T>, ns: seq<Node<T>>, explored: set<T>, successors: T -> seq<T>)
    ensures Weight([n] + ns, explored, successors)
      == (if n.state in explored then 1 + |successors(n.state)| else 1) + Weight(ns, explored, successors)
    decreases |ns|
  {
    if ns == [] {
      assert [n] + ns == [n];
      assert [n][..0] == [];
    } else {
      var init := ns[..|ns| - 1];
      WeightFront(n, init, explored, successors);
      assert ([n] + ns)[..|ns|] == [n] + init;
    }
  }

  /** The inner loop of `bfs` as written: for each successor not in `explored`, the
      expanded state `current.state` (not the successor) is added to `explored`, and
      the successor is queued. A successor equal to `current.state` is skipped once
      that state has been added. */
  method EnqueueUnexplored<T(==)>(frontier: Queue<Node<T>>, current: Node<T>, children: seq<T>, explored: set<T>)
    returns (newExplored: set<T>, ghost added: seq<T>)
    modifies frontier
    ensures frontier.items == old(frontier.items) + ChildNodes(added, current)
    ensures newExplored == if added == [] then explored else explored + {current.state}
    ensures forall c :: c in children ==> c in explored || c in added || c == current.state
    ensures forall k :: 0 <= k < |added| ==> added[k] in children && added[k] !in explored
    ensures |added| <= |children|
  {
    newExplored, added := explored, [];
    for i := 0 to |children|
      invariant frontier.items == old(frontier.items) + ChildNodes(added, current)
      invariant newExplored == if added == [] then explored else explored + {current.state}
      invariant forall c :: c in children[..i] ==> c in explored || c in added || c == current.state
      invariant forall k :: 0 <= k < |added| ==> added[k] in children[..i] && added[k] !in explored
      invariant |added| <= i
    {
      var child := children[i];
      assert children[..i + 1] == children[..i] + [child];
      if child !in newExplored {
        newExplored := newExplored + {current.state};
        assert ChildNodes(added + [child], current) == ChildNodes(added, current) + [Node(child, Some(current))];
        added := added + [child];
        frontier.Push(Node(child, Some(current)));
      }
    }
  }

  /** What holds between iterations of `bfs`: `seen` (the states ever queued) holds
      every explored state and is the expanded states plus the queued ones; every
      queued node is a discovery chain; an expanded state failed the goal test and all
      its successors were queued at some point. */
  ghost predicate BfsInvariant<T>(items: seq<Node<T>>, explored: set<T>, seen: set<T>, expanded: set<T>,
                                  initial: T, goalTest: T -> bool, successors: T -> seq<T>, universe: set<T>)
  {
    && explored <= seen <= universe && initial in explored
    && (forall i :: 0 <= i < |items| ==> IsChain(items[i], initial, successors))
    && seen == expanded + StatesOf(items)
    && (forall e, c :: e in expanded && c in successors(e) ==> c in seen)
    && (forall e :: e in expanded ==> !goalTest(e))
  }

  /** One iteration of `bfs` keeps `BfsInvariant` and either explores a new state or
      lowers the queue's `Weight`. */
  lemma BfsStep<T>(current: Node<T>, rest: seq<Node<T>>, added: seq<T>, items: seq<Node<T>>,
                   explored0: set<T>, explored: set<T>, seen: set<T>, expanded: set<T>,
                   initial: T, goalTest: T -> bool, successors: T -> seq<T>, universe: set<T>)
    requires BfsInvariant([current] + rest, explored0, seen, expanded, initial, goalTest, successors, universe)
    requires Closed(universe, successors)
    requires !goalTest(current.state)
    requires items == rest + ChildNodes(added, current)
    requires explored == if added == [] then explored0 else explored0 + {current.state}
    requires forall c :: c in successors(current.state) ==> c in explored0 || c in added || c == current.state
    requires forall k :: 0 <= k < |added| ==> added[k] in successors(current.state) && added[k] !in explored0
    requires |added| <= |successors(current.state)|
    ensures BfsInvariant(items, explored, seen + Elements(added), expanded + {current.state},
                         initial, goalTest, successors, universe)
    ensures || |universe - explored| < |universe - explored0|
            || (explored == explored0 &&
                Weight(items, explored, successors) < Weight([current] + rest, explored0, successors))
  {
    var before := [current] + rest;
    assert current == before[0];
    assert forall i :: 0 <= i < |rest| ==> rest[i] == before[i + 1];
    ChildChains(rest, current, added, initial, successors);
    BfsStepSets(current, rest, added, explored0, explored, seen, expanded, universe, successors);
  }

  /** The set and measure part of one `bfs` iteration: the popped state moves to the
      expanded set, the queued children join `seen`, and either the popped state is
      newly explored or the queue's `Weight` drops. */
  lemma BfsStepSets<T>(current: Node<T>, rest: seq<Node<T>>, added: seq<T>,
                       explored0: set<T>, explored: set<T>, seen: set<T>, expanded: set<T>,
                       universe: set<T>, successors: T -> seq<T>)
    requires explored0 <= seen <= universe && Closed(universe, successors)
    requires seen == expanded + StatesOf([current] + rest)
    requires explored == if added == [] then explored0 else explored0 + {current.state}
    requires forall k :: 0 <= k < |added| ==> added[k] in successors(current.state) && added[k] !in explored0
    requires |added| <= |successors(current.state)|
    ensures explored <= seen + Elements(added) <= universe
    ensures seen + Elements(added) == expanded + {current.state} + StatesOf(rest + ChildNodes(added, current))
    ensures || |universe - explored| < |universe - explored0|
            || (explored == explored0 &&
                Weight(rest + ChildNodes(added, current), explored, successors)
                  < Weight([current] + rest, explored0, successors))
  {
    StatesOfFront(current, rest);
    StatesOfChildren(rest, added, current);
    UnionShift(seen, expanded, StatesOf(rest), current.state, Elements(added));
    assert current.state in seen;
    ElementsWithin(added, successors(current.state), universe);
    if current.state in explored && current.state !in explored0 {
      Shrink(universe, explored0, explored, current.state);
    } else {
      assert explored == explored0;
      WeightFront(current, rest, explored0, successors);
      WeightChildren(rest, added, current, explored0, successors);
    }
  }

  /** `bfs`: a queue frontier. As written, the loop adds the expanded state to
      `explored`, not the child, so a state can be queued more than once; the model
      keeps that. `seen` (ghost) is the set of states ever queued. */
  method Bfs<T(==)>(initial: T, goalTest: T -> bool, successors: T -> seq<T>, ghost universe: set<T>)
    returns (r: Option<Node<T>>)
    requires initial in universe && Closed(universe, successors)
    ensures goalTest(initial) ==> r == Some(Node(initial, None))
    ensures r.Some? ==> goalTest(r.value.state) && IsChain(r.value, initial, successors)
    ensures r.None? ==> forall n :: IsChain(n, initial, successors) ==> !goalTest(n.state)
  {
    var frontier := new Queue<Node<T>>();
    frontier.Push(Node(initial, None));
    var explored := {initial};
    ghost var seen := {initial};
    ghost var expanded: set<T> := {};
    assert [Node(initial, None)][..0] == [];
    while !frontier.Empty()
      invariant BfsInvariant(frontier.items, explored, seen, expanded, initial, goalTest, successors, universe)
      invariant goalTest(initial) ==> frontier.items == [Node(initial, None)]
      decreases |universe - explored|, Weight(frontier.items, explored, successors)
    {
      ghost var before := frontier.items;
      var current := frontier.Pop();
      ghost var rest := frontier.items;
      if goalTest(current.state) {
        assert current == before[0];
        return Some(current);
      }
      ghost var explored0 := explored;
      ghost var added;
      explored, added := EnqueueUnexplored(frontier, current, successors(current.state), explored);
      BfsStep(current, rest, added, frontier.items, explored0, explored, seen, expanded,
              initial, goalTest, successors, universe);
      seen := seen + Elements(added);
      expanded := expanded + {current.state};
    }
    forall n | IsChain(n, initial, successors)
      ensures !goalTest(n.state)
    {
      ChainInClosedSet(n, initial, successors, seen);
    }
    return None;
  }

  /** `lt` is a strict total order: what the `Comparable` protocol asks of `<`. */
  ghost predicate IsStrictTotalOrder<T(!new)>(lt: (T, T) -> bool)
  {
    && (forall x, y :: lt(x, y) ==> !lt(y, x))
    && (forall x, y, z :: lt(x, y) && lt(y, z) ==> lt(x, z))
    && (forall x, y :: x != y ==> lt(x, y) || lt(y, x))
  }

  /** Ascending order under `lt`, duplicates allowed. */
  ghost predicate SortedBy<T>(s: seq<T>, lt: (T, T) -> bool)
  {
    forall i, j :: 0 <= i < j < |s| ==> !lt(s[j], s[i])
  }

  /** `binary_contains` over a `Comparable` sequence; `>` is derived from `<` and `==`
      as the protocol defines it. */
  method BinaryContains<T(==,!new)>(s: seq<T>, key: T, lt: (T, T) -> bool) returns (found: bool)
    requires IsStrictTotalOrder(lt)
    requires SortedBy(s, lt)
    ensures found <==> key in s
  {
    var low, high := 0, |s| - 1;
    while low <= high
      invariant 0 <= low <= high + 1 <= |s|
      invariant forall i :: 0 <= i < low ==> lt(s[i], key)
      invariant forall i :: high < i < |s| ==> lt(key, s[i])
      decreases high - low
    {
      var mid := (low + high) / 2;
      if lt(s[mid], key) {
        low := mid + 1;
      } else if !lt(s[mid], key) && s[mid] != key {
        high := mid - 1;
      } else {
        return true;
      }
    }
    return false;
  }
}

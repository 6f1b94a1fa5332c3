# Classic computer-science problems, modelled and verified in Dafny

This project models a set of small Python programs that solve classic problems:

- a generic search library: a LIFO stack, a FIFO queue, linear and binary membership search, depth-first and breadth-first search over parent-linked nodes, and path reconstruction;
- a backtracking constraint-satisfaction solver, with two instances: the eight queens and the colouring of the map of Australia;
- the missionaries-and-cannibals state space;
- a grid maze, solved with the generic depth-first and breadth-first searches;
- two-bit compression of DNA strings into one big integer;
- codon search in a gene;
- six Fibonacci variants;
- the towers of Hanoi;
- a one-time pad.

Each Python file becomes one Dafny module, in a file of the same name:

- `Wrappers` holds the `Option`/`Result` types.
- `PythonInt` holds the few facts about Python's unbounded integers that the compression and encryption modules share: powers of two, `>>` and `int.bit_length`.

Classes whose methods update fields in place stay classes:

- `Stack`, `Queue`, `CSP`, `Maze`, `CompressedGene`;
- the module-level memo table of `fib3`.

Loops stay loops with invariants. Some loop methods are proved equal to a reference function, and the properties are then proved about that function: `NodeToPath`, `Compress`, `Decompress`, `StringToGene`, `Fib3` and the backtracking search. The others state their properties directly in their contracts: `Dfs`, `Bfs`, both `LinearContains`, both `BinaryContains` and `Hanoi`. The search functions `dfs`/`bfs` are proved sound and complete over any finite state space closed under the successor function. The backtracking search is proved equal to a recursive reference `Csp.Solve`. Its solutions satisfy every constraint along the variable order, and it is complete: it fails only when no assignment does.

## Model

| member | source | states |
|---|---|---|
| GenericSearch.Stack.Empty | generic_search.py:30-32 | `empty` is true exactly when nothing is stored |
| GenericSearch.Stack.Push | generic_search.py:34-35 | the item is appended on top; nothing else changes |
| GenericSearch.Stack.Pop | generic_search.py:37-38 | returns the most recently pushed item and leaves the earlier items as they were (LIFO) |
| GenericSearch.Queue.Empty | generic_search.py:48-50 | `empty` is true exactly when nothing is stored |
| GenericSearch.Queue.Push | generic_search.py:52-53 | the item is appended at the back |
| GenericSearch.Queue.Pop | generic_search.py:55-56 | returns the earliest pushed item still present and keeps the rest in order (FIFO) |
| GenericSearch.ContainerOrder | generic_search.py:21-59 | pushing x then y, a stack gives back y, x and a queue gives back x, y |
| GenericSearch.LinearContains | generic_search.py:62-66 | the early-exit scan returns true iff the key occurs in the sequence |
| GenericSearch.Path | generic_search.py:69-89 | the states along the parent links, root first, end at the node's own state |
| GenericSearch.Reverse | generic_search.py:189 | element i of the result is element n-1-i of the input |
| GenericSearch.NodeToPath | generic_search.py:174-190 | the loop that appends along the parent links and then reverses yields `Path(node)` |
| GenericSearch.ChainPath | generic_search.py:174-190 | for a node reached by search, the path starts at the initial state, ends at the node's state, and each next state is a successor of the one before |
| GenericSearch.ChainInClosedSet | generic_search.py:95-138 | every state reachable from the initial state stays inside a state set closed under `successors` |
| GenericSearch.PushUnexplored | generic_search.py:133-137 | the inner loop of `dfs` pushes one child node per unexplored child, marks each as explored before pushing, and leaves every child explored |
| GenericSearch.DfsStep | generic_search.py:127-137 | one expansion keeps the search invariant: frontier nodes are chains from the initial state, explored states are those expanded or queued, no expanded state is a goal, and the unexplored part of the state space shrinks |
| GenericSearch.DfsExhausted | generic_search.py:127-138 | when the frontier runs empty, no state reachable from the initial state passes the goal test |
| GenericSearch.Dfs | generic_search.py:95-138 | a goal initial state returns the root node; a returned node passes the goal test and is a chain of successors from the initial state; `None` means no reachable state is a goal; at most one expansion per distinct state |
| GenericSearch.EnqueueUnexplored | generic_search.py:166-170 | the inner loop of `bfs` queues one child node per unexplored child and adds the expanded state, not the child, to `explored` |
| GenericSearch.BfsStep | generic_search.py:161-170 | one expansion keeps the breadth-first invariant, and the explored set grows or the frontier's weight drops, even though a child may be queued twice |
| GenericSearch.Bfs | generic_search.py:141-171 | same guarantees as `Dfs` for the breadth-first search: root for a goal initial state, goal and chain for a returned node, no reachable goal for `None` |
| GenericSearch.BinaryContains | generic_search.py:209-220 | on a sequence ascending under a strict total order, returns true iff the key occurs; `mid` stays in range |
| Csp.EmptyLists | csp.py:48-50 | the initial constraint table has one empty list per variable |
| Csp.Register | csp.py:62-66 | appending a constraint to the lists of its scope keeps the table's keys |
| Csp.RegisterEffect | csp.py:62-66 | after `add_constraint`, a variable's list is its old list followed by one copy of the constraint per occurrence of the variable in the scope |
| Csp.RegisterContains | csp.py:62-66 | every variable of the scope has the constraint in its list afterwards |
| Csp.RegisterKeeps | csp.py:62-66 | constraints already listed stay listed |
| Csp.RegisterOnce | csp.py:62-66 | over a scope of distinct variables, each scope variable's list gains exactly one copy of the constraint |
| Csp.Csp.Create | csp.py:34-52 | fails with the `LookupError` message iff some variable has no domain; otherwise a CSP with the given variables and domains and an empty list per variable |
| Csp.Csp.AddConstraint | csp.py:54-66 | registers the constraint for the scope variables in order up to the first one the CSP does not know, and fails with the `LookupError` message iff there is such a variable |
| Csp.Csp.Consistent | csp.py:68-83 | true iff every constraint listed for the variable is satisfied by the assignment |
| Csp.Unassigned | csp.py:102 | the list comprehension keeps exactly the variables with no value |
| Csp.UnassignedOrder | csp.py:102 | the kept variables appear in declaration order: they sit at strictly increasing positions of the variable list |
| Csp.UnassignedDistinct | csp.py:102 | with distinct variables, no variable is kept twice |
| Csp.UnassignedFirst | csp.py:102-103 | the first unassigned variable is preceded only by assigned variables |
| Csp.Attempts | csp.py:106-114 | one attempt per domain value of the first unassigned variable, in domain order |
| Csp.FirstSomeNone | csp.py:106-115 | the loop over values returns `None` iff every attempt failed |
| Csp.FirstSomeAt | csp.py:113-114 | the loop returns the first successful attempt |
| Csp.SolveUnfold | csp.py:98-115 | a complete assignment is returned as it is; otherwise the result is the first successful attempt on the first unassigned variable |
| Csp.SolveNone | csp.py:106-115 | the search fails iff every value of the first unassigned variable fails |
| Csp.SolveSound | csp.py:85-115 | a returned assignment extends the given one, gives every variable a value of its domain, and satisfies each variable's constraints on the prefix of the variable order assigned when that variable was set |
| Csp.SolutionOfEmpty | csp.py:85-115 | a solution from the empty assignment gives exactly the CSP's variables a value, each from its domain |
| Csp.SolutionLast | csp.py:85-115 | a solution satisfies every constraint of the last variable in full |
| Csp.SolutionPrefixes | csp.py:85-115 | a solution satisfies every constraint of variable i on its restriction to the first i+1 variables |
| Csp.SolveCompleteFrom | csp.py:98-115 | from the first k variables of a satisfying complete assignment, the search succeeds: the value that assignment picks for the next variable is consistent, so its branch is tried |
| Csp.SolveComplete | csp.py:85-115 | the search from the empty assignment succeeds whenever some assignment gives each variable a value of its domain and satisfies each variable's constraints on the variables up to it |
| Csp.Csp.BacktrackingSearch | csp.py:85-115 | the recursive search with its loop over domain values returns `Solve` of the current assignment |
| Csp.Csp.TryValue | csp.py:107-114 | one value: copy the assignment, extend it, recurse only if consistent |
| Queens.QueenSat | queens.py:10-30 | the queen constraint holds iff no two assigned queens, the second one's column at most the number of columns, share a row or a diagonal |
| Queens.SatisfiedIff | queens.py:10-30 | on columns up to n, the nested loop accepts exactly the non-attacking placements |
| Queens.SameRowRejected | queens.py:26-27 | two queens in one row are rejected |
| Queens.SameDiagonalRejected | queens.py:28-29 | two queens on one diagonal are rejected |
| Queens.FewQueensAccepted | queens.py:21-30 | an assignment of at most one queen is accepted |
| Queens.BeyondBoardIgnored | queens.py:23 | a queen in a column beyond the board is never compared, so an attacking pair can be accepted |
| Queens.Board | queens.py:34 | the columns are 1 to n in order |
| Queens.Rows | queens.py:35-37 | every column's domain is the rows 1 to n |
| Queens.PlacementFrom | queens.py:34-40 | a complete assignment with rows in range that satisfies the queen constraint is a non-attacking placement of n queens |
| Queens.Setup | queens.py:34-39 | the CSP has columns 1..n, rows 1..n for each, and every column's list is exactly the one queen constraint |
| Queens.QueenTable | queens.py:39 | registering the queen constraint over all columns of empty lists lists it exactly once under each column |
| Queens.PlacementPrefixes | queens.py:10-30 | a non-attacking placement passes the queen constraint on every prefix of the columns |
| Queens.PlacementFound | queens.py:34-40 | when a non-attacking placement of n queens exists, the search from the empty assignment succeeds |
| Queens.NQueens | queens.py:34-40 | any solution found places one queen per column, in range, with no two attacking; no solution is found only when no such placement exists |
| Queens.EightQueensExist | queens.py:33-40 | eight non-attacking queens can be placed |
| Queens.EightQueens | queens.py:33-40 | the program's eight-queens run finds a solution, and it is a valid placement |
| MapColoring.PlaceName | map_coloring.py:6-13 | each region's string value is non-empty |
| MapColoring.NamesDistinct | map_coloring.py:6-19 | different regions and different colours have different string values |
| MapColoring.ConstraintSat | map_coloring.py:28-32 | the border constraint holds iff either region is unassigned or their colours differ |
| MapColoring.ConstraintRejects | map_coloring.py:28-32 | the constraint fails exactly when both regions are coloured alike |
| MapColoring.ConstraintLocal | map_coloring.py:22-32 | the constraint depends only on the two regions it names |
| MapColoring.Domains | map_coloring.py:46-48 | every region may take red, green or blue |
| MapColoring.TouchingFrom | map_coloring.py:51-60 | every constraint in a region's list is the constraint of a border that region lies on |
| MapColoring.TouchingListed | map_coloring.py:51-60 | every border's constraint is in the lists of both its regions |
| MapColoring.TableAt | map_coloring.py:50-60 | after the first k `add_constraint` calls, each region's list holds exactly the constraints of those borders it lies on, in the order added |
| MapColoring.RegisterPair | csp.py:62-66 | registering a constraint over two different regions appends it once to each of their lists and changes no other list |
| MapColoring.TableStep | map_coloring.py:51-60 | one more `add_constraint` call extends each region's list by the new border's constraint exactly when the region lies on it |
| MapColoring.Connect | map_coloring.py:51-60 | one `add_constraint` call cannot fail, keeps the CSP valid, and its new table is the old one with the border's constraint registered for both regions |
| MapColoring.Setup | map_coloring.py:36-60 | the CSP has the seven regions, three colours each, and each region's list is exactly the constraints of its borders, in the order added |
| MapColoring.BorderRespected | map_coloring.py:28-32 | in a solution, the two regions of every listed border have different colours |
| MapColoring.SolutionIsProper | map_coloring.py:36-62 | a complete solution colours neighbouring regions differently |
| MapColoring.ColoringPrefixes | map_coloring.py:28-32 | a proper colouring passes every listed border constraint on every prefix of the regions |
| MapColoring.ColoringFound | map_coloring.py:35-62 | when a proper colouring exists, the search from the empty assignment succeeds |
| MapColoring.ColoringExists | map_coloring.py:35-62 | the map of Australia can be coloured with three colours |
| MapColoring.Australia | map_coloring.py:35-62 | the program's run finds a solution, and it is a proper colouring of all seven regions |
| Missionaries.MakeState | missionaries.py:15-20 | the east bank holds whoever is not on the west bank |
| Missionaries.LegalIff | missionaries.py:29-35 | a state is illegal iff missionaries are present and outnumbered on some bank |
| Missionaries.LegalStates | missionaries.py:29-35 | with both banks in range, a state is legal iff the west bank has no missionaries, all of them, or as many as cannibals |
| Missionaries.GoalIff | missionaries.py:37-38 | the goal is everyone on the east bank |
| Missionaries.Candidates | missionaries.py:56-79 | at most five crossings are tried, each moving one or two people with the boat, a crossing being tried when the boat's bank has enough of each kind that crosses |
| Missionaries.KeepLegal | missionaries.py:81 | the filter keeps exactly the legal states, and no more states than it was given |
| Missionaries.Successors | missionaries.py:40-81 | every successor is legal, balanced, has the boat on the other bank and moves one or two people, each kind that crosses taken from the boat's bank, which had that many |
| Missionaries.SuccessorsExact | missionaries.py:40-81 | a state is a successor iff it is balanced, legal and one crossing away, where only the kinds that cross are checked against the boat's bank (so it holds also for balanced states with a negative count) |
| Missionaries.MissionaryCrossingsOnly | missionaries.py:57-81 | from west-bank counts (5, -1) the successors are exactly the two missionary crossings, (3, -1) and (4, -1): each guard looks only at the kind that crosses |
| Missionaries.CannibalCrossingsOnly | missionaries.py:57-81 | from west-bank counts (-1, 2) the successors are exactly the two cannibal crossings, (-1, 0) and (-1, 1) |
| Missionaries.SuccessorsInRange | missionaries.py:40-81 | successors of an in-range state are in range |
| Missionaries.StartState | missionaries.py:116 | the start state, everyone on the west bank, is in range and legal and not the goal |
| Maze.Symbol | maze.py:11-16 | no cell's character is a newline, so each grid row prints as one line |
| Maze.Maze.constructor | maze.py:30-47 | all cells empty except the given blocked ones, then start and goal stamped |
| Maze.Maze.GoalTest | maze.py:55-66 | true exactly at the goal location |
| Maze.AroundIff | maze.py:68-84 | the four candidate moves are exactly the locations one step away |
| Maze.NeighboursIff | maze.py:68-84 | a location is a successor iff it is inside the grid, not blocked and one step away |
| Maze.Maze.Successors | maze.py:68-84 | the four guarded appends, down, up, right, left, give the open neighbours in that order |
| Maze.Maze.Mark | maze.py:86-90 | every cell on the path becomes a path cell, then start and goal are restored |
| Maze.Maze.Clear | maze.py:92-96 | every cell on the path becomes empty, then start and goal are restored |
| Maze.ClearAfterMark | maze.py:86-96 | on a clean cell that is open wherever the path passes, clearing after marking restores it |
| Maze.Maze.MarkThenClear | maze.py:158-160 | marking and then clearing a path of open cells leaves the grid exactly as it was |
| Maze.RenderLayout | maze.py:98-102 | row r of the text is the row's symbols followed by a newline, at offset r times (columns + 1) |
| Maze.Maze.ToString | maze.py:98-102 | the text lays out every row in order |
| Maze.ManhattanDistance | maze.py:128-145 | the distance is never negative and is zero exactly at the goal |
| Maze.ManhattanSymmetric | maze.py:140-143 | the distance from a to b equals the distance from b to a |
| Maze.ManhattanStep | maze.py:140-143 | one step changes the distance by exactly one |
| Maze.CellsClosed | maze.py:68-84 | the set of in-bounds cells is closed under `successors`, which bounds the searches |
| Maze.Search | maze.py:151-153 | the search run on the maze returns a chain of moves from start to goal, or `None` only when no chain reaches the goal |
| Maze.SolveWith | maze.py:151-171 | a path found runs from start to goal through open, adjacent cells, and the grid is unchanged after marking and clearing |
| Maze.Run | maze.py:148-171 | the program's run on a 10 by 10 maze: both searches' paths go from (0, 0) to (9, 9), and a search that finds none leaves (9, 9) unreachable from (0, 0) |
| TrivialCompression.Code | trivial_compression.py:28-35 | A, C, G, T get the codes 0 to 3, and no other character gets one |
| TrivialCompression.Pack | trivial_compression.py:24-37 | compression succeeds iff every character of the upper-cased gene is a nucleotide; a failure names a character of the gene that is not one |
| TrivialCompression.PackFirstInvalid | trivial_compression.py:36-37 | the error reports the first invalid character |
| TrivialCompression.PackDigits | trivial_compression.py:24-37 | n nucleotides give 2n+1 bits: the sentinel on top, and pair j from the bottom holding the code of the j-th nucleotide from the end |
| TrivialCompression.Letters | trivial_compression.py:41-52 | letter j read from the bottom is the nucleotide of bit pair j |
| TrivialCompression.RoundTrip | trivial_compression.py:80-81 | decompressing a compressed gene gives back the upper-cased gene |
| TrivialCompression.EmptyGene | trivial_compression.py:24-55 | the empty gene compresses to the sentinel alone and decompresses to the empty string |
| TrivialCompression.CompressedGene.Compress | trivial_compression.py:24-37 | the loop leaves `bit_string` equal to `Pack` of the upper-cased gene, or returns the `ValueError` message for the first invalid character |
| TrivialCompression.CompressedGene.Decompress | trivial_compression.py:39-55 | the loop over bit pairs, reversed, equals `Unpack` of `bit_string` |
| TrivialCompression.Create | trivial_compression.py:21-22 | construction succeeds iff every upper-cased character is a nucleotide |
| TrivialCompression.CompressDecompress | trivial_compression.py:69-81 | the program's check: for every valid gene, the decompressed string equals the upper-cased original |
| DnaSearch.Lookup | dna_search.py:4 | looking up a character succeeds iff it is A, C, G or T |
| DnaSearch.Parse | dna_search.py:9-16 | a successful parse has one codon per complete group of three characters; a failure names a character that is not a nucleotide |
| DnaSearch.ParseCodons | dna_search.py:11-15 | codon k is made of characters 3k, 3k+1 and 3k+2 |
| DnaSearch.ParseFails | dna_search.py:11-15 | parsing fails iff some character of a complete codon is not a nucleotide; a trailing one or two characters are ignored |
| DnaSearch.StringToGene | dna_search.py:9-16 | the loop with its early return equals `Parse` |
| DnaSearch.LessOrder | dna_search.py:4-5 | tuple comparison of codons by nucleotide value is a strict total order |
| DnaSearch.LinearContains | dna_search.py:19-23 | true iff the codon occurs in the gene |
| DnaSearch.BinaryContains | dna_search.py:26-37 | on a sorted gene, true iff the codon occurs |
| Fib.Fib2 | fib.py:11-14 | below 2 the argument itself; never negative for a non-negative argument |
| Fib.Fib4Agrees | fib.py:23-37 | the recursion with its calls swapped computes the same numbers as `fib2` |
| Fib.FibMemo.constructor | fib.py:4 | the memo table starts as {0: 0, 1: 1} |
| Fib.FibMemo.Fib3 | fib.py:17-20 | returns `fib2(n)`, and leaves every entry of the table correct, with 0 to n present, no entry lost and no key other than 0 to n added |
| Fib.Fib5 | fib.py:40-61 | `fib2(n)` for n >= 0, and 1 for every negative n |
| Fib.Fib6 | fib.py:64-82 | yields [0] for 0, fib(1) to fib(n) for positive n, and nothing for negative n |
| Hanoi.Hanoi | hanoi.py:25-46 | the top n discs of `begin` end up on top of `end` in the same order, `temp` is as before, no disc is lost, in `Moves(n)` moves |
| Hanoi.MovesClosedForm | hanoi.py:41-46 | the number of moves is 2^n - 1 |
| Hanoi.ThreeDiscs | hanoi.py:49-60 | the program's run: towers A and B end empty and C holds 1, 2, 3 |
| PythonInt.BitLengthBounds | trivial_compression.py:42 | a number with b binary digits (`int.bit_length`) lies in [2^(b-1), 2^b) |
| UnbreakableEncryption.FromBytes | unbreakable_encryption.py:37 | the big-endian value of n bytes is below 2^(8n) |
| UnbreakableEncryption.ToBytes | unbreakable_encryption.py:58 | succeeds iff the value fits in the byte count, and then has that many bytes and the value |
| UnbreakableEncryption.XorCommutative | unbreakable_encryption.py:57 | XOR does not depend on operand order |
| UnbreakableEncryption.XorCancel | unbreakable_encryption.py:27-29 | XOR-ing twice with the same key gives the original back |
| UnbreakableEncryption.XorBound | unbreakable_encryption.py:36-38 | XOR of two m-bit numbers has m bits, so the ciphertext is no longer than the plaintext |
| UnbreakableEncryption.ByteLength | unbreakable_encryption.py:58 | `(bit_length + 7) // 8` bytes hold the value, and none of them is a leading zero byte |
| UnbreakableEncryption.Encrypt | unbreakable_encryption.py:19-39 | XOR-ing the two outputs, in either order, gives the plaintext's integer; both fit in the plaintext's byte length |
| UnbreakableEncryption.Decrypt | unbreakable_encryption.py:42-58 | the bytes have the value of the two keys XOR-ed, with no leading zero byte |
| UnbreakableEncryption.DecryptSymmetric | unbreakable_encryption.py:57 | decryption does not depend on the order of the keys |
| UnbreakableEncryption.StripLeadingZeros | unbreakable_encryption.py:58 | the result is a suffix of the input that drops only zero bytes and does not start with one |
| UnbreakableEncryption.MinimalUnique | unbreakable_encryption.py:58 | two byte strings without a leading zero and with equal value are equal |
| UnbreakableEncryption.RoundTrip | unbreakable_encryption.py:19-59 | for any key of the plaintext's length, decrypting the encryption gives the plaintext without its leading zero bytes |
| UnbreakableEncryption.RoundTripExact | unbreakable_encryption.py:19-59 | the round trip is exact iff the plaintext is empty or its first byte is not zero |
| UnbreakableEncryption.OneTimePad | unbreakable_encryption.py:62-65 | the program's run: whatever key is drawn, "One Time Pad!" comes back unchanged |

## Left out

- Printing is not modelled: every `__main__` block's output, `__repr__`/`__str__` of the containers and states, `display_soulution`, and the `getsizeof` report. The demo runs are kept as methods or lemmas about their results.
- The maze's random fill (`random.uniform`) is not modelled. The constructor takes the set of blocked cells as a parameter instead.
- `random_key` is not modelled, because it draws from `secrets.token_bytes`. `Encrypt` takes the key bytes as a parameter, with the plaintext's length.
- `UnbreakableEncryption.Encrypt`: the plaintext is given as bytes, so the UTF-8 `str.encode` is not modelled.
- `UnbreakableEncryption.Decrypt`: returns the bytes, so the UTF-8 `bytes.decode` (which can fail) is not modelled.
- A* search, the priority queue, the float `cost`/`heuristic` fields of `Node` and `Node.__lt__` are not modelled. `astar` is not part of this model: the search library defines no such function. The other searches do not use these fields. Because maze.py:6 imports `astar` from the search library, which does not define it, the maze program as written stops with an ImportError before any maze is built; `Maze.Run` models the run the program is evidently meant to make.
- `euclidean_distance` is not modelled, because it computes a floating-point square root.
- `calculationg_pi.py` is not modelled, because it is a floating-point series.
- `fib1` is not modelled, because it has no base case and never returns.
- `fib4`'s `lru_cache` is not modelled. It changes only speed, so `Fib4` is the plain recursion.
- `Fib.FibMemo.Fib3`: requires n >= 0. A negative n is never in the table, so the Python recursion does not end.
- `Fib.FibMemo.Fib3`: the module-level dict is modelled as the field of one `FibMemo` object.
- `Hanoi.Hanoi`: requires n >= 1 and at least n discs on `begin`. For n < 1 the Python recursion never reaches its base case, and with fewer discs `pop` raises `IndexError`.
- Hanoi: its own `Stack` class is modelled by `GenericSearch.Stack`, which behaves the same (append and pop at the end).
- `Maze.Maze.constructor`: requires start and goal inside the grid. Python would accept negative indices, which count from the end.
- `Maze.Maze.Successors`: requires the location to be inside the grid. Python accepts any location; it can raise `IndexError` or wrap around on a negative index.
- `Maze.Maze.Mark`, `Maze.Maze.Clear`: require the path inside the grid, for the same reason.
- `Maze.Maze.MarkThenClear`: stated only for paths through open cells of a grid holding no path marks. A path through a blocked cell would not be restored.
- `Maze.Run`: the third search (A* with the Manhattan heuristic) is not modelled. `ManhattanDistance` is modelled with its properties.
- `GenericSearch.Dfs`, `GenericSearch.Bfs`: termination is proved only for state spaces inside a finite set closed under `successors`. This is given as a ghost parameter; Python may run forever on an infinite space.
- `GenericSearch.Bfs`: does not state that the path returned is a shortest one. That would need a further invariant on the frontier: depths never decrease along the queue and span at most one level. The invariant would have to be carried through the duplicate queueing of generic_search.py:169 (`bfs` marks the expanded state, not the child, as explored), next to the termination measure. It is not part of this model. The proved guarantees (goal, chain, no reachable goal on `None`) do not depend on it.
- The missionaries program's breadth-first run is not modelled. `MCState` defines no equality, so Python's explored set compares states by identity. The engine's guarantees are stated generically in `GenericSearch`, and the successor function in `Missionaries`.
- `Csp.Csp.BacktrackingSearch`: requires the CSP's variables to be distinct and the assignment to use only its variables. With a repeated variable, `len(assignment)` never reaches `len(variables)`, and Python fails with `IndexError` on an empty `unassigned` list.
- `Csp.Constraint`: the abstract class is a datatype holding its scope and a total predicate on assignments, so a constraint's `satisfiled` cannot fail.
- `Queens.BeyondBoardIgnored`: documents that `satisfiled` compares a queen only with columns up to `len(columns)`, as written. The program's own columns are 1 to 8, so this never shows there.
- `TrivialCompression.UpperChar`: upper-cases only the ASCII letters. Python's `str.upper` also maps other Unicode letters.
- `TrivialCompression.CompressedGene.Compress`: the left shift by two and the OR of the code are written as multiplication by 4 and addition. The two low bits are zero after the shift, so these are the same on non-negative integers.
- `TrivialCompression.CompressedGene.Decompress`: the "Invalid bits" branch cannot be reached (a value masked with 3 is below 4), so it is not modelled.
- `DnaSearch.Parse`: the `KeyError` of `Nucleotide[...]` is modelled as a failure naming the offending character.
- The DNA program's demo run, on its 57-character gene string, is not stated as a lemma. The general parsing and search contracts cover it.
- `DnaSearch.LinearContains`: delegates to `GenericSearch.LinearContains`, which has the same loop.
- `Missionaries.KeepLegal`: its contract states which states are kept, not that they keep their input order.

# Maximal cliques and clustering coefficients of an undirected graph

A Dafny model of the graph core of a small Python program. The program reads a social network of 62 dolphins and then:

- builds a symmetric adjacency list from an edge list;
- enumerates all maximal cliques twice with the Bron–Kerbosch backtracking search (Bron and Kerbosch, CACM 16(9), Algorithm 457), once with a random pivot and once without;
- computes the mean local clustering coefficient.

Modules, one per component:

- `Graphs` (`graphs.dfy`): the graph as `seq<set<nat>>` on vertices `0 .. n-1`. Also the vocabulary used throughout: `Adjacent`, `Undirected`, `LoopFree`, `IsClique`, `Candidates` (the vertices that extend a set) and `IsMaximalClique`.
- `Adjacency` (`adjacency.dfy`): the edge loop. `EdgeGraph` is the reference definition: b is a neighbour of a exactly when the list holds `(a, b)` or `(b, a)`. `BuildAdjacency` is the incremental loop, proved to compute `EdgeGraph`.
- `BronKerbosch` (`bron_kerbosch.dfy`): both searches, written as recursive functions over the state `(P, R, X)` that return the set of reported cliques.
  - Each search is split into a function per call and a function per loop.
  - `Plain` is the search without a pivot.
  - `PivotingAsWritten` is the pivoted search exactly as the source writes it. `Pivoting` is the corrected version (see Findings).
  - The pivot is a caller-supplied `PivotRule` that must pick from `P + X`. It stands in for `random.choice`.
  - The order in which a loop visits a set is an arbitrary but fixed choice (`Graphs.Pick`).
  - The main results: `Plain` and `Pivoting`, from a state satisfying the invariant, report exactly the maximal cliques that extend `R` using vertices of `P`. So from `(all vertices, {}, {})` each reports exactly the maximal cliques of the graph, whatever the pivot rule.
  - `PivotingAsWritten` reports exactly the same on graphs without self-loops. On any symmetric graph it reports exactly the maximal cliques that hold no vertex with a self-loop (see Findings).
  - The source's three top levels are `BronKerboschWithoutPivoting`, `BronKerboschWithPivotingAsWritten`, and `BronKerboschWithPivotingCorrected` (the same top level over `Pivoting`). Each runs the search from the first call and shifts every clique to one-based numbering.
- `Clustering` (`clustering.dfy`): local and global coefficients as exact reals, with the numerator as a set of ordered pairs.
- `Scenarios` (`scenarios.dfy`): a triangle plus an isolated vertex, a path, a star, the complete graph on four vertices, and a looped vertex beside an isolated one, each worked through the general lemmas.
- `Wrappers` (`wrappers.dfy`): `Result`, for the two exceptions the core can raise.

Behaviour of the code that the model keeps:

- An edge `(k, k)` is accepted as a self-loop. Both appends of the edge loop add k to k's own list, so k is listed twice. The model stores neighbours as a set and lists k once (see `LocalCoefficient` under "Left out").
- An out-of-range endpoint raises Python's `IndexError` at the first such edge. `BuildAdjacency` returns `Failure(IndexError(i))` for that edge.
- A vertex with no neighbours is a maximal clique on its own and is reported. On a triangle plus an isolated vertex, every variant reports `{1, 2, 3}` and `{4}` (`Scenarios.TriangleReported`).
- `clustering_coefficient` divides by the vertex count even when it is 0. `GlobalCoefficient` returns `Failure(ZeroDivisionError)` for the empty graph.

## Model

| member | source | states |
|---|---|---|
| Graphs.Vertices | main.py:60 | the initial candidate set holds exactly the vertices `0 .. n-1`, and there are n of them |
| Adjacency.BuildAdjacency | main.py:30-32 | succeeds exactly when every endpoint is a vertex. On success it returns the graph the edge list describes (`EdgeGraph`). On failure it names the first edge with an out-of-range endpoint |
| Adjacency.AppendEdge | main.py:31-32 | processing one more edge `(a, b)` adds b to a's neighbours and a to b's, and changes nothing else |
| Adjacency.EdgeGraphUndirected | main.py:30-32 | the constructed adjacency is symmetric and in range: b is a neighbour of a exactly when a is a neighbour of b |
| Adjacency.EdgeGraphHasEveryEdge | main.py:30-32 | every listed edge is present in both directions |
| Adjacency.EdgeGraphLoopFreeIff | main.py:30-32 | the constructed graph has no self-loop exactly when no edge joins a vertex to itself |
| Adjacency.EdgeOrderIrrelevant | main.py:30-32 | two edge lists with the same edges, in any order and with any repetition, build the same graph |
| BronKerbosch.Plain | main.py:68-81 | every clique the plain search reports from `(P, R, X)` contains R and adds only vertices of P |
| BronKerbosch.PlainLoop | main.py:72-81 | every clique the pop-and-recurse loop reports contains R, adds only vertices of P, and takes at least one vertex of P |
| BronKerbosch.BranchingAsWritten | main.py:44-48 | the branching set is always a subset of P, for any pivot in `P ∪ X` |
| BronKerbosch.BranchingAvoidsClique | main.py:44-48 | on a symmetric graph no member of R is ever branched on, because the pivot is adjacent to all of R |
| BronKerbosch.PivotingAsWritten | main.py:40-57 | every clique the pivoted search as written reports contains R and adds only vertices of P. It terminates on every symmetric graph, self-loops included, because `P - R` shrinks |
| BronKerbosch.PivotingLoopAsWritten | main.py:48-57 | every clique the loop over the branching set B reports contains R, adds only vertices of P, and takes a vertex of B |
| BronKerbosch.Branching | main.py:44-48 | the corrected branching set is a subset of P, and it keeps the pivot when the pivot is a candidate |
| BronKerbosch.Pivoting | main.py:40-57 | every clique the corrected pivoted search reports contains R and adds only vertices of P |
| BronKerbosch.PivotingLoop | main.py:48-57 | every clique the corrected loop reports contains R, adds only vertices of P, and takes a vertex of the branching set |
| BronKerbosch.InitialState | main.py:60-61 | the first call `(all vertices, {}, {})` satisfies the search invariant |
| BronKerbosch.ChildState | main.py:73-79 | the recursive call after `P.pop()`, `((P - {v}) ∩ adj(v), R ∪ {v}, X ∩ adj(v))`, keeps the invariant: R stays a clique, and P and X stay disjoint and together are exactly the vertices adjacent to all of R. The pivoted call at main.py:54 is the same call on graphs without self-loops |
| BronKerbosch.MoveState | main.py:56-57 | moving the tried vertex v from P to X keeps the invariant |
| BronKerbosch.SearchDepth | main.py:72-81 | R, P and X together hold at most n vertices. Each recursive call adds a vertex to R, so the recursion is at most n deep |
| BronKerbosch.StopExactlyAtMaximal | main.py:41-42 | R is reported exactly when P and X are empty, and then R is a maximal clique; it is the only maximal extension of R that takes no vertex of P |
| BronKerbosch.ThroughVertex | main.py:73-79 | the maximal extensions of R within P that contain v are exactly the maximal extensions of R ∪ {v} within v's other neighbours in P, the candidates of the call after `P.pop()`. The pivoted call at main.py:54 has the same candidates when v has no self-loop |
| BronKerbosch.AvoidingVertex | main.py:56-57 | the maximal extensions that avoid v but meet the branching set are exactly those searched after v is removed from P and from the branching set |
| BronKerbosch.PivotNeverMisses | main.py:44-48 | for any pivot in `P ∪ X`, every maximal extension of R within P contains a vertex of the corrected branching set `P - (adj(u) - {u})`, so pruning by the pivot loses no clique |
| BronKerbosch.AsWrittenPivotNeverMisses | main.py:44-48 | for any pivot in `P ∪ X`, every maximal extension of R within P that holds no looped vertex contains a vertex of the branching set as written, `P - adj(u)` |
| BronKerbosch.PlainExact | main.py:68-81 | from a state satisfying the invariant, the plain search reports exactly the maximal cliques that contain R and add only vertices of P |
| BronKerbosch.PlainLoopExact | main.py:72-81 | the loop reports exactly those maximal extensions that take at least one vertex of P |
| BronKerbosch.PivotingExact | main.py:40-57 | the corrected pivoted search reports exactly the maximal cliques that contain R and add only vertices of P, for every pivot rule |
| BronKerbosch.PivotingLoopExact | main.py:48-57 | the loop over a branching set B reports exactly the maximal extensions of R within P that take a vertex of B |
| BronKerbosch.AsWrittenAgreesWhenLoopFree | main.py:40-57 | on a graph without self-loops the pivoted search as written and the corrected one report the same cliques |
| BronKerbosch.LoopAsWrittenAgreesWhenLoopFree | main.py:48-57 | on a graph without self-loops the two branching loops report the same cliques |
| BronKerbosch.PlainFindsAllMaximalCliques | main.py:84-85 | the plain search reports a set exactly when it is a maximal clique of the graph |
| BronKerbosch.PivotingFindsAllMaximalCliques | main.py:60-61 | the corrected pivoted search reports a set exactly when it is a maximal clique, whatever the pivot rule |
| BronKerbosch.AsWrittenFindsAllMaximalCliquesWhenLoopFree | main.py:60-61 | on a graph without self-loops the pivoted search as written reports a set exactly when it is a maximal clique |
| BronKerbosch.AsWrittenChildSound | main.py:54 | the pivoted recursive call as written keeps the weaker invariant even with self-loops: R ∪ {v} is a clique, and every vertex that extends it is in `P ∩ adj(v)` or `X ∩ adj(v)` |
| BronKerbosch.AsWrittenSound | main.py:40-57 | on any symmetric graph, self-loops included, every set the pivoted search as written reports from a state keeping the weaker invariant is a maximal clique |
| BronKerbosch.LoopAsWrittenSound | main.py:48-57 | the same for every set the loop over the branching set reports |
| BronKerbosch.LoopedChild | main.py:54 | the pivoted recursive call as written keeps every looped vertex of R ∪ {v} in its candidate set, v included |
| BronKerbosch.AsWrittenSkipsLooped | main.py:40-57 | when every looped vertex of R is still in P, no set the pivoted search as written reports holds a vertex with a self-loop |
| BronKerbosch.LoopAsWrittenSkipsLooped | main.py:48-57 | the same for the loop over the branching set |
| BronKerbosch.AsWrittenComplete | main.py:40-57 | from a state keeping the invariant with no looped vertex in R, the pivoted search as written reports every maximal extension of R within P that holds no looped vertex |
| BronKerbosch.LoopAsWrittenComplete | main.py:48-57 | the loop over the branching set as written reports every such extension that takes a vertex of the branching set |
| BronKerbosch.ChildComplete | main.py:54 | when v has no self-loop, the pivoted recursive call as written reports every maximal extension of R ∪ {v} within v's other neighbours in P that holds no looped vertex |
| BronKerbosch.AsWrittenReportsExactlyLoopFreeMaximalCliques | main.py:60-61 | on any symmetric graph, from the first call, the pivoted search as written reports a set exactly when it is a maximal clique holding no vertex with a self-loop |
| BronKerbosch.AsWrittenReportsOnlyLoopFreeMaximalCliques | main.py:60-61 | from the first call, the pivoted search as written reports only maximal cliques, and none of them holds a vertex with a self-loop |
| BronKerbosch.SelfLoopMissedAsWritten | main.py:44-54 | on the one-vertex graph with a self-loop, `{0}` is a maximal clique. The plain and corrected searches report it, and the pivoted search as written reports nothing |
| BronKerbosch.OneBased | main.py:62 | the one-based form of a clique holds v + 1 exactly for the members v, and never 0 |
| BronKerbosch.ZeroBased | main.py:27 | the zero-based form holds j - 1 exactly for the positive members j |
| BronKerbosch.ZeroBasedUndoesOneBased | main.py:62 | shifting a clique to one-based numbering and back gives the clique back |
| BronKerbosch.OneBasedUndoesZeroBased | main.py:27 | a set without 0 is the one-based shift of its zero-based form |
| BronKerbosch.BronKerboschWithPivotingAsWritten | main.py:39-62 | the source's pivoted top level: the search as written from `(all vertices, {}, {})`, each clique shifted to one-based numbering; no reported set holds 0 |
| BronKerbosch.BronKerboschWithPivotingCorrected | main.py:39-62 | the same top level over the corrected search; no reported set holds 0 |
| BronKerbosch.BronKerboschWithoutPivoting | main.py:67-86 | the source's plain top level, shifted to one-based numbering; no reported set holds 0 |
| BronKerbosch.WithoutPivotingReportsMaximalCliques | main.py:84-86 | the plain variant's one-based output is exactly the shifted maximal cliques |
| BronKerbosch.WithPivotingCorrectedReportsMaximalCliques | main.py:59-62 | the corrected pivoted top level's one-based output is exactly the shifted maximal cliques, for every pivot rule |
| BronKerbosch.PivotIrrelevant | main.py:11-12 | the corrected pivoted top level and the plain one report the same cliques, whatever pivot rule is used |
| BronKerbosch.WithPivotingAsWrittenReportsOnlyMaximalCliques | main.py:59-62 | on any symmetric graph the pivoted top level as written reports only shifted maximal cliques, none holding a vertex with a self-loop |
| BronKerbosch.WithPivotingAsWrittenReportsLoopFreeMaximalCliques | main.py:59-62 | on any symmetric graph the pivoted top level as written reports exactly the shifted maximal cliques that hold no vertex with a self-loop |
| BronKerbosch.AsWrittenPivotIrrelevantWhenLoopFree | main.py:11-12 | on a graph without self-loops the pivoted top level as written and the plain one report the same cliques, whatever pivot rule is used |
| Clustering.LocalCoefficient | main.py:96-104 | the local coefficient is never negative |
| Clustering.LocalSum | main.py:94-105 | the running sum of local coefficients is never negative |
| Clustering.GlobalCoefficient | main.py:91-107 | fails exactly on the graph with no vertices; otherwise returns a non-negative mean |
| Clustering.RowSize | main.py:101 | the pairs `(x, y)` for a fixed x are as many as the choices of y |
| Clustering.DistinctPairsSize | main.py:101-103 | there are exactly `k(k-1)` ordered pairs of distinct neighbours, which is the denominator |
| Clustering.LinkedPairsAreDistinct | main.py:101-102 | without self-loops, every counted pair joins two distinct neighbours |
| Clustering.LinkedPairsBound | main.py:100-103 | the numerator is at most `k(k-1)`, and equals it exactly when the neighbours are pairwise adjacent |
| Clustering.LocalCoefficientAtMostOne | main.py:99-104 | without self-loops, the local coefficient is at most 1 |
| Clustering.LocalCoefficientOneIff | main.py:99-104 | without self-loops, the local coefficient is 1 exactly when the vertex has at least two neighbours and they form a clique |
| Clustering.LocalCoefficientZeroIff | main.py:99-104 | the local coefficient is 0 exactly when the vertex has at most one neighbour or no two of its neighbours are adjacent |
| Clustering.LocalSumAtMost | main.py:94-105 | without self-loops, the sum over m vertices is at most m, and equals m exactly when each of those local coefficients is 1 |
| Clustering.LocalSumZero | main.py:94-105 | the sum over m vertices is 0 exactly when each of those local coefficients is 0 |
| Clustering.GlobalCoefficientAtMostOne | main.py:107 | without self-loops, the global coefficient of a non-empty graph lies in [0, 1] |
| Clustering.GlobalCoefficientOneIff | main.py:107 | without self-loops, the mean of a non-empty graph is 1 exactly when every local coefficient is 1 |
| Clustering.GlobalCoefficientZeroIff | main.py:107 | the mean is 0 exactly when every local coefficient is 0 |
| Scenarios.PathFromEdges | main.py:30-32 | the edges 1–2 and 2–3 build the path in which vertex 2 neighbours both ends |
| Scenarios.TriangleCoefficient | main.py:91-107 | a triangle plus an isolated vertex has global coefficient 0.75 |
| Scenarios.TriangleMaximalCliques | main.py:41-42 | the maximal cliques of a triangle plus an isolated vertex are the triangle and the isolated vertex |
| Scenarios.TriangleReported | main.py:59-62 | the plain top level and both pivoted ones report exactly `{1, 2, 3}` and `{4}` for that graph |
| Scenarios.LoopedPairMaximalCliques | main.py:68-86 | with vertex 0 looped and vertex 1 isolated, `{0}` and `{1}` are maximal cliques and the plain search reports both |
| Scenarios.LoopedBesideIsolated | main.py:44-57 | on that graph the pivoted search as written reports `{1}` but not `{0}`, whatever the pivot rule |
| Scenarios.PathCoefficient | main.py:91-107 | the path 1–2–3 has global coefficient 0 |
| Scenarios.StarCoefficient | main.py:91-107 | the star with centre 1 and three leaves has global coefficient 0 |
| Scenarios.CompleteCoefficient | main.py:91-107 | the complete graph on four vertices has global coefficient 1 |

## Left out

- Reading the input file (main.py:19-27): opening the file, skipping the 36 header lines and parsing integers. Edges arrive already zero-based as pairs of `nat`. A 0 in the file would become index -1, which Python reads from the end of the list; that case is not modelled.
- The fixed vertex count 62 (main.py:21): the model takes any n.
- Printing and the `__main__` driver (main.py:111-124).
- `random.choice` (main.py:48): the pivot is any `PivotRule` that picks from `P ∪ X`, given the whole state `(P, R, X)`. No two calls of one search share the same R, so a rule of the state can make every choice a random draw could make.
- The lazy generators (`yield`, `yield from`) and the order of the output list: each search is modelled as the set of cliques it reports. The model does not state that no clique is reported twice.
- The order in which `set.pop()` and a `for` loop over a set visit vertices: a fixed but arbitrary choice (`Graphs.Pick`). Every result holds for any such choice. Because of it the enumerators are ghost functions, not executable ones.
- Floating-point division (main.py:104, 107): the coefficients are exact reals.
- LocalCoefficient: neighbour lists are read as sets. The source's lists repeat an entry in two cases: for a repeated edge, and for every self-loop edge `(k, k)`, which lists k twice in k's own list. The source's `len` then counts the duplicate in the degree, and the pair loop counts duplicate pairs. The model counts each neighbour and each pair once. Example: the edge list `[(0, 0)]` on one vertex gives the list `[0, 0]`, degree 2 and numerator 4, so the source returns 2.0. The model builds `[{0}]` with degree 1 and returns 0.0. On the program's 62 vertices with the edge `1 1`, the source returns 2/62 and the model 0.0.
- BronKerbosch.PivotingAsWritten: completeness holds exactly for the maximal cliques that hold no vertex with a self-loop (`AsWrittenReportsExactlyLoopFreeMaximalCliques`). A maximal clique holding a looped vertex is never reported (see Findings). Soundness holds on every symmetric graph (`AsWrittenSound`).
- BronKerbosch.BronKerboschWithPivotingAsWritten: requires a symmetric graph, as `PivotingAsWritten` does, because termination is proved from symmetry. Every graph the edge loop builds is symmetric (`Adjacency.EdgeGraphUndirected`).
- Clustering.LocalCoefficientAtMostOne: the bound [0, 1] is stated only for graphs without self-loops. With a self-loop on a neighbour, the source's numerator can exceed `k(k-1)`.

## Findings

| source | as written | input that shows it | evidently intended | confidence | as-written member | corrected member |
|---|---|---|---|---|---|---|
| main.py:48-54 | The pivoted search branches on `P - adj(u)` and recurses on `P & adj(v)`. A vertex with a self-loop is its own neighbour: as pivot it is never branched on, and once added to R it stays in its own candidate set P. So no clique containing it is ever reported. The edge loop at main.py:30-32 accepts such an edge | the edge `1 1`: on a one-vertex graph the plain variant reports `{1}` and the pivoted variant reports nothing; on any graph, for example the program's 62 vertices, the pivoted variant still reports the other maximal cliques but never `{1}` or any clique holding a looped vertex | both variants report every maximal clique (main.py:11-12); a vertex's own self-loop plays no part in a clique | medium; not executed | BronKerbosch.PivotingAsWritten, shown by BronKerbosch.SelfLoopMissedAsWritten, Scenarios.LoopedBesideIsolated and BronKerbosch.AsWrittenReportsExactlyLoopFreeMaximalCliques | BronKerbosch.Pivoting: branch on `P - (adj(u) - {u})` and recurse on `(P - {v}) & adj(v)`, proved complete by BronKerbosch.PivotingFindsAllMaximalCliques and equal to the as-written search on loop-free graphs by BronKerbosch.AsWrittenAgreesWhenLoopFree |

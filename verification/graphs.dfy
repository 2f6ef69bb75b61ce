/**
 * Undirected graphs on the vertices 0 .. n-1, and the clique vocabulary
 * shared by the two Bron–Kerbosch enumerators and the clustering coefficient.
 */
module Graphs {

  /** One neighbour set per vertex; vertex v is position v. The source keeps
      neighbour lists, which repeat an entry for a repeated edge and list k
      twice in its own list for a self-loop edge (k, k). The searches read
      them as sets, so the model stores sets; the clustering coefficient
      counts the repeats, which the model does not. */
  type Graph = seq<set<nat>>

  /** The vertices 0 .. n-1. */
  function Below(n: nat): (vs: set<nat>)
    ensures forall v: int :: v in vs <==> 0 <= v < n
    ensures |vs| == n
  {
    if n == 0 then {} else Below(n - 1) + {n - 1}
  }

  function Vertices(g: Graph): (vs: set<nat>)
    ensures forall v: int :: v in vs <==> 0 <= v < |g|
    ensures |vs| == |g|
  {
    Below(|g|)
  }

  /** b is listed as a neighbour of the vertex a. */
  predicate Adjacent(g: Graph, a: nat, b: nat) {
    a < |g| && b in g[a]
  }

  /** Every listed neighbour is a vertex. */
  ghost predicate InRange(g: Graph) {
    forall a: nat, b: nat | Adjacent(g, a, b) :: b < |g|
  }

  /** Every listed neighbour is a vertex that lists the vertex back. */
  ghost predicate Undirected(g: Graph) {
    forall a: nat, b: nat | Adjacent(g, a, b) :: b < |g| && a in g[b]
  }

  /** No vertex lists itself. */
  ghost predicate LoopFree(g: Graph) {
    forall v: nat | v < |g| :: !Adjacent(g, v, v)
  }

  /** Every two distinct members of C are adjacent (a self-loop plays no part). */
  ghost predicate IsClique(g: Graph, C: set<nat>) {
    && C <= Vertices(g)
    && forall a, b | a in C && b in C && a != b :: Adjacent(g, a, b)
  }

  /** The vertices outside R that are adjacent to every member of R. */
  ghost function Candidates(g: Graph, R: set<nat>): set<nat> {
    set w: nat | w < |g| && w !in R && forall r | r in R :: Adjacent(g, r, w)
  }

  /** A clique that no vertex outside it extends. */
  ghost predicate IsMaximalClique(g: Graph, C: set<nat>) {
    IsClique(g, C) && Candidates(g, C) == {}
  }

  /** An arbitrary but fixed member of a non-empty set: the order in which the
      source's loops visit a set is left open. */
  ghost function Pick(s: set<nat>): (x: nat)
    requires s != {}
    ensures x in s
  {
    var x :| x in s; x
  }

  /** A subset is no larger than its superset, and equally large only when
      it is the superset. */
  lemma {:induction false} SubsetSize<T>(A: set<T>, B: set<T>)
    requires A <= B
    ensures |A| <= |B|
    ensures |A| == |B| ==> A == B
  {
    if A != {} {
      var a :| a in A;
      SubsetSize(A - {a}, B - {a});
    } else if |B| == 0 {
      assert B == {};
    }
  }

  /** Every vertex outside a maximal clique misses some member of it. */
  lemma MaximalCliqueBlocks(g: Graph, C: set<nat>, w: nat)
    requires IsMaximalClique(g, C) && w < |g| && w !in C
    ensures exists r :: r in C && !Adjacent(g, r, w)
  {
    assert w !in Candidates(g, C);
  }
}

/**
 * Building the adjacency structure from an edge list: for each edge (a, b),
 * b becomes a neighbour of a and a a neighbour of b.
 */
module Adjacency {
  import opened Wrappers
  import opened Graphs

  /** An undirected edge between two zero-based vertices, as read from one
      line of the input. */
  type Edge = (nat, nat)

  /** Indexing the neighbour table with an endpoint that is not a vertex
      aborts the construction; edge names the position of the offending edge. */
  datatype BuildError = IndexError(edge: nat)

  predicate EdgeInRange(n: nat, e: Edge) {
    e.0 < n && e.1 < n
  }

  /** The neighbours of a that the edge list names, in either direction. */
  function EdgeNeighbours(n: nat, edges: seq<Edge>, a: nat): set<nat> {
    set b: nat | b in Below(n) && ((a, b) in edges || (b, a) in edges)
  }

  /** The graph an edge list describes: the reference that the incremental
      construction is measured against. */
  function EdgeGraph(n: nat, edges: seq<Edge>): (g: Graph)
    ensures |g| == n
  {
    seq(n, (a: int) requires 0 <= a < n => EdgeNeighbours(n, edges, a))
  }

  /** Appending one in-range edge to the list adds exactly its two directions. */
  lemma AppendEdge(n: nat, edges: seq<Edge>, a: nat, b: nat)
    requires a < n && b < n
    ensures EdgeGraph(n, edges + [(a, b)])
         == EdgeGraph(n, edges)[a := EdgeGraph(n, edges)[a] + {b}][b := EdgeGraph(n, edges)[b] + {a}]
  {
    var g0 := EdgeGraph(n, edges);
    var g1 := EdgeGraph(n, edges + [(a, b)]);
    var g2 := g0[a := g0[a] + {b}][b := g0[b] + {a}];
    assert g2[b] == g0[b] + {a} + (if a == b then {b} else {});
    forall c | 0 <= c < n
      ensures g1[c] == g2[c]
    {
      forall w
        ensures w in g1[c] <==> w in g2[c]
      {
        assert (c, w) in edges + [(a, b)] <==> (c, w) in edges || (c, w) == (a, b);
        assert (w, c) in edges + [(a, b)] <==> (w, c) in edges || (w, c) == (a, b);
      }
    }
  }

  /**
   * The edge loop of the source: the neighbour table starts with n empty
   * entries, and each edge in turn adds both of its directions. An endpoint
   * outside 0 .. n-1 aborts the whole construction at the first such edge.
   */
  method BuildAdjacency(n: nat, edges: seq<Edge>) returns (r: Result<Graph, BuildError>)
    ensures r.Success? <==> forall k | 0 <= k < |edges| :: EdgeInRange(n, edges[k])
    ensures r.Success? ==> r.value == EdgeGraph(n, edges)
    ensures r.Failure? ==>
              && r.error.edge < |edges|
              && !EdgeInRange(n, edges[r.error.edge])
              && forall k | 0 <= k < r.error.edge :: EdgeInRange(n, edges[k])
  {
    var adj: Graph := seq(n, _ => {});
    var i := 0;
    assert edges[..0] == [];
    forall a | 0 <= a < n
      ensures EdgeNeighbours(n, [], a) == {}
    {
    }
    assert EdgeGraph(n, edges[..0]) == adj;
    while i < |edges|
      invariant i <= |edges|
      invariant forall k | 0 <= k < i :: EdgeInRange(n, edges[k])
      invariant adj == EdgeGraph(n, edges[..i])
    {
      var (a, b) := edges[i];
      if a >= n {
        return Failure(IndexError(i));
      }
      adj := adj[a := adj[a] + {b}];
      if b >= n {
        return Failure(IndexError(i));
      }
      adj := adj[b := adj[b] + {a}];
      AppendEdge(n, edges[..i], a, b);
      assert edges[..i + 1] == edges[..i] + [(a, b)];
      i := i + 1;
    }
    assert edges[..i] == edges;
    return Success(adj);
  }

  /** The constructed graph is undirected whatever the edge list. */
  lemma EdgeGraphUndirected(n: nat, edges: seq<Edge>)
    ensures Undirected(EdgeGraph(n, edges))
  {
  }

  /** Every listed edge is present in both directions. */
  lemma EdgeGraphHasEveryEdge(n: nat, edges: seq<Edge>)
    requires forall k | 0 <= k < |edges| :: EdgeInRange(n, edges[k])
    ensures forall k | 0 <= k < |edges| ::
              && Adjacent(EdgeGraph(n, edges), edges[k].0, edges[k].1)
              && Adjacent(EdgeGraph(n, edges), edges[k].1, edges[k].0)
  {
  }

  /** The constructed graph has a self-loop exactly when some edge joins a
      vertex to itself: the construction does not reject such an edge. */
  lemma EdgeGraphLoopFreeIff(n: nat, edges: seq<Edge>)
    ensures LoopFree(EdgeGraph(n, edges)) <==> forall a: nat | a < n :: (a, a) !in edges
  {
    var g := EdgeGraph(n, edges);
    if !LoopFree(g) {
      var v: nat :| v < n && Adjacent(g, v, v);
      assert (v, v) in edges;
    }
    if LoopFree(g) {
      forall a: nat | a < n
        ensures (a, a) !in edges
      {
        assert !Adjacent(g, a, a);
      }
    }
  }

  /** Only which edges are listed matters, not their order or repetition. */
  lemma EdgeOrderIrrelevant(n: nat, edges: seq<Edge>, others: seq<Edge>)
    requires forall e :: e in edges <==> e in others
    ensures EdgeGraph(n, edges) == EdgeGraph(n, others)
  {
    forall a | 0 <= a < n
      ensures EdgeNeighbours(n, edges, a) == EdgeNeighbours(n, others, a)
    {
    }
  }
}

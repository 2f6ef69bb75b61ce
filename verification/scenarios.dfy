/**
 * Small graphs worked through the general results: a triangle with an
 * isolated vertex, a path, a star and the complete graph on four vertices
 * (all zero-based here).
 */
module Scenarios {
  import opened Wrappers
  import opened Graphs
  import opened Adjacency
  import opened BronKerbosch
  import opened Clustering

  const Triangle: Graph := [{1, 2}, {0, 2}, {0, 1}, {}]
  const Path: Graph := [{1}, {0, 2}, {1}]
  const Star: Graph := [{1, 2, 3}, {0}, {0}, {0}]
  const Complete: Graph := [{1, 2, 3}, {0, 2, 3}, {0, 1, 3}, {0, 1, 2}]
  const LoopedPair: Graph := [{0}, {}]

  /** The edge list 1-2, 2-3 (zero-based 0-1, 1-2) builds the path. */
  lemma PathFromEdges()
    ensures EdgeGraph(3, [(0, 1), (1, 2)]) == Path
  {
    var edges: seq<Edge> := [(0, 1), (1, 2)];
    assert EdgeNeighbours(3, edges, 0) == {1};
    assert EdgeNeighbours(3, edges, 1) == {0, 2};
    assert EdgeNeighbours(3, edges, 2) == {1};
  }

  lemma TriangleWellFormed()
    ensures Undirected(Triangle) && InRange(Triangle) && LoopFree(Triangle)
  {
  }

  /** The triangle has local coefficient 1 at each of its corners and 0 at
      the isolated vertex, so its mean is 3/4. */
  lemma TriangleCoefficient()
    ensures GlobalCoefficient(Triangle) == Success(0.75)
  {
    var g := Triangle;
    TriangleCornerIsOne(0);
    TriangleCornerIsOne(1);
    TriangleCornerIsOne(2);
    assert LocalCoefficient(g, 3) == 0.0;
    assert LocalSum(g, 1) == 1.0;
    assert LocalSum(g, 2) == 2.0;
    assert LocalSum(g, 3) == 3.0;
    assert LocalSum(g, 4) == 3.0;
  }

  lemma TriangleCornerIsOne(v: nat)
    requires v < 3
    ensures LocalCoefficient(Triangle, v) == 1.0
  {
    TriangleWellFormed();
    LocalCoefficientOneIff(Triangle, v);
    assert |Triangle[v]| == 2;
  }

  /** The maximal cliques of the triangle with an isolated vertex are the
      triangle and the isolated vertex on its own. */
  lemma TriangleMaximalCliques(C: set<nat>)
    ensures IsMaximalClique(Triangle, C) <==> C == {0, 1, 2} || C == {3}
  {
    if IsMaximalClique(Triangle, C) {
      TriangleOnlyMaximalCliques(C);
    }
    TriangleIsMaximal();
    IsolatedVertexIsMaximal();
  }

  lemma TriangleOnlyMaximalCliques(C: set<nat>)
    requires IsMaximalClique(Triangle, C)
    ensures C == {0, 1, 2} || C == {3}
  {
    var g := Triangle;
    TriangleWellFormed();
    if 3 in C {
      forall c | c in C
        ensures c == 3
      {
      }
      assert C == {3};
    } else {
      forall w | 0 <= w < 3
        ensures w in C
      {
        if w !in C {
          MaximalCliqueBlocks(g, C, w);
        }
      }
      forall c | c in C
        ensures c < 3
      {
        assert c < 4;
      }
      assert C == {0, 1, 2};
    }
  }

  lemma TriangleIsMaximal()
    ensures IsMaximalClique(Triangle, {0, 1, 2})
  {
    var g := Triangle;
    var C: set<nat> := {0, 1, 2};
    assert IsClique(g, C);
    forall w: nat | w < |g| && w !in C
      ensures !forall r | r in C :: Adjacent(g, r, w)
    {
      assert w == 3 && !Adjacent(g, 0, 3);
    }
    assert Candidates(g, C) == {};
  }

  lemma IsolatedVertexIsMaximal()
    ensures IsMaximalClique(Triangle, {3})
  {
    var g := Triangle;
    var C: set<nat> := {3};
    forall w: nat | w < |g| && w !in C
      ensures !Adjacent(g, 3, w)
    {
    }
    assert Candidates(g, C) == {};
  }

  lemma OneBasedOfTriangle()
    ensures OneBased({0, 1, 2}) == {1, 2, 3}
    ensures OneBased({3}) == {4}
  {
  }

  /** In the source's one-based numbering the maximal cliques of the
      triangle with an isolated vertex are {1, 2, 3} and {4}. */
  lemma TriangleOneBased(D: set<nat>)
    ensures 0 !in D && IsMaximalClique(Triangle, ZeroBased(D)) <==> D == {1, 2, 3} || D == {4}
  {
    OneBasedOfTriangle();
    TriangleMaximalCliques(ZeroBased(D));
    if D == {1, 2, 3} {
      ZeroBasedUndoesOneBased({0, 1, 2});
      TriangleMaximalCliques({0, 1, 2});
    } else if D == {4} {
      ZeroBasedUndoesOneBased({3});
      TriangleMaximalCliques({3});
    } else if 0 !in D {
      OneBasedUndoesZeroBased(D);
    }
  }

  /** A set whose members are exactly a and b is {a, b}. */
  lemma PairSet<T>(S: set<T>, a: T, b: T)
    requires forall D :: D in S <==> D == a || D == b
    ensures S == {a, b}
  {
  }

  lemma TriangleReportedSet(S: set<set<nat>>)
    requires forall D :: D in S <==> 0 !in D && IsMaximalClique(Triangle, ZeroBased(D))
    ensures S == {{1, 2, 3}, {4}}
  {
    forall D
      ensures D in S <==> D == {1, 2, 3} || D == {4}
    {
      TriangleOneBased(D);
    }
    PairSet(S, {1, 2, 3}, {4});
  }

  /** Every variant reports {1, 2, 3} and {4}: the isolated vertex is a
      maximal clique too. */
  lemma TriangleReported(pivot: PivotRule)
    requires ChoosesFromUnion(pivot)
    ensures BronKerboschWithPivotingAsWritten(Triangle, pivot) == {{1, 2, 3}, {4}}
    ensures BronKerboschWithPivotingCorrected(Triangle, pivot) == {{1, 2, 3}, {4}}
    ensures BronKerboschWithoutPivoting(Triangle) == {{1, 2, 3}, {4}}
  {
    TriangleWellFormed();
    WithoutPivotingReportsMaximalCliques(Triangle);
    TriangleReportedSet(BronKerboschWithoutPivoting(Triangle));
    PivotIrrelevant(Triangle, pivot);
    AsWrittenPivotIrrelevantWhenLoopFree(Triangle, pivot);
  }

  lemma LoopedPairWellFormed()
    ensures Undirected(LoopedPair) && Vertices(LoopedPair) == {0, 1} && Adjacent(LoopedPair, 0, 0)
  {
  }

  /** Vertex 0 with a self-loop next to an isolated vertex 1, as the edge
      list [(0, 0)] builds on two vertices: both are maximal cliques on
      their own, and the plain search reports both. */
  lemma LoopedPairMaximalCliques()
    ensures IsMaximalClique(LoopedPair, {0}) && IsMaximalClique(LoopedPair, {1})
    ensures {0} in Plain(LoopedPair, Vertices(LoopedPair), {}, {})
    ensures {1} in Plain(LoopedPair, Vertices(LoopedPair), {}, {})
  {
    var g := LoopedPair;
    LoopedPairWellFormed();
    assert Candidates(g, {0}) == {};
    assert Candidates(g, {1}) == {};
    PlainFindsAllMaximalCliques(g);
  }

  /** The call on the isolated vertex 1 starts with no candidates and
      nothing excluded, so it reports {1}. */
  lemma LoopedPairIsolatedCall(P: set<nat>, X: set<nat>, pivot: PivotRule)
    requires ChoosesFromUnion(pivot) && P + X <= {0, 1}
    ensures {1} in PivotingAsWritten(LoopedPair, P * LoopedPair[1], {} + {1}, X * LoopedPair[1], pivot)
  {
    LoopedPairWellFormed();
    assert P * LoopedPair[1] == {} && X * LoopedPair[1] == {} && {} + {1} == {1};
  }

  /** Any loop over a branching set holding the isolated vertex 1 reports {1}. */
  lemma {:induction false} LoopedPairLoopReportsIsolated(B: set<nat>, P: set<nat>, X: set<nat>, pivot: PivotRule)
    requires ChoosesFromUnion(pivot) && 1 in B && B <= P && P + X <= {0, 1}
    ensures {1} in PivotingLoopAsWritten(LoopedPair, B, P, {}, X, pivot)
    decreases B
  {
    LoopedPairWellFormed();
    var v := Pick(B);
    if v == 1 {
      LoopedPairIsolatedCall(P, X, pivot);
    } else {
      LoopedPairLoopReportsIsolated(B - {v}, P - {v}, X + {v}, pivot);
    }
  }

  /** The pivoted search as written still reports {1} beside the looped
      vertex, but never {0}. */
  lemma LoopedBesideIsolated(pivot: PivotRule)
    requires ChoosesFromUnion(pivot)
    ensures {1} in PivotingAsWritten(LoopedPair, Vertices(LoopedPair), {}, {}, pivot)
    ensures {0} !in PivotingAsWritten(LoopedPair, Vertices(LoopedPair), {}, {}, pivot)
  {
    var g := LoopedPair;
    LoopedPairWellFormed();
    LoopedPairLoopReportsIsolated(BranchingAsWritten(g, {0, 1}, {}, {}, pivot), {0, 1}, {}, pivot);
    AsWrittenReportsOnlyLoopFreeMaximalCliques(g, pivot);
  }

  lemma PathWellFormed()
    ensures Undirected(Path) && InRange(Path) && LoopFree(Path)
  {
  }

  /** The middle vertex of the path has two non-adjacent neighbours and the
      ends have one each, so every local coefficient and the mean are 0. */
  lemma PathCoefficient()
    ensures GlobalCoefficient(Path) == Success(0.0)
  {
    PathWellFormed();
    var g := Path;
    forall v | 0 <= v < 3
      ensures LocalCoefficient(g, v) == 0.0
    {
      LocalCoefficientZeroIff(g, v);
      if v == 1 {
        forall x, y | x in g[1] && y in g[1]
          ensures !Adjacent(g, x, y)
        {
        }
      }
    }
    GlobalCoefficientZeroIff(g);
  }

  lemma StarWellFormed()
    ensures Undirected(Star) && InRange(Star) && LoopFree(Star)
  {
  }

  /** No two leaves of the star are adjacent, so its mean coefficient is 0. */
  lemma StarCoefficient()
    ensures GlobalCoefficient(Star) == Success(0.0)
  {
    StarWellFormed();
    var g := Star;
    forall v | 0 <= v < 4
      ensures LocalCoefficient(g, v) == 0.0
    {
      LocalCoefficientZeroIff(g, v);
      if v == 0 {
        forall x, y | x in g[0] && y in g[0]
          ensures !Adjacent(g, x, y)
        {
        }
      }
    }
    GlobalCoefficientZeroIff(g);
  }

  lemma CompleteWellFormed()
    ensures Undirected(Complete) && InRange(Complete) && LoopFree(Complete)
  {
  }

  /** Every neighbourhood of the complete graph is a clique, so its mean
      coefficient is 1. */
  lemma CompleteCoefficient()
    ensures GlobalCoefficient(Complete) == Success(1.0)
  {
    CompleteWellFormed();
    var g := Complete;
    forall v | 0 <= v < 4
      ensures LocalCoefficient(g, v) == 1.0
    {
      LocalCoefficientOneIff(g, v);
      assert |g[v]| == 3;
      assert IsClique(g, g[v]);
    }
    GlobalCoefficientOneIff(g);
  }
}

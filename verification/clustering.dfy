/**
 * Local and global clustering coefficients. The local coefficient of v with
 * k neighbours counts the ordered pairs (x, y) of neighbours with y listed
 * among x's neighbours, over the k(k-1) ordered pairs of distinct
 * neighbours; it is 0 when k <= 1. The global coefficient is the mean of the
 * local ones. The source divides floating-point numbers; the model divides
 * exact reals.
 */
module Clustering {
  import opened Wrappers
  import opened Graphs

  /** Dividing by the vertex count of an empty graph. */
  datatype CoefficientError = ZeroDivisionError

  /** The ordered pairs of neighbours of v that are themselves linked. */
  function LinkedPairs(g: Graph, v: nat): set<(nat, nat)>
    requires v < |g|
  {
    set x, y | x in g[v] && y in g[v] && Adjacent(g, x, y) :: (x, y)
  }

  /** The ordered pairs of distinct members of S whose first member is in F. */
  function DistinctPairs(F: set<nat>, S: set<nat>): set<(nat, nat)> {
    set x, y | x in F && y in S && x != y :: (x, y)
  }

  function LocalCoefficient(g: Graph, v: nat): (c: real)
    requires InRange(g) && v < |g|
    ensures 0.0 <= c
  {
    var k := |g[v]|;
    if k <= 1 then 0.0
    else (|LinkedPairs(g, v)| as real) / ((k * (k - 1)) as real)
  }

  /** The sum of the local coefficients of the vertices 0 .. m-1. */
  function LocalSum(g: Graph, m: nat): (s: real)
    requires InRange(g) && m <= |g|
    ensures 0.0 <= s
  {
    if m == 0 then 0.0 else LocalSum(g, m - 1) + LocalCoefficient(g, m - 1)
  }

  /** The mean local coefficient; the source divides by the vertex count
      even when it is 0, which raises. */
  function GlobalCoefficient(g: Graph): (r: Result<real, CoefficientError>)
    requires InRange(g)
    ensures r.Failure? <==> |g| == 0
    ensures r.Success? ==> 0.0 <= r.value
  {
    if |g| == 0 then Failure(ZeroDivisionError)
    else Success(LocalSum(g, |g|) / (|g| as real))
  }

  // ---------------------------------------------------------------------------
  // Counting pairs.
  // ---------------------------------------------------------------------------

  /** The pairs (x, y) for a fixed x and y in S. */
  function Row(x: nat, S: set<nat>): set<(nat, nat)> {
    set y | y in S :: (x, y)
  }

  /** A row has as many pairs as S has members. */
  lemma {:induction false} RowSize(x: nat, S: set<nat>)
    ensures |Row(x, S)| == |S|
  {
    if S != {} {
      var y := Pick(S);
      RowSize(x, S - {y});
      assert Row(x, S) == Row(x, S - {y}) + {(x, y)};
      assert (x, y) !in Row(x, S - {y});
    }
  }

  /** Peeling off the pairs whose first member is x. */
  lemma PeelRow(F: set<nat>, S: set<nat>, x: nat)
    requires x in F
    ensures DistinctPairs(F, S) == DistinctPairs(F - {x}, S) + Row(x, S - {x})
    ensures DistinctPairs(F - {x}, S) !! Row(x, S - {x})
  {
  }

  lemma ProductStep(total: nat, prev: nat, row: nat, f: nat, s: nat)
    requires f > 0 && s > 0
    requires prev == (f - 1) * (s - 1) && row == s - 1 && total == prev + row
    ensures total == f * (s - 1)
  {
  }

  /** There are |F| * (|S| - 1) ordered pairs of distinct members of S whose
      first member is in F. */
  lemma {:induction false} DistinctPairsSize(F: set<nat>, S: set<nat>)
    requires F <= S
    ensures |DistinctPairs(F, S)| == |F| * (|S| - 1)
  {
    if F != {} {
      var x := Pick(F);
      DistinctPairsSize(F - {x}, S);
      RowSize(x, S - {x});
      PeelRow(F, S, x);
      assert |S - {x}| == |S| - 1;
      ProductStep(|DistinctPairs(F, S)|, |DistinctPairs(F - {x}, S)|, |Row(x, S - {x})|, |F|, |S|);
    }
  }

  /** On a loop-free graph the linked pairs are pairs of distinct neighbours. */
  lemma LinkedPairsAreDistinct(g: Graph, v: nat)
    requires LoopFree(g) && v < |g|
    ensures LinkedPairs(g, v) <= DistinctPairs(g[v], g[v])
  {
  }

  /** The numerator never exceeds the denominator: at most k(k-1) ordered
      pairs of distinct neighbours are linked, and all are exactly when the
      neighbourhood is a clique. */
  lemma LinkedPairsBound(g: Graph, v: nat)
    requires LoopFree(g) && v < |g|
    ensures |LinkedPairs(g, v)| <= |g[v]| * (|g[v]| - 1)
    ensures |LinkedPairs(g, v)| == |g[v]| * (|g[v]| - 1)
            <==> forall x, y | x in g[v] && y in g[v] && x != y :: Adjacent(g, x, y)
  {
    var L := LinkedPairs(g, v);
    var D := DistinctPairs(g[v], g[v]);
    LinkedPairsAreDistinct(g, v);
    DistinctPairsSize(g[v], g[v]);
    SubsetSize(L, D);
    if forall x, y | x in g[v] && y in g[v] && x != y :: Adjacent(g, x, y) {
      assert D <= L;
    }
    if L == D {
      forall x, y | x in g[v] && y in g[v] && x != y
        ensures Adjacent(g, x, y)
      {
        assert (x, y) in D;
      }
    }
  }

  // ---------------------------------------------------------------------------
  // Local coefficient.
  // ---------------------------------------------------------------------------

  lemma RatioAtMostOne(a: real, b: real)
    requires 0.0 < b && a <= b
    ensures a / b <= 1.0
  {
  }

  lemma RatioOneIff(a: real, b: real)
    requires 0.0 < b
    ensures a / b == 1.0 <==> a == b
  {
  }

  lemma RatioZeroIff(a: real, b: real)
    requires 0.0 < b
    ensures a / b == 0.0 <==> a == 0.0
  {
  }

  /** On a loop-free graph the local coefficient lies in [0, 1]. */
  lemma LocalCoefficientAtMostOne(g: Graph, v: nat)
    requires InRange(g) && LoopFree(g) && v < |g|
    ensures LocalCoefficient(g, v) <= 1.0
  {
    var k := |g[v]|;
    if k > 1 {
      LinkedPairsBound(g, v);
      RatioAtMostOne(|LinkedPairs(g, v)| as real, (k * (k - 1)) as real);
    }
  }

  /** The local coefficient is 1 exactly when v has at least two neighbours
      and they are pairwise adjacent. */
  lemma LocalCoefficientOneIff(g: Graph, v: nat)
    requires InRange(g) && LoopFree(g) && v < |g|
    ensures LocalCoefficient(g, v) == 1.0 <==> |g[v]| >= 2 && IsClique(g, g[v])
  {
    var k := |g[v]|;
    if k > 1 {
      LinkedPairsBound(g, v);
      var num := |LinkedPairs(g, v)| as real;
      var den := (k * (k - 1)) as real;
      RatioOneIff(num, den);
      forall w | w in g[v]
        ensures w < |g|
      {
        assert Adjacent(g, v, w);
      }
    }
  }

  /** The local coefficient is 0 exactly when v has at most one neighbour or
      no two of its neighbours are adjacent. */
  lemma LocalCoefficientZeroIff(g: Graph, v: nat)
    requires InRange(g) && v < |g|
    ensures LocalCoefficient(g, v) == 0.0
            <==> |g[v]| <= 1 || forall x, y | x in g[v] && y in g[v] :: !Adjacent(g, x, y)
  {
    var k := |g[v]|;
    if k > 1 {
      var den := (k * (k - 1)) as real;
      var L := LinkedPairs(g, v);
      RatioZeroIff(|L| as real, den);
      if exists x, y | x in g[v] && y in g[v] :: Adjacent(g, x, y) {
        var x, y :| x in g[v] && y in g[v] && Adjacent(g, x, y);
        assert (x, y) in L;
      }
    }
  }

  // ---------------------------------------------------------------------------
  // Global coefficient.
  // ---------------------------------------------------------------------------

  lemma {:induction false} LocalSumAtMost(g: Graph, m: nat)
    requires InRange(g) && LoopFree(g) && m <= |g|
    ensures LocalSum(g, m) <= m as real
    ensures LocalSum(g, m) == m as real <==> forall v | 0 <= v < m :: LocalCoefficient(g, v) == 1.0
  {
    if m > 0 {
      LocalSumAtMost(g, m - 1);
      LocalCoefficientAtMostOne(g, m - 1);
    }
  }

  lemma {:induction false} LocalSumZero(g: Graph, m: nat)
    requires InRange(g) && m <= |g|
    ensures LocalSum(g, m) == 0.0 <==> forall v | 0 <= v < m :: LocalCoefficient(g, v) == 0.0
  {
    if m > 0 {
      LocalSumZero(g, m - 1);
    }
  }

  /** On a loop-free graph the global coefficient lies in [0, 1]. */
  lemma GlobalCoefficientAtMostOne(g: Graph)
    requires InRange(g) && LoopFree(g) && |g| > 0
    ensures GlobalCoefficient(g).Success? && GlobalCoefficient(g).value <= 1.0
  {
    LocalSumAtMost(g, |g|);
    RatioAtMostOne(LocalSum(g, |g|), |g| as real);
  }

  /** The mean is 1 exactly when every local coefficient is 1. */
  lemma GlobalCoefficientOneIff(g: Graph)
    requires InRange(g) && LoopFree(g) && |g| > 0
    ensures GlobalCoefficient(g).value == 1.0 <==> forall v | 0 <= v < |g| :: LocalCoefficient(g, v) == 1.0
  {
    LocalSumAtMost(g, |g|);
    RatioOneIff(LocalSum(g, |g|), |g| as real);
  }

  /** The mean is 0 exactly when every local coefficient is 0. */
  lemma GlobalCoefficientZeroIff(g: Graph)
    requires InRange(g) && |g| > 0
    ensures GlobalCoefficient(g).value == 0.0 <==> forall v | 0 <= v < |g| :: LocalCoefficient(g, v) == 0.0
  {
    LocalSumZero(g, |g|);
    RatioZeroIff(LocalSum(g, |g|), |g| as real);
  }
}

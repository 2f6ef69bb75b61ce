/**
 * Bron–Kerbosch maximal-clique enumeration (Bron and Kerbosch, CACM 16(9),
 * Algorithm 457), with and without pivoting.
 *
 * A search state (P, R, X) holds the clique R being built, the candidates P
 * that may still extend it, and the excluded vertices X that extend it but
 * were already tried. R is reported when P and X are both empty. The source
 * yields cliques lazily; the model returns the set of everything reported.
 */
module BronKerbosch {
  import opened Graphs

  /** How the pivoted search picks its pivot from P + X in the state
      (P, R, X); the source draws it at random. */
  type PivotRule = (set<nat>, set<nat>, set<nat>) -> nat

  ghost predicate ChoosesFromUnion(pivot: PivotRule) {
    forall P, R, X :: P + X != {} ==> pivot(P, R, X) in P + X
  }

  /** The invariant of every recursive call: R is a clique, P and X are
      disjoint, and together they are exactly the vertices that extend R. */
  ghost predicate SearchState(g: Graph, P: set<nat>, R: set<nat>, X: set<nat>) {
    IsClique(g, R) && P !! X && P + X == Candidates(g, R)
  }

  /** C is a maximal clique that grows R using vertices of P only. */
  ghost predicate ExtendsTo(g: Graph, R: set<nat>, P: set<nat>, C: set<nat>) {
    IsMaximalClique(g, C) && R <= C && C - R <= P
  }

  // ---------------------------------------------------------------------------
  // Without pivoting: every vertex of P is popped in turn.
  // ---------------------------------------------------------------------------

  ghost function Plain(g: Graph, P: set<nat>, R: set<nat>, X: set<nat>): (cliques: set<set<nat>>)
    requires P <= Vertices(g)
    ensures forall C | C in cliques :: R <= C && C - R <= P
    decreases P, 1
  {
    (if P == {} && X == {} then {R} else {}) + PlainLoop(g, P, R, X)
  }

  /** The loop that pops v from P, searches (P ∩ adj(v), R + {v}, X ∩ adj(v))
      and then adds v to X, until P is empty. */
  ghost function PlainLoop(g: Graph, P: set<nat>, R: set<nat>, X: set<nat>): (cliques: set<set<nat>>)
    requires P <= Vertices(g)
    ensures forall C | C in cliques :: R <= C && C - R <= P && C * P != {}
    decreases P, 0
  {
    if P == {} then {}
    else
      var v := Pick(P);
      var rest := P - {v};
      Plain(g, rest * g[v], R + {v}, X * g[v]) + PlainLoop(g, rest, R, X + {v})
  }

  // ---------------------------------------------------------------------------
  // With pivoting, as the source writes it.
  // ---------------------------------------------------------------------------

  /** Every vertex of S is adjacent to every vertex of R. */
  ghost predicate AdjacentToAll(g: Graph, S: set<nat>, R: set<nat>) {
    forall w, r | w in S && r in R :: Adjacent(g, r, w)
  }

  /** The source's branching set: P itself when P + X is empty, otherwise the
      members of P that are not neighbours of the pivot. */
  ghost function BranchingAsWritten(g: Graph, P: set<nat>, R: set<nat>, X: set<nat>, pivot: PivotRule): (B: set<nat>)
    requires P + X <= Vertices(g) && ChoosesFromUnion(pivot)
    ensures B <= P
  {
    if P + X == {} then P else P - g[pivot(P, R, X)]
  }

  /** On an undirected graph no member of R is ever branched on, because the
      pivot is adjacent to all of R. */
  lemma BranchingAvoidsClique(g: Graph, P: set<nat>, R: set<nat>, X: set<nat>, pivot: PivotRule)
    requires Undirected(g) && P + X <= Vertices(g) && AdjacentToAll(g, P + X, R)
    requires ChoosesFromUnion(pivot)
    ensures BranchingAsWritten(g, P, R, X, pivot) !! R
  {
  }

  /** Branching on a vertex outside R shrinks P - R, both in the recursive
      call and for the rest of the loop. */
  lemma AsWrittenShrinks(g: Graph, P: set<nat>, R: set<nat>, v: nat)
    requires v in P && v !in R && v < |g|
    ensures (P * g[v]) - (R + {v}) < P - R
    ensures (P - {v}) - R < P - R
  {
    assert v in P - R;
  }

  /** The candidates and excluded vertices of the recursive call on v are
      adjacent to all of R + {v}. */
  lemma ChildAdjacentToAll(g: Graph, P: set<nat>, R: set<nat>, X: set<nat>, v: nat)
    requires AdjacentToAll(g, P + X, R) && v < |g|
    ensures AdjacentToAll(g, P * g[v] + X * g[v], R + {v})
  {
  }

  /** Moving v from P to X keeps every candidate and excluded vertex
      adjacent to all of R. */
  lemma MoveAdjacentToAll(g: Graph, P: set<nat>, R: set<nat>, X: set<nat>, v: nat)
    requires AdjacentToAll(g, P + X, R) && v in P
    ensures AdjacentToAll(g, (P - {v}) + (X + {v}), R)
  {
  }

  /** The pivoted search as written: the recursive call keeps P ∩ adj(v), so
      a vertex with a self-loop stays among its own candidates. It ends
      because P - R shrinks. */
  ghost function PivotingAsWritten(g: Graph, P: set<nat>, R: set<nat>, X: set<nat>, pivot: PivotRule): (cliques: set<set<nat>>)
    requires Undirected(g) && P + X <= Vertices(g) && AdjacentToAll(g, P + X, R)
    requires ChoosesFromUnion(pivot)
    ensures forall C | C in cliques :: R <= C && C - R <= P
    decreases P - R, 1
  {
    BranchingAvoidsClique(g, P, R, X, pivot);
    (if P == {} && X == {} then {R} else {})
      + PivotingLoopAsWritten(g, BranchingAsWritten(g, P, R, X, pivot), P, R, X, pivot)
  }

  ghost function PivotingLoopAsWritten(g: Graph, B: set<nat>, P: set<nat>, R: set<nat>, X: set<nat>, pivot: PivotRule): (cliques: set<set<nat>>)
    requires Undirected(g) && P + X <= Vertices(g) && AdjacentToAll(g, P + X, R)
    requires B <= P && B !! R && ChoosesFromUnion(pivot)
    ensures forall C | C in cliques :: R <= C && C - R <= P && C * B != {}
    decreases P - R, 0
  {
    if B == {} then {}
    else
      var v := Pick(B);
      AsWrittenShrinks(g, P, R, v);
      ChildAdjacentToAll(g, P, R, X, v);
      MoveAdjacentToAll(g, P, R, X, v);
      var through := PivotingAsWritten(g, P * g[v], R + {v}, X * g[v], pivot);
      var avoiding := PivotingLoopAsWritten(g, B - {v}, P - {v}, R, X + {v}, pivot);
      BranchResultsBounded(through, avoiding, B, P * g[v], P, R, v);
      through + avoiding
  }

  /** The cliques of one branch step contain `R`, add only vertices of `P`, and meet `B`. */
  lemma BranchResultsBounded(through: set<set<nat>>, avoiding: set<set<nat>>, B: set<nat>, Q: set<nat>, P: set<nat>, R: set<nat>, v: nat)
    requires v in B && B <= P && Q <= P
    requires forall C | C in through :: R + {v} <= C && C - (R + {v}) <= Q
    requires forall C | C in avoiding :: R <= C && C - R <= P - {v} && C * (B - {v}) != {}
    ensures forall C | C in through + avoiding :: R <= C && C - R <= P && C * B != {}
  {
    forall C | C in through + avoiding
      ensures R <= C && C - R <= P && C * B != {}
    {
      if C in through {
        assert v in C * B;
      }
    }
  }

  // ---------------------------------------------------------------------------
  // With pivoting, corrected: the pivot is never its own neighbour when the
  // branching set is formed, and v leaves P before its recursive call.
  // ---------------------------------------------------------------------------

  ghost function Branching(g: Graph, P: set<nat>, R: set<nat>, X: set<nat>, pivot: PivotRule): (B: set<nat>)
    requires P + X <= Vertices(g) && ChoosesFromUnion(pivot)
    ensures B <= P
    ensures P + X != {} && pivot(P, R, X) in P ==> pivot(P, R, X) in B
  {
    if P + X == {} then P
    else
      var u := pivot(P, R, X);
      P - (g[u] - {u})
  }

  ghost function Pivoting(g: Graph, P: set<nat>, R: set<nat>, X: set<nat>, pivot: PivotRule): (cliques: set<set<nat>>)
    requires P + X <= Vertices(g) && ChoosesFromUnion(pivot)
    ensures forall C | C in cliques :: R <= C && C - R <= P
    decreases P, 1
  {
    (if P == {} && X == {} then {R} else {})
      + PivotingLoop(g, Branching(g, P, R, X, pivot), P, R, X, pivot)
  }

  ghost function PivotingLoop(g: Graph, B: set<nat>, P: set<nat>, R: set<nat>, X: set<nat>, pivot: PivotRule): (cliques: set<set<nat>>)
    requires B <= P && P + X <= Vertices(g) && ChoosesFromUnion(pivot)
    ensures forall C | C in cliques :: R <= C && C - R <= P && C * B != {}
    decreases P, 0
  {
    if B == {} then {}
    else
      var v := Pick(B);
      var rest := P - {v};
      Pivoting(g, rest * g[v], R + {v}, X * g[v], pivot)
        + PivotingLoop(g, B - {v}, rest, R, X + {v}, pivot)
  }

  // ---------------------------------------------------------------------------
  // The search invariant.
  // ---------------------------------------------------------------------------

  /** The first call, (all vertices, {}, {}), satisfies the invariant. */
  lemma InitialState(g: Graph)
    ensures SearchState(g, Vertices(g), {}, {})
  {
  }

  /** The recursive call on a candidate v keeps the invariant: R + {v} is a
      clique and the candidates and excluded vertices adjacent to v are
      exactly the vertices that extend it. */
  lemma ChildState(g: Graph, P: set<nat>, R: set<nat>, X: set<nat>, v: nat)
    requires Undirected(g) && SearchState(g, P, R, X) && v in P
    ensures v < |g| && SearchState(g, (P - {v}) * g[v], R + {v}, X * g[v])
  {
  }

  /** Moving a tried vertex from P to X keeps the invariant. */
  lemma MoveState(g: Graph, P: set<nat>, R: set<nat>, X: set<nat>, v: nat)
    requires SearchState(g, P, R, X) && v in P
    ensures SearchState(g, P - {v}, R, X + {v})
  {
  }

  /** R, its candidates and its excluded vertices are disjoint sets of
      vertices, so R never holds more than n vertices; since every recursive
      call adds one vertex to R, the recursion is at most n deep. */
  lemma SearchDepth(g: Graph, P: set<nat>, R: set<nat>, X: set<nat>)
    requires SearchState(g, P, R, X)
    ensures |R| + |P| + |X| <= |g|
  {
    var V := Vertices(g);
    assert R + (P + X) <= V;
    SubsetSize(R + (P + X), V);
  }

  // ---------------------------------------------------------------------------
  // What a search state reports.
  // ---------------------------------------------------------------------------

  /** R is reported exactly when P and X are empty, and then R is a maximal
      clique: the only maximal extension of R that takes no vertex of P is R
      itself, and it exists exactly when nothing extends R. */
  lemma StopExactlyAtMaximal(g: Graph, P: set<nat>, R: set<nat>, X: set<nat>, C: set<nat>)
    requires SearchState(g, P, R, X)
    ensures ExtendsTo(g, R, P, C) && C * P == {} <==> P == {} && X == {} && C == R
  {
  }

  /** A maximal extension of R within P that contains the candidate v is a
      maximal extension of R + {v} within the neighbours of v in P, and
      conversely. */
  lemma ThroughVertex(g: Graph, R: set<nat>, P: set<nat>, C: set<nat>, v: nat)
    requires v < |g| && v in P && v !in R
    ensures ExtendsTo(g, R, P, C) && v in C <==> ExtendsTo(g, R + {v}, (P - {v}) * g[v], C)
  {
    var Q := (P - {v}) * g[v];
    if ExtendsTo(g, R, P, C) && v in C {
      forall w | w in C - (R + {v})
        ensures w in Q
      {
        assert Adjacent(g, v, w);
      }
      assert C - (R + {v}) <= Q;
    }
    if ExtendsTo(g, R + {v}, Q, C) {
      assert C - R <= (C - (R + {v})) + {v};
    }
  }

  /** A maximal extension that avoids v is an extension within P - {v}. */
  lemma AvoidingVertex(g: Graph, R: set<nat>, P: set<nat>, B: set<nat>, C: set<nat>, v: nat)
    requires v in B && v !in R
    ensures ExtendsTo(g, R, P, C) && C * B != {} && v !in C
            <==> ExtendsTo(g, R, P - {v}, C) && C * (B - {v}) != {}
  {
  }

  /** The plain search from a state satisfying the invariant reports exactly
      the maximal cliques that extend R within P. */
  lemma {:induction false} PlainExact(g: Graph, P: set<nat>, R: set<nat>, X: set<nat>)
    requires Undirected(g) && SearchState(g, P, R, X)
    ensures forall C :: C in Plain(g, P, R, X) <==> ExtendsTo(g, R, P, C)
    decreases P, 1
  {
    PlainLoopExact(g, P, R, X);
    forall C
      ensures C in Plain(g, P, R, X) <==> ExtendsTo(g, R, P, C)
    {
      StopExactlyAtMaximal(g, P, R, X, C);
    }
  }

  /** The loop over P reports exactly the maximal extensions of R within P
      that take at least one vertex of P. */
  lemma {:induction false} PlainLoopExact(g: Graph, P: set<nat>, R: set<nat>, X: set<nat>)
    requires Undirected(g) && SearchState(g, P, R, X)
    ensures forall C :: C in PlainLoop(g, P, R, X) <==> ExtendsTo(g, R, P, C) && C * P != {}
    decreases P, 0
  {
    if P != {} {
      var v := Pick(P);
      var rest := P - {v};
      assert v in Candidates(g, R);
      ChildState(g, P, R, X, v);
      PlainExact(g, rest * g[v], R + {v}, X * g[v]);
      MoveState(g, P, R, X, v);
      PlainLoopExact(g, rest, R, X + {v});
      forall C
        ensures C in PlainLoop(g, P, R, X) <==> ExtendsTo(g, R, P, C) && C * P != {}
      {
        ThroughVertex(g, R, P, C, v);
        AvoidingVertex(g, R, P, P, C, v);
      }
    }
  }

  /** Branching only on the non-neighbours of a pivot never loses a maximal
      clique: every maximal extension of R within P takes a vertex of the
      branching set, for any pivot in P + X. */
  lemma PivotNeverMisses(g: Graph, P: set<nat>, R: set<nat>, X: set<nat>, pivot: PivotRule, C: set<nat>)
    requires Undirected(g) && SearchState(g, P, R, X) && ChoosesFromUnion(pivot)
    requires P + X != {} && ExtendsTo(g, R, P, C)
    ensures C * Branching(g, P, R, X, pivot) != {}
  {
  }

  /** The corrected pivoted search reports exactly the maximal cliques that
      extend R within P, whatever pivot rule is used. */
  lemma {:induction false} PivotingExact(g: Graph, P: set<nat>, R: set<nat>, X: set<nat>, pivot: PivotRule)
    requires Undirected(g) && SearchState(g, P, R, X) && ChoosesFromUnion(pivot)
    ensures forall C :: C in Pivoting(g, P, R, X, pivot) <==> ExtendsTo(g, R, P, C)
    decreases P, 1
  {
    var B := Branching(g, P, R, X, pivot);
    PivotingLoopExact(g, B, P, R, X, pivot);
    forall C
      ensures C in Pivoting(g, P, R, X, pivot) <==> ExtendsTo(g, R, P, C)
    {
      StopExactlyAtMaximal(g, P, R, X, C);
      if ExtendsTo(g, R, P, C) && P + X != {} {
        PivotNeverMisses(g, P, R, X, pivot, C);
      }
    }
  }

  /** The loop over a branching set B reports exactly the maximal extensions
      of R within P that take a vertex of B. */
  lemma {:induction false} PivotingLoopExact(g: Graph, B: set<nat>, P: set<nat>, R: set<nat>, X: set<nat>, pivot: PivotRule)
    requires Undirected(g) && SearchState(g, P, R, X) && B <= P && ChoosesFromUnion(pivot)
    ensures forall C :: C in PivotingLoop(g, B, P, R, X, pivot) <==> ExtendsTo(g, R, P, C) && C * B != {}
    decreases P, 0
  {
    if B != {} {
      var v := Pick(B);
      var rest := P - {v};
      assert v in Candidates(g, R);
      ChildState(g, P, R, X, v);
      PivotingExact(g, rest * g[v], R + {v}, X * g[v], pivot);
      MoveState(g, P, R, X, v);
      PivotingLoopExact(g, B - {v}, rest, R, X + {v}, pivot);
      forall C
        ensures C in PivotingLoop(g, B, P, R, X, pivot) <==> ExtendsTo(g, R, P, C) && C * B != {}
      {
        ThroughVertex(g, R, P, C, v);
        AvoidingVertex(g, R, P, B, C, v);
      }
    }
  }

  /** On a loop-free graph the pivoted search as written is the corrected one. */
  lemma {:induction false} AsWrittenAgreesWhenLoopFree(g: Graph, P: set<nat>, R: set<nat>, X: set<nat>, pivot: PivotRule)
    requires Undirected(g) && LoopFree(g) && P + X <= Vertices(g) && AdjacentToAll(g, P + X, R)
    requires ChoosesFromUnion(pivot)
    ensures PivotingAsWritten(g, P, R, X, pivot) == Pivoting(g, P, R, X, pivot)
    decreases P - R, 1
  {
    BranchingAvoidsClique(g, P, R, X, pivot);
    var B := Branching(g, P, R, X, pivot);
    if P + X != {} {
      var u := pivot(P, R, X);
      assert !Adjacent(g, u, u);
    }
    assert BranchingAsWritten(g, P, R, X, pivot) == B;
    LoopAsWrittenAgreesWhenLoopFree(g, B, P, R, X, pivot);
  }

  /** On a loop-free graph one step of the search as written sets up the same
      recursive call as the corrected step, and both recursive calls of the
      search as written meet their requirements. */
  lemma LoopFreeStep(g: Graph, P: set<nat>, R: set<nat>, X: set<nat>, v: nat)
    requires Undirected(g) && LoopFree(g) && P + X <= Vertices(g) && AdjacentToAll(g, P + X, R)
    requires v in P && v !in R
    ensures P * g[v] == (P - {v}) * g[v]
    ensures P * g[v] + X * g[v] <= Vertices(g) && AdjacentToAll(g, P * g[v] + X * g[v], R + {v})
    ensures (P * g[v]) - (R + {v}) < P - R && (P - {v}) - R < P - R
    ensures (P - {v}) + (X + {v}) == P + X
  {
    assert !Adjacent(g, v, v);
    AsWrittenShrinks(g, P, R, v);
    ChildAdjacentToAll(g, P, R, X, v);
  }

  lemma {:induction false} LoopAsWrittenAgreesWhenLoopFree(g: Graph, B: set<nat>, P: set<nat>, R: set<nat>, X: set<nat>, pivot: PivotRule)
    requires Undirected(g) && LoopFree(g) && P + X <= Vertices(g) && AdjacentToAll(g, P + X, R)
    requires B <= P && B !! R && ChoosesFromUnion(pivot)
    ensures PivotingLoopAsWritten(g, B, P, R, X, pivot) == PivotingLoop(g, B, P, R, X, pivot)
    decreases P - R, 0
  {
    if B != {} {
      var v := Pick(B);
      LoopFreeStep(g, P, R, X, v);
      AsWrittenAgreesWhenLoopFree(g, P * g[v], R + {v}, X * g[v], pivot);
      LoopAsWrittenAgreesWhenLoopFree(g, B - {v}, P - {v}, R, X + {v}, pivot);
    }
  }

  // ---------------------------------------------------------------------------
  // Whole-graph results.
  // ---------------------------------------------------------------------------

  /** The plain search reports every maximal clique of the graph and nothing else. */
  lemma PlainFindsAllMaximalCliques(g: Graph)
    requires Undirected(g)
    ensures forall C :: C in Plain(g, Vertices(g), {}, {}) <==> IsMaximalClique(g, C)
  {
    InitialState(g);
    PlainExact(g, Vertices(g), {}, {});
  }

  /** So does the corrected pivoted search, whatever the pivot rule. */
  lemma PivotingFindsAllMaximalCliques(g: Graph, pivot: PivotRule)
    requires Undirected(g) && ChoosesFromUnion(pivot)
    ensures forall C :: C in Pivoting(g, Vertices(g), {}, {}, pivot) <==> IsMaximalClique(g, C)
  {
    InitialState(g);
    PivotingExact(g, Vertices(g), {}, {}, pivot);
  }

  /** The pivoted search as written does too, on a graph without self-loops. */
  lemma AsWrittenFindsAllMaximalCliquesWhenLoopFree(g: Graph, pivot: PivotRule)
    requires Undirected(g) && LoopFree(g) && ChoosesFromUnion(pivot)
    ensures forall C :: C in PivotingAsWritten(g, Vertices(g), {}, {}, pivot) <==> IsMaximalClique(g, C)
  {
    AsWrittenAgreesWhenLoopFree(g, Vertices(g), {}, {}, pivot);
    PivotingFindsAllMaximalCliques(g, pivot);
  }

  // ---------------------------------------------------------------------------
  // The pivoted search as written, on graphs that may have self-loops: what
  // it reports is still a maximal clique, but never one with a looped vertex.
  // ---------------------------------------------------------------------------

  /** The weaker invariant the search as written keeps: R is a clique and
      every vertex that extends R is among P + X. */
  ghost predicate SoundState(g: Graph, P: set<nat>, R: set<nat>, X: set<nat>) {
    IsClique(g, R) && Candidates(g, R) <= P + X
  }

  /** The recursive call on v in P - R keeps the weaker invariant. */
  lemma AsWrittenChildSound(g: Graph, P: set<nat>, R: set<nat>, X: set<nat>, v: nat)
    requires Undirected(g) && P + X <= Vertices(g) && AdjacentToAll(g, P + X, R)
    requires SoundState(g, P, R, X) && v in P && v !in R
    ensures v < |g| && SoundState(g, P * g[v], R + {v}, X * g[v])
  {
    assert v < |g|;
    forall a, b | a in R + {v} && b in R + {v} && a != b
      ensures Adjacent(g, a, b)
    {
      if a == v {
        assert Adjacent(g, b, v);
      }
    }
    forall w | w in Candidates(g, R + {v})
      ensures w in P * g[v] + X * g[v]
    {
      assert w in Candidates(g, R);
      assert Adjacent(g, v, w);
    }
  }

  /** Everything the pivoted search as written reports from a state keeping
      the weaker invariant is a maximal clique, self-loops or not. */
  lemma {:induction false} AsWrittenSound(g: Graph, P: set<nat>, R: set<nat>, X: set<nat>, pivot: PivotRule)
    requires Undirected(g) && P + X <= Vertices(g) && AdjacentToAll(g, P + X, R)
    requires ChoosesFromUnion(pivot) && SoundState(g, P, R, X)
    ensures forall C | C in PivotingAsWritten(g, P, R, X, pivot) :: IsMaximalClique(g, C)
    decreases P - R, 1
  {
    BranchingAvoidsClique(g, P, R, X, pivot);
    LoopAsWrittenSound(g, BranchingAsWritten(g, P, R, X, pivot), P, R, X, pivot);
  }

  lemma {:induction false} LoopAsWrittenSound(g: Graph, B: set<nat>, P: set<nat>, R: set<nat>, X: set<nat>, pivot: PivotRule)
    requires Undirected(g) && P + X <= Vertices(g) && AdjacentToAll(g, P + X, R)
    requires B <= P && B !! R && ChoosesFromUnion(pivot) && SoundState(g, P, R, X)
    ensures forall C | C in PivotingLoopAsWritten(g, B, P, R, X, pivot) :: IsMaximalClique(g, C)
    decreases P - R, 0
  {
    if B != {} {
      var v := Pick(B);
      AsWrittenShrinks(g, P, R, v);
      ChildAdjacentToAll(g, P, R, X, v);
      MoveAdjacentToAll(g, P, R, X, v);
      AsWrittenChildSound(g, P, R, X, v);
      AsWrittenSound(g, P * g[v], R + {v}, X * g[v], pivot);
      LoopAsWrittenSound(g, B - {v}, P - {v}, R, X + {v}, pivot);
    }
  }

  /** Every vertex of R with a self-loop is still a candidate. */
  ghost predicate LoopedStayCandidates(g: Graph, P: set<nat>, R: set<nat>) {
    forall r | r in R && Adjacent(g, r, r) :: r in P
  }

  /** The recursive call on v keeps every looped vertex of R + {v} among the
      candidates: v is its own neighbour, and every looped r in R is a
      neighbour of v. */
  lemma LoopedChild(g: Graph, P: set<nat>, R: set<nat>, X: set<nat>, v: nat)
    requires Undirected(g) && AdjacentToAll(g, P + X, R) && LoopedStayCandidates(g, P, R)
    requires v in P && v < |g|
    ensures LoopedStayCandidates(g, P * g[v], R + {v})
  {
    forall r | r in R + {v} && Adjacent(g, r, r)
      ensures r in P * g[v]
    {
      if r != v {
        assert Adjacent(g, r, v);
      }
    }
  }

  /** The pivoted search as written never reports a clique holding a vertex
      with a self-loop: once such a vertex joins R it stays in P, so P never
      empties below it. */
  lemma {:induction false} AsWrittenSkipsLooped(g: Graph, P: set<nat>, R: set<nat>, X: set<nat>, pivot: PivotRule)
    requires Undirected(g) && P + X <= Vertices(g) && AdjacentToAll(g, P + X, R)
    requires ChoosesFromUnion(pivot) && LoopedStayCandidates(g, P, R)
    ensures forall C, u | C in PivotingAsWritten(g, P, R, X, pivot) && u in C :: !Adjacent(g, u, u)
    decreases P - R, 1
  {
    BranchingAvoidsClique(g, P, R, X, pivot);
    LoopAsWrittenSkipsLooped(g, BranchingAsWritten(g, P, R, X, pivot), P, R, X, pivot);
  }

  lemma {:induction false} LoopAsWrittenSkipsLooped(g: Graph, B: set<nat>, P: set<nat>, R: set<nat>, X: set<nat>, pivot: PivotRule)
    requires Undirected(g) && P + X <= Vertices(g) && AdjacentToAll(g, P + X, R)
    requires B <= P && B !! R && ChoosesFromUnion(pivot) && LoopedStayCandidates(g, P, R)
    ensures forall C, u | C in PivotingLoopAsWritten(g, B, P, R, X, pivot) && u in C :: !Adjacent(g, u, u)
    decreases P - R, 0
  {
    if B != {} {
      var v := Pick(B);
      AsWrittenShrinks(g, P, R, v);
      ChildAdjacentToAll(g, P, R, X, v);
      MoveAdjacentToAll(g, P, R, X, v);
      LoopedChild(g, P, R, X, v);
      AsWrittenSkipsLooped(g, P * g[v], R + {v}, X * g[v], pivot);
      LoopAsWrittenSkipsLooped(g, B - {v}, P - {v}, R, X + {v}, pivot);
    }
  }

  /** From the first call, the pivoted search as written reports only
      maximal cliques, and none of them holds a vertex with a self-loop. */
  lemma AsWrittenReportsOnlyLoopFreeMaximalCliques(g: Graph, pivot: PivotRule)
    requires Undirected(g) && ChoosesFromUnion(pivot)
    ensures forall C | C in PivotingAsWritten(g, Vertices(g), {}, {}, pivot) :: IsMaximalClique(g, C)
    ensures forall C, u | C in PivotingAsWritten(g, Vertices(g), {}, {}, pivot) && u in C :: !Adjacent(g, u, u)
  {
    AsWrittenSound(g, Vertices(g), {}, {}, pivot);
    AsWrittenSkipsLooped(g, Vertices(g), {}, {}, pivot);
  }

  /** No member of C has a self-loop. */
  ghost predicate NoLoopIn(g: Graph, C: set<nat>) {
    forall u | u in C :: !Adjacent(g, u, u)
  }

  /** A state keeping the invariant meets the requirements of the search as
      written. */
  lemma StateBounds(g: Graph, P: set<nat>, R: set<nat>, X: set<nat>)
    requires SearchState(g, P, R, X)
    ensures P + X <= Vertices(g) && AdjacentToAll(g, P + X, R) && P !! R
  {
  }

  /** For a pivot in P + X, every maximal extension of R within P without a
      looped vertex meets the branching set as written: the two branching
      sets differ at most in a looped pivot. */
  lemma AsWrittenPivotNeverMisses(g: Graph, P: set<nat>, R: set<nat>, X: set<nat>, pivot: PivotRule, C: set<nat>)
    requires Undirected(g) && SearchState(g, P, R, X) && ChoosesFromUnion(pivot)
    requires P + X != {} && ExtendsTo(g, R, P, C) && NoLoopIn(g, C)
    ensures C * BranchingAsWritten(g, P, R, X, pivot) != {}
  {
    PivotNeverMisses(g, P, R, X, pivot, C);
    var w :| w in C * Branching(g, P, R, X, pivot);
    assert !Adjacent(g, w, w);
    assert w in BranchingAsWritten(g, P, R, X, pivot);
  }

  /** From a state keeping the invariant, with no looped vertex in R, the
      search as written reports every maximal extension of R within P that
      holds no looped vertex. */
  lemma {:induction false} AsWrittenComplete(g: Graph, P: set<nat>, R: set<nat>, X: set<nat>, pivot: PivotRule)
    requires Undirected(g) && SearchState(g, P, R, X) && ChoosesFromUnion(pivot) && NoLoopIn(g, R)
    requires P + X <= Vertices(g) && AdjacentToAll(g, P + X, R)
    ensures forall C | ExtendsTo(g, R, P, C) && NoLoopIn(g, C) :: C in PivotingAsWritten(g, P, R, X, pivot)
    decreases P - R, 2
  {
    BranchingAvoidsClique(g, P, R, X, pivot);
    StateBounds(g, P, R, X);
    LoopAsWrittenComplete(g, BranchingAsWritten(g, P, R, X, pivot), P, R, X, pivot);
    forall C | ExtendsTo(g, R, P, C) && NoLoopIn(g, C)
      ensures C in PivotingAsWritten(g, P, R, X, pivot)
    {
      StopExactlyAtMaximal(g, P, R, X, C);
      if P + X != {} {
        AsWrittenPivotNeverMisses(g, P, R, X, pivot, C);
      }
    }
  }

  lemma {:induction false} LoopAsWrittenComplete(g: Graph, B: set<nat>, P: set<nat>, R: set<nat>, X: set<nat>, pivot: PivotRule)
    requires Undirected(g) && SearchState(g, P, R, X) && ChoosesFromUnion(pivot) && NoLoopIn(g, R)
    requires P + X <= Vertices(g) && AdjacentToAll(g, P + X, R) && B <= P && B !! R
    ensures forall C | ExtendsTo(g, R, P, C) && C * B != {} && NoLoopIn(g, C) :: C in PivotingLoopAsWritten(g, B, P, R, X, pivot)
    decreases P - R, 1
  {
    if B != {} {
      var v := Pick(B);
      assert v in Candidates(g, R);
      AsWrittenShrinks(g, P, R, v);
      MoveState(g, P, R, X, v);
      StateBounds(g, P - {v}, R, X + {v});
      LoopAsWrittenComplete(g, B - {v}, P - {v}, R, X + {v}, pivot);
      ChildComplete(g, P, R, X, v, pivot);
      forall C | ExtendsTo(g, R, P, C) && C * B != {} && NoLoopIn(g, C)
        ensures C in PivotingLoopAsWritten(g, B, P, R, X, pivot)
      {
        ThroughVertex(g, R, P, C, v);
        AvoidingVertex(g, R, P, B, C, v);
      }
    }
  }

  /** The call on an unlooped candidate v reports every maximal extension of
      R + {v} within v's other neighbours in P that holds no looped vertex. */
  lemma {:induction false} ChildComplete(g: Graph, P: set<nat>, R: set<nat>, X: set<nat>, v: nat, pivot: PivotRule)
    requires Undirected(g) && SearchState(g, P, R, X) && ChoosesFromUnion(pivot) && NoLoopIn(g, R)
    requires P + X <= Vertices(g) && AdjacentToAll(g, P + X, R) && v in P && v !in R
    ensures v < |g| && AdjacentToAll(g, P * g[v] + X * g[v], R + {v})
    ensures !Adjacent(g, v, v) ==>
      forall C | ExtendsTo(g, R + {v}, (P - {v}) * g[v], C) && NoLoopIn(g, C) :: C in PivotingAsWritten(g, P * g[v], R + {v}, X * g[v], pivot)
    decreases P - R, 0
  {
    AsWrittenShrinks(g, P, R, v);
    ChildAdjacentToAll(g, P, R, X, v);
    if !Adjacent(g, v, v) {
      ChildState(g, P, R, X, v);
      assert P * g[v] == (P - {v}) * g[v];
      StateBounds(g, P * g[v], R + {v}, X * g[v]);
      AsWrittenComplete(g, P * g[v], R + {v}, X * g[v], pivot);
    }
  }

  /** From the first call, the pivoted search as written reports exactly the
      maximal cliques that hold no vertex with a self-loop. */
  lemma AsWrittenReportsExactlyLoopFreeMaximalCliques(g: Graph, pivot: PivotRule)
    requires Undirected(g) && ChoosesFromUnion(pivot)
    ensures forall C :: C in PivotingAsWritten(g, Vertices(g), {}, {}, pivot) <==> IsMaximalClique(g, C) && NoLoopIn(g, C)
  {
    InitialState(g);
    AsWrittenComplete(g, Vertices(g), {}, {}, pivot);
    AsWrittenReportsOnlyLoopFreeMaximalCliques(g, pivot);
  }

  /** With a single vertex carrying a self-loop, which the edge list [(0, 0)]
      produces, {0} is a maximal clique, the plain search and the corrected
      pivoted search report it, and the pivoted search as written reports
      nothing: the pivot is 0, which is its own neighbour, so the branching
      set is empty. */
  lemma SelfLoopMissedAsWritten(pivot: PivotRule)
    requires ChoosesFromUnion(pivot)
    ensures IsMaximalClique([{0}], {0})
    ensures {0} in Plain([{0}], {0}, {}, {})
    ensures {0} in Pivoting([{0}], {0}, {}, {}, pivot)
    ensures PivotingAsWritten([{0}], {0}, {}, {}, pivot) == {}
  {
  }

  // ---------------------------------------------------------------------------
  // One-based reporting.
  // ---------------------------------------------------------------------------

  /** The source reports each vertex v as v + 1. */
  function OneBased(C: set<nat>): (D: set<nat>)
    ensures forall j: int :: j in D <==> j >= 1 && j - 1 in C
  {
    set i | i in C :: i + 1
  }

  function ZeroBased(D: set<nat>): (C: set<nat>)
    ensures forall i: int :: i in C <==> i >= 0 && i + 1 in D
  {
    set j | j in D && j != 0 :: (j - 1) as nat
  }

  /** Shifting to one-based and back loses nothing. */
  lemma ZeroBasedUndoesOneBased(C: set<nat>)
    ensures ZeroBased(OneBased(C)) == C
  {
  }

  /** A one-based set, which never holds 0, is the shift of its zero-based form. */
  lemma OneBasedUndoesZeroBased(D: set<nat>)
    requires 0 !in D
    ensures OneBased(ZeroBased(D)) == D
  {
  }

  /** The source's pivoted top level as written: the search from
      (all vertices, {}, {}), each clique shifted to one-based numbering. */
  ghost function BronKerboschWithPivotingAsWritten(g: Graph, pivot: PivotRule): (reported: set<set<nat>>)
    requires Undirected(g) && ChoosesFromUnion(pivot)
    ensures forall D | D in reported :: 0 !in D
  {
    set C | C in PivotingAsWritten(g, Vertices(g), {}, {}, pivot) :: OneBased(C)
  }

  /** The same top level over the corrected pivoted search. */
  ghost function BronKerboschWithPivotingCorrected(g: Graph, pivot: PivotRule): (reported: set<set<nat>>)
    requires ChoosesFromUnion(pivot)
    ensures forall D | D in reported :: 0 !in D
  {
    set C | C in Pivoting(g, Vertices(g), {}, {}, pivot) :: OneBased(C)
  }

  /** The source's top level without pivoting. */
  ghost function BronKerboschWithoutPivoting(g: Graph): (reported: set<set<nat>>)
    ensures forall D | D in reported :: 0 !in D
  {
    set C | C in Plain(g, Vertices(g), {}, {}) :: OneBased(C)
  }

  /** The reported one-based sets are exactly the maximal cliques, shifted. */
  lemma WithoutPivotingReportsMaximalCliques(g: Graph)
    requires Undirected(g)
    ensures forall D :: D in BronKerboschWithoutPivoting(g) <==> 0 !in D && IsMaximalClique(g, ZeroBased(D))
  {
    PlainFindsAllMaximalCliques(g);
    forall D
      ensures D in BronKerboschWithoutPivoting(g) <==> 0 !in D && IsMaximalClique(g, ZeroBased(D))
    {
      if D in BronKerboschWithoutPivoting(g) {
        var C :| C in Plain(g, Vertices(g), {}, {}) && D == OneBased(C);
        ZeroBasedUndoesOneBased(C);
      }
      if 0 !in D && IsMaximalClique(g, ZeroBased(D)) {
        OneBasedUndoesZeroBased(D);
      }
    }
  }

  lemma WithPivotingCorrectedReportsMaximalCliques(g: Graph, pivot: PivotRule)
    requires Undirected(g) && ChoosesFromUnion(pivot)
    ensures forall D :: D in BronKerboschWithPivotingCorrected(g, pivot) <==> 0 !in D && IsMaximalClique(g, ZeroBased(D))
  {
    PivotingFindsAllMaximalCliques(g, pivot);
    forall D
      ensures D in BronKerboschWithPivotingCorrected(g, pivot) <==> 0 !in D && IsMaximalClique(g, ZeroBased(D))
    {
      if D in BronKerboschWithPivotingCorrected(g, pivot) {
        var C :| C in Pivoting(g, Vertices(g), {}, {}, pivot) && D == OneBased(C);
        ZeroBasedUndoesOneBased(C);
      }
      if 0 !in D && IsMaximalClique(g, ZeroBased(D)) {
        OneBasedUndoesZeroBased(D);
      }
    }
  }

  /** The pivot changes nothing but the order of the work: the corrected
      pivoted variant and the plain one report the same cliques, whatever
      pivot rule is used. */
  lemma PivotIrrelevant(g: Graph, pivot: PivotRule)
    requires Undirected(g) && ChoosesFromUnion(pivot)
    ensures BronKerboschWithPivotingCorrected(g, pivot) == BronKerboschWithoutPivoting(g)
  {
    WithPivotingCorrectedReportsMaximalCliques(g, pivot);
    WithoutPivotingReportsMaximalCliques(g);
  }

  /** The pivoted top level as written reports only shifted maximal cliques,
      none holding a vertex with a self-loop. */
  lemma WithPivotingAsWrittenReportsOnlyMaximalCliques(g: Graph, pivot: PivotRule)
    requires Undirected(g) && ChoosesFromUnion(pivot)
    ensures forall D | D in BronKerboschWithPivotingAsWritten(g, pivot) :: IsMaximalClique(g, ZeroBased(D))
    ensures forall D, u | D in BronKerboschWithPivotingAsWritten(g, pivot) && u in ZeroBased(D) :: !Adjacent(g, u, u)
  {
    AsWrittenReportsOnlyLoopFreeMaximalCliques(g, pivot);
    forall D | D in BronKerboschWithPivotingAsWritten(g, pivot)
      ensures ZeroBased(D) in PivotingAsWritten(g, Vertices(g), {}, {}, pivot)
    {
      var C :| C in PivotingAsWritten(g, Vertices(g), {}, {}, pivot) && D == OneBased(C);
      ZeroBasedUndoesOneBased(C);
    }
  }

  /** The pivoted top level as written reports exactly the shifted maximal
      cliques that hold no vertex with a self-loop. */
  lemma WithPivotingAsWrittenReportsLoopFreeMaximalCliques(g: Graph, pivot: PivotRule)
    requires Undirected(g) && ChoosesFromUnion(pivot)
    ensures forall D :: D in BronKerboschWithPivotingAsWritten(g, pivot)
                        <==> 0 !in D && IsMaximalClique(g, ZeroBased(D)) && NoLoopIn(g, ZeroBased(D))
  {
    AsWrittenReportsExactlyLoopFreeMaximalCliques(g, pivot);
    forall D
      ensures D in BronKerboschWithPivotingAsWritten(g, pivot)
              <==> 0 !in D && IsMaximalClique(g, ZeroBased(D)) && NoLoopIn(g, ZeroBased(D))
    {
      if D in BronKerboschWithPivotingAsWritten(g, pivot) {
        var C :| C in PivotingAsWritten(g, Vertices(g), {}, {}, pivot) && D == OneBased(C);
        ZeroBasedUndoesOneBased(C);
      }
      if 0 !in D && IsMaximalClique(g, ZeroBased(D)) && NoLoopIn(g, ZeroBased(D)) {
        OneBasedUndoesZeroBased(D);
      }
    }
  }

  /** On a graph without self-loops the pivoted top level as written reports
      the same cliques as the plain one, whatever pivot rule is used. */
  lemma AsWrittenPivotIrrelevantWhenLoopFree(g: Graph, pivot: PivotRule)
    requires Undirected(g) && LoopFree(g) && ChoosesFromUnion(pivot)
    ensures BronKerboschWithPivotingAsWritten(g, pivot) == BronKerboschWithoutPivoting(g)
  {
    AsWrittenAgreesWhenLoopFree(g, Vertices(g), {}, {}, pivot);
    PivotIrrelevant(g, pivot);
  }
}

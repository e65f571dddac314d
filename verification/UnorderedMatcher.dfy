/** Acceptance of unordered element matchers: the quick row/column check and the pairing search. */
module UnorderedMatcher {
  import opened Collections
  import opened MatchMatrices
  import opened Matching

  // ExactMatch carries both the Superset and the Subset flag.
  datatype MatchFlags = Superset | Subset | ExactMatch {
    predicate NeedsSuperset() { Superset? || ExactMatch? }
    predicate NeedsSubset() { Subset? || ExactMatch? }
  }

  // ---------- What acceptance means ----------

  ghost predicate CoversRights(g: Graph, m: set<Pair>) {
    forall j :: 0 <= j < g.rhsSize ==> j in Rights(m)
  }

  ghost predicate CoversLefts(g: Graph, m: set<Pair>) {
    forall i :: 0 <= i < g.lhsSize ==> i in Lefts(m)
  }

  ghost predicate IsPairing(flags: MatchFlags, g: Graph, m: set<Pair>)
    requires g.Valid()
  {
    && IsMatching(g, m)
    && (flags.NeedsSuperset() ==> CoversRights(g, m))
    && (flags.NeedsSubset() ==> CoversLefts(g, m))
  }

  /** One matching covers every side that the flags require. */
  ghost predicate Pairable(flags: MatchFlags, g: Graph)
    requires g.Valid()
  {
    exists m :: IsPairing(flags, g, m)
  }

  ghost function Below(n: nat): (r: set<int>)
    ensures forall k :: k in r <==> 0 <= k < n
    ensures |r| == n
  {
    if n == 0 then {} else Below(n - 1) + {n - 1}
  }

  /** A matching covers a side exactly when it has as many edges as that side has nodes. */
  lemma CoverageBySize(g: Graph, m: set<Pair>)
    requires g.Valid() && IsMatching(g, m)
    ensures |m| <= g.lhsSize && |m| <= g.rhsSize
    ensures CoversRights(g, m) <==> |m| == g.rhsSize
    ensures CoversLefts(g, m) <==> |m| == g.lhsSize
  {
    LeftsSize(m);
    RightsSize(m);
    SubsetSize(Lefts(m), Below(g.lhsSize));
    SubsetSize(Rights(m), Below(g.rhsSize));
    if |m| == g.rhsSize { FullSubset(Rights(m), Below(g.rhsSize)); }
    if |m| == g.lhsSize { FullSubset(Lefts(m), Below(g.lhsSize)); }
    assert CoversRights(g, m) ==> Rights(m) == Below(g.rhsSize);
    assert CoversLefts(g, m) ==> Lefts(m) == Below(g.lhsSize);
  }

  /** A maximum matching settles the question for all matchings. */
  lemma MaximumDecides(flags: MatchFlags, g: Graph, pairs: seq<Pair>)
    requires g.Valid() && IsMaximumMatching(g, pairs)
    ensures Pairable(flags, g) <==> !(flags.NeedsSuperset() && |pairs| < g.rhsSize)
                                    && !(flags.NeedsSubset() && |pairs| < g.lhsSize)
  {
    DistinctSize(pairs);
    CoverageBySize(g, PairSet(pairs));
    if !(flags.NeedsSuperset() && |pairs| < g.rhsSize) && !(flags.NeedsSubset() && |pairs| < g.lhsSize) {
      assert IsPairing(flags, g, PairSet(pairs));
    }
    if Pairable(flags, g) {
      var m :| IsPairing(flags, g, m);
      CoverageBySize(g, m);
    }
  }

  method FindPairing(flags: MatchFlags, matrix: Graph) returns (result: bool)
    requires matrix.Valid()
    ensures result <==> Pairable(flags, matrix)
  {
    var matches := FindMaxBipartiteMatching(matrix);
    MaximumDecides(flags, matrix, matches);
    var maxFlow := |matches|;
    if flags.NeedsSuperset() && maxFlow < matrix.rhsSize { return false; }
    if flags.NeedsSubset() && maxFlow < matrix.lhsSize { return false; }
    return true;
  }

  // ---------- The quick check ----------

  ghost predicate RowHasEdge(g: Graph, i: int)
    requires g.Valid()
  {
    exists j :: 0 <= j < g.rhsSize && g.HasEdge(i, j)
  }

  ghost predicate ColumnHasEdge(g: Graph, j: int)
    requires g.Valid()
  {
    exists i :: 0 <= i < g.lhsSize && g.HasEdge(i, j)
  }

  /** No required matcher or element is isolated, and an exact match has equal sizes. */
  ghost predicate PassesQuickCheck(flags: MatchFlags, g: Graph)
    requires g.Valid()
  {
    && (flags.ExactMatch? ==> g.lhsSize == g.rhsSize)
    && (flags.NeedsSuperset() ==> forall j :: 0 <= j < g.rhsSize ==> ColumnHasEdge(g, j))
    && (flags.NeedsSubset() ==> forall i :: 0 <= i < g.lhsSize ==> RowHasEdge(g, i))
  }

  method VerifyMatchMatrix(flags: MatchFlags, matrix: Graph) returns (result: bool)
    requires matrix.Valid()
    ensures result <==> PassesQuickCheck(flags, matrix)
  {
    if matrix.lhsSize == 0 && matrix.rhsSize == 0 { return true; }
    result := !(flags.ExactMatch? && matrix.lhsSize != matrix.rhsSize);
    var elementMatched := new bool[matrix.lhsSize](_ => false);
    var matcherMatched := new bool[matrix.rhsSize](_ => false);
    for ilhs := 0 to matrix.lhsSize
      invariant forall i :: 0 <= i < matrix.lhsSize ==> (elementMatched[i] <==> i < ilhs && RowHasEdge(matrix, i))
      invariant forall j :: 0 <= j < matrix.rhsSize ==>
          (matcherMatched[j] <==> exists i :: 0 <= i < ilhs && matrix.HasEdge(i, j))
    {
      for irhs := 0 to matrix.rhsSize
        invariant forall i :: 0 <= i < matrix.lhsSize && i != ilhs ==>
            (elementMatched[i] <==> i < ilhs && RowHasEdge(matrix, i))
        invariant elementMatched[ilhs] <==> exists j :: 0 <= j < irhs && matrix.HasEdge(ilhs, j)
        invariant forall j :: 0 <= j < matrix.rhsSize ==>
            (matcherMatched[j] <==> exists i :: 0 <= i < (if j < irhs then ilhs + 1 else ilhs) && matrix.HasEdge(i, j))
      {
        var matched := matrix.HasEdge(ilhs, irhs);
        elementMatched[ilhs] := elementMatched[ilhs] || matched;
        matcherMatched[irhs] := matcherMatched[irhs] || matched;
      }
    }
    assert forall j :: 0 <= j < matrix.rhsSize ==> (matcherMatched[j] <==> ColumnHasEdge(matrix, j));
    if flags.NeedsSuperset() {
      ghost var start := result;
      for mi := 0 to matcherMatched.Length
        invariant result <==> start && forall j :: 0 <= j < mi ==> ColumnHasEdge(matrix, j)
      {
        if matcherMatched[mi] { continue; }
        result := false;
      }
    }
    if flags.NeedsSubset() {
      ghost var start := result;
      for ei := 0 to elementMatched.Length
        invariant result <==> start && forall i :: 0 <= i < ei ==> RowHasEdge(matrix, i)
      {
        if elementMatched[ei] { continue; }
        result := false;
      }
    }
  }

  // ---------- How the two relate ----------

  /** The quick check never rejects a matrix that has a pairing. */
  lemma QuickCheckIsSound(flags: MatchFlags, g: Graph)
    requires g.Valid() && Pairable(flags, g)
    ensures PassesQuickCheck(flags, g)
  {
    var m :| IsPairing(flags, g, m);
    CoverageBySize(g, m);
    if flags.NeedsSuperset() {
      forall j | 0 <= j < g.rhsSize ensures ColumnHasEdge(g, j) {
        assert j in Rights(m);
        var e: Pair :| e in m && e.1 == j;
        assert g.HasEdge(e.0, j);
      }
    }
    if flags.NeedsSubset() {
      forall i | 0 <= i < g.lhsSize ensures RowHasEdge(g, i) {
        assert i in Lefts(m);
        var e: Pair :| e in m && e.0 == i;
        assert g.HasEdge(i, e.1);
      }
    }
  }

  /** Two elements whose only matcher is the same one are never both matched. */
  lemma CompetingElements(g: Graph, m: set<Pair>, i: int, k: int, j: int)
    requires g.Valid() && IsMatching(g, m) && i != k
    requires forall x :: g.HasEdge(i, x) || g.HasEdge(k, x) ==> x == j
    ensures !(i in Lefts(m) && k in Lefts(m))
  {
  }

  /** The quick check alone is not enough: two elements competing for one matcher pass it. */
  lemma QuickCheckIsIncomplete()
    ensures exists g: Graph :: g.Valid() && PassesQuickCheck(ExactMatch, g) && !Pairable(ExactMatch, g)
  {
    var g := Graph(3, 3, [[true, false, false], [true, false, false], [true, true, true]]);
    assert g.HasEdge(0, 0) && g.HasEdge(1, 0) && g.HasEdge(2, 1) && g.HasEdge(2, 2);
    assert RowHasEdge(g, 0) && RowHasEdge(g, 1) && RowHasEdge(g, 2);
    assert ColumnHasEdge(g, 0) && ColumnHasEdge(g, 1) && ColumnHasEdge(g, 2);
    assert PassesQuickCheck(ExactMatch, g);
    forall m ensures !IsPairing(ExactMatch, g, m) {
      if IsMatching(g, m) {
        CompetingElements(g, m, 0, 1, 0);
      }
    }
  }

  // ---------- Whole containers ----------

  /** The graph in which element i is joined to each matcher it satisfies. */
  ghost predicate Analyses<E(!new)>(g: Graph, elements: seq<E>, matchers: seq<E -> bool>) {
    && g.Valid() && g.lhsSize == |elements| && g.rhsSize == |matchers|
    && forall i, j :: 0 <= i < |elements| && 0 <= j < |matchers| ==> (g.HasEdge(i, j) <==> matchers[j](elements[i]))
  }

  /** The outcomes for one element, then for the first n elements, in the order they are computed. */
  function Row<E>(element: E, matchers: seq<E -> bool>): seq<bool> {
    seq(|matchers|, j requires 0 <= j < |matchers| => matchers[j](element))
  }

  ghost function Rows<E>(elements: seq<E>, matchers: seq<E -> bool>, n: nat): (r: seq<bool>)
    requires n <= |elements|
    ensures |r| == n * |matchers|
  {
    if n == 0 then [] else Rows(elements, matchers, n - 1) + Row(elements[n - 1], matchers)
  }

  lemma {:induction false} RowsAt<E>(elements: seq<E>, matchers: seq<E -> bool>, n: nat, i: nat, j: nat)
    requires i < n <= |elements| && j < |matchers|
    ensures SpaceIndex(|matchers|, i, j) < n * |matchers|
    ensures Rows(elements, matchers, n)[SpaceIndex(|matchers|, i, j)] == matchers[j](elements[i])
  {
    SpaceIndexInRange(n, |matchers|, i, j);
    if i < n - 1 {
      RowsAt(elements, matchers, n - 1, i, j);
    }
  }

  method AnalyzeElements<E(!new)>(elements: seq<E>, matchers: seq<E -> bool>) returns (matrix: MatchMatrix)
    ensures matrix.Valid() && Analyses(matrix.View(), elements, matchers)
  {
    var didMatch: seq<bool> := [];
    for i := 0 to |elements|
      invariant didMatch == Rows(elements, matchers, i)
    {
      for irhs := 0 to |matchers|
        invariant didMatch == Rows(elements, matchers, i) + Row(elements[i], matchers)[..irhs]
      {
        didMatch := didMatch + [matchers[irhs](elements[i])];
      }
    }
    matrix := new MatchMatrix(|elements|, |matchers|);
    for ilhs := 0 to |elements|
      invariant forall i, j :: 0 <= i < ilhs && 0 <= j < |matchers| ==>
          (matrix.View().HasEdge(i, j) <==> matchers[j](elements[i]))
    {
      for irhs := 0 to |matchers|
        invariant forall i, j :: 0 <= i < ilhs && 0 <= j < |matchers| ==>
            (matrix.View().HasEdge(i, j) <==> matchers[j](elements[i]))
        invariant forall j :: 0 <= j < irhs ==> (matrix.View().HasEdge(ilhs, j) <==> matchers[j](elements[ilhs]))
      {
        RowsAt(elements, matchers, |elements|, ilhs, irhs);
        matrix.SetEdge(ilhs, irhs, didMatch[SpaceIndex(|matchers|, ilhs, irhs)]);
      }
    }
  }

  /** Element `assign[j]` is the one chosen for requirement j. */
  ghost predicate Assigns<E>(elements: seq<E>, matchers: seq<E -> bool>, assign: seq<int>) {
    && |assign| == |matchers|
    && (forall j :: 0 <= j < |assign| ==> 0 <= assign[j] < |elements| && matchers[j](elements[assign[j]]))
    && (forall j, k :: 0 <= j < k < |assign| ==> assign[j] != assign[k])
  }

  /** What UnorderedElementsAre promises: as many elements as matchers, and some permutation of the
      elements satisfies the matchers one by one. */
  ghost predicate SomePermutationMatches<E>(elements: seq<E>, matchers: seq<E -> bool>) {
    |elements| == |matchers| && exists assign :: Assigns(elements, matchers, assign)
  }

  /** What IsSupersetOf promises: distinct elements can be found for all matchers. */
  ghost predicate SomeElementsMatchAll<E>(elements: seq<E>, matchers: seq<E -> bool>) {
    exists assign :: Assigns(elements, matchers, assign)
  }

  /** Matcher `assign[i]` is the one chosen for element i. */
  ghost predicate AssignsBack<E>(elements: seq<E>, matchers: seq<E -> bool>, assign: seq<int>) {
    && |assign| == |elements|
    && (forall i :: 0 <= i < |assign| ==> 0 <= assign[i] < |matchers| && matchers[assign[i]](elements[i]))
    && (forall i, k :: 0 <= i < k < |assign| ==> assign[i] != assign[k])
  }

  /** What IsSubsetOf promises: distinct matchers can be found for all elements. */
  ghost predicate AllElementsMatchSome<E>(elements: seq<E>, matchers: seq<E -> bool>) {
    exists assign :: AssignsBack(elements, matchers, assign)
  }

  /** The matcher that the matching m gives to element i. */
  ghost function MatcherOf(m: set<Pair>, i: int): (j: int)
    requires i in Lefts(m)
    ensures (i, j) in m
  {
    var e: Pair :| e in m && e.0 == i;
    e.1
  }

  lemma AssignmentFromLefts<E(!new)>(g: Graph, elements: seq<E>, matchers: seq<E -> bool>, m: set<Pair>)
    requires Analyses(g, elements, matchers) && IsMatching(g, m) && CoversLefts(g, m)
    ensures exists assign :: AssignsBack(elements, matchers, assign)
  {
    var assign := seq(|elements|, i requires 0 <= i < |elements| => MatcherOf(m, i));
    assert AssignsBack(elements, matchers, assign);
  }

  lemma LeftsFromAssignment<E(!new)>(g: Graph, elements: seq<E>, matchers: seq<E -> bool>, assign: seq<int>)
    returns (m: set<Pair>)
    requires Analyses(g, elements, matchers) && AssignsBack(elements, matchers, assign)
    ensures IsMatching(g, m) && CoversLefts(g, m)
  {
    m := set i | 0 <= i < |assign| :: (i, assign[i]);
    forall i | 0 <= i < g.lhsSize ensures i in Lefts(m) {
      assert (i, assign[i]) in m;
    }
  }

  lemma SubsetMeaning<E(!new)>(g: Graph, elements: seq<E>, matchers: seq<E -> bool>)
    requires Analyses(g, elements, matchers)
    ensures Pairable(Subset, g) <==> AllElementsMatchSome(elements, matchers)
  {
    forall m | IsPairing(Subset, g, m) ensures AllElementsMatchSome(elements, matchers) {
      AssignmentFromLefts(g, elements, matchers, m);
    }
    forall assign | AssignsBack(elements, matchers, assign) ensures Pairable(Subset, g) {
      var m := LeftsFromAssignment(g, elements, matchers, assign);
      assert IsPairing(Subset, g, m);
    }
  }

  /** The element that the matching m gives to matcher j. */
  ghost function Partner(m: set<Pair>, j: int): (i: int)
    requires j in Rights(m)
    ensures (i, j) in m
  {
    var e: Pair :| e in m && e.1 == j;
    e.0
  }

  lemma AssignmentFromCover<E(!new)>(g: Graph, elements: seq<E>, matchers: seq<E -> bool>, m: set<Pair>)
    requires Analyses(g, elements, matchers) && IsMatching(g, m) && CoversRights(g, m)
    ensures exists assign :: Assigns(elements, matchers, assign)
  {
    var assign := seq(|matchers|, j requires 0 <= j < |matchers| => Partner(m, j));
    assert Assigns(elements, matchers, assign);
  }

  lemma CoverFromAssignment<E(!new)>(g: Graph, elements: seq<E>, matchers: seq<E -> bool>, assign: seq<int>)
    returns (m: set<Pair>)
    requires Analyses(g, elements, matchers) && Assigns(elements, matchers, assign)
    ensures IsMatching(g, m) && CoversRights(g, m)
  {
    m := set j | 0 <= j < |assign| :: (assign[j], j);
    forall j | 0 <= j < g.rhsSize ensures j in Rights(m) {
      assert (assign[j], j) in m;
    }
  }

  /** For each flag, a pairing exists exactly when the elements and matchers allow what the flag asks for. */
  lemma PairableMeaning<E(!new)>(g: Graph, elements: seq<E>, matchers: seq<E -> bool>)
    requires Analyses(g, elements, matchers)
    ensures Pairable(Superset, g) <==> SomeElementsMatchAll(elements, matchers)
    ensures Pairable(Subset, g) <==> AllElementsMatchSome(elements, matchers)
    ensures Pairable(ExactMatch, g) <==> SomePermutationMatches(elements, matchers)
  {
    SubsetMeaning(g, elements, matchers);
    forall flags, m | IsPairing(flags, g, m) && flags != Subset
      ensures SomeElementsMatchAll(elements, matchers)
      ensures flags == ExactMatch ==> SomePermutationMatches(elements, matchers)
    {
      AssignmentFromCover(g, elements, matchers, m);
      CoverageBySize(g, m);
    }
    forall assign | Assigns(elements, matchers, assign)
      ensures Pairable(Superset, g)
      ensures |elements| == |matchers| ==> Pairable(ExactMatch, g)
    {
      var m := CoverFromAssignment(g, elements, matchers, assign);
      CoverageBySize(g, m);
      assert IsPairing(Superset, g, m);
      assert |elements| == |matchers| ==> IsPairing(ExactMatch, g, m);
    }
  }

  /** Acceptance of a container: the quick check first, then the pairing search. */
  method MatchAndExplain<E(!new)>(flags: MatchFlags, elements: seq<E>, matchers: seq<E -> bool>)
    returns (result: bool)
    ensures flags == ExactMatch ==> (result <==> SomePermutationMatches(elements, matchers))
    ensures flags == Superset ==> (result <==> SomeElementsMatchAll(elements, matchers))
    ensures flags == Subset ==> (result <==> AllElementsMatchSome(elements, matchers))
    ensures forall g :: Analyses(g, elements, matchers) ==> (result <==> Pairable(flags, g))
  {
    var matrix := AnalyzeElements(elements, matchers);
    var graph := matrix.View();
    if Pairable(flags, graph) {
      QuickCheckIsSound(flags, graph);
    }
    PairableMeaning(graph, elements, matchers);
    result := VerifyMatchMatrix(flags, graph);
    if result {
      result := FindPairing(flags, graph);
    }
    forall g | Analyses(g, elements, matchers) ensures g == graph {
      forall i, j | 0 <= i < |elements| && 0 <= j < |matchers| ensures g.cells[i][j] == graph.cells[i][j] {
        assert g.HasEdge(i, j) <==> graph.HasEdge(i, j);
      }
      assert forall i :: 0 <= i < |elements| ==> g.cells[i] == graph.cells[i];
    }
  }
}

/** Maximum bipartite matching of elements (left) to matchers (right), after gmock-matchers.cc. */
module Matching {

  import opened Collections
  import opened MatchMatrices

  // The sentinel static_cast<size_t>(-1).
  const UNUSED := -1

  type Pair = (int, int)

  // ---------- Matchings as sets of edges ----------

  ghost predicate IsMatching(g: Graph, m: set<Pair>)
    requires g.Valid()
  {
    && (forall e :: e in m ==> g.HasEdge(e.0, e.1))
    && (forall e, f :: e in m && f in m && (e.0 == f.0 || e.1 == f.1) ==> e == f)
  }

  ghost function Lefts(m: set<Pair>): set<int> { set e | e in m :: e.0 }

  ghost function Rights(m: set<Pair>): set<int> { set e | e in m :: e.1 }

  lemma {:induction false} LeftsSize(m: set<Pair>)
    requires forall e, f :: e in m && f in m && e.0 == f.0 ==> e == f
    ensures |Lefts(m)| == |m|
  {
    if m != {} {
      var e :| e in m;
      LeftsSize(m - {e});
      assert Lefts(m) == Lefts(m - {e}) + {e.0};
    }
  }

  lemma {:induction false} RightsSize(m: set<Pair>)
    requires forall e, f :: e in m && f in m && e.1 == f.1 ==> e == f
    ensures |Rights(m)| == |m|
  {
    if m != {} {
      var e :| e in m;
      RightsSize(m - {e});
      assert Rights(m) == Rights(m - {e}) + {e.1};
    }
  }

  lemma SplitSize<T>(a: set<T>, b: set<T>)
    requires a <= b
    ensures |b| == |a| + |b - a|
  {
    assert b == a + (b - a);
  }

  /** Weak duality: no matching is larger than a vertex cover of the edges it may use. */
  lemma CoverBoundsMatching(g: Graph, m: set<Pair>, coverLeft: set<int>, coverRight: set<int>)
    requires g.Valid() && IsMatching(g, m)
    requires forall e :: e in m ==> e.0 in coverLeft || e.1 in coverRight
    ensures |m| <= |coverLeft| + |coverRight|
  {
    var a := set e | e in m && e.0 in coverLeft;
    var b := m - a;
    SplitSize(a, m);
    LeftsSize(a);
    SubsetSize(Lefts(a), coverLeft);
    RightsSize(b);
    SubsetSize(Rights(b), coverRight);
  }

  // ---------- The two index vectors ----------

  /** Every used entry of either vector names a real edge and is mirrored by the other vector. */
  ghost predicate MutuallyReferent(g: Graph, left: seq<int>, right: seq<int>)
    requires g.Valid()
  {
    && |left| == g.lhsSize && |right| == g.rhsSize
    && (forall i :: 0 <= i < |left| ==>
          left[i] == UNUSED || (g.HasEdge(i, left[i]) && right[left[i]] == i))
    && (forall j :: 0 <= j < |right| ==>
          right[j] == UNUSED || (g.HasEdge(right[j], j) && left[right[j]] == j))
  }

  ghost function Edges(left: seq<int>): set<Pair> {
    set i | 0 <= i < |left| && left[i] != UNUSED :: (i, left[i])
  }

  lemma EdgesAreMatching(g: Graph, left: seq<int>, right: seq<int>)
    requires g.Valid() && MutuallyReferent(g, left, right)
    ensures IsMatching(g, Edges(left))
  {
  }

  // ---------- Dead ends ----------

  /** Neighbours of left node i all lie in `dead`. */
  ghost predicate NeighboursIn(g: Graph, i: int, dead: set<int>)
    requires g.Valid()
  {
    forall j :: 0 <= j < g.rhsSize && g.HasEdge(i, j) ==> j in dead
  }

  /** A set of matched right nodes from which no alternating path leads out. */
  ghost predicate Closed(g: Graph, right: seq<int>, dead: set<int>)
    requires g.Valid()
  {
    && |right| == g.rhsSize
    && forall j :: j in dead ==>
         0 <= j < g.rhsSize && right[j] != UNUSED && NeighboursIn(g, right[j], dead)
  }

  /** A closed set holding every neighbour of the unmatched left nodes below `bound` certifies that
      no matching of the left nodes below `bound` is larger. */
  ghost predicate Certifies(g: Graph, left: seq<int>, right: seq<int>, bound: int, dead: set<int>)
    requires g.Valid()
  {
    && |left| == g.lhsSize
    && Closed(g, right, dead)
    && forall i :: 0 <= i < bound <= g.lhsSize && left[i] == UNUSED ==> NeighboursIn(g, i, dead)
  }

  /** The matched edges that end in a dead right node. */
  ghost function IntoDead(left: seq<int>, dead: set<int>): set<Pair> {
    set e | e in Edges(left) && e.1 in dead
  }

  /** Every edge below the bound ends in the dead set or starts at a left node matched outside it. */
  lemma EdgeIsCovered(g: Graph, left: seq<int>, right: seq<int>, bound: int, dead: set<int>, e: Pair)
    requires g.Valid() && MutuallyReferent(g, left, right) && bound <= g.lhsSize
    requires Certifies(g, left, right, bound, dead)
    requires g.HasEdge(e.0, e.1) && e.0 < bound
    ensures e.0 in Lefts(Edges(left) - IntoDead(left, dead)) || e.1 in dead
  {
    if left[e.0] == UNUSED {
      assert NeighboursIn(g, e.0, dead);
    } else if left[e.0] in dead {
      assert right[left[e.0]] == e.0 && NeighboursIn(g, e.0, dead);
    } else {
      assert (e.0, left[e.0]) in Edges(left) - IntoDead(left, dead);
    }
  }

  lemma DeadIsMatched(g: Graph, left: seq<int>, right: seq<int>, dead: set<int>)
    requires g.Valid() && MutuallyReferent(g, left, right) && Closed(g, right, dead)
    ensures dead == Rights(IntoDead(left, dead))
  {
    forall j | j in dead ensures j in Rights(IntoDead(left, dead)) {
      assert left[right[j]] == j;
      assert (right[j], j) in IntoDead(left, dead);
    }
  }

  lemma CertificateImpliesMaximum(g: Graph, left: seq<int>, right: seq<int>, bound: int, dead: set<int>,
                                  m: set<Pair>)
    requires g.Valid() && MutuallyReferent(g, left, right) && bound <= g.lhsSize
    requires Certifies(g, left, right, bound, dead)
    requires IsMatching(g, m) && forall e :: e in m ==> e.0 < bound
    ensures |m| <= |Edges(left)|
  {
    var edges, intoDead := Edges(left), IntoDead(left, dead);
    EdgesAreMatching(g, left, right);
    DeadIsMatched(g, left, right, dead);
    RightsSize(intoDead);
    LeftsSize(edges - intoDead);
    forall e | e in m ensures e.0 in Lefts(edges - intoDead) || e.1 in dead {
      EdgeIsCovered(g, left, right, bound, dead, e);
    }
    CoverBoundsMatching(g, m, Lefts(edges - intoDead), dead);
    SplitSize(intoDead, edges);
  }

  // ---------- The search ----------

  ghost function Unseen(seen: seq<bool>): set<int> { set j | 0 <= j < |seen| && !seen[j] }

  /** Neighbours of left node i have all been marked. */
  ghost predicate Exhausted(g: Graph, i: int, seen: seq<bool>)
    requires g.Valid() && |seen| == g.rhsSize
  {
    forall j :: 0 <= j < g.rhsSize && g.HasEdge(i, j) ==> seen[j]
  }

  /** What a failed search from left node i leaves behind: all that it marked is matched, and the
      neighbours of every left node it explored are marked. */
  ghost predicate DeadEnd(g: Graph, right: seq<int>, before: seq<bool>, after: seq<bool>)
    requires g.Valid() && |right| == |before| == |after| == g.rhsSize
  {
    && (forall j :: 0 <= j < |before| && before[j] ==> after[j])
    && (forall j :: 0 <= j < |before| && after[j] && !before[j] ==>
          right[j] != UNUSED && Exhausted(g, right[j], after))
  }

  /** The right vector without the stale link to left node i's former partner. */
  ghost function Unlinked(right: seq<int>, partner: int): seq<int> {
    if 0 <= partner < |right| then right[partner := UNUSED] else right
  }

  /** Moving left node i from its partner to the free right node j keeps the vectors mutually referent. */
  lemma Relink(g: Graph, left: seq<int>, right: seq<int>, i: int, j: int)
    requires g.Valid() && MutuallyReferent(g, left, right) && g.HasEdge(i, j) && right[j] == UNUSED
    ensures MutuallyReferent(g, left[i := j], Unlinked(right, left[i])[j := i])
  {
  }

  class MaxBipartiteMatchState {
    const graph: Graph
    const left: array<int>
    const right: array<int>

    ghost predicate Valid()
      reads left, right
    {
      left != right && graph.Valid() && MutuallyReferent(graph, left[..], right[..])
    }

    constructor (g: Graph)
      requires g.Valid()
      ensures Valid() && graph == g && fresh(left) && fresh(right)
      ensures forall i :: 0 <= i < left.Length ==> left[i] == UNUSED
      ensures forall j :: 0 <= j < right.Length ==> right[j] == UNUSED
    {
      graph := g;
      left := new int[g.lhsSize](_ => UNUSED);
      right := new int[g.rhsSize](_ => UNUSED);
    }

    /** Depth-first search for an augmenting path from left node ilhs.

        While the recursion unwinds, the right node that ilhs was matched to still points at ilhs;
        the caller relinks it. `dead` is any closed set: the search never rematches a node in it. */
    method TryAugment(ilhs: nat, seen: array<bool>, ghost dead: set<int>) returns (ok: bool)
      requires Valid() && ilhs < graph.lhsSize
      requires seen.Length == graph.rhsSize
      requires left[ilhs] == UNUSED || seen[left[ilhs]]
      requires Closed(graph, right[..], dead)
      modifies left, right, seen
      ensures left[..] == old(left[..]) && right[..] == old(right[..]) <== !ok
      ensures !ok ==> DeadEnd(graph, right[..], old(seen[..]), seen[..]) && Exhausted(graph, ilhs, seen[..])
      ensures NeighboursIn(graph, ilhs, dead) ==> !ok
      ensures ok ==> left[ilhs] != UNUSED
      ensures ok ==> MutuallyReferent(graph, left[..], Unlinked(right[..], old(left[ilhs])))
      ensures ok ==> forall i :: 0 <= i < left.Length && i != ilhs && old(left[i] == UNUSED || seen[left[i]])
                                 ==> left[i] == old(left[i])
      ensures ok ==> forall i :: 0 <= i < left.Length && old(left[i]) != UNUSED ==> left[i] != UNUSED
      ensures ok ==> forall j :: 0 <= j < right.Length && (old(seen[j]) || j in dead) ==> right[j] == old(right[j])
      ensures ok ==> forall j :: 0 <= j < right.Length && old(right[j]) != UNUSED ==> right[j] != UNUSED
      decreases Unseen(seen[..])
    {
      for irhs := 0 to graph.rhsSize
        invariant left[..] == old(left[..]) && right[..] == old(right[..])
        invariant DeadEnd(graph, right[..], old(seen[..]), seen[..])
        invariant forall j :: 0 <= j < irhs && graph.HasEdge(ilhs, j) ==> seen[j]
      {
        if seen[irhs] { continue; }
        if !graph.HasEdge(ilhs, irhs) { continue; }
        seen[irhs] := true;
        var found := right[irhs] == UNUSED;
        if !found {
          assert irhs in Unseen(old(seen[..])) - Unseen(seen[..]);
          found := TryAugment(right[irhs], seen, dead);
        }
        if found {
          ghost var partner := old(left[ilhs]);
          assert left[ilhs] == partner && (partner != UNUSED ==> right[partner] == ilhs);
          ghost var l, r := left[..], Unlinked(right[..], irhs);
          assert MutuallyReferent(graph, l, r);
          left[ilhs] := irhs;
          right[irhs] := ilhs;
          Relink(graph, l, r, ilhs, irhs);
          assert left[..] == l[ilhs := irhs];
          assert Unlinked(right[..], partner) == Unlinked(r, partner)[irhs := ilhs];
          return true;
        }
      }
      return false;
    }

    /** Tries to augment from each left node once, then lists the matched pairs. */
    method Compute() returns (pairs: seq<Pair>)
      requires Valid()
      requires forall i :: 0 <= i < left.Length ==> left[i] == UNUSED
      requires forall j :: 0 <= j < right.Length ==> right[j] == UNUSED
      modifies left, right
      ensures Valid() && ListsEdges(pairs, left[..])
      ensures IsMaximumMatching(graph, pairs)
    {
      ghost var dead := {};
      for ilhs := 0 to graph.lhsSize
        invariant Valid()
        invariant forall i :: ilhs <= i < left.Length ==> left[i] == UNUSED
        invariant Certifies(graph, left[..], right[..], ilhs, dead)
      {
        assert left[ilhs] == UNUSED;  // the run-time check at the head of the loop always passes
        var seen := new bool[graph.rhsSize](_ => false);
        ghost var l, r := left[..], right[..];
        var ok := TryAugment(ilhs, seen, dead);
        if ok {
          CertificateAfterSuccess(graph, l, r, left[..], right[..], ilhs, dead);
        } else {
          var marked := set j | 0 <= j < seen.Length && seen[j];
          dead := dead + marked;
        }
      }
      pairs := [];
      for ilhs := 0 to left.Length
        invariant ListsEdges(pairs, left[..ilhs])
      {
        var irhs := left[ilhs];
        if irhs == UNUSED { continue; }
        assert Edges(left[..ilhs + 1]) == Edges(left[..ilhs]) + {(ilhs, irhs)};
        pairs := pairs + [(ilhs, irhs)];
      }
      assert left[..left.Length] == left[..];
      MaximumFromCertificate(graph, left[..], right[..], dead, pairs);
    }
  }

  lemma CertificateAfterSuccess(g: Graph, l: seq<int>, r: seq<int>, left: seq<int>, right: seq<int>,
                                ilhs: int, dead: set<int>)
    requires g.Valid() && 0 <= ilhs < g.lhsSize && Certifies(g, l, r, ilhs, dead)
    requires |left| == |l| && |right| == |r| && left[ilhs] != UNUSED
    requires forall i :: 0 <= i < |l| && l[i] != UNUSED ==> left[i] != UNUSED
    requires forall j :: 0 <= j < |r| && j in dead ==> right[j] == r[j]
    ensures Certifies(g, left, right, ilhs + 1, dead)
  {
  }

  // ---------- Results ----------

  ghost function PairSet(pairs: seq<Pair>): set<Pair> { set e | e in pairs }

  /** The list holds exactly the edges recorded in `left`, in increasing order of left node. */
  ghost predicate ListsEdges(pairs: seq<Pair>, left: seq<int>) {
    && PairSet(pairs) == Edges(left)
    && (forall a :: 0 <= a < |pairs| ==> 0 <= pairs[a].0 < |left|)
    && (forall a, b :: 0 <= a < b < |pairs| ==> pairs[a].0 < pairs[b].0)
  }

  ghost predicate IsMaximumMatching(g: Graph, pairs: seq<Pair>)
    requires g.Valid()
  {
    && (forall a, b :: 0 <= a < b < |pairs| ==> pairs[a] != pairs[b])
    && IsMatching(g, PairSet(pairs))
    && forall m :: IsMatching(g, m) ==> |m| <= |pairs|
  }

  lemma {:induction false} DistinctSize(pairs: seq<Pair>)
    requires forall a, b :: 0 <= a < b < |pairs| ==> pairs[a] != pairs[b]
    ensures |PairSet(pairs)| == |pairs|
  {
    if pairs == [] {
      assert PairSet(pairs) == {};
    } else {
      var n := |pairs| - 1;
      DistinctSize(pairs[..n]);
      assert PairSet(pairs) == PairSet(pairs[..n]) + {pairs[n]};
      assert pairs[n] !in PairSet(pairs[..n]);
    }
  }

  lemma MaximumFromCertificate(g: Graph, left: seq<int>, right: seq<int>, dead: set<int>, pairs: seq<Pair>)
    requires g.Valid() && MutuallyReferent(g, left, right) && Certifies(g, left, right, g.lhsSize, dead)
    requires ListsEdges(pairs, left)
    ensures IsMaximumMatching(g, pairs)
  {
    EdgesAreMatching(g, left, right);
    DistinctSize(pairs);
    forall m | IsMatching(g, m) ensures |m| <= |pairs| {
      CertificateImpliesMaximum(g, left, right, g.lhsSize, dead, m);
    }
  }

  method FindMaxBipartiteMatching(g: Graph) returns (pairs: seq<Pair>)
    requires g.Valid()
    ensures IsMaximumMatching(g, pairs)
    ensures forall a, b :: 0 <= a < b < |pairs| ==> pairs[a].0 < pairs[b].0
  {
    var state := new MaxBipartiteMatchState(g);
    pairs := state.Compute();
  }
}

/** Prerequisites of expectations, after gmock-spec-builders.cc and gmock-spec-builders.h. */
module Prerequisites {
  import opened Collections

  // ---------- Transitive prerequisites ----------

  /** The immediate prerequisites of each expectation, by number. */
  type Graph = map<nat, set<nat>>

  ghost predicate Closed(g: Graph) {
    forall x, y :: x in g && y in g[x] ==> y in g
  }

  ghost predicate Path(g: Graph, p: seq<nat>) {
    p != [] && forall i :: 0 <= i < |p| - 1 ==> p[i] in g && p[i + 1] in g[p[i]]
  }

  /** y is a prerequisite of x, immediate or not. */
  ghost predicate Requires(g: Graph, x: nat, y: nat) {
    exists p :: IsPath(g, x, y, p)
  }

  ghost predicate IsPath(g: Graph, x: nat, y: nat, p: seq<nat>) {
    |p| >= 2 && Path(g, p) && p[0] == x && p[|p| - 1] == y
  }

  lemma RequiresImmediate(g: Graph, x: nat, y: nat)
    requires x in g && y in g[x]
    ensures Requires(g, x, y)
  {
    assert IsPath(g, x, y, [x, y]);
  }

  lemma RequiresTrans(g: Graph, x: nat, y: nat, z: nat)
    requires Requires(g, x, y) && Requires(g, y, z)
    ensures Requires(g, x, z)
  {
    var p :| IsPath(g, x, y, p);
    var q :| IsPath(g, y, z, q);
    var r := p + q[1..];
    forall i | 0 <= i < |r| - 1 ensures r[i] in g && r[i + 1] in g[r[i]] {
      if i >= |p| - 1 {
        assert r[i] == q[i - (|p| - 1)] && r[i + 1] == q[i - (|p| - 1) + 1];
      }
    }
    assert IsPath(g, x, z, r);
  }

  /** A prerequisite is immediate, or is one of an immediate prerequisite. */
  lemma RequiresFirst(g: Graph, x: nat, y: nat) returns (z: nat)
    requires Requires(g, x, y)
    ensures x in g && z in g[x] && (z == y || Requires(g, z, y))
  {
    var p :| IsPath(g, x, y, p);
    z := p[1];
    if |p| > 2 {
      assert IsPath(g, z, y, p[1..]);
    }
  }

  /** No prerequisite lies outside a set that immediate prerequisites do not leave. */
  lemma RequiresStaysIn(g: Graph, s: set<nat>, x: nat, y: nat)
    requires forall a, b :: a in s && a in g && b in g[a] ==> b in s
    requires Requires(g, x, y) && forall b :: x in g && b in g[x] ==> b in s
    ensures y in s
  {
    var p :| IsPath(g, x, y, p);
    StaysIn(g, s, p, |p| - 1);
  }

  lemma {:induction false} StaysIn(g: Graph, s: set<nat>, p: seq<nat>, i: nat)
    requires forall a, b :: a in s && a in g && b in g[a] ==> b in s
    requires Path(g, p) && 1 <= i < |p| && forall b :: b in g[p[0]] ==> b in s
    ensures p[i] in s
  {
    if i > 1 {
      StaysIn(g, s, p, i - 1);
    }
    assert p[i - 1 + 1] in g[p[i - 1]];
  }

  // ---------- Acyclic graphs ----------

  ghost predicate Acyclic(g: Graph) { forall i :: !Requires(g, i, i) }

  /** The graph after `next` has been put behind `last` in a sequence. */
  ghost function Ordered(g: Graph, last: nat, next: nat): Graph
    requires next in g
  {
    if last == next then g else g[next := g[next] + {last}]
  }

  lemma {:induction false} OrderedPath(g: Graph, last: nat, next: nat, p: seq<nat>, i: nat)
    requires next in g && last != next && Path(Ordered(g, last, next), p) && 1 <= i < |p|
    ensures Requires(g, p[0], p[i])
            || ((p[0] == next || Requires(g, p[0], next)) && (p[i] == last || Requires(g, last, p[i])))
  {
    var a, b := p[i - 1], p[i - 1 + 1];
    assert a in g && b in Ordered(g, last, next)[a];
    if b in g[a] {
      RequiresImmediate(g, a, b);
    }
    if i > 1 {
      OrderedPath(g, last, next, p, i - 1);
      if b in g[a] {
        if Requires(g, p[0], a) {
          RequiresTrans(g, p[0], a, b);
        } else if a != last {
          RequiresTrans(g, last, a, b);
        }
      } else if !Requires(g, p[0], a) && p[0] != next {
        assert a == next;
      }
    }
  }

  /** Ordering keeps the graph acyclic exactly when the earlier one does not already require the later. */
  lemma OrderedIsAcyclic(g: Graph, last: nat, next: nat)
    requires next in g && last != next && Acyclic(g)
    ensures Acyclic(Ordered(g, last, next)) <==> !Requires(g, last, next)
  {
    var h := Ordered(g, last, next);
    if Requires(g, last, next) {
      var p :| IsPath(g, last, next, p);
      assert IsPath(h, last, next, p);
      RequiresImmediate(h, next, last);
      RequiresTrans(h, next, last, next);
    } else {
      forall i ensures !Requires(h, i, i) {
        if Requires(h, i, i) {
          var p :| IsPath(h, i, i, p);
          OrderedPath(g, last, next, p, |p| - 1);
          assert i == next || i == last || (Requires(g, i, next) && Requires(g, last, i));
          if Requires(g, i, next) && Requires(g, last, i) {
            RequiresTrans(g, last, i, next);
          }
          assert false;
        }
      }
    }
  }

  /** An older expectation may be ordered into a cycle: first a, b in one sequence, then b, a in another. */
  lemma OlderExpectationMayCycle()
    ensures var g: Graph := map[0 := {}, 1 := {}];
      Acyclic(Ordered(g, 0, 1)) && !Acyclic(Ordered(Ordered(g, 0, 1), 1, 0))
  {
    var g: Graph := map[0 := {}, 1 := {}];
    var h := Ordered(g, 0, 1);
    forall i, j ensures !Requires(g, i, j) {
      if Requires(g, i, j) {
        var z := RequiresFirst(g, i, j);
      }
    }
    OrderedIsAcyclic(g, 0, 1);
    RequiresImmediate(h, 1, 0);
    OrderedIsAcyclic(h, 1, 0);
  }

  ghost function AllRequired(g: Graph, i: nat): set<nat> { set j | j in g && Requires(g, i, j) }

  /** A longest descent has no more steps than there are prerequisites. */
  ghost function Rank(g: Graph, i: nat): nat { |AllRequired(g, i)| }

  lemma RankDrops(g: Graph, i: nat, j: nat)
    requires Closed(g) && Acyclic(g) && i in g && j in g[i]
    ensures Rank(g, j) < Rank(g, i)
  {
    RequiresImmediate(g, i, j);
    forall k | k in AllRequired(g, j) ensures k in AllRequired(g, i) {
      RequiresTrans(g, i, j, k);
    }
    var a, b := AllRequired(g, j), AllRequired(g, i);
    assert j in b - a;
    assert b == a + (b - a) && |b| == |a| + |b - a|;
  }

  function Power(b: nat, n: nat): nat { if n == 0 then 1 else b * Power(b, n - 1) }

  lemma {:induction false} PowerGrows(b: nat, m: nat, n: nat)
    requires b >= 1 && m <= n
    ensures 1 <= Power(b, m) <= Power(b, n)
    decreases n
  {
    if n > m {
      PowerGrows(b, m, n - 1);
      assert Power(b, n) == b * Power(b, n - 1) >= Power(b, n - 1);
    } else if m > 0 {
      PowerGrows(b, m - 1, n - 1);
      assert b * Power(b, m - 1) >= 1;
    }
  }

  // ---------- Checking, by numbers ----------

  lemma RequiresVia(g: Graph, start: nat, x: nat, i: nat)
    requires x in g && i in g[x] && (x == start || Requires(g, start, x))
    ensures Requires(g, start, i)
  {
    RequiresImmediate(g, x, i);
    if x != start {
      RequiresTrans(g, start, x, i);
    }
  }

  /** Every prerequisite of the start is satisfied, or is one of something pending. */
  ghost predicate Checking(g: Graph, start: nat, satisfied: set<nat>, pending: set<nat>) {
    && (forall x :: x in pending ==> x == start || Requires(g, start, x))
    && (forall i :: Requires(g, start, i) ==> i in satisfied || exists x :: x in pending && Requires(g, x, i))
  }

  lemma CheckingStep(g: Graph, start: nat, satisfied: set<nat>, pending: set<nat>, x: nat, pending': set<nat>)
    requires Checking(g, start, satisfied, pending) && x in pending && x in g && g[x] <= satisfied
    requires pending - {x} + g[x] <= pending' <= pending + g[x]
    ensures Checking(g, start, satisfied, pending')
  {
    forall i | i in g[x] ensures Requires(g, start, i) {
      RequiresVia(g, start, x, i);
    }
    forall i | Requires(g, x, i) && i !in satisfied ensures exists z :: z in pending' && Requires(g, z, i) {
      var z := RequiresFirst(g, x, i);
      assert z in pending';
    }
  }

  // ---------- Finding, by numbers ----------

  /** The part of the graph that a search from the start looks at: it goes on from open ones only. */
  ghost function Searched(g: Graph, start: nat, open: set<nat>): Graph {
    map i | i in g :: if i == start || i in open then g[i] else {}
  }

  ghost predicate Finding(g: Graph, start: nat, satisfied: set<nat>, open: set<nat>, pending: set<nat>,
                          given: set<nat>, found: set<nat>)
  {
    var h := Searched(g, start, open);
    && given <= found
    && (forall x :: x in pending ==> x == start || (x in open && Requires(h, start, x)))
    && (forall i :: i in found ==> i in given || (i !in satisfied && Requires(h, start, i)))
    && (forall i :: Requires(h, start, i) && i !in satisfied ==>
         i in found || exists x :: x in pending && Requires(h, x, i))
  }

  lemma FindingStep(g: Graph, start: nat, satisfied: set<nat>, open: set<nat>, pending: set<nat>,
                    given: set<nat>, found: set<nat>, x: nat, pending': set<nat>)
    requires Acyclic(g) && Finding(g, start, satisfied, open, pending, given, found) && x in pending && x in g
    requires pending - {x} + g[x] * open <= pending' <= pending + g[x] * open && open <= satisfied
    ensures Finding(g, start, satisfied, open, pending', given, found + (g[x] - satisfied))
  {
    var h := Searched(g, start, open);
    forall i | i in g[x] ensures Requires(h, start, i) {
      RequiresVia(h, start, x, i);
    }
    forall i | Requires(h, x, i) && i !in satisfied && i !in g[x]
      ensures exists z :: z in pending' && Requires(h, z, i)
    {
      var z := RequiresFirst(h, x, i);
      var w := RequiresFirst(h, z, i);
      if z == start {
        SearchedRequires(g, start, open, start, start);
      }
      assert z in pending';
    }
  }

  /** What the search goes through are real prerequisites. */
  lemma SearchedRequires(g: Graph, start: nat, open: set<nat>, i: nat, j: nat)
    ensures Requires(Searched(g, start, open), i, j) ==> Requires(g, i, j)
  {
    var h := Searched(g, start, open);
    if Requires(h, i, j) {
      var p :| IsPath(h, i, j, p);
      assert IsPath(g, i, j, p);
    }
  }

  /** Whatever is satisfied and has been called has only satisfied prerequisites. */
  ghost predicate CalledSettled(g: Graph, satisfied: set<nat>, uncalled: set<nat>) {
    forall i, j :: i in satisfied && i !in uncalled && Requires(g, i, j) ==> j in satisfied
  }

  /** Then the search misses nothing: every unsatisfied prerequisite is found, or is one of something
      found; so nothing is found exactly when all prerequisites are satisfied. */
  lemma SearchMissesNothing(g: Graph, start: nat, satisfied: set<nat>, uncalled: set<nat>, i: nat)
    requires CalledSettled(g, satisfied, uncalled) && Requires(g, start, i) && i !in satisfied
    ensures var h := Searched(g, start, satisfied * uncalled);
      exists u :: u !in satisfied && Requires(h, start, u) && (u == i || Requires(g, u, i))
  {
    var h := Searched(g, start, satisfied * uncalled);
    var p :| IsPath(g, start, i, p);
    var k := FirstUnsatisfied(p, satisfied);
    PathSuffix(g, p, k);
    forall m | 0 <= m < k ensures p[m] in h && p[m + 1] in h[p[m]] {
      if m > 0 {
        PathSuffix(g, p, m);
      }
      assert p[m + 1] in g[p[m]];
    }
    assert IsPath(h, start, p[k], p[..k + 1]);
  }

  /** So the search finds nothing exactly when every prerequisite is satisfied. */
  lemma NothingFoundWhenAllSatisfied(g: Graph, start: nat, satisfied: set<nat>, uncalled: set<nat>)
    requires CalledSettled(g, satisfied, uncalled)
    ensures (forall u :: Requires(Searched(g, start, satisfied * uncalled), start, u) ==> u in satisfied)
            <==> (forall i :: Requires(g, start, i) ==> i in satisfied)
  {
    var h := Searched(g, start, satisfied * uncalled);
    forall u | Requires(h, start, u) ensures Requires(g, start, u) {
      SearchedRequires(g, start, satisfied * uncalled, start, u);
    }
    forall i | Requires(g, start, i) && i !in satisfied ensures exists u :: u !in satisfied && Requires(h, start, u) {
      SearchMissesNothing(g, start, satisfied, uncalled, i);
    }
  }

  lemma PathSuffix(g: Graph, p: seq<nat>, k: nat)
    requires Path(g, p) && k < |p|
    ensures p[k] == p[|p| - 1] || Requires(g, p[k], p[|p| - 1])
  {
    if k < |p| - 1 {
      assert IsPath(g, p[k], p[|p| - 1], p[k..]);
    }
  }

  lemma FirstUnsatisfied(p: seq<nat>, satisfied: set<nat>) returns (k: nat)
    requires |p| >= 2 && p[|p| - 1] !in satisfied
    ensures 1 <= k < |p| && p[k] !in satisfied && forall m :: 1 <= m < k ==> p[m] in satisfied
  {
    k := 1;
    while p[k] in satisfied
      invariant 1 <= k < |p| && forall m :: 1 <= m < k ==> p[m] in satisfied
      decreases |p| - k
    {
      k := k + 1;
    }
  }

  // ---------- Retiring, by numbers ----------

  ghost predicate Downwards(g: Graph, retired: set<nat>) {
    forall i, j :: i in g && i in retired && j in g[i] ==> j in retired
  }

  /** While retiring: only prerequisites of the start have been retired, and whatever still has an
      active immediate prerequisite is pending. */
  ghost predicate Retiring(g: Graph, start: nat, before: set<nat>, retired: set<nat>, pending: set<nat>) {
    && before <= retired
    && (forall i :: i in retired ==> i in before || Requires(g, start, i))
    && (forall i :: i in pending ==> i == start || Requires(g, start, i))
    && (forall i, j :: i in g && (i == start || i in retired) && i !in pending && j in g[i] ==> j in retired)
  }

  lemma RetiringStep(g: Graph, start: nat, before: set<nat>, retired: set<nat>, pending: set<nat>, x: nat,
                     pending': set<nat>)
    requires Retiring(g, start, before, retired, pending) && x in pending && x in g
    requires pending - {x} + (g[x] - retired) <= pending' <= pending + g[x]
    ensures Retiring(g, start, before, retired + g[x], pending')
  {
    forall j | j in g[x] ensures Requires(g, start, j) {
      RequiresImmediate(g, x, j);
      if x != start {
        RequiresTrans(g, start, x, j);
      }
    }
  }

  lemma AllRetired(g: Graph, before: set<nat>, retired: set<nat>, start: nat)
    requires Downwards(g, before) && ((start in before && before == retired) || Retiring(g, start, before, retired, {}))
    ensures Downwards(g, retired)
    ensures forall i :: Requires(g, start, i) ==> i in retired
  {
    forall i | Requires(g, start, i) ensures i in retired {
      RequiresStaysIn(g, retired, start, i);
    }
  }

  // ---------- Objects and numbers ----------

  lemma FewerActive(g: Graph, retired: set<nat>, x: nat, found: seq<ExpectationBase>)
    requires x in g && g[x] <= g.Keys && Ids(found) == g[x] - retired
    ensures if found == [] then g[x] <= retired && retired + g[x] == retired
            else g.Keys - (retired + g[x]) < g.Keys - retired
  {
    if found != [] {
      assert found[0].id in Ids(found);
    } else {
      assert g[x] - retired == {};
      assert forall y :: y in g[x] ==> y in retired || y in g[x] - retired;
      assert retired + g[x] == retired;
    }
  }

  /** g holds the numbers below n and their immediate prerequisites. */
  ghost predicate Numbered(g: Graph, n: nat) {
    Closed(g) && forall i :: i in g <==> 0 <= i < n
  }

  /** The numbered expectations, and g as the record of their immediate prerequisites. */
  ghost predicate IsGraph(world: seq<ExpectationBase>, g: Graph)
    reads world`immediatePrerequisites
  {
    && Numbered(g, |world|)
    && (forall i :: 0 <= i < |world| ==> world[i].id == i)
    && (forall i, p :: 0 <= i < |world| && p in world[i].immediatePrerequisites ==> p in world && p.id in g[i])
    && (forall i, j :: 0 <= i < |world| && j in g[i] ==> j in g && world[j] in world[i].immediatePrerequisites)
  }

  ghost function RetiredIn(world: seq<ExpectationBase>): set<nat>
    reads world`retired
  {
    set i | 0 <= i < |world| && world[i].retired
  }

  ghost function SatisfiedIn(world: seq<ExpectationBase>): set<nat>
    reads world
  {
    set i | 0 <= i < |world| && world[i].IsSatisfied()
  }

  ghost function UncalledIn(world: seq<ExpectationBase>): set<nat>
    reads world
  {
    set i | 0 <= i < |world| && world[i].callCount == 0
  }

  ghost function IdSet(es: set<ExpectationBase>): set<nat> { set e | e in es :: e.id }

  lemma OneMoreId(world: seq<ExpectationBase>, g: Graph, x: ExpectationBase, found: seq<ExpectationBase>,
                  next: ExpectationBase)
    requires IsGraph(world, g) && x in world && next in x.immediatePrerequisites && next !in found
    requires forall e :: e in found ==> e in x.immediatePrerequisites
    requires |Ids(found)| == |found|
    ensures |Ids(found + [next])| == |found + [next]|
  {
    IdsOfConcat(found, [next]);
    assert next.id !in Ids(found);
  }

  lemma AllListed(world: seq<ExpectationBase>, g: Graph, x: ExpectationBase, found: seq<ExpectationBase>)
    requires IsGraph(world, g) && x in world
    requires forall e :: e in found <==> e in x.immediatePrerequisites
    requires forall e :: e in found ==> e.IsSatisfied()
    ensures Ids(found) == g[x.id] <= SatisfiedIn(world)
  {
    InWorld(world, g, x);
    forall j | j in g[x.id] ensures j in Ids(found) && j in SatisfiedIn(world) {
      assert j in g && world[j] in found;
    }
  }

  lemma NumbersOf(world: seq<ExpectationBase>, g: Graph, x: ExpectationBase, found: seq<ExpectationBase>,
                  unsatisfied: set<ExpectationBase>)
    requires IsGraph(world, g) && x in world && |Ids(found)| == |found|
    requires forall e :: e in found <==> e in x.immediatePrerequisites && e.IsSatisfied() && e.callCount == 0
    requires forall e :: e in unsatisfied <==> e in x.immediatePrerequisites && !e.IsSatisfied()
    ensures Ids(found) == g[x.id] * (SatisfiedIn(world) * UncalledIn(world)) && |found| <= |g[x.id]|
    ensures IdSet(unsatisfied) == g[x.id] - SatisfiedIn(world)
  {
    InWorld(world, g, x);
    forall j | j in g[x.id] ensures j in SatisfiedIn(world) ==> (j in UncalledIn(world) <==> j in Ids(found))
      ensures j !in SatisfiedIn(world) ==> j in IdSet(unsatisfied)
    {
      assert j in g && world[j] in x.immediatePrerequisites;
    }
    assert Ids(found) == g[x.id] * (SatisfiedIn(world) * UncalledIn(world));
    assert IdSet(unsatisfied) == g[x.id] - SatisfiedIn(world);
    SubsetSize(Ids(found), g[x.id]);
  }

  ghost function Ids(es: seq<ExpectationBase>): set<nat> { set e | e in es :: e.id }

  lemma IdsOfConcat(a: seq<ExpectationBase>, b: seq<ExpectationBase>)
    ensures Ids(a + b) == Ids(a) + Ids(b)
    ensures forall e: ExpectationBase :: Ids([e]) == {e.id}
  {
  }

  lemma NumbersAfter(rest: seq<ExpectationBase>, x: ExpectationBase, found: seq<ExpectationBase>,
                     result: set<ExpectationBase>, unsatisfied: set<ExpectationBase>)
    ensures Ids(rest + [x]) == Ids(rest) + {x.id} && Ids(rest + found) == Ids(rest) + Ids(found)
    ensures IdSet(result + unsatisfied) == IdSet(result) + IdSet(unsatisfied)
  {
    IdsOfConcat(rest, [x]);
    IdsOfConcat(rest, found);
  }

  lemma InWorld(world: seq<ExpectationBase>, g: Graph, e: ExpectationBase)
    requires IsGraph(world, g) && e in world
    ensures e.id in g && world[e.id] == e
    ensures e.immediatePrerequisites <= (set p | p in world)
    ensures forall p :: p in world ==> (p in e.immediatePrerequisites <==> p.id in g[e.id])
  {
  }

  // ---------- Weights ----------

  ghost function WeightOf(g: Graph, i: nat): nat { Power(|g| + 1, Rank(g, i)) }

  ghost function Weight(g: Graph, es: seq<ExpectationBase>): nat {
    if es == [] then 0 else Weight(g, es[..|es| - 1]) + WeightOf(g, es[|es| - 1].id)
  }

  lemma {:induction false} WeightOfConcat(g: Graph, a: seq<ExpectationBase>, b: seq<ExpectationBase>)
    ensures Weight(g, a + b) == Weight(g, a) + Weight(g, b)
  {
    if b == [] {
      assert a + b == a;
    } else {
      WeightOfConcat(g, a, b[..|b| - 1]);
      assert (a + b)[..|a + b| - 1] == a + b[..|b| - 1];
    }
  }

  lemma OneMoreTimes(n: nat, w: nat)
    ensures (n + 1) * w == n * w + w
  {
  }

  lemma {:induction false} WeightBound(g: Graph, es: seq<ExpectationBase>, n: nat, w: nat)
    requires |es| <= n && w >= 1 && forall e :: e in es ==> WeightOf(g, e.id) <= w
    ensures Weight(g, es) < (n + 1) * w
    decreases n
  {
    if n > 0 {
      OneMoreTimes(n, w);
      WeightBound(g, if es == [] then [] else es[..|es| - 1], n - 1, w);
    }
  }

  /** One rank down every weight shrinks by the factor |g| + 1. */
  lemma WeightBelow(g: Graph, i: nat, js: set<nat>) returns (w: nat)
    requires Closed(g) && Acyclic(g) && i in g && js <= g[i]
    ensures js != {} ==> w >= 1 && WeightOf(g, i) == (|g| + 1) * w
    ensures forall j :: j in js ==> WeightOf(g, j) <= w
  {
    w := 0;
    if js != {} {
      var k :| k in js;
      RankDrops(g, i, k);
      w := Power(|g| + 1, Rank(g, i) - 1);
      PowerGrows(|g| + 1, 0, Rank(g, i) - 1);
      forall j | j in js ensures WeightOf(g, j) <= w {
        RankDrops(g, i, j);
        PowerGrows(|g| + 1, Rank(g, j), Rank(g, i) - 1);
      }
    }
  }

  lemma FoundWeighLess(g: Graph, x: nat, found: seq<ExpectationBase>)
    requires Closed(g) && Acyclic(g) && x in g && Ids(found) <= g[x] && |found| <= |g[x]|
    ensures Weight(g, found) < WeightOf(g, x)
  {
    PowerGrows(|g| + 1, 0, Rank(g, x));
    if found != [] {
      assert found[0].id in Ids(found);
      var w := WeightBelow(g, x, Ids(found));
      SubsetSize(g[x], g.Keys);
      forall e | e in found ensures WeightOf(g, e.id) <= w {
        assert e.id in Ids(found);
      }
      WeightBound(g, found, |g|, w);
    }
  }

  /** Replacing an expectation by its immediate prerequisites lowers the weight. */
  lemma WeightDrops(g: Graph, rest: seq<ExpectationBase>, x: ExpectationBase, found: seq<ExpectationBase>)
    requires Closed(g) && Acyclic(g) && x.id in g
    requires Ids(found) <= g[x.id] && |found| <= |g[x.id]|
    ensures Weight(g, rest + found) < Weight(g, rest + [x])
  {
    WeightOfConcat(g, rest, found);
    WeightOfConcat(g, rest, [x]);
    FoundWeighLess(g, x.id, found);
    assert Weight(g, [x]) == Weight(g, []) + WeightOf(g, x.id);
  }

  // ---------- Expectations ----------

  /** How often a call may come: satisfied from min to max calls, saturated from max calls on. */
  datatype Cardinality = Between(min: nat, max: nat) {
    predicate IsSatisfiedBy(count: nat) { min <= count <= max }
    predicate IsSaturatedBy(count: nat) { count >= max }
  }

  class ExpectationBase {
    const id: nat
    const cardinality: Cardinality
    var immediatePrerequisites: set<ExpectationBase>
    var callCount: nat
    var retired: bool

    constructor (id: nat, cardinality: Cardinality)
      ensures this.id == id && this.cardinality == cardinality
      ensures immediatePrerequisites == {} && callCount == 0 && !retired
    {
      this.id := id;
      this.cardinality := cardinality;
      immediatePrerequisites, callCount, retired := {}, 0, false;
    }

    predicate IsSatisfied()
      reads this
    {
      cardinality.IsSatisfiedBy(callCount)
    }

    method Retire()
      modifies this`retired
      ensures retired
    {
      retired := true;
    }

    /** Retires the immediate prerequisites; returns those that were not retired before. */
    method RetireImmediate(ghost world: seq<ExpectationBase>, ghost g: Graph) returns (found: seq<ExpectationBase>)
      requires this in world && IsGraph(world, g)
      modifies world`retired
      ensures forall e :: e in found ==> e in world
      ensures RetiredIn(world) == old(RetiredIn(world)) + g[id]
      ensures Ids(found) == g[id] - old(RetiredIn(world))
    {
      InWorld(world, g, this);
      found := [];
      var todo := immediatePrerequisites;
      while todo != {}
        invariant todo <= immediatePrerequisites
        invariant forall e :: e in world ==> (e.retired <==> old(e.retired) || e in immediatePrerequisites - todo)
        invariant forall e :: e in found <==> e in immediatePrerequisites - todo && !old(e.retired)
        decreases todo
      {
        var next :| next in todo;
        todo := todo - {next};
        if !next.retired {
          next.Retire();
          found := found + [next];
        }
      }
      assert forall i :: 0 <= i < |world| ==> (world[i] in immediatePrerequisites <==> i in g[id]);
    }

    /** Retires every transitive prerequisite and nothing else. A retired expectation has only retired
        prerequisites, so there is nothing to do for it. */
    method RetireAllPreRequisites(ghost world: seq<ExpectationBase>, ghost g: Graph)
      requires this in world && IsGraph(world, g) && Downwards(g, RetiredIn(world))
      modifies world`retired
      ensures forall i :: i in RetiredIn(world) <==> i in old(RetiredIn(world)) || Requires(g, id, i)
      ensures IsGraph(world, g) && Downwards(g, RetiredIn(world))
    {
      ghost var before := RetiredIn(world);
      InWorld(world, g, this);
      if retired {
        AllRetired(g, before, before, id);
        return;
      }
      var expectations: seq<ExpectationBase> := [this];
      while expectations != []
        invariant IsGraph(world, g) && forall e :: e in expectations ==> e in world
        invariant Retiring(g, id, before, RetiredIn(world), Ids(expectations))
        decreases g.Keys - RetiredIn(world), |expectations|
      {
        ghost var retiredBefore, pending := RetiredIn(world), Ids(expectations);
        var exp := expectations[|expectations| - 1];
        InWorld(world, g, exp);
        assert expectations == expectations[..|expectations| - 1] + [exp];
        expectations := expectations[..|expectations| - 1];
        var found := exp.RetireImmediate(world, g);
        IdsOfConcat(expectations, [exp]);
        IdsOfConcat(expectations, found);
        RetiringStep(g, id, before, retiredBefore, pending, exp.id, Ids(expectations + found));
        FewerActive(g, retiredBefore, exp.id, found);
        expectations := expectations + found;
      }
      AllRetired(g, before, RetiredIn(world), id);
    }

    /** The immediate prerequisites, each once, unless one of them is unsatisfied. */
    method ListSatisfied(ghost world: seq<ExpectationBase>, ghost g: Graph)
      returns (ok: bool, found: seq<ExpectationBase>)
      requires this in world && IsGraph(world, g)
      ensures !ok ==> exists i :: i in g[id] && i !in SatisfiedIn(world)
      ensures ok ==> g[id] <= SatisfiedIn(world)
      ensures ok ==> (forall e :: e in found ==> e in world) && Ids(found) == g[id] && |found| == |g[id]|
    {
      InWorld(world, g, this);
      ok, found := true, [];
      var todo := immediatePrerequisites;
      while todo != {}
        invariant todo <= immediatePrerequisites
        invariant forall e :: e in found <==> e in immediatePrerequisites - todo
        invariant forall e :: e in immediatePrerequisites - todo ==> e.IsSatisfied()
        invariant |Ids(found)| == |found|
        decreases todo
      {
        var next :| next in todo;
        todo := todo - {next};
        if !next.IsSatisfied() {
          assert next.id in g[id];
          return false, [];
        }
        OneMoreId(world, g, this, found, next);
        found := found + [next];
      }
      AllListed(world, g, this, found);
    }

    /** Depth-first, without remembering what has been visited; it ends because the graph has no cycle. */
    method AllPrerequisitesAreSatisfied(ghost world: seq<ExpectationBase>, ghost g: Graph) returns (result: bool)
      requires this in world && IsGraph(world, g) && Acyclic(g)
      ensures result <==> forall i :: Requires(g, id, i) ==> i in SatisfiedIn(world)
    {
      InWorld(world, g, this);
      var expectations: seq<ExpectationBase> := [this];
      assert Ids(expectations) == {id};
      while expectations != []
        invariant forall e :: e in expectations ==> e in world
        invariant Checking(g, id, SatisfiedIn(world), Ids(expectations))
        decreases Weight(g, expectations)
      {
        ghost var pending := Ids(expectations);
        var exp := expectations[|expectations| - 1];
        InWorld(world, g, exp);
        assert expectations == expectations[..|expectations| - 1] + [exp];
        ghost var was := expectations;
        expectations := expectations[..|expectations| - 1];
        var ok, found := exp.ListSatisfied(world, g);
        if !ok {
          ghost var i :| i in g[exp.id] && i !in SatisfiedIn(world);
          RequiresVia(g, id, exp.id, i);
          return false;
        }
        IdsOfConcat(expectations, [exp]);
        IdsOfConcat(expectations, found);
        CheckingStep(g, id, SatisfiedIn(world), pending, exp.id, Ids(expectations + found));
        WeightDrops(g, expectations, exp, found);
        expectations := expectations + found;
      }
      return true;
    }

    /** The immediate prerequisites that are unsatisfied, and those that are satisfied but uncalled. */
    method ListUnsatisfied(ghost world: seq<ExpectationBase>, ghost g: Graph)
      returns (found: seq<ExpectationBase>, unsatisfied: set<ExpectationBase>)
      requires this in world && IsGraph(world, g)
      ensures forall e :: e in found || e in unsatisfied ==> e in world
      ensures Ids(found) == g[id] * (SatisfiedIn(world) * UncalledIn(world)) && |found| <= |g[id]|
      ensures IdSet(unsatisfied) == g[id] - SatisfiedIn(world)
    {
      InWorld(world, g, this);
      found, unsatisfied := [], {};
      var todo := immediatePrerequisites;
      while todo != {}
        invariant todo <= immediatePrerequisites
        invariant forall e :: e in found <==> e in immediatePrerequisites - todo && e.IsSatisfied() && e.callCount == 0
        invariant forall e :: e in unsatisfied <==> e in immediatePrerequisites - todo && !e.IsSatisfied()
        invariant |Ids(found)| == |found|
        decreases todo
      {
        var next :| next in todo;
        todo := todo - {next};
        if next.IsSatisfied() {
          if next.callCount == 0 {
            OneMoreId(world, g, this, found, next);
            found := found + [next];
          }
        } else {
          unsatisfied := unsatisfied + {next};
        }
      }
      NumbersOf(world, g, this, found, unsatisfied);
    }

    /** Adds the unsatisfied prerequisites that are reached through satisfied, uncalled ones only. */
    method FindUnsatisfiedPrerequisites(ghost world: seq<ExpectationBase>, ghost g: Graph,
                                        result: set<ExpectationBase>)
      returns (result': set<ExpectationBase>)
      requires this in world && IsGraph(world, g) && Acyclic(g)
      ensures result <= result' && forall e :: e in result' - result ==> e in world
      ensures forall i :: i in IdSet(result') <==>
                i in IdSet(result)
                || (i !in SatisfiedIn(world)
                    && Requires(Searched(g, id, SatisfiedIn(world) * UncalledIn(world)), id, i))
    {
      InWorld(world, g, this);
      ghost var satisfied, open := SatisfiedIn(world), SatisfiedIn(world) * UncalledIn(world);
      result' := result;
      var expectations: seq<ExpectationBase> := [this];
      assert Ids(expectations) == {id};
      while expectations != []
        invariant forall e :: e in expectations ==> e in world
        invariant result <= result' && forall e :: e in result' - result ==> e in world
        invariant Finding(g, id, satisfied, open, Ids(expectations), IdSet(result), IdSet(result'))
        decreases Weight(g, expectations)
      {
        ghost var pending, found0 := Ids(expectations), IdSet(result');
        var exp := expectations[|expectations| - 1];
        InWorld(world, g, exp);
        assert expectations == expectations[..|expectations| - 1] + [exp];
        expectations := expectations[..|expectations| - 1];
        var found, unsatisfied := exp.ListUnsatisfied(world, g);
        NumbersAfter(expectations, exp, found, result', unsatisfied);
        FindingStep(g, id, satisfied, open, pending, IdSet(result), found0, exp.id, Ids(expectations + found));
        WeightDrops(g, expectations, exp, found);
        result' := result' + unsatisfied;
        expectations := expectations + found;
      }
    }
  }

  class Sequence {
    var lastExpectation: ExpectationBase?

    constructor ()
      ensures lastExpectation == null
    {
      lastExpectation := null;
    }

    /** Puts an expectation behind the last one of the sequence. */
    method AddExpectation(expectation: ExpectationBase, ghost world: seq<ExpectationBase>, ghost g: Graph)
      requires IsGraph(world, g) && expectation in world && (lastExpectation != null ==> lastExpectation in world)
      modifies this, expectation`immediatePrerequisites
      ensures lastExpectation == expectation
      ensures expectation.immediatePrerequisites == old(expectation.immediatePrerequisites)
                + if old(lastExpectation) in {null, expectation} then {} else {old(lastExpectation)}
      ensures IsGraph(world, if old(lastExpectation) == null then g
                             else Ordered(g, old(lastExpectation.id), expectation.id))
    {
      InWorld(world, g, expectation);
      if lastExpectation != null {
        InWorld(world, g, lastExpectation);
      }
      if lastExpectation != expectation {
        if lastExpectation != null {
          expectation.immediatePrerequisites := expectation.immediatePrerequisites + {lastExpectation};
        }
        lastExpectation := expectation;
      }
    }
  }
}

/** Random numbers and in-place shuffling, after Random in gtest.cc and ShuffleRange in gtest-internal-inl.h. */
module Shuffling {

  // The largest range the generator can produce.
  const MAX_RANGE := 0x8000_0000
  const TWO_TO_THE_32 := 0x1_0000_0000

  /** The state of the generator after one more number. */
  function NextState(state: nat): (next: nat) {
    (1103515245 * state + 12345) % TWO_TO_THE_32 % MAX_RANGE
  }

  class Random {
    var state: nat

    constructor (seed: nat)
      ensures state == seed
    {
      state := seed;
    }

    method Reseed(seed: nat)
      modifies this
      ensures state == seed
    {
      state := seed;
    }

    method Generate(range: nat) returns (r: nat)
      requires 0 < range <= MAX_RANGE
      modifies this
      ensures r < range && r == state % range && state == NextState(old(state))
    {
      state := (1103515245 * state + 12345) % TWO_TO_THE_32 % MAX_RANGE;
      r := state % range;
    }
  }

  // ---------- Fisher-Yates ----------

  /** b is a, rearranged between begin and end only. */
  ghost predicate RearrangedWithin<T>(a: seq<T>, b: seq<T>, begin: int, end: int) {
    && 0 <= begin <= end <= |a| == |b| && multiset(a) == multiset(b)
    && forall k :: 0 <= k < |a| && !(begin <= k < end) ==> a[k] == b[k]
  }

  function Swap<T>(v: seq<T>, i: nat, j: nat): seq<T>
    requires i < |v| && j < |v|
  {
    v[i := v[j]][j := v[i]]
  }

  /** For each width from two on, a pick below the width. */
  ghost predicate ArePicks(picks: seq<nat>) {
    forall k :: 0 <= k < |picks| ==> picks[k] < k + 2
  }

  /** From the whole range down, each pick goes to the end of what is left of the range. */
  ghost function Picked<T>(v: seq<T>, begin: nat, width: nat, picks: seq<nat>): (r: seq<T>)
    requires begin + width <= |v| && width <= |picks| + 1 && ArePicks(picks)
    ensures |r| == |v|
    decreases width
  {
    if width < 2 then v
    else Picked(Swap(v, begin + picks[width - 2], begin + width - 1), begin, width - 1, picks)
  }

  /** What the generator picks from the given state on, the first pick standing last. */
  ghost function Draws(state: nat, width: nat): (picks: seq<nat>)
    ensures |picks| == (if width < 2 then 0 else width - 1) && ArePicks(picks)
    decreases width
  {
    if width < 2 then [] else Draws(NextState(state), width - 1) + [NextState(state) % width]
  }

  /** The state of the generator after the picks for a range of this width. */
  ghost function StateAfter(state: nat, width: nat): nat
    decreases width
  {
    if width < 2 then state else StateAfter(NextState(state), width - 1)
  }

  /** Picks beyond the width do not matter. */
  lemma {:induction false} PickedPrefix<T>(v: seq<T>, begin: nat, width: nat, picks: seq<nat>, picks': seq<nat>)
    requires begin + width <= |v| && width <= |picks| + 1 && ArePicks(picks) && ArePicks(picks') && picks <= picks'
    ensures Picked(v, begin, width, picks) == Picked(v, begin, width, picks')
    decreases width
  {
    if width >= 2 {
      PickedPrefix(Swap(v, begin + picks[width - 2], begin + width - 1), begin, width - 1, picks, picks');
    }
  }

  lemma OneElementStays<T>(a: seq<T>, b: seq<T>, begin: int, end: int)
    requires RearrangedWithin(a, b, begin, end) && end - begin < 2
    ensures a == b
  {
    if end - begin == 1 {
      var i := FindWithin(a, b, begin, end, begin);
    }
  }

  lemma FindWithin<T>(a: seq<T>, b: seq<T>, begin: int, end: int, k: int) returns (i: int)
    requires RearrangedWithin(a, b, begin, end) && begin <= k < end
    ensures begin <= i < end && a[i] == b[k]
  {
    assert a == a[..begin] + a[begin..end] + a[end..];
    assert b == a[..begin] + b[begin..end] + a[end..];
    assert multiset(a[begin..end]) == multiset(a) - multiset(a[..begin]) - multiset(a[end..]);
    assert multiset(b[begin..end]) == multiset(b) - multiset(a[..begin]) - multiset(a[end..]);
    assert b[begin..end][k - begin] == b[k];
    assert b[k] in multiset(a[begin..end]);
    var offset :| 0 <= offset < end - begin && a[begin..end][offset] == b[k];
    i := begin + offset;
  }

  /** The step towards a wanted order. */
  lemma StepTowards<T>(v: seq<T>, r: seq<T>, begin: nat, width: nat) returns (selected: nat)
    requires width > 0 && RearrangedWithin(v, r, begin, begin + width)
    ensures begin <= selected < begin + width
    ensures RearrangedWithin(Swap(v, selected, begin + width - 1), r, begin, begin + (width - 1))
  {
    selected := FindWithin(v, r, begin, begin + width, begin + width - 1);
    SwapKeepsElements(v, selected, begin + width - 1);
  }

  lemma SwapKeepsElements<T>(v: seq<T>, i: nat, j: nat)
    requires i <= j < |v|
    ensures multiset(Swap(v, i, j)) == multiset(v)
  {
  }

  lemma {:induction false} PickedKeepsElements<T>(v: seq<T>, begin: nat, width: nat, picks: seq<nat>)
    requires begin + width <= |v| && width <= |picks| + 1 && ArePicks(picks)
    ensures multiset(Picked(v, begin, width, picks)) == multiset(v)
    decreases width
  {
    if width >= 2 {
      SwapKeepsElements(v, begin + picks[width - 2], begin + width - 1);
      PickedKeepsElements(Swap(v, begin + picks[width - 2], begin + width - 1), begin, width - 1, picks);
    }
  }

  /** Whatever is picked, only the range is rearranged. */
  lemma {:induction false} PickedRearranges<T>(v: seq<T>, begin: nat, width: nat, picks: seq<nat>)
    requires begin + width <= |v| && width <= |picks| + 1 && ArePicks(picks)
    ensures RearrangedWithin(v, Picked(v, begin, width, picks), begin, begin + width)
    decreases width
  {
    PickedKeepsElements(v, begin, width, picks);
    if width >= 2 {
      PickedRearranges(Swap(v, begin + picks[width - 2], begin + width - 1), begin, width - 1, picks);
    }
  }

  /** What the generator in this state makes of the range of this width: each number goes to the end of what
      is left of the range. */
  ghost function Shuffled<T>(v: seq<T>, begin: nat, width: nat, state: nat): (r: seq<T>)
    requires begin + width <= |v|
    ensures |r| == |v|
    decreases width
  {
    if width < 2 then v
    else
      var next := NextState(state);
      Shuffled(Swap(v, begin + next % width, begin + width - 1), begin, width - 1, next)
  }

  /** The numbers drawn are the picks. */
  lemma {:induction false} ShuffledIsPicked<T>(v: seq<T>, begin: nat, width: nat, state: nat)
    requires begin + width <= |v|
    ensures Shuffled(v, begin, width, state) == Picked(v, begin, width, Draws(state, width))
    decreases width
  {
    if width >= 2 {
      var next := NextState(state);
      var v' := Swap(v, begin + next % width, begin + width - 1);
      ShuffledIsPicked(v', begin, width - 1, next);
      PickedPrefix(v', begin, width - 1, Draws(next, width - 1), Draws(state, width));
    }
  }

  lemma ShuffledRearranges<T>(v: seq<T>, begin: nat, width: nat, state: nat)
    requires begin + width <= |v|
    ensures RearrangedWithin(v, Shuffled(v, begin, width, state), begin, begin + width)
  {
    ShuffledIsPicked(v, begin, width, state);
    PickedRearranges(v, begin, width, Draws(state, width));
  }

  /** One number later, the range is one shorter. */
  lemma ShuffledStep<T>(v: seq<T>, begin: nat, width: nat, state: nat, next: nat, offset: nat)
    requires begin + width <= |v| && width >= 2 && next == NextState(state) && offset == next % width
    ensures var v' := Swap(v, begin + offset, begin + width - 1);
      Shuffled(v, begin, width, state) == Shuffled(v', begin, width - 1, next)
    ensures StateAfter(state, width) == StateAfter(next, width - 1)
  {
  }

  /** What is still to come, from this state and for this width, ends as wanted. */
  ghost predicate EndsAs<T>(v: seq<T>, begin: nat, width: nat, state: nat, r: seq<T>, last: nat) {
    begin + width <= |v| && Shuffled(v, begin, width, state) == r && StateAfter(state, width) == last
  }

  /** Shuffles the elements between begin and end; the state of the generator decides how. */
  method ShuffleRange<T>(random: Random, begin: int, end: int, v: seq<T>) returns (r: seq<T>)
    requires 0 <= begin <= end <= |v| && end - begin <= MAX_RANGE
    modifies random
    ensures r == Shuffled(v, begin, end - begin, old(random.state)) && RearrangedWithin(v, r, begin, end)
    ensures random.state == StateAfter(old(random.state), end - begin)
  {
    ShuffledRearranges(v, begin, end - begin, random.state);
    ghost var wanted, last := Shuffled(v, begin, end - begin, random.state), StateAfter(random.state, end - begin);
    r := v;
    var rangeWidth := end - begin;
    while rangeWidth >= 2
      invariant 0 <= rangeWidth <= end - begin
      invariant EndsAs(r, begin, rangeWidth, random.state, wanted, last)
    {
      ghost var state := random.state;
      var lastInRange := begin + rangeWidth - 1;
      var offset := random.Generate(rangeWidth);
      ShuffledStep(r, begin, rangeWidth, state, random.state, offset);
      var selected := begin + offset;
      r := Swap(r, selected, lastInRange);
      rangeWidth := rangeWidth - 1;
    }
  }

  /** Every order of the range comes from some picks. */
  lemma {:induction false} EveryOrderIsPicked<T>(v: seq<T>, r: seq<T>, begin: nat, width: nat) returns (picks: seq<nat>)
    requires begin + width <= |v| && RearrangedWithin(v, r, begin, begin + width)
    ensures |picks| == (if width < 2 then 0 else width - 1) && ArePicks(picks)
    ensures Picked(v, begin, width, picks) == r
    decreases width
  {
    if width < 2 {
      picks := [];
      OneElementStays(v, r, begin, begin + width);
    } else {
      var selected := StepTowards(v, r, begin, width);
      var rest := EveryOrderIsPicked(Swap(v, selected, begin + width - 1), r, begin, width - 1);
      picks := rest + [selected - begin];
      PickedPrefix(Swap(v, selected, begin + width - 1), begin, width - 1, rest, picks);
    }
  }

  ghost predicate DistinctWithin<T>(v: seq<T>, begin: nat, end: nat)
    requires begin <= end <= |v|
  {
    forall i, j :: begin <= i < j < end ==> v[i] != v[j]
  }

  /** Different picks give different orders, so picks that are uniform make all orders equally likely. */
  lemma {:induction false} PicksAreDetermined<T>(v: seq<T>, begin: nat, width: nat, picks: seq<nat>, picks': seq<nat>)
    requires begin + width <= |v| && DistinctWithin(v, begin, begin + width)
    requires width <= |picks| + 1 && width <= |picks'| + 1 && ArePicks(picks) && ArePicks(picks')
    requires Picked(v, begin, width, picks) == Picked(v, begin, width, picks')
    ensures forall k :: 0 <= k < width - 1 ==> picks[k] == picks'[k]
    decreases width
  {
    if width >= 2 {
      LastIsPicked(v, begin, width, picks);
      LastIsPicked(v, begin, width, picks');
      assert picks[width - 2] == picks'[width - 2];
      PicksAreDetermined(Swap(v, begin + picks[width - 2], begin + width - 1), begin, width - 1, picks, picks');
    }
  }

  lemma LastIsPicked<T>(v: seq<T>, begin: nat, width: nat, picks: seq<nat>)
    requires begin + width <= |v| && 2 <= width <= |picks| + 1 && ArePicks(picks)
    ensures Picked(v, begin, width, picks)[begin + width - 1] == v[begin + picks[width - 2]]
  {
    PickedRearranges(Swap(v, begin + picks[width - 2], begin + width - 1), begin, width - 1, picks);
  }

  // ---------- Orders ----------

  /** The indices from lo up to hi. */
  function Range(lo: int, hi: int): (r: seq<int>)
    ensures |r| == if lo <= hi then hi - lo else 0
    ensures forall k :: 0 <= k < |r| ==> r[k] == lo + k
    decreases hi - lo
  {
    if lo >= hi then [] else [lo] + Range(lo + 1, hi)
  }

  ghost predicate Distinct<T>(s: seq<T>) {
    forall i, j :: 0 <= i < j < |s| ==> s[i] != s[j]
  }

  lemma {:induction false} DistinctCounts<T>(s: seq<T>, x: T)
    requires Distinct(s)
    ensures multiset(s)[x] <= 1
  {
    if s != [] {
      DistinctCounts(s[1..], x);
      assert s == [s[0]] + s[1..];
    }
  }

  lemma TwiceCounts<T>(s: seq<T>, i: nat, j: nat)
    requires i < j < |s| && s[i] == s[j]
    ensures multiset(s)[s[i]] >= 2
  {
    assert s == s[..j] + s[j..];
    assert s[i] == s[..j][i] && s[j] == s[j..][0];
    assert s[i] in multiset(s[..j]) && s[i] in multiset(s[j..]);
  }

  /** Every index below n, each once. */
  ghost predicate IsOrder(order: seq<int>, n: nat) {
    && |order| == n && Distinct(order)
    && (forall i :: 0 <= i < n ==> 0 <= order[i] < n)
    && (forall k :: 0 <= k < n ==> k in order)
  }

  lemma RangeIsOrder(n: nat)
    ensures IsOrder(Range(0, n), n)
  {
    forall k | 0 <= k < n ensures k in Range(0, n) {
      assert Range(0, n)[k] == k;
    }
  }

  /** Rearranging keeps the elements, and keeps them distinct. */
  lemma PermutedIsDistinct<T>(a: seq<T>, b: seq<T>)
    requires multiset(a) == multiset(b)
    ensures |a| == |b| && forall x :: x in a <==> x in b
    ensures Distinct(a) ==> Distinct(b)
  {
    assert |a| == |multiset(a)| == |b|;
    forall x ensures x in a <==> x in b {
      assert x in multiset(a) <==> x in multiset(b);
    }
    if Distinct(a) {
      forall i, j | 0 <= i < j < |b| ensures b[i] != b[j] {
        if b[i] == b[j] {
          TwiceCounts(b, i, j);
          DistinctCounts(a, b[i]);
        }
      }
    }
  }

  lemma PermutedIsOrder(a: seq<int>, b: seq<int>, n: nat)
    requires IsOrder(a, n) && multiset(a) == multiset(b)
    ensures IsOrder(b, n)
  {
    PermutedIsDistinct(a, b);
    forall i | 0 <= i < n ensures 0 <= b[i] < n {
      assert b[i] in b;
    }
  }

  /** Rearranging an order between begin and end gives an order with the same indices there. */
  lemma RearrangedIsOrder(a: seq<int>, b: seq<int>, n: nat, begin: int, end: int)
    requires IsOrder(a, n) && RearrangedWithin(a, b, begin, end)
    ensures IsOrder(b, n)
    ensures forall i :: begin <= i < end ==> b[i] in a[begin..end]
  {
    PermutedIsOrder(a, b, n);
    forall i | begin <= i < end ensures b[i] in a[begin..end] {
      var j := FindWithin(a, b, begin, end, i);
      assert a[begin..end][j - begin] == b[i];
    }
  }
}

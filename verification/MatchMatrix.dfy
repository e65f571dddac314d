/** The element-by-matcher connectivity matrix, after gmock-matchers.h and gmock-matchers.cc. */
module MatchMatrices {

  /** The value of a matrix: cells[i][j] says that element i satisfies matcher j. */
  datatype Graph = Graph(lhsSize: nat, rhsSize: nat, cells: seq<seq<bool>>) {
    ghost predicate Valid() {
      |cells| == lhsSize && forall i :: 0 <= i < lhsSize ==> |cells[i]| == rhsSize
    }

    predicate HasEdge(i: int, j: int)
      requires Valid()
    {
      0 <= i < lhsSize && 0 <= j < rhsSize && cells[i][j]
    }
  }

  /** The graph held by a flattened array of cells in element-major order. */
  function Unflatten(lhsSize: nat, rhsSize: nat, flat: seq<bool>): (g: Graph)
    requires |flat| == lhsSize * rhsSize
    ensures g.Valid()
    ensures forall i, j :: 0 <= i < lhsSize && 0 <= j < rhsSize ==>
              SpaceIndex(rhsSize, i, j) < |flat| && (g.HasEdge(i, j) <==> flat[SpaceIndex(rhsSize, i, j)])
  {
    AllSpaceIndicesInRange(lhsSize, rhsSize);
    Graph(lhsSize, rhsSize,
          seq(lhsSize, i requires 0 <= i < lhsSize =>
            seq(rhsSize, j requires 0 <= j < rhsSize => flat[SpaceIndex(rhsSize, i, j)])))
  }

  function SpaceIndex(rhsSize: nat, i: nat, j: nat): nat { i * rhsSize + j }

  lemma SpaceIndexInRange(lhsSize: nat, rhsSize: nat, i: nat, j: nat)
    requires i < lhsSize && j < rhsSize
    ensures SpaceIndex(rhsSize, i, j) < lhsSize * rhsSize
  {
    assert (i + 1) * rhsSize <= lhsSize * rhsSize;
  }

  lemma AllSpaceIndicesInRange(lhsSize: nat, rhsSize: nat)
    ensures forall i: nat, j: nat :: i < lhsSize && j < rhsSize ==> SpaceIndex(rhsSize, i, j) < lhsSize * rhsSize
  {
    forall i: nat, j: nat | i < lhsSize && j < rhsSize ensures SpaceIndex(rhsSize, i, j) < lhsSize * rhsSize {
      SpaceIndexInRange(lhsSize, rhsSize, i, j);
    }
  }

  lemma SpaceIndexOrder(rhsSize: nat, i: nat, j: nat, i': nat, j': nat)
    requires j < rhsSize && j' < rhsSize && i < i'
    ensures SpaceIndex(rhsSize, i, j) < SpaceIndex(rhsSize, i', j')
  {
    assert (i + 1) * rhsSize <= i' * rhsSize;
  }

  // ---------- The matrix as a binary number ----------

  function Pow2(n: nat): nat { if n == 0 then 1 else 2 * Pow2(n - 1) }

  /** The first cell is the least significant bit. */
  function Value(cells: seq<bool>): nat {
    if cells == [] then 0 else (if cells[0] then 1 else 0) + 2 * Value(cells[1..])
  }

  lemma {:induction false} ValueOfCarry(cells: seq<bool>, k: nat)
    requires k <= |cells| && forall m :: 0 <= m < k ==> cells[m]
    requires k < |cells| ==> !cells[k]
    ensures var next := seq(|cells|, m requires 0 <= m < |cells| => m == k || (m > k && cells[m]));
      if k < |cells| then Value(next) == Value(cells) + 1
      else Value(cells) == Pow2(|cells|) - 1 && Value(next) == 0
  {
    var next := seq(|cells|, m requires 0 <= m < |cells| => m == k || (m > k && cells[m]));
    if cells != [] {
      if k == 0 {
        assert next[1..] == cells[1..];
      } else {
        ValueOfCarry(cells[1..], k - 1);
        assert next[1..] == seq(|cells| - 1, m requires 0 <= m < |cells| - 1 =>
          m == k - 1 || (m > k - 1 && cells[1..][m]));
      }
    }
  }

  /** Different graphs have different numbers below 2^n, so counting from the empty graph meets each once. */
  lemma {:induction false} ValueNumbersGraphs(a: seq<bool>, b: seq<bool>)
    requires |a| == |b|
    ensures Value(a) < Pow2(|a|)
    ensures Value(a) == Value(b) ==> a == b
  {
    if a != [] {
      ValueNumbersGraphs(a[1..], b[1..]);
      if Value(a) == Value(b) {
        var x, y := if a[0] then 1 else 0, if b[0] then 1 else 0;
        assert x + 2 * Value(a[1..]) == y + 2 * Value(b[1..]);
        assert a == [a[0]] + a[1..] && b == [b[0]] + b[1..];
      }
    }
  }

  class MatchMatrix {
    const lhsSize: nat
    const rhsSize: nat
    const matched: array<bool>

    ghost predicate Valid() { matched.Length == lhsSize * rhsSize }

    function View(): (g: Graph)
      requires Valid()
      reads matched
      ensures g.Valid() && g.lhsSize == lhsSize && g.rhsSize == rhsSize
    {
      Unflatten(lhsSize, rhsSize, matched[..])
    }

    constructor (numElements: nat, numMatchers: nat)
      ensures Valid() && lhsSize == numElements && rhsSize == numMatchers && fresh(matched)
      ensures forall i, j :: !View().HasEdge(i, j)
    {
      lhsSize := numElements;
      rhsSize := numMatchers;
      matched := new bool[numElements * numMatchers](_ => false);
    }

    method SetEdge(ilhs: nat, irhs: nat, b: bool)
      requires Valid() && ilhs < lhsSize && irhs < rhsSize
      modifies matched
      ensures forall i, j :: View().HasEdge(i, j) <==> if i == ilhs && j == irhs then b else old(View()).HasEdge(i, j)
    {
      SpaceIndexInRange(lhsSize, rhsSize, ilhs, irhs);
      matched[SpaceIndex(rhsSize, ilhs, irhs)] := b;
      forall i: nat, j: nat | i < lhsSize && j < rhsSize && (i != ilhs || j != irhs)
        ensures SpaceIndex(rhsSize, i, j) != SpaceIndex(rhsSize, ilhs, irhs)
      {
        if i < ilhs {
          SpaceIndexOrder(rhsSize, i, j, ilhs, irhs);
        } else if ilhs < i {
          SpaceIndexOrder(rhsSize, ilhs, irhs, i, j);
        }
      }
    }

    /** Adds one to the matrix read as a binary number; false means that it wrapped round to zero. */
    method NextGraph() returns (more: bool)
      requires Valid()
      modifies matched
      ensures more ==> Value(matched[..]) == Value(old(matched[..])) + 1
      ensures !more ==> Value(old(matched[..])) == Pow2(matched.Length) - 1 && Value(matched[..]) == 0
    {
      ghost var before := matched[..];
      for ilhs := 0 to lhsSize
        invariant Cleared(before, ilhs * rhsSize)
      {
        for irhs := 0 to rhsSize
          invariant ilhs * rhsSize + irhs <= (ilhs + 1) * rhsSize <= matched.Length
          invariant Cleared(before, ilhs * rhsSize + irhs)
        {
          SpaceIndexInRange(lhsSize, rhsSize, ilhs, irhs);
          var k := SpaceIndex(rhsSize, ilhs, irhs);
          if !matched[k] {
            matched[k] := true;
            Carried(before, k);
            return true;
          }
          matched[k] := false;
        }
      }
      Carried(before, matched.Length);
      return false;
    }

    /** The first k cells were set and are now clear; the others have not changed. */
    ghost predicate Cleared(before: seq<bool>, k: int)
      reads matched
    {
      && |before| == matched.Length && 0 <= k <= matched.Length
      && (forall m :: 0 <= m < k ==> before[m] && !matched[m])
      && (forall m :: k <= m < matched.Length ==> matched[m] == before[m])
    }

    lemma Carried(before: seq<bool>, k: nat)
      requires |before| == matched.Length && k <= |before|
      requires forall m :: 0 <= m < k ==> before[m]
      requires k < |before| ==> !before[k]
      requires forall m :: 0 <= m < |before| ==> matched[m] == (m == k || (m > k && before[m]))
      ensures if k < |before| then Value(matched[..]) == Value(before) + 1
              else Value(before) == Pow2(|before|) - 1 && Value(matched[..]) == 0
    {
      ValueOfCarry(before, k);
      assert matched[..] == seq(|before|, m requires 0 <= m < |before| => m == k || (m > k && before[m]));
    }
  }
}

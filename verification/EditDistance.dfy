/** Edit scripts between two sequences, after edit_distance::CalculateOptimalEdits in gtest.cc. */
module EditDistance {

  datatype EditType = Match | Add | Remove | Replace

  // ---------- What a script means ----------

  /** The script consumes both sequences exactly, and pairs only equal elements as matches. */
  ghost predicate Aligns<T>(edits: seq<EditType>, left: seq<T>, right: seq<T>) {
    if edits == [] then left == [] && right == []
    else match edits[0]
      case Match => left != [] && right != [] && left[0] == right[0] && Aligns(edits[1..], left[1..], right[1..])
      case Add => right != [] && Aligns(edits[1..], left, right[1..])
      case Remove => left != [] && Aligns(edits[1..], left[1..], right)
      case Replace => left != [] && right != [] && Aligns(edits[1..], left[1..], right[1..])
  }

  function AddedBy(edits: seq<EditType>): nat {
    if edits == [] then 0 else (if edits[0] in {Add, Replace} then 1 else 0) + AddedBy(edits[1..])
  }

  /** Plays a script on `left`, keeping matched elements and inserting the given new ones. */
  function Replay<T>(edits: seq<EditType>, left: seq<T>, added: seq<T>): seq<T>
    requires |added| == AddedBy(edits)
  {
    if edits == [] then left
    else match edits[0]
      case Match => if left == [] then [] else [left[0]] + Replay(edits[1..], left[1..], added)
      case Add => [added[0]] + Replay(edits[1..], left, added[1..])
      case Remove => if left == [] then [] else Replay(edits[1..], left[1..], added)
      case Replace => if left == [] then [] else [added[0]] + Replay(edits[1..], left[1..], added[1..])
  }

  /** The elements of `right` that a script inserts. */
  function Insertions<T>(edits: seq<EditType>, right: seq<T>): (r: seq<T>)
    ensures |r| <= AddedBy(edits)
  {
    if edits == [] || right == [] then []
    else match edits[0]
      case Match => Insertions(edits[1..], right[1..])
      case Remove => Insertions(edits[1..], right)
      case _ => [right[0]] + Insertions(edits[1..], right[1..])
  }

  /** Playing an aligned script on `left` yields `right`. */
  lemma {:induction false} ReplayYieldsRight<T>(edits: seq<EditType>, left: seq<T>, right: seq<T>)
    requires Aligns(edits, left, right)
    ensures |Insertions(edits, right)| == AddedBy(edits)
    ensures Replay(edits, left, Insertions(edits, right)) == right
  {
    if edits != [] {
      var left' := if edits[0] == Add then left else left[1..];
      var right' := if edits[0] == Remove then right else right[1..];
      ReplayYieldsRight(edits[1..], left', right');
    }
  }

  lemma {:induction false} AlignsAppend<T>(e: seq<EditType>, l: seq<T>, r: seq<T>,
                                           e': seq<EditType>, l': seq<T>, r': seq<T>)
    requires Aligns(e, l, r) && Aligns(e', l', r')
    ensures Aligns(e + e', l + l', r + r')
  {
    if e == [] {
      assert e + e' == e' && l + l' == l' && r + r' == r';
    } else {
      var l1 := if e[0] == Add then l else l[1..];
      var r1 := if e[0] == Remove then r else r[1..];
      AlignsAppend(e[1..], l1, r1, e', l', r');
      assert (e + e')[1..] == e[1..] + e';
      assert l1 + l' == if e[0] == Add then l + l' else (l + l')[1..];
      assert r1 + r' == if e[0] == Remove then r + r' else (r + r')[1..];
    }
  }

  // ---------- The table ----------

  // Replacing costs a little more than adding or removing.
  const REPLACE_COST := 1.00001

  function MoveCost(move: EditType): real {
    match move
    case Match => 0.0
    case Replace => REPLACE_COST
    case _ => 1.0
  }

  /** The cost and the last move recorded for the first l elements of `left` and r of `right`. */
  function Entry<T(==)>(left: seq<T>, right: seq<T>, l: nat, r: nat): (real, EditType)
    requires l <= |left| && r <= |right|
  {
    if r == 0 then (l as real, Remove)
    else if l == 0 then (r as real, Add)
    else if left[l - 1] == right[r - 1] then (Entry(left, right, l - 1, r - 1).0, Match)
    else
      var add := Entry(left, right, l, r - 1).0;
      var remove := Entry(left, right, l - 1, r).0;
      var replace := Entry(left, right, l - 1, r - 1).0;
      if add < remove && add < replace then (add + 1.0, Add)
      else if remove < add && remove < replace then (remove + 1.0, Remove)
      else (replace + REPLACE_COST, Replace)
  }

  function Before(move: EditType, l: int, r: int): (int, int) {
    (if move == Add then l else l - 1, if move == Remove then r else r - 1)
  }

  /** The moves on the way from the origin of the table to (l, r). */
  function Path<T(==)>(left: seq<T>, right: seq<T>, l: nat, r: nat): seq<EditType>
    requires l <= |left| && r <= |right|
  {
    if l == 0 && r == 0 then []
    else
      var move := Entry(left, right, l, r).1;
      var (l', r') := Before(move, l, r);
      Path(left, right, l', r') + [move]
  }

  function PathCost(edits: seq<EditType>): real {
    if edits == [] then 0.0 else PathCost(edits[..|edits| - 1]) + MoveCost(edits[|edits| - 1])
  }

  function OptimalEdits<T(==)>(left: seq<T>, right: seq<T>): seq<EditType> {
    Path(left, right, |left|, |right|)
  }

  lemma {:induction false} PathAligns<T>(left: seq<T>, right: seq<T>, l: nat, r: nat)
    requires l <= |left| && r <= |right|
    ensures Aligns(Path(left, right, l, r), left[..l], right[..r])
    ensures PathCost(Path(left, right, l, r)) == Entry(left, right, l, r).0
    decreases l + r
  {
    if l != 0 || r != 0 {
      var move := Entry(left, right, l, r).1;
      var (l', r') := Before(move, l, r);
      PathAligns(left, right, l', r');
      assert Aligns([move], left[l'..l], right[r'..r]);
      AlignsAppend(Path(left, right, l', r'), left[..l'], right[..r'], [move], left[l'..l], right[r'..r]);
      assert left[..l'] + left[l'..l] == left[..l] && right[..r'] + right[r'..r] == right[..r];
      assert Path(left, right, l, r)[..|Path(left, right, l, r)| - 1] == Path(left, right, l', r');
    }
  }

  /** Every computed script is valid, replays `left` into `right`, and costs what the table says. */
  lemma OptimalEditsValid<T>(left: seq<T>, right: seq<T>)
    ensures var edits := OptimalEdits(left, right);
      && Aligns(edits, left, right)
      && |Insertions(edits, right)| == AddedBy(edits)
      && Replay(edits, left, Insertions(edits, right)) == right
      && PathCost(edits) == Entry(left, right, |left|, |right|).0
  {
    PathAligns(left, right, |left|, |right|);
    assert left[..|left|] == left && right[..|right|] == right;
    ReplayYieldsRight(OptimalEdits(left, right), left, right);
  }

  // ---------- The algorithm ----------

  function Reverse<T>(s: seq<T>): seq<T> {
    if s == [] then [] else Reverse(s[1..]) + [s[0]]
  }

  lemma {:induction false} ReverseSnoc<T>(s: seq<T>, x: T)
    ensures Reverse(s + [x]) == [x] + Reverse(s)
  {
    if s != [] {
      ReverseSnoc(s[1..], x);
      assert (s + [x])[1..] == s[1..] + [x];
    }
  }

  /** Both tables hold their final values in the first `rows` rows. */
  ghost predicate Filled<T>(costs: array2<real>, bestMove: array2<EditType>, left: seq<T>, right: seq<T>, rows: int)
    reads costs, bestMove
  {
    && costs.Length0 == bestMove.Length0 == |left| + 1
    && costs.Length1 == bestMove.Length1 == |right| + 1
    && rows <= |left| + 1
    && (forall i, j {:trigger costs[i, j]} :: 0 <= i < rows && 0 <= j <= |right| ==>
         costs[i, j] == Entry(left, right, i, j).0)
    && (forall i, j {:trigger bestMove[i, j]} :: 0 <= i < rows && 0 <= j <= |right| ==>
         bestMove[i, j] == Entry(left, right, i, j).1)
  }

  /** The first column holds the values for an empty right side. */
  ghost predicate Bordered<T>(costs: array2<real>, bestMove: array2<EditType>, left: seq<T>, right: seq<T>, rows: int)
    requires costs.Length0 == bestMove.Length0 == |left| + 1 && rows <= |left| + 1
    requires costs.Length1 == bestMove.Length1 == |right| + 1
    reads costs, bestMove
  {
    && (forall i {:trigger costs[i, 0]} :: 0 <= i < rows ==> costs[i, 0] == Entry(left, right, i, 0).0)
    && (forall i {:trigger bestMove[i, 0]} :: 0 <= i < rows ==> bestMove[i, 0] == Entry(left, right, i, 0).1)
  }

  method FillTables<T(==)>(left: seq<T>, right: seq<T>) returns (costs: array2<real>, bestMove: array2<EditType>)
    ensures Filled(costs, bestMove, left, right, |left| + 1)
  {
    costs := new real[|left| + 1, |right| + 1];
    bestMove := new EditType[|left| + 1, |right| + 1];
    for l := 0 to |left| + 1
      invariant Bordered(costs, bestMove, left, right, l)
    {
      costs[l, 0], bestMove[l, 0] := l as real, Remove;
    }
    for r := 1 to |right| + 1
      invariant Bordered(costs, bestMove, left, right, |left| + 1)
      invariant forall j {:trigger costs[0, j]} :: 0 <= j < r ==> costs[0, j] == Entry(left, right, 0, j).0
      invariant forall j {:trigger bestMove[0, j]} :: 0 <= j < r ==> bestMove[0, j] == Entry(left, right, 0, j).1
    {
      costs[0, r], bestMove[0, r] := r as real, Add;
    }
    for l := 0 to |left|
      invariant Bordered(costs, bestMove, left, right, |left| + 1)
      invariant Filled(costs, bestMove, left, right, l + 1)
    {
      FillRow(left, right, costs, bestMove, l);
    }
  }

  method FillRow<T(==)>(left: seq<T>, right: seq<T>, costs: array2<real>, bestMove: array2<EditType>, l: nat)
    requires l < |left| && Filled(costs, bestMove, left, right, l + 1)
    requires Bordered(costs, bestMove, left, right, |left| + 1)
    modifies costs, bestMove
    ensures Filled(costs, bestMove, left, right, l + 2)
    ensures Bordered(costs, bestMove, left, right, |left| + 1)
  {
    var k := l + 1;
    for r := 0 to |right|
      invariant Filled(costs, bestMove, left, right, k)
      invariant Bordered(costs, bestMove, left, right, |left| + 1)
      invariant forall j {:trigger costs[k, j]} :: 0 <= j <= r ==> costs[k, j] == Entry(left, right, k, j).0
      invariant forall j {:trigger bestMove[k, j]} :: 0 <= j <= r ==> bestMove[k, j] == Entry(left, right, k, j).1
    {
      var cost, move := costs[l, r], Match;
      if left[l] != right[r] {
        var add, remove, replace := costs[k, r], costs[l, r + 1], costs[l, r];
        if add < remove && add < replace {
          cost, move := add + 1.0, Add;
        } else if remove < add && remove < replace {
          cost, move := remove + 1.0, Remove;
        } else {
          cost, move := replace + REPLACE_COST, Replace;
        }
      }
      assert (cost, move) == Entry(left, right, k, r + 1);
      costs[k, r + 1], bestMove[k, r + 1] := cost, move;
    }
  }

  /** Fills the tables, then walks back from the far corner and reverses the moves met on the way. */
  method CalculateOptimalEdits<T(==)>(left: seq<T>, right: seq<T>) returns (bestPath: seq<EditType>)
    ensures bestPath == OptimalEdits(left, right)
  {
    var costs, bestMove := FillTables(left, right);
    bestPath := [];
    var l, r := |left|, |right|;
    while l > 0 || r > 0
      invariant 0 <= l <= |left| && 0 <= r <= |right|
      invariant Path(left, right, l, r) + Reverse(bestPath) == OptimalEdits(left, right)
      modifies {}
      decreases l + r
    {
      var move := bestMove[l, r];
      ReverseSnoc(bestPath, move);
      bestPath := bestPath + [move];
      l := if move != Add then l - 1 else l;
      r := if move != Remove then r - 1 else r;
    }
    bestPath := Reverse(bestPath);
  }

  // ---------- Interning ----------

  /** Two pairs of sequences that agree on which elements are equal. */
  ghost predicate SameShape<S, T>(left: seq<S>, right: seq<S>, left': seq<T>, right': seq<T>) {
    && |left| == |left'| && |right| == |right'|
    && forall i, j :: 0 <= i < |left| && 0 <= j < |right| ==> (left[i] == right[j] <==> left'[i] == right'[j])
  }

  /** The entry for two nonempty parts, from those beside it. */
  ghost function NextEntry(same: bool, add: real, remove: real, replace: real): (real, EditType) {
    if same then (replace, Match)
    else if add < remove && add < replace then (add + 1.0, Add)
    else if remove < add && remove < replace then (remove + 1.0, Remove)
    else (replace + REPLACE_COST, Replace)
  }

  lemma EntryIsNext<T>(left: seq<T>, right: seq<T>, l: nat, r: nat)
    requires 0 < l <= |left| && 0 < r <= |right|
    ensures Entry(left, right, l, r) ==
            NextEntry(left[l - 1] == right[r - 1], Entry(left, right, l, r - 1).0, Entry(left, right, l - 1, r).0,
                      Entry(left, right, l - 1, r - 1).0)
  {
  }

  lemma {:induction false} EntryByShape<S, T>(left: seq<S>, right: seq<S>, left': seq<T>, right': seq<T>,
                                              l: nat, r: nat)
    requires SameShape(left, right, left', right') && l <= |left| && r <= |right|
    ensures Entry(left, right, l, r) == Entry(left', right', l, r)
    decreases l + r
  {
    if l != 0 && r != 0 {
      EntryByShape(left, right, left', right', l - 1, r - 1);
      EntryByShape(left, right, left', right', l, r - 1);
      EntryByShape(left, right, left', right', l - 1, r);
      EntryIsNext(left, right, l, r);
      EntryIsNext(left', right', l, r);
    }
  }

  /** The script depends only on which elements are equal, so interning does not change it. */
  lemma {:induction false} PathByShape<S, T>(left: seq<S>, right: seq<S>, left': seq<T>, right': seq<T>, l: nat, r: nat)
    requires SameShape(left, right, left', right') && l <= |left| && r <= |right|
    ensures Path(left, right, l, r) == Path(left', right', l, r)
    decreases l + r
  {
    EntryByShape(left, right, left', right', l, r);
    if l != 0 || r != 0 {
      var (l', r') := Before(Entry(left, right, l, r).1, l, r);
      PathByShape(left, right, left', right', l', r');
    }
  }

  class InternalStrings {
    var ids: map<string, nat>

    ghost predicate Valid()
      reads this
    {
      && (forall s :: s in ids ==> ids[s] < |ids|)
      && (forall s, t :: s in ids && t in ids && ids[s] == ids[t] ==> s == t)
    }

    constructor ()
      ensures Valid() && ids == map[]
    {
      ids := map[];
    }

    method GetId(str: string) returns (id: nat)
      requires Valid()
      modifies this
      ensures Valid() && str in ids && ids[str] == id
      ensures forall s :: s in old(ids) ==> s in ids && ids[s] == old(ids[s])
      ensures ids == if str in old(ids) then old(ids) else old(ids)[str := |old(ids)|]
    {
      if str in ids { return ids[str]; }
      id := |ids|;
      ids := ids[str := id];
    }
  }

  /** The ids that an interning table gives to the first lines of a list. */
  ghost predicate Interned(table: map<string, nat>, lines: seq<string>, ids: seq<nat>) {
    |ids| <= |lines| && forall i :: 0 <= i < |ids| ==> lines[i] in table && table[lines[i]] == ids[i]
  }

  method InternLines(table: InternalStrings, lines: seq<string>) returns (ids: seq<nat>)
    requires table.Valid()
    modifies table
    ensures table.Valid() && |ids| == |lines| && Interned(table.ids, lines, ids)
    ensures forall s :: s in old(table.ids) ==> s in table.ids && table.ids[s] == old(table.ids[s])
  {
    ids := [];
    for i := 0 to |lines|
      invariant table.Valid() && |ids| == i && Interned(table.ids, lines, ids)
      invariant forall s :: s in old(table.ids) ==> s in table.ids && table.ids[s] == old(table.ids[s])
    {
      var id := table.GetId(lines[i]);
      ids := ids + [id];
    }
  }

  method CalculateOptimalEditsOfLines(left: seq<string>, right: seq<string>) returns (bestPath: seq<EditType>)
    ensures bestPath == OptimalEdits(left, right)
  {
    var table := new InternalStrings();
    var leftIds := InternLines(table, left);
    var rightIds := InternLines(table, right);
    bestPath := CalculateOptimalEdits(leftIds, rightIds);
    PathByShape(leftIds, rightIds, left, right, |left|, |right|);
  }

  // ---------- When the table is minimal ----------

  /** No valid script for the prefixes costs less than the entry says. */
  ghost predicate IsLeast<T>(left: seq<T>, right: seq<T>, l: nat, r: nat)
    requires l <= |left| && r <= |right|
  {
    forall edits :: Aligns(edits, left[..l], right[..r]) ==> Entry(left, right, l, r).0 <= PathCost(edits)
  }

  ghost predicate AllLeast<T>(left: seq<T>, right: seq<T>) {
    forall l, r :: 0 <= l <= |left| && 0 <= r <= |right| ==> IsLeast(left, right, l, r)
  }

  /** Adding or removing would not have been cheaper than the move recorded for this entry. */
  ghost predicate NoneCheaper<T>(left: seq<T>, right: seq<T>, l: nat, r: nat)
    requires 0 < l <= |left| && 0 < r <= |right|
  {
    && Entry(left, right, l, r).0 <= Entry(left, right, l, r - 1).0 + 1.0
    && Entry(left, right, l, r).0 <= Entry(left, right, l - 1, r).0 + 1.0
  }

  /** Where the elements differ, the rule for ties never passes over a cheaper addition or removal. */
  ghost predicate NonePassedOver<T>(left: seq<T>, right: seq<T>) {
    forall l, r :: 0 < l <= |left| && 0 < r <= |right| && left[l - 1] != right[r - 1] ==> NoneCheaper(left, right, l, r)
  }

  /** Neighbouring entries differ by at most the cost of an addition or removal. */
  lemma {:induction false} NeighboursAreClose<T>(left: seq<T>, right: seq<T>, l: nat, r: nat)
    requires NonePassedOver(left, right) && l <= |left| && r <= |right|
    ensures l > 0 ==> -1.0 <= Entry(left, right, l, r).0 - Entry(left, right, l - 1, r).0 <= 1.0
    ensures r > 0 ==> -1.0 <= Entry(left, right, l, r).0 - Entry(left, right, l, r - 1).0 <= 1.0
    decreases l + r
  {
    if l > 0 && r > 0 {
      NeighboursAreClose(left, right, l - 1, r);
      NeighboursAreClose(left, right, l, r - 1);
      if left[l - 1] != right[r - 1] {
        assert NoneCheaper(left, right, l, r);
      }
    }
  }

  /** The last edit consumes the last elements, and the others align what comes before. */
  lemma {:induction false} AlignsBeforeLast<T>(edits: seq<EditType>, left: seq<T>, right: seq<T>)
    requires Aligns(edits, left, right) && edits != []
    ensures var move := edits[|edits| - 1];
      && (move != Add ==> left != []) && (move != Remove ==> right != [])
      && (move == Match ==> left[|left| - 1] == right[|right| - 1])
      && var (l, r) := Before(move, |left|, |right|);
         Aligns(edits[..|edits| - 1], left[..l], right[..r])
  {
    if |edits| > 1 {
      var left' := if edits[0] == Add then left else left[1..];
      var right' := if edits[0] == Remove then right else right[1..];
      AlignsBeforeLast(edits[1..], left', right');
      var (l, r) := Before(edits[|edits| - 1], |left|, |right|);
      assert edits[1..][..|edits| - 2] == edits[..|edits| - 1][1..];
      assert edits[0] != Add ==> left[..l][1..] == left[1..][..l - 1];
      assert edits[0] != Remove ==> right[..r][1..] == right[1..][..r - 1];
    }
  }

  lemma {:induction false} NoScriptIsCheaper<T>(left: seq<T>, right: seq<T>, l: nat, r: nat, edits: seq<EditType>)
    requires NonePassedOver(left, right) && l <= |left| && r <= |right| && Aligns(edits, left[..l], right[..r])
    ensures Entry(left, right, l, r).0 <= PathCost(edits)
    decreases |edits|
  {
    if edits != [] {
      var move := edits[|edits| - 1];
      AlignsBeforeLast(edits, left[..l], right[..r]);
      var (l', r') := Before(move, l, r);
      assert left[..l][..l'] == left[..l'] && right[..r][..r'] == right[..r'];
      NoScriptIsCheaper(left, right, l', r', edits[..|edits| - 1]);
      NeighboursAreClose(left, right, l, r);
      assert move == Match ==> left[l - 1] == left[..l][l - 1] == right[..r][r - 1] == right[r - 1];
    }
  }

  /** An addition or removal after the path to a neighbour makes a valid script. */
  lemma OneMoreMove<T>(left: seq<T>, right: seq<T>, l: nat, r: nat, move: EditType)
    requires 0 < l <= |left| && 0 < r <= |right| && move in {Add, Remove} && IsLeast(left, right, l, r)
    ensures var (l', r') := Before(move, l, r);
      Entry(left, right, l, r).0 <= Entry(left, right, l', r').0 + 1.0
  {
    var (l', r') := Before(move, l, r);
    var before := Path(left, right, l', r');
    PathAligns(left, right, l', r');
    AlignsAppend(before, left[..l'], right[..r'], [move], left[l'..l], right[r'..r]);
    assert left[..l'] + left[l'..l] == left[..l] && right[..r'] + right[r'..r] == right[..r];
    assert (before + [move])[..|before + [move]| - 1] == before;
  }

  /** The tables hold the least costs for all prefixes exactly when no cheaper move is passed over. */
  lemma LeastUnlessPassedOver<T>(left: seq<T>, right: seq<T>)
    ensures AllLeast(left, right) <==> NonePassedOver(left, right)
  {
    if NonePassedOver(left, right) {
      forall l, r | 0 <= l <= |left| && 0 <= r <= |right| ensures IsLeast(left, right, l, r) {
        forall edits | Aligns(edits, left[..l], right[..r])
          ensures Entry(left, right, l, r).0 <= PathCost(edits)
        {
          NoScriptIsCheaper(left, right, l, r, edits);
        }
      }
    }
    if AllLeast(left, right) {
      forall l, r | 0 < l <= |left| && 0 < r <= |right| && left[l - 1] != right[r - 1]
        ensures NoneCheaper(left, right, l, r)
      {
        OneMoreMove(left, right, l, r, Add);
        OneMoreMove(left, right, l, r, Remove);
      }
    }
  }

  /** Then the script computed is a cheapest one. */
  lemma OptimalUnlessPassedOver<T>(left: seq<T>, right: seq<T>, edits: seq<EditType>)
    requires NonePassedOver(left, right) && Aligns(edits, left, right)
    ensures PathCost(OptimalEdits(left, right)) <= PathCost(edits)
  {
    assert left[..|left|] == left && right[..|right|] == right;
    OptimalEditsValid(left, right);
    NoScriptIsCheaper(left, right, |left|, |right|, edits);
  }

  /** Every entry is a whole number of units, a replacement being one unit dearer than an addition. */
  const UNITS := 100000.0

  lemma {:induction false} EntryIsWhole<T>(left: seq<T>, right: seq<T>, l: nat, r: nat) returns (units: nat)
    requires l <= |left| && r <= |right|
    ensures Entry(left, right, l, r).0 * UNITS == units as real
    decreases l + r
  {
    if r == 0 {
      units := l * 100000;
    } else if l == 0 {
      units := r * 100000;
    } else {
      var replace := EntryIsWhole(left, right, l - 1, r - 1);
      var add := EntryIsWhole(left, right, l, r - 1);
      var remove := EntryIsWhole(left, right, l - 1, r);
      var (cost, move) := Entry(left, right, l, r);
      units := match move
        case Match => replace
        case Add => add + 100000
        case Remove => remove + 100000
        case Replace => replace + 100001;
    }
  }

  /** A cheaper addition is passed over only when it ties with a removal or a replacement, and a cheaper
      removal only when it ties with an addition or a replacement. */
  lemma PassedOverOnlyInTies<T>(left: seq<T>, right: seq<T>, l: nat, r: nat)
    requires 0 < l <= |left| && 0 < r <= |right| && left[l - 1] != right[r - 1]
    ensures var add, remove, replace :=
        Entry(left, right, l, r - 1).0, Entry(left, right, l - 1, r).0, Entry(left, right, l - 1, r - 1).0;
      && (Entry(left, right, l, r).0 > add + 1.0 ==> add == remove || add == replace)
      && (Entry(left, right, l, r).0 > remove + 1.0 ==> remove == add || remove == replace)
      && Entry(left, right, l, r).0 <= replace + REPLACE_COST
  {
    var a := EntryIsWhole(left, right, l, r - 1);
    var b := EntryIsWhole(left, right, l - 1, r);
    var c := EntryIsWhole(left, right, l - 1, r - 1);
    UnitApart(Entry(left, right, l - 1, r - 1).0, Entry(left, right, l, r - 1).0, c, a);
    UnitApart(Entry(left, right, l - 1, r - 1).0, Entry(left, right, l - 1, r).0, c, b);
  }

  /** A tie for the least cost is a replacement; a single least cost decides. */
  lemma TiesReplace<T>(left: seq<T>, right: seq<T>, l: nat, r: nat)
    requires 0 < l <= |left| && 0 < r <= |right| && left[l - 1] != right[r - 1]
    ensures var add, remove, replace :=
        Entry(left, right, l, r - 1).0, Entry(left, right, l - 1, r).0, Entry(left, right, l - 1, r - 1).0;
      match Entry(left, right, l, r).1
      case Add => add < remove && add < replace
      case Remove => remove < add && remove < replace
      case Replace => (replace <= add && replace <= remove) || add == remove < replace
      case Match => false
  {
  }

  /** Different costs are at least one unit apart. */
  lemma UnitApart(x: real, y: real, m: nat, n: nat)
    requires x * UNITS == m as real && y * UNITS == n as real
    ensures x < y ==> x + REPLACE_COST <= y + 1.0
  {
    if x < y {
      assert m + 1 <= n;
    }
  }

  /** So without ties the table is minimal. */
  lemma LeastWithoutTies<T>(left: seq<T>, right: seq<T>)
    requires forall l, r :: 0 < l <= |left| && 0 < r <= |right| && left[l - 1] != right[r - 1] ==>
      NoTie(left, right, l, r)
    ensures AllLeast(left, right)
  {
    forall l, r | 0 < l <= |left| && 0 < r <= |right| && left[l - 1] != right[r - 1]
      ensures NoneCheaper(left, right, l, r)
    {
      assert NoTie(left, right, l, r);
      PassedOverOnlyInTies(left, right, l, r);
    }
    LeastUnlessPassedOver(left, right);
  }

  /** The three entries that a new one is made from are different. */
  ghost predicate NoTie<T>(left: seq<T>, right: seq<T>, l: nat, r: nat)
    requires 0 < l <= |left| && 0 < r <= |right|
  {
    var add, remove, replace :=
      Entry(left, right, l, r - 1).0, Entry(left, right, l - 1, r).0, Entry(left, right, l - 1, r - 1).0;
    add != remove && add != replace && remove != replace
  }

  // ---------- Texts that differ at one end ----------

  lemma {:induction false} EqualPrefixesMatch<T>(left: seq<T>, right: seq<T>, n: nat)
    requires n <= |left| && n <= |right| && left[..n] == right[..n]
    ensures Entry(left, right, n, n).0 == 0.0 && Path(left, right, n, n) == seq(n, i => Match)
    decreases n
  {
    if n > 0 {
      assert left[n - 1] == left[..n][n - 1] == right[..n][n - 1] == right[n - 1];
      assert left[..n - 1] == left[..n][..n - 1] && right[..n - 1] == right[..n][..n - 1];
      EqualPrefixesMatch(left, right, n - 1);
      assert seq(n, i => Match) == seq(n - 1, i => Match) + [Match];
    }
  }

  /** Equal texts give matches only. */
  lemma EqualTextsMatch<T>(text: seq<T>)
    ensures OptimalEdits(text, text) == seq(|text|, i => Match)
  {
    EqualPrefixesMatch(text, text, |text|);
  }

  // ---------- Not minimal ----------

  /** Ties go to the replacement even when adding and removing are both cheaper than it, so the
      script may be longer than another valid one: three replacements where two edits suffice. */
  lemma NotAlwaysMinimal()
    ensures OptimalEdits("aba", "bab") == [Replace, Replace, Replace]
    ensures Aligns([Add, Match, Match, Remove], "aba", "bab")
    ensures PathCost([Add, Match, Match, Remove]) < PathCost(OptimalEdits("aba", "bab"))
  {
    var l, r := "aba", "bab";
    assert Entry(l, r, 1, 1) == (REPLACE_COST, Replace);
    assert Entry(l, r, 1, 2) == (1.0, Match);
    assert Entry(l, r, 2, 1) == (1.0, Match);
    assert Entry(l, r, 1, 3) == (2.0, Add);
    assert Entry(l, r, 3, 1) == (2.0, Remove);
    assert Entry(l, r, 2, 2) == (2.0 * REPLACE_COST, Replace);
    assert Entry(l, r, 2, 3) == (1.0, Match);
    assert Entry(l, r, 3, 2) == (1.0, Match);
    assert Entry(l, r, 3, 3) == (3.0 * REPLACE_COST, Replace);
    assert Path(l, r, 1, 1) == [Replace];
    assert Path(l, r, 2, 2) == [Replace, Replace];
    assert Path(l, r, 3, 3) == [Replace, Replace, Replace];
    OptimalEditsValid(l, r);
    assert PathCost([Add]) == 1.0;
    assert [Add, Match][..1] == [Add];
    assert [Add, Match, Match][..2] == [Add, Match];
    assert [Add, Match, Match, Remove][..3] == [Add, Match, Match];
  }
}

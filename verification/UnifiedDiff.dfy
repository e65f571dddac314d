/** Unified diffs built from edit scripts, after edit_distance::Hunk and CreateUnifiedDiff in gtest.cc. */
module UnifiedDiff {
  import opened CStrings
  import opened EditDistance
  import opened Wrappers

  // A body line: ' ' for no change, '-' for deletion, '+' for addition.
  datatype Line = Line(mark: char, text: string)

  // One side of a header: a one-based start and a length.
  datatype Range = Range(start: nat, length: nat)

  // A side without edits is left out of the header.
  datatype PrintedHunk = PrintedHunk(leftRange: Option<Range>, rightRange: Option<Range>, lines: seq<Line>)

  // ---------- Reading a body ----------

  /** The text of the lines that do not carry the given mark. */
  function TextWithout(lines: seq<Line>, mark: char): seq<string> {
    if lines == [] then []
    else (if lines[0].mark == mark then [] else [lines[0].text]) + TextWithout(lines[1..], mark)
  }

  function LeftText(lines: seq<Line>): seq<string> { TextWithout(lines, '+') }

  function RightText(lines: seq<Line>): seq<string> { TextWithout(lines, '-') }

  lemma {:induction false} TextOfConcat(a: seq<Line>, b: seq<Line>, mark: char)
    ensures TextWithout(a + b, mark) == TextWithout(a, mark) + TextWithout(b, mark)
  {
    if a == [] {
      assert a + b == b;
    } else {
      TextOfConcat(a[1..], b, mark);
      assert (a + b)[1..] == a[1..] + b && (a + b)[0] == a[0];
    }
  }

  /** Deletions come before additions in every run of edits. */
  ghost predicate Grouped(lines: seq<Line>) {
    forall i :: 0 <= i < |lines| - 1 && lines[i].mark == '+' ==> lines[i + 1].mark != '-'
  }

  /** How many unchanged lines a body starts, and ends, with. */
  function LeadingCommon(lines: seq<Line>): (n: nat)
    ensures n <= |lines|
  {
    if lines == [] || lines[0].mark != ' ' then 0 else 1 + LeadingCommon(lines[1..])
  }

  function TrailingCommon(lines: seq<Line>): (n: nat)
    ensures n <= |lines|
  {
    if lines == [] || lines[|lines| - 1].mark != ' ' then 0 else 1 + TrailingCommon(lines[..|lines| - 1])
  }

  lemma {:induction false} LeadingOfConcat(a: seq<Line>, b: seq<Line>)
    ensures LeadingCommon(a + b) == if LeadingCommon(a) == |a| then |a| + LeadingCommon(b) else LeadingCommon(a)
  {
    if a == [] {
      assert a + b == b;
    } else {
      LeadingOfConcat(a[1..], b);
      assert (a + b)[1..] == a[1..] + b;
    }
  }

  function Max(a: nat, b: nat): nat { if a < b then b else a }

  /** The longest run of unchanged lines between two edits of a body. */
  function WidestGap(lines: seq<Line>): nat {
    if lines == [] then 0
    else
      var before := lines[..|lines| - 1];
      if lines[|lines| - 1].mark == ' ' || LeadingCommon(before) == |before| then WidestGap(before)
      else Max(WidestGap(before), TrailingCommon(before))
  }

  /** A run of unchanged lines is no longer than that, or has no edit on one of its sides. */
  lemma {:induction false} GapsAreNarrow(lines: seq<Line>, from: nat, to: nat)
    requires from <= to <= |lines| && forall i :: from <= i < to ==> lines[i].mark == ' '
    ensures || to - from <= WidestGap(lines)
            || LeadingCommon(lines) >= to
            || TrailingCommon(lines) >= |lines| - from
  {
    if lines != [] {
      var before := lines[..|lines| - 1];
      assert lines == before + lines[|lines| - 1..];
      LeadingOfConcat(before, lines[|lines| - 1..]);
      if to == |lines| {
        TrailingReaches(lines, from);
      } else {
        GapsAreNarrow(before, from, to);
      }
    }
  }

  lemma {:induction false} TrailingReaches(lines: seq<Line>, from: nat)
    requires from <= |lines| && forall i :: from <= i < |lines| ==> lines[i].mark == ' '
    ensures TrailingCommon(lines) >= |lines| - from
    ensures LeadingCommon(lines) >= from ==> LeadingCommon(lines) == |lines|
  {
    if from < |lines| {
      var before := lines[..|lines| - 1];
      assert lines == before + lines[|lines| - 1..];
      LeadingOfConcat(before, lines[|lines| - 1..]);
      TrailingReaches(before, from);
    }
  }

  lemma {:induction false} EditStopsContext(lines: seq<Line>, i: nat)
    requires i < |lines| && lines[i].mark != ' '
    ensures LeadingCommon(lines) <= i && TrailingCommon(lines) < |lines| - i
  {
    var before, last := lines[..|lines| - 1], lines[|lines| - 1..];
    assert lines == before + last;
    LeadingOfConcat(before, last);
    if i < |before| {
      EditStopsContext(before, i);
    }
  }

  /** Between two edits there is no longer run of unchanged lines than the widest gap. */
  lemma RunsAreShort(lines: seq<Line>, i: nat, j: nat)
    requires i < j < |lines| && lines[i].mark != ' ' && lines[j].mark != ' '
    requires forall k :: i < k < j ==> lines[k].mark == ' '
    ensures j - i - 1 <= WidestGap(lines)
  {
    GapsAreNarrow(lines, i + 1, j);
    EditStopsContext(lines, i);
    EditStopsContext(lines, j);
  }

  // ---------- One hunk ----------

  ghost predicate AllMarked(lines: seq<Line>, mark: char) {
    forall i :: 0 <= i < |lines| ==> lines[i].mark == mark
  }

  lemma {:induction false} TextOfMarked(lines: seq<Line>, mark: char)
    requires AllMarked(lines, mark)
    ensures TextWithout(lines, mark) == []
  {
    if lines != [] {
      TextOfMarked(lines[1..], mark);
    }
  }

  /** The two texts of a body whose pending deletions and additions come last. */
  lemma TextOfPending(flushed: seq<Line>, removes: seq<Line>, adds: seq<Line>)
    requires AllMarked(removes, '-') && AllMarked(adds, '+')
    ensures LeftText(flushed + removes + adds) == LeftText(flushed) + LeftText(removes)
    ensures RightText(flushed + removes + adds) == RightText(flushed) + RightText(adds)
  {
    TextOfConcat(flushed + removes, adds, '+');
    TextOfConcat(flushed, removes, '+');
    TextOfConcat(flushed + removes, adds, '-');
    TextOfConcat(flushed, removes, '-');
    TextOfMarked(adds, '+');
    TextOfMarked(removes, '-');
  }

  /** The body after one more line, wherever its mark puts it. */
  function Pushed(flushed: seq<Line>, removes: seq<Line>, adds: seq<Line>, line: Line): seq<Line> {
    match line.mark
    case '-' => flushed + (removes + [line]) + adds
    case '+' => flushed + removes + (adds + [line])
    case _ => flushed + removes + adds + [line] + [] + []
  }

  lemma TextsAfterPush(flushed: seq<Line>, removes: seq<Line>, adds: seq<Line>, line: Line)
    requires AllMarked(removes, '-') && AllMarked(adds, '+')
    ensures var before, after := flushed + removes + adds, Pushed(flushed, removes, adds, line);
      && LeftText(after) == LeftText(before) + (if line.mark == '+' then [] else [line.text])
      && RightText(after) == RightText(before) + (if line.mark == '-' then [] else [line.text])
  {
    TextOfPending(flushed, removes, adds);
    match line.mark
    case '-' =>
      TextOfConcat(removes, [line], '+');
      TextOfPending(flushed, removes + [line], adds);
    case '+' =>
      TextOfConcat(adds, [line], '-');
      TextOfPending(flushed, removes, adds + [line]);
    case _ =>
      var before := flushed + removes + adds;
      TextOfConcat(before, [line], '+');
      TextOfConcat(before, [line], '-');
      assert before + [line] + [] + [] == before + [line];
  }

  /** Pending edits do not lengthen the common start, and end the common end. */
  lemma ContextOfPending(flushed: seq<Line>, pending: seq<Line>)
    requires forall i :: 0 <= i < |pending| ==> pending[i].mark != ' '
    ensures LeadingCommon(flushed + pending) == LeadingCommon(flushed)
    ensures pending != [] ==> TrailingCommon(flushed + pending) == 0
  {
    LeadingOfConcat(flushed, pending);
  }

  lemma ContextAfterPush(flushed: seq<Line>, removes: seq<Line>, adds: seq<Line>, line: Line)
    requires AllMarked(removes, '-') && AllMarked(adds, '+') && line.mark in {' ', '-', '+'}
    ensures var before, after := flushed + removes + adds, Pushed(flushed, removes, adds, line);
      && LeadingCommon(after) ==
           LeadingCommon(before) + (if line.mark == ' ' && LeadingCommon(before) == |before| then 1 else 0)
      && TrailingCommon(after) == (if line.mark == ' ' then TrailingCommon(before) + 1 else 0)
  {
    var before, after := flushed + removes + adds, Pushed(flushed, removes, adds, line);
    if line.mark == ' ' {
      assert after == before + [line] && after[..|after| - 1] == before;
      LeadingOfConcat(before, [line]);
    } else {
      var pending := if line.mark == '-' then removes + [line] + adds else removes + adds + [line];
      assert before == flushed + (removes + adds) && after == flushed + pending;
      ContextOfPending(flushed, removes + adds);
      ContextOfPending(flushed, pending);
    }
  }

  /** Behind the flushed lines, only the first pending edit widens the gap. */
  lemma {:induction false} GapBeforePending(flushed: seq<Line>, pending: seq<Line>)
    requires pending != [] && forall i :: 0 <= i < |pending| ==> pending[i].mark != ' '
    ensures WidestGap(flushed + pending) == GapWithEdit(flushed)
    ensures LeadingCommon(flushed + pending) < |flushed + pending| && TrailingCommon(flushed + pending) == 0
  {
    var body, init := flushed + pending, pending[..|pending| - 1];
    assert body[..|body| - 1] == flushed + init;
    LeadingOfConcat(flushed, pending);
    LeadingOfConcat(flushed, init);
    if init == [] {
      assert flushed + init == flushed;
    } else {
      GapBeforePending(flushed, init);
    }
  }

  /** The widest gap when an edit follows. */
  function GapWithEdit(lines: seq<Line>): nat {
    if LeadingCommon(lines) == |lines| then WidestGap(lines) else Max(WidestGap(lines), TrailingCommon(lines))
  }

  lemma GapAfterPush(flushed: seq<Line>, removes: seq<Line>, adds: seq<Line>, line: Line)
    requires AllMarked(removes, '-') && AllMarked(adds, '+') && line.mark in {' ', '-', '+'}
    ensures var before, after := flushed + removes + adds, Pushed(flushed, removes, adds, line);
      WidestGap(after) == if line.mark == ' ' then WidestGap(before) else GapWithEdit(before)
  {
    var before, after := flushed + removes + adds, Pushed(flushed, removes, adds, line);
    assert before == flushed + (removes + adds);
    if line.mark == ' ' {
      assert after == before + [line] && after[..|after| - 1] == before;
    } else {
      var pending := if line.mark == '-' then removes + [line] + adds else removes + adds + [line];
      assert after == flushed + pending;
      GapBeforePending(flushed, pending);
      if removes + adds == [] {
        assert before == flushed;
      } else {
        GapBeforePending(flushed, removes + adds);
      }
    }
  }

  /** Flushed lines end unchanged and are grouped; pending deletions and additions are kept apart. */
  ghost predicate WellSorted(flushed: seq<Line>, removes: seq<Line>, adds: seq<Line>) {
    && AllMarked(removes, '-') && AllMarked(adds, '+')
    && Grouped(flushed) && (flushed != [] ==> flushed[|flushed| - 1].mark == ' ')
  }

  lemma SortedAfterPush(flushed: seq<Line>, removes: seq<Line>, adds: seq<Line>, line: Line)
    requires WellSorted(flushed, removes, adds)
    ensures Grouped(flushed + removes + adds)
    ensures line.mark == ' ' ==> WellSorted(flushed + removes + adds + [line], [], [])
    ensures line.mark == '-' ==> WellSorted(flushed, removes + [line], adds)
    ensures line.mark == '+' ==> WellSorted(flushed, removes, adds + [line])
  {
  }

  class Hunk {
    const leftStart: nat
    const rightStart: nat
    var adds: nat
    var removes: nat
    var common: nat
    var hunk: seq<Line>
    var hunkAdds: seq<Line>
    var hunkRemoves: seq<Line>

    /** The body as it would be printed now. */
    ghost function Body(): seq<Line>
      reads this
    {
      hunk + hunkRemoves + hunkAdds
    }

    ghost predicate Valid()
      reads this
    {
      && WellSorted(hunk, hunkRemoves, hunkAdds)
      && |LeftText(Body())| == removes + common
      && |RightText(Body())| == adds + common
      && |Body()| == adds + removes + common
      && (HasEdits() <==> LeadingCommon(Body()) < |Body()|)
    }

    constructor (leftStart: nat, rightStart: nat)
      ensures Valid() && Body() == [] && !HasEdits()
      ensures this.leftStart == leftStart && this.rightStart == rightStart
    {
      this.leftStart := leftStart;
      this.rightStart := rightStart;
      adds, removes, common := 0, 0, 0;
      hunk, hunkAdds, hunkRemoves := [], [], [];
    }

    predicate HasEdits()
      reads this
    {
      adds > 0 || removes > 0
    }

    method FlushEdits()
      modifies this`hunk, this`hunkAdds, this`hunkRemoves
      ensures hunk == old(Body()) && hunkRemoves == [] && hunkAdds == []
    {
      hunk := hunk + hunkRemoves;
      hunkRemoves := [];
      hunk := hunk + hunkAdds;
      hunkAdds := [];
    }

    method PushLine(edit: char, line: string)
      requires Valid() && edit in {' ', '-', '+'}
      modifies this
      ensures Valid()
      ensures LeftText(Body()) == old(LeftText(Body())) + if edit == '+' then [] else [line]
      ensures RightText(Body()) == old(RightText(Body())) + if edit == '-' then [] else [line]
      ensures HasEdits() <==> old(HasEdits()) || edit != ' '
      ensures LeadingCommon(Body()) == old(LeadingCommon(Body())) + if edit == ' ' && !old(HasEdits()) then 1 else 0
      ensures TrailingCommon(Body()) == if edit == ' ' then old(TrailingCommon(Body())) + 1 else 0
      ensures WidestGap(Body()) == old(if edit == ' ' then WidestGap(Body()) else GapWithEdit(Body()))
    {
      ghost var l := Line(edit, line);
      ContextAfterPush(hunk, hunkRemoves, hunkAdds, l);
      GapAfterPush(hunk, hunkRemoves, hunkAdds, l);
      SortedAfterPush(hunk, hunkRemoves, hunkAdds, l);
      TextsAfterPush(hunk, hunkRemoves, hunkAdds, l);
      match edit {
        case ' ' =>
          common := common + 1;
          FlushEdits();
          hunk := hunk + [Line(' ', line)];
        case '-' =>
          removes := removes + 1;
          hunkRemoves := hunkRemoves + [Line('-', line)];
        case '+' =>
          adds := adds + 1;
          hunkAdds := hunkAdds + [Line('+', line)];
      }
      assert Body() == Pushed(old(hunk), old(hunkRemoves), old(hunkAdds), l);
    }

    /** The header gives a side only if it has edits; its length counts the unchanged lines too. */
    method PrintTo() returns (p: PrintedHunk)
      requires Valid()
      modifies this
      ensures WellPrinted(p, leftStart, rightStart) && p.lines == old(Body())
      ensures p.leftRange.Some? || p.rightRange.Some? <==> old(HasEdits())
    {
      var leftRange := if removes > 0 then Some(Range(leftStart, removes + common)) else None;
      var rightRange := if adds > 0 then Some(Range(rightStart, adds + common)) else None;
      SortedAfterPush(hunk, hunkRemoves, hunkAdds, Line(' ', ""));
      FlushEdits();
      p := PrintedHunk(leftRange, rightRange, hunk);
    }
  }

  /** Starts and lengths in the header describe the body, and no run of edits has an addition before
      a deletion. */
  ghost predicate WellPrinted(p: PrintedHunk, leftStart: nat, rightStart: nat) {
    && p.leftRange == (if |RightText(p.lines)| < |p.lines| then Some(Range(leftStart, |LeftText(p.lines)|)) else None)
    && p.rightRange == (if |LeftText(p.lines)| < |p.lines| then Some(Range(rightStart, |RightText(p.lines)|)) else None)
    && Grouped(p.lines)
  }

  // ---------- Lines as C strings ----------

  /** What is left of the lines when each is read as a C string. */
  function Shown(lines: seq<string>): (r: seq<string>)
    ensures |r| == |lines|
  {
    seq(|lines|, i requires 0 <= i < |lines| => CString(lines[i], '\0'))
  }

  ghost predicate NulFree(lines: seq<string>) {
    forall i :: 0 <= i < |lines| ==> '\0' !in lines[i]
  }

  lemma {:induction false} WholeCString(s: string)
    ensures CString(s, '\0') == s <==> '\0' !in s
  {
    if s != [] {
      WholeCString(s[1..]);
      assert s == [s[0]] + s[1..];
    }
  }

  /** Exactly lines without NUL are shown whole. */
  lemma ShownWhole(lines: seq<string>)
    ensures Shown(lines) == lines <==> NulFree(lines)
  {
    forall i | 0 <= i < |lines| ensures Shown(lines)[i] == lines[i] <==> '\0' !in lines[i] {
      WholeCString(lines[i]);
    }
    if Shown(lines) == lines {
      assert forall i :: 0 <= i < |lines| ==> Shown(lines)[i] == lines[i];
    }
  }

  lemma ShownSlice(lines: seq<string>, from: nat, to: nat)
    requires from <= to <= |lines|
    ensures Shown(lines)[from..to] == Shown(lines[from..to])
  {
  }

  // ---------- The whole diff ----------

  // A zero-based position in both texts.
  datatype Place = Place(l: nat, r: nat)

  /** The text between two positions is the same on both sides. */
  ghost predicate SameGap(left: seq<string>, right: seq<string>, from: Place, to: Place) {
    && from.l <= to.l <= |left| && from.r <= to.r <= |right|
    && left[from.l..to.l] == right[from.r..to.r]
  }

  ghost function After(p: Place, h: PrintedHunk): Place {
    Place(p.l + |LeftText(h.lines)|, p.r + |RightText(h.lines)|)
  }

  /** A printed hunk that has edits and whose unchanged and deleted lines are the slice of `left` at
      its place, and whose unchanged and added lines are the slice of `right` there. */
  ghost predicate Fits(h: PrintedHunk, p: Place, left: seq<string>, right: seq<string>) {
    var q := After(p, h);
    && q.l <= |left| && left[p.l..q.l] == LeftText(h.lines)
    && q.r <= |right| && right[p.r..q.r] == RightText(h.lines)
    && WellPrinted(h, p.l + 1, p.r + 1)
    && (h.leftRange.Some? || h.rightRange.Some?)
  }

  /** A hunk shows `context` unchanged lines on either side, fewer only at the ends of the text, and less than
      twice as many between two of its edits. */
  ghost predicate ShowsContext(h: PrintedHunk, p: Place, left: seq<string>, context: nat) {
    && LeadingCommon(h.lines) <= context && (LeadingCommon(h.lines) < context ==> p.l == 0)
    && TrailingCommon(h.lines) <= context && (TrailingCommon(h.lines) < context ==> After(p, h).l == |left|)
    && WidestGap(h.lines) < 2 * context
  }

  /** The position behind the first k hunks. */
  ghost function EndOf(hunks: seq<PrintedHunk>, places: seq<Place>, k: nat): Place
    requires k <= |hunks| == |places|
  {
    if k == 0 then Place(0, 0) else After(places[k - 1], hunks[k - 1])
  }

  /** A hunk that fits the lines as shown at p, behind text from position `from` on that is the same on both
      sides. */
  ghost predicate Placed(h: PrintedHunk, p: Place, from: Place, left: seq<string>, right: seq<string>, context: nat) {
    && Fits(h, p, Shown(left), Shown(right)) && ShowsContext(h, p, left, context)
    && SameGap(left, right, from, p)
  }

  /** The hunks lie in order without overlapping, and the text before each is the same on both sides. */
  ghost predicate Describes(hunks: seq<PrintedHunk>, places: seq<Place>, left: seq<string>, right: seq<string>,
                            context: nat)
  {
    && |places| == |hunks|
    && forall k {:trigger EndOf(hunks, places, k)} :: 0 <= k < |hunks| ==>
         Placed(hunks[k], places[k], EndOf(hunks, places, k), left, right, context)
  }

  /** No edit lies among the next `context` moves. */
  ghost predicate FarFromEdit(edits: seq<EditType>, e: nat, context: nat) {
    forall m :: e <= m < |edits| && edits[m] != Match ==> m - e >= context
  }

  method NextEdit(edits: seq<EditType>, from: nat) returns (it: nat)
    requires from <= |edits|
    ensures from <= it <= |edits|
    ensures forall m :: from <= m < it ==> edits[m] == Match
    ensures it < |edits| ==> edits[it] != Match
  {
    it := from;
    while it < |edits| && edits[it] == Match
      invariant from <= it <= |edits|
      invariant forall m :: from <= m < it ==> edits[m] == Match
    {
      it := it + 1;
    }
  }

  // How many lines of each text the first e edits consume.
  function LeftAt(edits: seq<EditType>, e: nat): nat
    requires e <= |edits|
  {
    if e == 0 then 0 else LeftAt(edits, e - 1) + if edits[e - 1] != Add then 1 else 0
  }

  function RightAt(edits: seq<EditType>, e: nat): nat
    requires e <= |edits|
  {
    if e == 0 then 0 else RightAt(edits, e - 1) + if edits[e - 1] != Remove then 1 else 0
  }

  /** The script consumes both texts exactly and its matches pair equal lines, said by position. */
  ghost predicate Aligned(edits: seq<EditType>, left: seq<string>, right: seq<string>) {
    && LeftAt(edits, |edits|) == |left| && RightAt(edits, |edits|) == |right|
    && forall e :: 0 <= e < |edits| ==> AlignedAt(edits, e, left, right)
  }

  ghost predicate AlignedAt(edits: seq<EditType>, e: nat, left: seq<string>, right: seq<string>)
    requires e < |edits|
  {
    && (edits[e] != Add ==> LeftAt(edits, e) < |left|)
    && (edits[e] != Remove ==> RightAt(edits, e) < |right|)
    && (edits[e] == Match ==> left[LeftAt(edits, e)] == right[RightAt(edits, e)])
  }

  lemma {:induction false} AlignedFromAligns(edits: seq<EditType>, e: nat, left: seq<string>, right: seq<string>)
    requires e <= |edits| && LeftAt(edits, e) <= |left| && RightAt(edits, e) <= |right|
    requires Aligns(edits[e..], left[LeftAt(edits, e)..], right[RightAt(edits, e)..])
    ensures LeftAt(edits, |edits|) == |left| && RightAt(edits, |edits|) == |right|
    ensures forall k :: e <= k < |edits| ==> AlignedAt(edits, k, left, right)
    decreases |edits| - e
  {
    if e < |edits| {
      var l, r := LeftAt(edits, e), RightAt(edits, e);
      assert edits[e..][1..] == edits[e + 1..];
      assert l < |left| ==> left[l..][1..] == left[l + 1..];
      assert r < |right| ==> right[r..][1..] == right[r + 1..];
      AlignedFromAligns(edits, e + 1, left, right);
    }
  }

  lemma AlignedStep(edits: seq<EditType>, e: nat, left: seq<string>, right: seq<string>)
    requires e < |edits| && Aligned(edits, left, right)
    ensures AlignedAt(edits, e, left, right)
    ensures LeftAt(edits, e + 1) == LeftAt(edits, e) + (if edits[e] != Add then 1 else 0) <= |left|
    ensures RightAt(edits, e + 1) == RightAt(edits, e) + (if edits[e] != Remove then 1 else 0) <= |right|
  {
    assert AlignedAt(edits, e, left, right);
    LastPosition(edits, e, left, right);
  }

  lemma {:induction false} LastPosition(edits: seq<EditType>, e: nat, left: seq<string>, right: seq<string>)
    requires e <= |edits| && Aligned(edits, left, right)
    ensures LeftAt(edits, e) <= |left| && RightAt(edits, e) <= |right|
    decreases |edits| - e
  {
    if e < |edits| {
      LastPosition(edits, e + 1, left, right);
    }
  }

  /** Moves over matches keep both texts in step. */
  lemma {:induction false} AfterMatches(edits: seq<EditType>, e: nat, e': nat, left: seq<string>, right: seq<string>)
    requires e <= e' <= |edits| && Aligned(edits, left, right)
    requires LeftAt(edits, e) <= |left| && RightAt(edits, e) <= |right|
    requires forall m :: e <= m < e' ==> edits[m] == Match
    ensures LeftAt(edits, e') == LeftAt(edits, e) + (e' - e) <= |left|
    ensures RightAt(edits, e') == RightAt(edits, e) + (e' - e) <= |right|
    ensures left[LeftAt(edits, e)..LeftAt(edits, e')] == right[RightAt(edits, e)..RightAt(edits, e')]
    decreases e' - e
  {
    if e < e' {
      AlignedStep(edits, e' - 1, left, right);
      AfterMatches(edits, e, e' - 1, left, right);
      var l, r, l', r' := LeftAt(edits, e), RightAt(edits, e), LeftAt(edits, e' - 1), RightAt(edits, e' - 1);
      assert left[l..l' + 1] == left[l..l'] + [left[l']] && right[r..r' + 1] == right[r..r'] + [right[r']];
    }
  }

  lemma FarStep(edits: seq<EditType>, e: nat, context: nat)
    requires e < |edits|
    ensures edits[e] != Match && context > 0 ==> !FarFromEdit(edits, e, context)
    ensures edits[e] == Match && context > 0 && !FarFromEdit(edits, e, context) ==>
              !FarFromEdit(edits, e + 1, context - 1)
  {
  }

  /** An edit lies within `context` moves of move m. */
  ghost predicate NearEdit(edits: seq<EditType>, m: nat, context: nat) {
    exists d :: 0 <= d < |edits| && edits[d] != Match && m - context <= d <= m + context
  }

  /** The last n moves before e are matches, and an edit stands before them. */
  ghost predicate MatchesSince(edits: seq<EditType>, e: nat, n: nat) {
    && n < e <= |edits| && edits[e - n - 1] != Match
    && forall m :: e - n <= m < e ==> edits[m] == Match
  }

  function Taken(taken: bool, text: seq<string>, i: nat): seq<string>
    requires taken ==> i < |text|
  {
    if taken then [text[i]] else []
  }

  lemma SliceGrows(text: seq<string>, i0: nat, i: nat)
    requires i0 <= i < |text|
    ensures text[i0..i] + [text[i]] == text[i0..i + 1]
  {
  }

  lemma SliceStep(start: seq<string>, taken: bool, text: seq<string>, i0: nat, i: nat)
    requires i0 <= i <= |text| && (taken ==> i < |text|)
    ensures start + text[i0..i] + Taken(taken, text, i) == start + text[i0..if taken then i + 1 else i]
  {
    assert text[i0..i] + Taken(taken, text, i) == text[i0..if taken then i + 1 else i];
  }

  /** Pushes the lines of one edit. */
  method CopyEdit(edit: EditType, hunk: Hunk, left: seq<string>, right: seq<string>, l: nat, r: nat)
    requires hunk.Valid()
    requires (edit != Add ==> l < |left|) && (edit != Remove ==> r < |right|)
    requires edit == Match ==> left[l] == right[r]
    modifies hunk
    ensures hunk.Valid()
    ensures LeftText(hunk.Body()) == old(LeftText(hunk.Body())) + Taken(edit != Add, Shown(left), l)
    ensures RightText(hunk.Body()) == old(RightText(hunk.Body())) + Taken(edit != Remove, Shown(right), r)
    ensures hunk.HasEdits() <==> old(hunk.HasEdits()) || edit != Match
    ensures LeadingCommon(hunk.Body()) ==
              old(LeadingCommon(hunk.Body())) + if edit == Match && !old(hunk.HasEdits()) then 1 else 0
    ensures TrailingCommon(hunk.Body()) == if edit == Match then old(TrailingCommon(hunk.Body())) + 1 else 0
    ensures WidestGap(hunk.Body()) == old(if edit == Match then WidestGap(hunk.Body()) else GapWithEdit(hunk.Body()))
  {
    if edit == Match || edit == Remove || edit == Replace {
      hunk.PushLine(if edit == Match then ' ' else '-', CString(left[l], '\0'));
    }
    if edit == Add || edit == Replace {
      hunk.PushLine('+', CString(right[r], '\0'));
    }
  }

  /** A hunk may end here: enough unchanged lines follow its last edit, and the next edit, if any, is
      too far away to join. */
  method EnoughSuffix(edits: seq<EditType>, e: nat, nSuffix: nat, context: nat) returns (stop: bool)
    requires e < |edits|
    ensures stop <==> nSuffix >= context && FarFromEdit(edits, e, context)
  {
    if nSuffix < context { return false; }
    var it := NextEdit(edits, e);
    stop := it == |edits| || it - e >= context;
    assert it < |edits| ==> edits[it] != Match;
  }

  /** Beyond the context asked for, only matches that lead to a further edit are copied. */
  ghost predicate StillNear(edits: seq<EditType>, e: nat, nSuffix: nat, context: nat) {
    nSuffix > context ==> nSuffix < 2 * context && !FarFromEdit(edits, e, 2 * context - nSuffix)
  }

  /** Moves e0 to e are copied: the hunk has edits near all of them, the last one nSuffix matches ago. */
  ghost predicate Moved(edits: seq<EditType>, e0: nat, e: nat, nSuffix: nat, context: nat) {
    && e0 <= e <= |edits| && (e == e0 ==> nSuffix == 0)
    && (e > e0 ==> context > 0 && MatchesSince(edits, e, nSuffix))
    && StillNear(edits, e, nSuffix, context)
    && forall m :: e0 <= m < e ==> NearEdit(edits, m, context)
  }

  /** One more move, the hunk not having been stopped. */
  lemma MovedStep(edits: seq<EditType>, e0: nat, e: nat, nSuffix: nat, context: nat)
    requires Moved(edits, e0, e, nSuffix, context) && e < |edits| && (e == e0 ==> edits[e] != Match)
    requires !(nSuffix >= context && FarFromEdit(edits, e, context))
    ensures Moved(edits, e0, e + 1, if edits[e] == Match then nSuffix + 1 else 0, context)
    ensures edits[e] != Match ==> nSuffix < 2 * context
  {
    if edits[e] == Match {
      if nSuffix < context {
        assert edits[e - nSuffix - 1] != Match;
      } else {
        var d :| e <= d < |edits| && edits[d] != Match && d - e < context;
        FarStep(edits, e, 2 * context - nSuffix);
      }
    }
    assert NearEdit(edits, e, context);
  }

  /** The body starts as it was, and goes on with the lines from l0 to l and from r0 to r. */
  ghost predicate CopiedTo(body: seq<Line>, start: seq<Line>, left: seq<string>, right: seq<string>,
                           l0: nat, r0: nat, l: nat, r: nat)
  {
    && l0 <= l <= |left| && r0 <= r <= |right|
    && LeftText(body) == LeftText(start) + Shown(left)[l0..l]
    && RightText(body) == RightText(start) + Shown(right)[r0..r]
  }

  /** Copies one edit and moves on. */
  method CopyMove(edit: EditType, hunk: Hunk, ghost start: seq<Line>, left: seq<string>, right: seq<string>,
                  ghost l0: nat, ghost r0: nat, l: nat, r: nat)
    returns (l': nat, r': nat)
    requires hunk.Valid() && CopiedTo(hunk.Body(), start, left, right, l0, r0, l, r)
    requires (edit != Add ==> l < |left|) && (edit != Remove ==> r < |right|)
    requires edit == Match ==> left[l] == right[r]
    modifies hunk
    ensures l' == (if edit != Add then l + 1 else l) && r' == (if edit != Remove then r + 1 else r)
    ensures hunk.Valid() && CopiedTo(hunk.Body(), start, left, right, l0, r0, l', r')
    ensures hunk.HasEdits() <==> old(hunk.HasEdits()) || edit != Match
    ensures LeadingCommon(hunk.Body()) ==
              old(LeadingCommon(hunk.Body())) + if edit == Match && !old(hunk.HasEdits()) then 1 else 0
    ensures TrailingCommon(hunk.Body()) == if edit == Match then old(TrailingCommon(hunk.Body())) + 1 else 0
    ensures WidestGap(hunk.Body()) == old(if edit == Match then WidestGap(hunk.Body()) else GapWithEdit(hunk.Body()))
  {
    SliceStep(LeftText(start), edit != Add, Shown(left), l0, l);
    SliceStep(RightText(start), edit != Remove, Shown(right), r0, r);
    CopyEdit(edit, hunk, left, right, l, r);
    l' := if edit != Add then l + 1 else l;
    r' := if edit != Remove then r + 1 else r;
  }

  /** The body has edits once a move is copied, ends with nSuffix unchanged lines and has no wide gap. */
  ghost predicate Spaced(body: seq<Line>, prefix: nat, moved: bool, nSuffix: nat, context: nat) {
    && LeadingCommon(body) == prefix && (moved <==> prefix < |body|)
    && (moved ==> TrailingCommon(body) == nSuffix)
    && (context > 0 ==> WidestGap(body) < 2 * context)
  }

  /** What the copying keeps at move e. */
  ghost predicate FilledBody(edits: seq<EditType>, e: nat, body: seq<Line>, start: seq<Line>, left: seq<string>,
                             right: seq<string>, e0: nat, l0: nat, r0: nat, l: nat, r: nat, suffix: nat, context: nat)
  {
    && CopiedTo(body, start, left, right, l0, r0, l, r) && Moved(edits, e0, e, suffix, context)
    && Spaced(body, |start|, e > e0, suffix, context)
    && l == LeftAt(edits, e) && r == RightAt(edits, e) && suffix <= l && suffix <= r
  }

  ghost predicate Filled(edits: seq<EditType>, e: nat, hunk: Hunk, start: seq<Line>, left: seq<string>,
                         right: seq<string>, e0: nat, l0: nat, r0: nat, l: nat, r: nat, suffix: nat, context: nat)
    reads hunk
  {
    hunk.Valid() && FilledBody(edits, e, hunk.Body(), start, left, right, e0, l0, r0, l, r, suffix, context)
  }

  /** Copies the edit of move e unless the hunk may end before it. */
  method CopyNext(edits: seq<EditType>, e: nat, hunk: Hunk, ghost start: seq<Line>, left: seq<string>,
                  right: seq<string>, ghost e0: nat, ghost l0: nat, ghost r0: nat, l: nat, r: nat, suffix: nat,
                  context: nat)
    returns (stop: bool, e': nat, l': nat, r': nat, suffix': nat)
    requires Aligned(edits, left, right) && e < |edits| && (e == e0 ==> edits[e] != Match)
    requires Filled(edits, e, hunk, start, left, right, e0, l0, r0, l, r, suffix, context)
    modifies hunk
    ensures Filled(edits, e', hunk, start, left, right, e0, l0, r0, l', r', suffix', context)
    ensures stop ==> e' == e && suffix' >= context && FarFromEdit(edits, e, context)
    ensures !stop ==> e' == e + 1
  {
    stop := EnoughSuffix(edits, e, suffix, context);
    if stop {
      return stop, e, l, r, suffix;
    }
    AlignedStep(edits, e, left, right);
    MovedStep(edits, e0, e, suffix, context);
    l', r' := CopyMove(edits[e], hunk, start, left, right, l0, r0, l, r);
    suffix' := if edits[e] == Match then suffix + 1 else 0;
    e' := e + 1;
  }

  /** Where a hunk stops before the end of the script, exactly the context asked for ends it. */
  lemma StopsAtContext(edits: seq<EditType>, e0: nat, e: nat, nSuffix: nat, context: nat)
    requires e0 < |edits| && Moved(edits, e0, e, nSuffix, context)
    requires e < |edits| ==> nSuffix >= context && FarFromEdit(edits, e, context)
    requires edits[e0] != Match
    ensures nSuffix <= context && (e > e0 <==> context > 0)
    ensures e < |edits| ==> nSuffix == context
  {
  }

  lemma NothingCopied(hunk: Hunk, edits: seq<EditType>, e0: nat, left: seq<string>, right: seq<string>,
                      l0: nat, r0: nat, context: nat)
    requires hunk.Valid() && !hunk.HasEdits() && WidestGap(hunk.Body()) == 0
    requires e0 <= |edits| && l0 == LeftAt(edits, e0) <= |left| && r0 == RightAt(edits, e0) <= |right|
    ensures Filled(edits, e0, hunk, hunk.Body(), left, right, e0, l0, r0, l0, r0, 0, context)
  {
  }

  /** Copies edits into a hunk until enough unchanged lines follow and no further edit is near. */
  method FillHunk(edits: seq<EditType>, e0: nat, left: seq<string>, right: seq<string>, l0: nat, r0: nat,
                  context: nat, hunk: Hunk)
    returns (e: nat, l: nat, r: nat, ghost nSuffix: nat)
    requires Aligned(edits, left, right) && e0 <= |edits| && (e0 < |edits| ==> edits[e0] != Match)
    requires l0 == LeftAt(edits, e0) <= |left| && r0 == RightAt(edits, e0) <= |right|
    requires hunk.Valid() && !hunk.HasEdits() && WidestGap(hunk.Body()) == 0
    modifies hunk
    ensures Filled(edits, e, hunk, old(hunk.Body()), left, right, e0, l0, r0, l, r, nSuffix, context)
    ensures e < |edits| ==> nSuffix >= context && FarFromEdit(edits, e, context)
    ensures hunk.HasEdits() <==> e > e0
    ensures e > e0 <==> context > 0 && e0 < |edits|
  {
    e, l, r := e0, l0, r0;
    var suffix: nat := 0;
    ghost var start := hunk.Body();
    NothingCopied(hunk, edits, e0, left, right, l0, r0, context);
    while e < |edits|
      invariant e <= |edits| && Filled(edits, e, hunk, start, left, right, e0, l0, r0, l, r, suffix, context)
      decreases |edits| - e
    {
      var stop;
      stop, e, l, r, suffix := CopyNext(edits, e, hunk, start, left, right, e0, l0, r0, l, r, suffix, context);
      if stop { break; }
    }
    nSuffix := suffix;
    if e0 < |edits| { StopsAtContext(edits, e0, e, nSuffix, context); }
  }

  /** No edits yet, and this text on both sides. */
  ghost predicate OnlyContext(hunk: Hunk, text: seq<string>)
    reads hunk
  {
    && hunk.Valid() && !hunk.HasEdits() && WidestGap(hunk.Body()) == 0
    && LeftText(hunk.Body()) == RightText(hunk.Body()) == text
  }

  method PushContext(hunk: Hunk, line: string, ghost text: seq<string>)
    requires OnlyContext(hunk, text)
    modifies hunk
    ensures OnlyContext(hunk, text + [line])
  {
    hunk.PushLine(' ', line);
  }

  /** Starts a hunk with the `prefix` unchanged lines before (l, r). */
  method StartHunk(left: seq<string>, right: seq<string>, l: nat, r: nat, prefix: nat) returns (hunk: Hunk)
    requires prefix <= l <= |left| && prefix <= r <= |right|
    ensures fresh(hunk) && hunk.leftStart == l - prefix + 1 && hunk.rightStart == r - prefix + 1
    ensures OnlyContext(hunk, Shown(left)[l - prefix..l])
  {
    hunk := new Hunk(l - prefix + 1, r - prefix + 1);
    var i := prefix;
    ghost var text: seq<string> := [];
    assert OnlyContext(hunk, text);
    while i > 0
      invariant 0 <= i <= prefix && text == Shown(left)[l - prefix..l - i]
      invariant OnlyContext(hunk, text)
    {
      var line := CString(left[l - i], '\0');
      SliceGrows(Shown(left), l - prefix, l - i);
      PushContext(hunk, line, text);
      text, i := text + [line], i - 1;
    }
  }

  lemma DescribesOneMore(hunks: seq<PrintedHunk>, places: seq<Place>, h: PrintedHunk, p: Place,
                         left: seq<string>, right: seq<string>, context: nat)
    requires Describes(hunks, places, left, right, context)
    requires Placed(h, p, EndOf(hunks, places, |hunks|), left, right, context)
    ensures EndOf(hunks + [h], places + [p], |hunks| + 1) == After(p, h)
    ensures Describes(hunks + [h], places + [p], left, right, context)
  {
    var hs, ps := hunks + [h], places + [p];
    forall k | 0 <= k < |hs| ensures Placed(hs[k], ps[k], EndOf(hs, ps, k), left, right, context) {
      assert EndOf(hs, ps, k) == EndOf(hunks, places, k);
    }
  }

  function Min(a: nat, b: nat): nat { if a < b then a else b }

  /** Where the search for the next hunk may start: at the very beginning, or behind a hunk that was
      followed by enough unchanged lines. */
  ghost predicate AtBoundary(edits: seq<EditType>, e: nat, left: seq<string>, right: seq<string>,
                             l: nat, r: nat, context: nat)
  {
    && e <= |edits| && l == LeftAt(edits, e) <= |left| && r == RightAt(edits, e) <= |right|
    && (e == 0 || (e < |edits| ==> FarFromEdit(edits, e, context) && l >= context && r >= context))
  }

  /** The edit e0 at (l0, r0), with room for `prefix` equal lines before it. */
  ghost predicate AtEdit(edits: seq<EditType>, e0: nat, left: seq<string>, right: seq<string>,
                         l0: nat, r0: nat, context: nat, prefix: nat)
  {
    && e0 <= |edits| && (e0 < |edits| ==> edits[e0] != Match)
    && l0 == LeftAt(edits, e0) <= |left| && r0 == RightAt(edits, e0) <= |right|
    && prefix <= context && prefix <= l0 && prefix <= r0
    && (prefix < context ==> prefix == l0)
    && (e0 < |edits| ==>
         && prefix <= e0 && (prefix < context ==> prefix == e0)
         && l0 - prefix == LeftAt(edits, e0 - prefix) && r0 - prefix == RightAt(edits, e0 - prefix)
         && forall m :: e0 - prefix <= m < e0 ==> edits[m] == Match)
  }

  /** The next edit leaves room for its leading context behind the boundary. */
  lemma RoomForContext(edits: seq<EditType>, e: nat, e0: nat, left: seq<string>, right: seq<string>,
                       l: nat, r: nat, l0: nat, r0: nat, context: nat, prefix: nat)
    requires Aligned(edits, left, right) && e < |edits| && AtBoundary(edits, e, left, right, l, r, context)
    requires e <= e0 <= |edits| && forall m :: e <= m < e0 ==> edits[m] == Match
    requires e0 < |edits| ==> edits[e0] != Match
    requires l0 == l + (e0 - e) && r0 == r + (e0 - e) && prefix == Min(l0, context)
    ensures AtEdit(edits, e0, left, right, l0, r0, context, prefix)
    ensures e0 < |edits| ==> e <= e0 - prefix
  {
    AfterMatches(edits, e, e0, left, right);
    if e0 < |edits| {
      assert prefix <= e0 - e;
      AfterMatches(edits, e, e0 - prefix, left, right);
    }
  }

  /** The context before an edit is shown alike on both sides. */
  lemma ContextIsSame(edits: seq<EditType>, e0: nat, left: seq<string>, right: seq<string>, prefix: nat)
    requires Aligned(edits, left, right) && prefix <= e0 <= |edits|
    requires forall m :: e0 - prefix <= m < e0 ==> edits[m] == Match
    ensures var l0, r0 := LeftAt(edits, e0), RightAt(edits, e0);
      && prefix <= l0 <= |left| && prefix <= r0 <= |right|
      && Shown(left)[l0 - prefix..l0] == Shown(right)[r0 - prefix..r0]
  {
    var l, r, l0, r0 := LeftAt(edits, e0 - prefix), RightAt(edits, e0 - prefix), LeftAt(edits, e0), RightAt(edits, e0);
    assert l + prefix == l0 <= |left| && r + prefix == r0 <= |right| && left[l..l0] == right[r..r0] by {
      LastPosition(edits, e0 - prefix, left, right);
      AfterMatches(edits, e0 - prefix, e0, left, right);
    }
    ShownSlice(left, l, l0);
    ShownSlice(right, r, r0);
  }

  /** A hunk made of the context before an edit and the lines consumed after it fits both texts. */
  lemma PrintedFits(h: PrintedHunk, p: Place, p0: Place, p': Place, left: seq<string>, right: seq<string>)
    requires p.l <= p0.l <= p'.l <= |left| && p.r <= p0.r <= p'.r <= |right|
    requires left[p.l..p0.l] == right[p.r..p0.r] && (h.leftRange.Some? || h.rightRange.Some?)
    requires LeftText(h.lines) == left[p.l..p0.l] + left[p0.l..p'.l]
    requires RightText(h.lines) == left[p.l..p0.l] + right[p0.r..p'.r]
    requires WellPrinted(h, p.l + 1, p.r + 1)
    ensures Fits(h, p, left, right) && After(p, h) == p'
  {
    assert left[p.l..p0.l] + left[p0.l..p'.l] == left[p.l..p'.l];
    assert right[p.r..p0.r] + right[p0.r..p'.r] == right[p.r..p'.r];
  }

  // The moves that a hunk shows.
  datatype Span = Span(from: nat, to: nat)

  ghost predicate InSpan(spans: seq<Span>, m: nat) {
    exists k :: 0 <= k < |spans| && spans[k].from <= m < spans[k].to
  }

  /** Of the first e moves the spans show exactly those near an edit. */
  ghost predicate Covers(edits: seq<EditType>, spans: seq<Span>, e: nat, context: nat) {
    && e <= |edits|
    && (forall k :: 0 <= k < |spans| ==> spans[k].to <= e)
    && (forall m :: 0 <= m < e ==> (NearEdit(edits, m, context) <==> InSpan(spans, m)))
  }

  /** A hunk shows the lines of its span of moves. */
  ghost predicate SpanFits(edits: seq<EditType>, s: Span, h: PrintedHunk, p: Place) {
    && s.from <= s.to <= |edits|
    && p == Place(LeftAt(edits, s.from), RightAt(edits, s.from))
    && After(p, h) == Place(LeftAt(edits, s.to), RightAt(edits, s.to))
  }

  ghost predicate SpansFit(edits: seq<EditType>, spans: seq<Span>, hunks: seq<PrintedHunk>, places: seq<Place>) {
    && |spans| == |hunks| == |places|
    && forall k :: 0 <= k < |spans| ==> SpanFits(edits, spans[k], hunks[k], places[k])
  }

  /** Matches between the context of one hunk and that of the next edit are not near any edit. */
  lemma BetweenHunks(edits: seq<EditType>, e: nat, e0: nat, m: nat, context: nat)
    requires e <= m < e0 <= |edits| && (e0 < |edits| ==> m + context < e0)
    requires e > 0 ==> MatchesSince(edits, e, context)
    requires forall d :: e <= d < e0 ==> edits[d] == Match
    ensures !NearEdit(edits, m, context)
  {
  }

  lemma CoversNext(edits: seq<EditType>, spans: seq<Span>, e: nat, e0: nat, prefix: nat, e': nat, context: nat)
    requires Covers(edits, spans, e, context) && e <= e0 - prefix && e0 < e' <= |edits|
    requires e > 0 ==> MatchesSince(edits, e, context)
    requires prefix <= context && (prefix < context ==> prefix == e0)
    requires forall d :: e <= d < e0 ==> edits[d] == Match
    requires forall m :: e0 - prefix <= m < e' ==> NearEdit(edits, m, context)
    ensures Covers(edits, spans + [Span(e0 - prefix, e')], e', context)
  {
    var span := Span(e0 - prefix, e');
    var all := spans + [span];
    forall m | 0 <= m < e' ensures NearEdit(edits, m, context) <==> InSpan(all, m) {
      assert all[|spans|] == span;
      if m < e {
        assert forall k :: 0 <= k < |spans| ==> all[k] == spans[k];
      } else if m < e0 - prefix {
        BetweenHunks(edits, e, e0, m, context);
      }
    }
  }

  lemma CoversRest(edits: seq<EditType>, spans: seq<Span>, e: nat, context: nat)
    requires Covers(edits, spans, e, context)
    requires e > 0 ==> MatchesSince(edits, e, context)
    requires forall d :: e <= d < |edits| ==> edits[d] == Match
    ensures Covers(edits, spans, |edits|, context)
  {
    forall m | e <= m < |edits| ensures !NearEdit(edits, m, context) && !InSpan(spans, m) {
      BetweenHunks(edits, e, |edits|, m, context);
    }
  }

  lemma PrefixIsNear(edits: seq<EditType>, e0: nat, prefix: nat, context: nat)
    requires prefix <= context && prefix <= e0 < |edits| && edits[e0] != Match
    ensures forall m :: e0 - prefix <= m <= e0 ==> NearEdit(edits, m, context)
  {
  }

  /** A hunk that shows moves e0 - prefix to e, at p, and ends at (l, r). */
  ghost predicate Built(edits: seq<EditType>, e0: nat, e: nat, left: seq<string>, right: seq<string>, p: Place,
                        l: nat, r: nat, context: nat, prefix: nat, h: PrintedHunk)
  {
    && prefix <= e0 < e && AtBoundary(edits, e, left, right, l, r, context)
    && (e < |edits| ==> MatchesSince(edits, e, context))
    && Fits(h, p, Shown(left), Shown(right)) && After(p, h) == Place(l, r) && ShowsContext(h, p, left, context)
    && forall m :: e0 - prefix <= m < e ==> NearEdit(edits, m, context)
  }

  /** The hunk that was filled up to move e, printed, shows what it should. */
  lemma FilledIsBuilt(edits: seq<EditType>, e0: nat, e: nat, start: seq<Line>, left: seq<string>, right: seq<string>,
                      l0: nat, r0: nat, l: nat, r: nat, context: nat, prefix: nat, suffix: nat, h: PrintedHunk)
    requires Aligned(edits, left, right) && AtEdit(edits, e0, left, right, l0, r0, context, prefix)
    requires FilledBody(edits, e, h.lines, start, left, right, e0, l0, r0, l, r, suffix, context) && e0 < e
    requires e < |edits| ==> suffix >= context && FarFromEdit(edits, e, context)
    requires |start| == prefix && LeftText(start) == RightText(start) == Shown(left)[l0 - prefix..l0]
    requires WellPrinted(h, l0 - prefix + 1, r0 - prefix + 1) && (h.leftRange.Some? || h.rightRange.Some?)
    ensures Built(edits, e0, e, left, right, Place(l0 - prefix, r0 - prefix), l, r, context, prefix, h)
  {
    var p := Place(l0 - prefix, r0 - prefix);
    assert Fits(h, p, Shown(left), Shown(right)) && After(p, h) == Place(l, r) by {
      ContextIsSame(edits, e0, left, right, prefix);
      PrintedFits(h, p, Place(l0, r0), Place(l, r), Shown(left), Shown(right));
    }
    StopsAtContext(edits, e0, e, suffix, context);
    PrefixIsNear(edits, e0, prefix, context);
    if e == |edits| {
      assert l == |left|;
    }
  }

  /** Prints the hunk whose first edit is e0, with `prefix` unchanged lines before it. */
  method BuildHunk(edits: seq<EditType>, e0: nat, left: seq<string>, right: seq<string>, l0: nat, r0: nat,
                   context: nat, prefix: nat)
    returns (e: nat, l: nat, r: nat, printed: Option<PrintedHunk>)
    requires Aligned(edits, left, right) && AtEdit(edits, e0, left, right, l0, r0, context, prefix)
    ensures printed.Some? <==> context > 0 && e0 < |edits|
    ensures printed.Some? ==> Built(edits, e0, e, left, right, Place(l0 - prefix, r0 - prefix), l, r, context, prefix,
                                    printed.value)
  {
    var hunk := StartHunk(left, right, l0, r0, prefix);
    ghost var start := hunk.Body();
    ghost var suffix;
    e, l, r, suffix := FillHunk(edits, e0, left, right, l0, r0, context, hunk);
    printed := None;
    if hunk.HasEdits() {
      var h := hunk.PrintTo();
      FilledIsBuilt(edits, e0, e, start, left, right, l0, r0, l, r, context, prefix, suffix, h);
      printed := Some(h);
    }
  }

  /** What the loop over the hunks keeps at move e. */
  ghost predicate Progress(edits: seq<EditType>, e: nat, left: seq<string>, right: seq<string>, l: nat, r: nat,
                           hunks: seq<PrintedHunk>, places: seq<Place>, spans: seq<Span>, context: nat)
  {
    && AtBoundary(edits, e, left, right, l, r, context) && (0 < e < |edits| ==> MatchesSince(edits, e, context))
    && Describes(hunks, places, left, right, context) && EndOf(hunks, places, |hunks|) == Place(l, r)
    && SpansFit(edits, spans, hunks, places) && Covers(edits, spans, e, context)
  }

  /** Between (l, r) and the hunk built at edit e0 both texts are the same. */
  ghost predicate BuiltNext(edits: seq<EditType>, e: nat, left: seq<string>, right: seq<string>, l: nat, r: nat,
                            context: nat, e0: nat, e': nat, l': nat, r': nat, prefix: nat, h: PrintedHunk)
  {
    var l0, r0 := l + (e0 - e), r + (e0 - e);
    && e <= e0 - prefix && e0 < |edits| && prefix <= l0 && prefix <= r0
    && (forall m :: e <= m < e0 ==> edits[m] == Match)
    && AtEdit(edits, e0, left, right, l0, r0, context, prefix)
    && Built(edits, e0, e', left, right, Place(l0 - prefix, r0 - prefix), l', r', context, prefix, h)
  }

  /** One more hunk, from the context before edit e0 up to move e'. */
  lemma ProgressNext(edits: seq<EditType>, e: nat, left: seq<string>, right: seq<string>, l: nat, r: nat,
                     hunks: seq<PrintedHunk>, places: seq<Place>, spans: seq<Span>, context: nat,
                     e0: nat, e': nat, l': nat, r': nat, prefix: nat, h: PrintedHunk)
    requires Aligned(edits, left, right) && Progress(edits, e, left, right, l, r, hunks, places, spans, context)
    requires BuiltNext(edits, e, left, right, l, r, context, e0, e', l', r', prefix, h)
    ensures var p := Place(l + (e0 - e) - prefix, r + (e0 - e) - prefix);
      Progress(edits, e', left, right, l', r', hunks + [h], places + [p], spans + [Span(e0 - prefix, e')], context)
  {
    var p, span := Place(l + (e0 - e) - prefix, r + (e0 - e) - prefix), Span(e0 - prefix, e');
    assert Placed(h, p, Place(l, r), left, right, context) by {
      AfterMatches(edits, e, e0 - prefix, left, right);
    }
    assert EndOf(hunks + [h], places + [p], |hunks| + 1) == Place(l', r')
           && Describes(hunks + [h], places + [p], left, right, context) by {
      DescribesOneMore(hunks, places, h, p, left, right, context);
    }
    assert SpansFit(edits, spans + [span], hunks + [h], places + [p]) by {
      assert SpanFits(edits, span, h, p);
    }
    assert Covers(edits, spans + [span], e', context) by { CoversNext(edits, spans, e, e0, prefix, e', context); }
  }

  /** One pass of the outer loop: prints the next hunk, or finds that none follows. */
  method NextHunk(edits: seq<EditType>, e: nat, left: seq<string>, right: seq<string>, l: nat, r: nat, context: nat)
    returns (e': nat, l': nat, r': nat, printed: Option<PrintedHunk>, ghost e0: nat, ghost prefix: nat)
    requires Aligned(edits, left, right) && e < |edits| && AtBoundary(edits, e, left, right, l, r, context)
    ensures printed == None && context > 0 ==> forall m :: e <= m < |edits| ==> edits[m] == Match
    ensures printed.Some? ==> context > 0
    ensures printed.Some? ==>
      BuiltNext(edits, e, left, right, l, r, context, e0, e', l', r', prefix, printed.value)
  {
    var edit := NextEdit(edits, e);
    var l0, r0, before := l + (edit - e), r + (edit - e), Min(l + (edit - e), context);
    RoomForContext(edits, e, edit, left, right, l, r, l0, r0, context, before);
    e', l', r', printed := BuildHunk(edits, edit, left, right, l0, r0, context, before);
    e0, prefix := edit, before;
  }

  /** The hunks describe the whole texts and show exactly the moves near an edit. */
  ghost predicate Complete(edits: seq<EditType>, left: seq<string>, right: seq<string>, hunks: seq<PrintedHunk>,
                           places: seq<Place>, spans: seq<Span>, context: nat)
  {
    && Describes(hunks, places, left, right, context) && SpansFit(edits, spans, hunks, places)
    && (context > 0 ==>
         && SameGap(left, right, EndOf(hunks, places, |hunks|), Place(|left|, |right|))
         && Covers(edits, spans, |edits|, context))
  }

  lemma StartsEmpty(edits: seq<EditType>, left: seq<string>, right: seq<string>, context: nat)
    requires Aligned(edits, left, right)
    ensures Progress(edits, 0, left, right, 0, 0, [], [], [], context)
  {
    LastPosition(edits, 0, left, right);
  }

  lemma EndsComplete(edits: seq<EditType>, e: nat, left: seq<string>, right: seq<string>, l: nat, r: nat,
                     hunks: seq<PrintedHunk>, places: seq<Place>, spans: seq<Span>, context: nat)
    requires Aligned(edits, left, right) && Progress(edits, e, left, right, l, r, hunks, places, spans, context)
    requires context == 0 || forall m :: e <= m < |edits| ==> edits[m] == Match
    ensures Complete(edits, left, right, hunks, places, spans, context)
  {
    if context > 0 {
      AfterMatches(edits, e, |edits|, left, right);
      if e < |edits| { CoversRest(edits, spans, e, context); }
    }
  }

  method BuildHunks(left: seq<string>, right: seq<string>, context: nat)
    returns (hunks: seq<PrintedHunk>, ghost places: seq<Place>, ghost spans: seq<Span>)
    ensures Complete(OptimalEdits(left, right), left, right, hunks, places, spans, context)
    ensures context == 0 ==> hunks == []
  {
    var edits := CalculateOptimalEditsOfLines(left, right);
    OptimalEditsValid(left, right);
    AlignedFromAligns(edits, 0, left, right);
    StartsEmpty(edits, left, right, context);
    hunks, places, spans := [], [], [];
    var l: nat, r: nat, e: nat := 0, 0, 0;
    while e < |edits|
      invariant e <= |edits| && Progress(edits, e, left, right, l, r, hunks, places, spans, context)
      invariant context == 0 ==> hunks == []
      decreases |edits| - e
    {
      var e', l', r', printed, e0, prefix := NextHunk(edits, e, left, right, l, r, context);
      if printed == None { break; }
      ProgressNext(edits, e, left, right, l, r, hunks, places, spans, context, e0, e', l', r', prefix, printed.value);
      hunks, places := hunks + [printed.value], places + [Place(l + (e0 - e) - prefix, r + (e0 - e) - prefix)];
      spans := spans + [Span(e0 - prefix, e')];
      e, l, r := e', l', r';
    }
    EndsComplete(edits, e, left, right, l, r, hunks, places, spans, context);
  }

  // ---------- Applying a diff ----------

  function HunkStart(h: PrintedHunk, pos: nat, written: nat): int {
    match h.leftRange
    case Some(range) => range.start - 1
    case None => if h.rightRange.Some? then pos + h.rightRange.value.start - 1 - written else -1
  }

  predicate RangeAgrees(range: Option<Range>, start: nat, text: seq<string>) {
    range.Some? ==> range.value == Range(start + 1, |text|)
  }

  /** Applies printed hunks to `left` from position pos on, after `out` has been written. It sees only
      the headers and the lines, and refuses a hunk whose header or old lines do not fit. */
  function Apply(left: seq<string>, hunks: seq<PrintedHunk>, pos: nat, out: seq<string>): Option<seq<string>>
    requires pos <= |left|
  {
    if hunks == [] then Some(out + left[pos..])
    else
      var h := hunks[0];
      var start := HunkStart(h, pos, |out|);
      var oldText, newText := LeftText(h.lines), RightText(h.lines);
      if start < pos || start + |oldText| > |left| || left[start..start + |oldText|] != oldText then None
      else
        var copied := out + left[pos..start];
        if !RangeAgrees(h.leftRange, start, oldText) || !RangeAgrees(h.rightRange, |copied|, newText) then None
        else Apply(left, hunks[1..], start + |oldText|, copied + newText)
  }

  /** What has been written stays. */
  lemma {:induction false} ApplyKeepsWritten(left: seq<string>, hunks: seq<PrintedHunk>, pos: nat, out: seq<string>)
    requires pos <= |left| && Apply(left, hunks, pos, out).Some?
    ensures out <= Apply(left, hunks, pos, out).value
  {
    if hunks != [] {
      var h := hunks[0];
      var start := HunkStart(h, pos, |out|);
      ApplyKeepsWritten(left, hunks[1..], start + |LeftText(h.lines)|, out + left[pos..start] + RightText(h.lines));
    }
  }

  /** No line of the hunk, old or new, has a NUL. */
  ghost predicate HunkIsNulFree(h: PrintedHunk, p: Place, left: seq<string>, right: seq<string>) {
    var q := After(p, h);
    p.l <= q.l <= |left| && p.r <= q.r <= |right| && NulFree(left[p.l..q.l]) && NulFree(right[p.r..q.r])
  }

  ghost predicate AllNulFree(hunks: seq<PrintedHunk>, places: seq<Place>, left: seq<string>, right: seq<string>, k: nat)
    requires |places| == |hunks|
  {
    forall j :: k <= j < |hunks| ==> HunkIsNulFree(hunks[j], places[j], left, right)
  }

  /** Applying the hunks from k on, where the first k end, gives `right`. */
  ghost predicate AppliesAt(hunks: seq<PrintedHunk>, places: seq<Place>, left: seq<string>, right: seq<string>, k: nat)
    requires k <= |hunks| == |places|
  {
    var at := EndOf(hunks, places, k);
    at.l <= |left| && at.r <= |right| && Apply(left, hunks[k..], at.l, right[..at.r]) == Some(right)
  }

  lemma AppliesStep(hunks: seq<PrintedHunk>, places: seq<Place>, left: seq<string>, right: seq<string>,
                    context: nat, k: nat)
    requires Describes(hunks, places, left, right, context) && k < |hunks|
    ensures AppliesAt(hunks, places, left, right, k) <==>
              HunkIsNulFree(hunks[k], places[k], left, right) && AppliesAt(hunks, places, left, right, k + 1)
  {
    var at := EndOf(hunks, places, k);
    assert Placed(hunks[k], places[k], at, left, right, context);
    assert hunks[k..] == [hunks[k]] + hunks[k + 1..];
    HunkApplies(hunks[k], hunks[k + 1..], places[k], at, left, right, context);
  }

  /** The hunks from k on apply exactly when they show every line whole. */
  lemma {:induction false} AppliesFrom(hunks: seq<PrintedHunk>, places: seq<Place>, left: seq<string>,
                                       right: seq<string>, context: nat, k: nat)
    requires Describes(hunks, places, left, right, context) && k <= |hunks|
    requires SameGap(left, right, EndOf(hunks, places, |hunks|), Place(|left|, |right|))
    ensures AppliesAt(hunks, places, left, right, k) <==> AllNulFree(hunks, places, left, right, k)
    decreases |hunks| - k
  {
    if k == |hunks| {
      TailApplies(left, right, EndOf(hunks, places, k));
    } else {
      AppliesFrom(hunks, places, left, right, context, k + 1);
      AppliesStep(hunks, places, left, right, context, k);
      AllNulFreeStep(hunks, places, left, right, k);
    }
  }

  /** A placed hunk applies exactly when it shows every line whole. */
  lemma HunkApplies(h: PrintedHunk, rest: seq<PrintedHunk>, p: Place, at: Place, left: seq<string>,
                    right: seq<string>, context: nat)
    requires Placed(h, p, at, left, right, context)
    ensures var q := After(p, h);
      && q.l <= |left| && q.r <= |right|
      && (Apply(left, [h] + rest, at.l, right[..at.r]) == Some(right) <==>
           HunkIsNulFree(h, p, left, right) && Apply(left, rest, q.l, right[..q.r]) == Some(right))
  {
    if HunkIsNulFree(h, p, left, right) {
      ApplyStep(h, rest, p, at, left, right, context);
    } else if Apply(left, [h] + rest, at.l, right[..at.r]) == Some(right) {
      AppliesOnlyWhole(h, rest, p, at, left, right, context);
    }
  }

  lemma AllNulFreeStep(hunks: seq<PrintedHunk>, places: seq<Place>, left: seq<string>, right: seq<string>, k: nat)
    requires k < |hunks| == |places|
    ensures AllNulFree(hunks, places, left, right, k) <==>
              HunkIsNulFree(hunks[k], places[k], left, right) && AllNulFree(hunks, places, left, right, k + 1)
  {
  }

  lemma TailApplies(left: seq<string>, right: seq<string>, at: Place)
    requires SameGap(left, right, at, Place(|left|, |right|))
    ensures Apply(left, [], at.l, right[..at.r]) == Some(right)
  {
    assert left[at.l..] == left[at.l..|left|] && right[at.r..] == right[at.r..|right|];
    assert right[..at.r] + right[at.r..] == right;
  }

  /** The texts of a placed hunk are the lines at its place, as shown. */
  lemma PlacedTexts(h: PrintedHunk, p: Place, at: Place, left: seq<string>, right: seq<string>, context: nat)
    requires Placed(h, p, at, left, right, context)
    ensures var q := After(p, h);
      && p.l <= q.l <= |left| && p.r <= q.r <= |right|
      && LeftText(h.lines) == Shown(left[p.l..q.l]) && RightText(h.lines) == Shown(right[p.r..q.r])
  {
    ShownSlice(left, p.l, After(p, h).l);
    ShownSlice(right, p.r, After(p, h).r);
  }

  lemma ApplyStep(h: PrintedHunk, rest: seq<PrintedHunk>, p: Place, at: Place, left: seq<string>,
                  right: seq<string>, context: nat)
    requires Placed(h, p, at, left, right, context) && HunkIsNulFree(h, p, left, right)
    ensures var q := After(p, h);
      Apply(left, [h] + rest, at.l, right[..at.r]) == Apply(left, rest, q.l, right[..q.r])
  {
    var q := After(p, h);
    PlacedTexts(h, p, at, left, right, context);
    ShownWhole(left[p.l..q.l]);
    ShownWhole(right[p.r..q.r]);
    assert HunkStart(h, at.l, at.r) == p.l;
    assert right[..at.r] + left[at.l..p.l] == right[..p.r];
    assert right[..p.r] + RightText(h.lines) == right[..q.r];
    assert ([h] + rest)[1..] == rest;
  }

  lemma AppliesOnlyWhole(h: PrintedHunk, rest: seq<PrintedHunk>, p: Place, at: Place, left: seq<string>,
                         right: seq<string>, context: nat)
    requires Placed(h, p, at, left, right, context)
    requires Apply(left, [h] + rest, at.l, right[..at.r]) == Some(right)
    ensures HunkIsNulFree(h, p, left, right)
  {
    var q := After(p, h);
    PlacedTexts(h, p, at, left, right, context);
    assert HunkStart(h, at.l, at.r) == p.l;
    assert left[p.l..q.l] == Shown(left[p.l..q.l]);
    ShownWhole(left[p.l..q.l]);
    assert ([h] + rest)[1..] == rest;
    var written := right[..at.r] + left[at.l..p.l] + RightText(h.lines);
    ApplyKeepsWritten(left, rest, q.l, written);
    assert right[p.r..q.r] == written[p.r..q.r] == RightText(h.lines);
    ShownWhole(right[p.r..q.r]);
  }

  // ---------- Which lines matter ----------

  /** The lines that move m consumes have no NUL. */
  ghost predicate MoveIsNulFree(edits: seq<EditType>, m: nat, left: seq<string>, right: seq<string>)
    requires m < |edits|
  {
    && (edits[m] != Add ==> LeftAt(edits, m) < |left| && '\0' !in left[LeftAt(edits, m)])
    && (edits[m] != Remove ==> RightAt(edits, m) < |right| && '\0' !in right[RightAt(edits, m)])
  }

  /** No line within `context` moves of an edit has a NUL. */
  ghost predicate NulFreeNearEdits(edits: seq<EditType>, left: seq<string>, right: seq<string>, context: nat) {
    forall m :: 0 <= m < |edits| && NearEdit(edits, m, context) ==> MoveIsNulFree(edits, m, left, right)
  }

  ghost predicate MovesAreNulFree(edits: seq<EditType>, from: nat, to: nat, left: seq<string>, right: seq<string>)
    requires to <= |edits|
  {
    forall m :: from <= m < to ==> MoveIsNulFree(edits, m, left, right)
  }

  lemma {:induction false} SpanIsNulFree(edits: seq<EditType>, from: nat, to: nat, left: seq<string>,
                                         right: seq<string>)
    requires from <= to <= |edits| && Aligned(edits, left, right)
    ensures LeftAt(edits, from) <= LeftAt(edits, to) <= |left| && RightAt(edits, from) <= RightAt(edits, to) <= |right|
    ensures NulFree(left[LeftAt(edits, from)..LeftAt(edits, to)])
            && NulFree(right[RightAt(edits, from)..RightAt(edits, to)])
            <==> MovesAreNulFree(edits, from, to, left, right)
  {
    LastPosition(edits, from, left, right);
    if from < to {
      SpanIsNulFree(edits, from, to - 1, left, right);
      AlignedStep(edits, to - 1, left, right);
      NulFreeStep(left, LeftAt(edits, from), LeftAt(edits, to - 1), LeftAt(edits, to));
      NulFreeStep(right, RightAt(edits, from), RightAt(edits, to - 1), RightAt(edits, to));
      assert MovesAreNulFree(edits, from, to, left, right) <==>
        MovesAreNulFree(edits, from, to - 1, left, right) && MoveIsNulFree(edits, to - 1, left, right);
    }
  }

  lemma NulFreeStep(text: seq<string>, i0: nat, i: nat, i': nat)
    requires i0 <= i <= i' <= |text| && i' <= i + 1
    ensures NulFree(text[i0..i']) <==> NulFree(text[i0..i]) && (i < i' ==> '\0' !in text[i])
  {
    if i < i' {
      var longer := text[i0..i'];
      assert longer == text[i0..i] + [text[i]] && longer[i - i0] == text[i];
      assert forall j :: 0 <= j < i - i0 ==> longer[j] == text[i0..i][j];
    }
  }

  /** The hunks show exactly the lines near edits. */
  lemma ShownAreNearEdits(edits: seq<EditType>, spans: seq<Span>, hunks: seq<PrintedHunk>, places: seq<Place>,
                          left: seq<string>, right: seq<string>, context: nat)
    requires Aligned(edits, left, right) && SpansFit(edits, spans, hunks, places)
    requires Covers(edits, spans, |edits|, context)
    ensures AllNulFree(hunks, places, left, right, 0) <==> NulFreeNearEdits(edits, left, right, context)
  {
    forall k | 0 <= k < |hunks|
      ensures HunkIsNulFree(hunks[k], places[k], left, right) <==>
                MovesAreNulFree(edits, spans[k].from, spans[k].to, left, right)
    {
      assert SpanFits(edits, spans[k], hunks[k], places[k]);
      SpanIsNulFree(edits, spans[k].from, spans[k].to, left, right);
    }
    if AllNulFree(hunks, places, left, right, 0) {
      forall m | 0 <= m < |edits| && NearEdit(edits, m, context) ensures MoveIsNulFree(edits, m, left, right) {
        assert InSpan(spans, m);
      }
    }
    if NulFreeNearEdits(edits, left, right, context) {
      forall k | 0 <= k < |hunks| ensures MovesAreNulFree(edits, spans[k].from, spans[k].to, left, right) {
        assert SpanFits(edits, spans[k], hunks[k], places[k]);
        assert forall m :: spans[k].from <= m < spans[k].to ==> InSpan(spans, m);
      }
    }
  }

  /** When the diff of two texts, applied to `left`, gives `right`. */
  ghost predicate DiffApplies(left: seq<string>, right: seq<string>, context: nat) {
    if context == 0 then left == right else NulFreeNearEdits(OptimalEdits(left, right), left, right, context)
  }

  /** Texts without NUL have a diff that applies. */
  lemma NulFreeApplies(left: seq<string>, right: seq<string>, context: nat)
    requires NulFree(left) && NulFree(right) && context > 0
    ensures DiffApplies(left, right, context)
  {
    var edits := OptimalEdits(left, right);
    OptimalEditsValid(left, right);
    AlignedFromAligns(edits, 0, left, right);
    forall m | 0 <= m < |edits| ensures MoveIsNulFree(edits, m, left, right) {
      AlignedStep(edits, m, left, right);
    }
  }

  /** Lines that differ only behind a NUL are printed alike, and the diff does not apply. */
  lemma NulIsLost()
    ensures !DiffApplies(["a\0b"], ["a\0c"], 1)
    ensures Shown(["a\0b"]) == Shown(["a\0c"])
  {
    var left, right := ["a\0b"], ["a\0c"];
    var edits := OptimalEdits(left, right);
    OptimalEditsValid(left, right);
    AlignedFromAligns(edits, 0, left, right);
    assert left[0][2] != right[0][2];
    assert edits != [];
    AlignedStep(edits, 0, left, right);
    assert left[0][1] == right[0][1] == '\0';
    assert edits[0] != Match;
    assert NearEdit(edits, 0, 1);
    assert CString("a\0b", '\0') == CString("a\0c", '\0') by {
      CStringIsPrefix("a\0b", '\0', 1);
      CStringIsPrefix("a\0c", '\0', 1);
    }
  }

  /** The unified diff of two texts: its hunks fit both texts in order, with the context asked for, and
      applying what is printed to `left` gives `right` exactly when no line near an edit has a NUL. Without
      context no hunk is printed at all, which is right for equal texts only. */
  method CreateUnifiedDiff(left: seq<string>, right: seq<string>, context: nat)
    returns (hunks: seq<PrintedHunk>)
    ensures exists places :: Describes(hunks, places, left, right, context)
    ensures Apply(left, hunks, 0, []) == Some(right) <==> DiffApplies(left, right, context)
    ensures context == 0 ==> hunks == []
  {
    ghost var places, spans;
    hunks, places, spans := BuildHunks(left, right, context);
    assert left[0..] == left && [] + left == left;
    if context > 0 {
      AppliesFrom(hunks, places, left, right, context, 0);
      assert hunks[0..] == hunks && right[..0] == [];
      ghost var edits := OptimalEdits(left, right);
      OptimalEditsValid(left, right);
      AlignedFromAligns(edits, 0, left, right);
      ShownAreNearEdits(edits, spans, hunks, places, left, right, context);
    }
  }
}

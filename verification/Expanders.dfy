/** tools/gigantick/diff.go: where the display offers to expand hidden rows. */
module Expanders {
  import opened Spans
  import opened Display

  /** Rows x and x + 1 belong to one span. */
  ghost predicate Joined(spans: seq<Span>, x: int) {
    exists i :: 0 <= i < |spans| && spans[i].start <= x < spans[i].end
  }

  /** Rows x and x + 1 are both near, within five rows of, one and the same range. */
  ghost predicate JoinedByRange(ranges: seq<Span>, x: int) {
    0 <= x && exists i :: 0 <= i < |ranges| && ranges[i].start - 5 <= x < ranges[i].end + 5
  }

  /** A row is where it belongs, joined saying which rows belong together with the next one. An
      expander stands before the first code row and offers the row above it, or between two
      code rows that do not belong together and offers the row below the upper one. Two code
      rows follow each other only if they are next to each other and belong together, and the
      first code row has nothing hidden above it unless an expander says so. */
  ghost predicate RowFits(rows: seq<DisplayLine>, joined: int -> bool, k: nat)
    requires k < |rows|
  {
    && (rows[k].kind == Code || rows[k].kind == Expander)
    && (rows[k].kind == Code ==>
      && (k == 0 ==> rows[k].subIndex == 1)
      && (k > 0 && rows[k - 1].kind == Code ==>
            rows[k].subIndex == rows[k - 1].subIndex + 1 && joined(rows[k - 1].subIndex)))
    && (rows[k].kind == Expander ==>
      && k + 1 < |rows| && rows[k + 1].kind == Code
      && (k == 0 ==> rows[k].subIndex == rows[k + 1].subIndex - 1 >= 1)
      && (k > 0 ==>
        && rows[k - 1].kind == Code && rows[k - 1].subIndex < rows[k + 1].subIndex
        && rows[k].subIndex == rows[k - 1].subIndex + 1
        && !(rows[k + 1].subIndex == rows[k - 1].subIndex + 1 && joined(rows[k - 1].subIndex))))
  }

  /** The expanders are exactly where rows are left out or belong to different changes. */
  ghost predicate Expandable(rows: seq<DisplayLine>, joined: int -> bool) {
    forall k :: 0 <= k < |rows| ==> RowFits(rows, joined, k)
  }

  ghost function JoinedIn(spans: seq<Span>): int -> bool {
    x => Joined(spans, x)
  }

  ghost function JoinedNear(ranges: seq<Span>): int -> bool {
    x => JoinedByRange(ranges, x)
  }

  // ----- Spans belong together as their ranges do -----

  lemma JoinedSnoc(spans: seq<Span>, s: Span, x: int)
    ensures Joined(spans + [s], x) <==> Joined(spans, x) || s.start <= x < s.end
  {
    if Joined(spans, x) {
      var i :| 0 <= i < |spans| && spans[i].start <= x < spans[i].end;
      assert (spans + [s])[i] == spans[i];
    }
    if s.start <= x < s.end {
      assert (spans + [s])[|spans|] == s;
    }
  }

  lemma JoinedRangeSnoc(ranges: seq<Span>, r: Span, x: int)
    ensures JoinedByRange(ranges + [r], x) <==>
      JoinedByRange(ranges, x) || (0 <= x && r.start - 5 <= x < r.end + 5)
  {
    if JoinedByRange(ranges, x) {
      var i :| 0 <= i < |ranges| && 0 <= x && ranges[i].start - 5 <= x < ranges[i].end + 5;
      assert (ranges + [r])[i] == ranges[i];
    }
    if 0 <= x && r.start - 5 <= x < r.end + 5 {
      assert (ranges + [r])[|ranges|] == r;
    }
  }

  lemma JoinedMerged(spans: seq<Span>, w: Span, x: int)
    requires spans != [] && w.start <= w.end
    requires var last := spans[|spans| - 1]; last.start <= w.start <= last.end <= w.end
    ensures Joined(spans[|spans| - 1 := Merged(spans[|spans| - 1], w)], x) <==> Joined(spans, x) || w.start <= x < w.end
  {
    hide Joined;
    var m := |spans| - 1;
    assert spans == spans[..m] + [spans[m]];
    assert spans[m := Merged(spans[m], w)] == spans[..m] + [Merged(spans[m], w)];
    JoinedSnoc(spans[..m], spans[m], x);
    JoinedSnoc(spans[..m], Merged(spans[m], w), x);
  }

  /** The last range is merged into the span before it, or starts a new one. */
  lemma LastPlaced(ranges: seq<Span>)
    requires NonDecreasing(ranges) && ranges != []
    ensures var n := |ranges| - 1;
      var before, w := InsertAll(ranges[..n]), Widened(ranges[n].start, ranges[n].end);
      && w.start <= w.end
      && (before != [] ==> before[|before| - 1].start <= w.start && before[|before| - 1].end <= w.end)
      && InsertAll(ranges) ==
           if before != [] && w.start <= before[|before| - 1].end
           then before[|before| - 1 := Merged(before[|before| - 1], w)] else before + [w]
  {
    var n := |ranges| - 1;
    assert NonDecreasing(ranges[..n]) && ranges[n].start <= ranges[n].end;
    hide InsertAll, Placed, Disjoint, Consistent, NonDecreasing, Merged;
    SpansSorted(ranges[..n]);
    NextPlaced(ranges);
  }

  lemma JoinedPlaced(ranges: seq<Span>, x: int)
    requires NonDecreasing(ranges) && ranges != []
    ensures var n := |ranges| - 1;
      var w := Widened(ranges[n].start, ranges[n].end);
      Joined(InsertAll(ranges), x) <==> Joined(InsertAll(ranges[..n]), x) || w.start <= x < w.end
  {
    hide Joined, InsertAll, NonDecreasing, Merged, Widened;
    var n := |ranges| - 1;
    var before, w := InsertAll(ranges[..n]), Widened(ranges[n].start, ranges[n].end);
    LastPlaced(ranges);
    if before != [] && w.start <= before[|before| - 1].end {
      JoinedMerged(before, w, x);
    } else {
      JoinedSnoc(before, w, x);
    }
  }

  lemma {:induction false} JoinedAsRanges(ranges: seq<Span>, x: int)
    requires NonDecreasing(ranges)
    ensures Joined(InsertAll(ranges), x) <==> JoinedByRange(ranges, x)
  {
    hide Joined, JoinedByRange, Placed;
    if ranges == [] {
      assert !Joined(InsertAll(ranges), x) && !JoinedByRange(ranges, x) by { NoneJoined(x); }
    } else {
      var n := |ranges| - 1;
      JoinedAsRanges(ranges[..n], x);
      JoinedPlaced(ranges, x);
      hide InsertAll;
      assert ranges == ranges[..n] + [ranges[n]];
      JoinedRangeSnoc(ranges[..n], ranges[n], x);
    }
  }

  lemma NoneJoined(x: int)
    ensures !Joined([], x) && !JoinedByRange([], x)
  {
  }

  // ----- The rows of one span -----

  function Most(a: int, b: int): int {
    if a < b then b else a
  }

  function Least(a: int, b: int): int {
    if a < b then a else b
  }

  lemma {:induction false} CodeRowsExactly(lo: int, hi: int, count: int)
    ensures var first, last := Most(lo, 1), Least(hi, count - 1);
      && |CodeRows(lo, hi, count)| == Most(last - first + 1, 0)
      && forall k :: 0 <= k < |CodeRows(lo, hi, count)| ==>
        CodeRows(lo, hi, count)[k] == DisplayLine(Code, first + k, "")
    decreases hi - lo
  {
    if lo <= hi { CodeRowsExactly(lo, hi - 1, count); }
  }

  // ----- Span by span -----

  /** What is left out behind the spans so far stands behind an expander. */
  ghost predicate EndFits(rows: seq<DisplayLine>, end: int, count: int) {
    && |rows| > 0
    && (end >= count ==> rows[|rows| - 1].kind == Code)
    && (end < count ==>
         |rows| > 1 && rows[|rows| - 1] == DisplayLine(Expander, end + 1, "")
           && rows[|rows| - 2] == DisplayLine(Code, end, ""))
  }

  /** All rows fit but the expander at the end, if there is one, and none is past the end. */
  ghost predicate Partly(rows: seq<DisplayLine>, joined: int -> bool, end: int, count: int) {
    && EndFits(rows, end, count)
    && (forall k :: 0 <= k < |rows| && rows[k].kind == Code ==> rows[k].subIndex <= end)
    && forall k :: 0 <= k < |rows| - (if end < count then 1 else 0) ==> RowFits(rows, joined, k)
  }

  /** Every span has a row of its own, and starts low enough to be followed by more. */
  ghost predicate Roomy(spans: seq<Span>, count: int) {
    && Disjoint(spans)
    && (forall i :: 0 <= i < |spans| ==> spans[i].start == 0 || 0 < spans[i].start <= count - CONTEXT)
    && (forall i :: 0 <= i < |spans| ==> spans[i].end >= 1)
  }

  lemma FirstSpan(s: Span, count: int)
    requires Roomy([s], count) && count > 1
    ensures Partly(LaidOut([s], count), JoinedIn([s]), s.end, count)
  {
    var code := CodeRows(s.start, s.end, count);
    var top := if s.start > 1 then [DisplayLine(Expander, s.start - 1, "")] else [];
    var tail := if s.end < count then [DisplayLine(Expander, s.end + 1, "")] else [];
    assert [s][..0] == [] && [s][0] == s && 0 <= s.start <= s.end && 1 <= s.end;
    CodeRowsExactly(s.start, s.end, count);
    LaidOutSnoc([s], count);
    NothingLaidOut(count);
    hide CodeRows, LaidOut, Disjoint, Joined, Roomy;
    assert LaidOut([s], count) == top + code + tail;
    FirstFits(top, code, tail, s, count);
  }

  lemma FirstFits(top: seq<DisplayLine>, code: seq<DisplayLine>, tail: seq<DisplayLine>, s: Span, count: int)
    requires 0 <= s.start <= s.end && 1 <= s.end && s.start < count && count > 1
    requires top == if s.start > 1 then [DisplayLine(Expander, s.start - 1, "")] else []
    requires |code| == Least(s.end, count - 1) - Most(s.start, 1) + 1
    requires forall h :: 0 <= h < |code| ==> code[h] == DisplayLine(Code, Most(s.start, 1) + h, "")
    requires tail == if s.end < count then [DisplayLine(Expander, s.end + 1, "")] else []
    ensures Partly(top + code + tail, JoinedIn([s]), s.end, count)
  {
    hide RowFits;
    var rows := top + code + tail;
    forall k: nat | k < |top| + |code|
      ensures RowFits(rows, JoinedIn([s]), k)
    {
      FirstRowFits(top, code, tail, s, k);
    }
  }

  lemma FirstRowFits(top: seq<DisplayLine>, code: seq<DisplayLine>, tail: seq<DisplayLine>, s: Span, k: nat)
    requires 0 <= s.start <= s.end && code != [] && k < |top| + |code|
    requires top == if s.start > 1 then [DisplayLine(Expander, s.start - 1, "")] else []
    requires forall h :: 0 <= h < |code| ==> code[h] == DisplayLine(Code, Most(s.start, 1) + h, "")
    requires Most(s.start, 1) + |code| - 1 <= s.end
    ensures RowFits(top + code + tail, JoinedIn([s]), k)
  {
    hide Joined;
    if k > |top| {
      JoinedSnoc([], s, code[k - 1 - |top|].subIndex);
      assert [] + [s] == [s];
    }
  }

  /** A row fits as before when rows are added behind it and its neighbour. */
  lemma FitsBefore(rows: seq<DisplayLine>, more: seq<DisplayLine>, spans: seq<Span>, s: Span, k: nat)
    requires k < |rows| && RowFits(rows, JoinedIn(spans), k)
    requires rows[k].kind == Expander && k > 0 ==> rows[k - 1].subIndex < s.start
    ensures RowFits(rows + more, JoinedIn(spans + [s]), k)
  {
    hide Joined;
    if k > 0 { JoinedSnoc(spans, s, rows[k - 1].subIndex); }
  }

  /** Nothing joins the end of the last span to what follows. */
  lemma EndsApart(spans: seq<Span>, s: Span)
    requires Disjoint(spans + [s]) && spans != []
    ensures !Joined(spans + [s], spans[|spans| - 1].end)
  {
    var all, n := spans + [s], |spans| - 1;
    forall i | 0 <= i < |all|
      ensures !(all[i].start <= spans[n].end < all[i].end)
    {
      assert all[n] == spans[n];
      if i < n { assert all[i].end < all[n].start; }
      if i > n { assert all[n].end < all[i].start; }
    }
  }

  /** The rows of a span fit behind the expander that ends the rows before it. */
  lemma CodeFits(before: seq<DisplayLine>, code: seq<DisplayLine>, tail: seq<DisplayLine>, spans: seq<Span>, s: Span,
                 count: int, k: nat)
    requires before != [] && before[|before| - 1].kind == Expander && |before| <= k < |before| + |code|
    requires 1 <= s.start
    requires forall h :: 0 <= h < |code| ==> code[h] == DisplayLine(Code, s.start + h, "") && s.start + h <= s.end
    ensures RowFits(before + code + tail, JoinedIn(spans + [s]), k)
  {
    hide Joined;
    var rows := before + code + tail;
    assert rows[k] == code[k - |before|];
    if k > |before| {
      assert rows[k - 1] == code[k - 1 - |before|];
      JoinedSnoc(spans, s, rows[k - 1].subIndex);
    } else {
      assert rows[k - 1] == before[|before| - 1];
    }
  }

  lemma GapFits(before: seq<DisplayLine>, code: seq<DisplayLine>, tail: seq<DisplayLine>, spans: seq<Span>, s: Span,
    end: int)
    requires |before| > 1 && code != []
    requires before[|before| - 1] == DisplayLine(Expander, end + 1, "")
      && before[|before| - 2] == DisplayLine(Code, end, "")
    requires code[0] == DisplayLine(Code, s.start, "") && end < s.start && !Joined(spans + [s], end)
    ensures RowFits(before + code + tail, JoinedIn(spans + [s]), |before| - 1)
  {
    hide Joined;
  }

  lemma NextSpan(spans: seq<Span>, s: Span, count: int)
    requires spans != [] && Roomy(spans + [s], count)
    requires Partly(LaidOut(spans, count), JoinedIn(spans), spans[|spans| - 1].end, count)
    ensures Partly(LaidOut(spans + [s], count), JoinedIn(spans + [s]), s.end, count)
  {
    var all, n := spans + [s], |spans| - 1;
    var end, before, code := spans[n].end, LaidOut(spans, count), CodeRows(s.start, s.end, count);
    assert all[..|spans|] == spans && all[n] == spans[n] && all[n + 1] == s;
    assert 1 <= end < s.start <= s.end && s.start <= count - CONTEXT;
    EndsApart(spans, s);
    CodeRowsExactly(s.start, s.end, count);
    LaidOutSnoc(all, count);
    var tail := if s.end < count then [DisplayLine(Expander, s.end + 1, "")] else [];
    hide CodeRows, LaidOut, Joined, Roomy, Disjoint;
    assert LaidOut(all, count) == before + code + tail;
    NextFits(before, code, tail, spans, s, end, count);
  }

  lemma NextFits(before: seq<DisplayLine>, code: seq<DisplayLine>, tail: seq<DisplayLine>, spans: seq<Span>, s: Span,
                 end: int, count: int)
    requires 1 <= end < s.start <= s.end && s.start < count && !Joined(spans + [s], end)
    requires Partly(before, JoinedIn(spans), end, count)
    requires |code| == Least(s.end, count - 1) - s.start + 1
    requires forall h :: 0 <= h < |code| ==> code[h] == DisplayLine(Code, s.start + h, "")
    requires tail == if s.end < count then [DisplayLine(Expander, s.end + 1, "")] else []
    ensures Partly(before + code + tail, JoinedIn(spans + [s]), s.end, count)
  {
    hide Joined, RowFits;
    var rows := before + code + tail;
    forall k: nat | k < |before| + |code|
      ensures RowFits(rows, JoinedIn(spans + [s]), k)
    {
      if k < |before| - 1 {
        assert before[k].kind == Expander && k > 0 ==>
          before[k - 1].subIndex < s.start by { UpperBefore(before, spans, k, end); }
        FitsBefore(before, code + tail, spans, s, k);
        assert before + (code + tail) == rows;
      } else if k == |before| - 1 {
        GapFits(before, code, tail, spans, s, end);
      } else {
        CodeFits(before, code, tail, spans, s, count, k);
      }
    }
  }

  lemma UpperBefore(before: seq<DisplayLine>, spans: seq<Span>, k: nat, end: int)
    requires k < |before| && RowFits(before, JoinedIn(spans), k)
    requires forall h :: 0 <= h < |before| && before[h].kind == Code ==> before[h].subIndex <= end
    ensures before[k].kind == Expander && k > 0 ==> before[k - 1].subIndex <= end
  {
    hide Joined;
  }

  lemma {:induction false} LaidOutPartly(spans: seq<Span>, count: int)
    requires spans != [] && Roomy(spans, count) && count > 1
    ensures Partly(LaidOut(spans, count), JoinedIn(spans), spans[|spans| - 1].end, count)
  {
    var n := |spans| - 1;
    if n == 0 {
      assert spans == [spans[0]];
      FirstSpan(spans[0], count);
    } else {
      assert spans == spans[..n] + [spans[n]];
      assert Roomy(spans[..n], count);
      hide Roomy, Partly, LaidOut;
      LaidOutPartly(spans[..n], count);
      NextSpan(spans[..n], spans[n], count);
    }
  }

  // ----- The whole display -----

  /** Without a row but the header nothing is laid out. */
  lemma NoRoom(spans: seq<Span>, count: int)
    requires Roomy(spans, count) && count <= 1 && spans != [] && spans[|spans| - 1].end >= count
    ensures LaidOut(spans, count) == []
  {
    var s := spans[0];
    assert forall i :: 0 <= i < |spans| ==> spans[i].start == 0 && 0 < spans[i].end;
    assert |spans| == 1;
    assert spans == [s] && spans[..0] == [];
    CodeRowsExactly(s.start, s.end, count);
    LaidOutSnoc(spans, count);
    NothingLaidOut(count);
  }

  /** What is laid out for spans that reach the end of the columns offers exactly what it hides. */
  lemma LaidOutExpandable(spans: seq<Span>, count: int)
    requires Roomy(spans, count) && (spans != [] ==> spans[|spans| - 1].end >= count)
    ensures Expandable(LaidOut(spans, count), JoinedIn(spans))
  {
    if spans != [] && count > 1 {
      hide Roomy, LaidOut;
      LaidOutPartly(spans, count);
    } else if spans != [] {
      NoRoom(spans, count);
    }
  }

  lemma {:induction false} EndsReach(ranges: seq<Span>)
    requires NonDecreasing(ranges)
    ensures forall i :: 0 <= i < |InsertAll(ranges)| ==> InsertAll(ranges)[i].end >= 1
  {
    if ranges != [] {
      var n := |ranges| - 1;
      EndsReach(ranges[..n]);
      SpansSorted(ranges[..n]);
      NextPlaced(ranges);
      hide InsertAll, Placed;
    }
  }

  lemma SameJoins(rows: seq<DisplayLine>, a: int -> bool, b: int -> bool)
    requires Expandable(rows, a) && forall x :: a(x) == b(x)
    ensures Expandable(rows, b)
  {
    forall k | 0 <= k < |rows|
      ensures RowFits(rows, b, k)
    {
      assert RowFits(rows, a, k);
    }
  }

  /** For ranges that do not go backwards: rows x and x + 1 belong together exactly if one range
      is near both, and the display offers exactly what it hides. */
  lemma RangesExpandable(ranges: seq<Span>, count: int)
    requires NonDecreasing(ranges) && Fitting(InsertAll(ranges), count)
    ensures Expandable(LaidOut(InsertAll(ranges), count), JoinedNear(ranges))
  {
    var spans := InsertAll(ranges);
    EndsReach(ranges);
    if ranges == [] {
      assert LaidOut(spans, count) == [];
    } else {
      hide InsertAll, LaidOut;
      LaidOutExpandable(spans, count);
      forall x
        ensures JoinedIn(spans)(x) == JoinedNear(ranges)(x)
      {
        JoinedAsRanges(ranges, x);
      }
      SameJoins(LaidOut(spans, count), JoinedIn(spans), JoinedNear(ranges));
    }
  }

  // ----- In terms of the code rows -----

  /** Two code rows with at most an expander between them: there is one exactly if rows are left
      out between them, or if they belong to different changes; it offers the row below the
      upper one. */
  lemma ExpanderIff(rows: seq<DisplayLine>, joined: int -> bool, k: nat)
    requires Expandable(rows, joined) && k + 1 < |rows| && rows[k].kind == Code
    ensures rows[k + 1].kind == Expander ==>
      k + 2 < |rows| && rows[k + 2].kind == Code && rows[k + 1].subIndex == rows[k].subIndex + 1
      && (rows[k + 2].subIndex > rows[k].subIndex + 1 || !joined(rows[k].subIndex))
    ensures rows[k + 1].kind == Code ==> rows[k + 1].subIndex == rows[k].subIndex + 1 && joined(rows[k].subIndex)
  {
    assert RowFits(rows, joined, k + 1);
  }

  /** The first row is row 1, or an expander that offers the row above the first code row. */
  lemma FirstExpanderIff(rows: seq<DisplayLine>, joined: int -> bool)
    requires Expandable(rows, joined) && rows != []
    ensures rows[0].kind == Code ==> rows[0].subIndex == 1
    ensures rows[0].kind == Expander ==>
      |rows| > 1 && rows[1].kind == Code && rows[1].subIndex > 1 && rows[0].subIndex == rows[1].subIndex - 1
  {
    assert RowFits(rows, joined, 0);
  }

  /** An expander may have nothing to expand: the two ranges leave no row between their
      contexts, and still an expander stands between rows 15 and 16, offering row 16. */
  lemma ExpanderForNothing()
    ensures var rows := LaidOut(InsertAll([Span(10, 10), Span(21, 21)]), 22);
      |rows| > 13 && rows[11] == DisplayLine(Code, 15, "") && rows[12] == DisplayLine(Expander, 16, "")
      && rows[13] == DisplayLine(Code, 16, "")
  {
    hide *;
    TwoRanges();
    ExpandedPair();
  }

  lemma TwoRanges()
    ensures InsertAll([Span(10, 10), Span(21, 21)]) == [Span(5, 15), Span(16, 26)]
  {
    var a, b := Span(10, 10), Span(21, 21);
    assert [a][..0] == [] && [a, b][..1] == [a] && [a, b][1] == b;
    assert InsertAll([a]) == [Span(5, 15)];
    assert InsertAll([a, b]) == Placed(InsertAll([a]), 0, Span(16, 26));
    hide InsertAll;
    PlacedAtEnd([Span(5, 15)], 0, Span(16, 26));
  }

  lemma ExpandedPair()
    ensures var rows := LaidOut([Span(5, 15), Span(16, 26)], 22);
      |rows| > 13 && rows[11] == DisplayLine(Code, 15, "") && rows[12] == DisplayLine(Expander, 16, "")
      && rows[13] == DisplayLine(Code, 16, "")
  {
    var a, b := Span(5, 15), Span(16, 26);
    CodeRowsExactly(5, 15, 22);
    CodeRowsExactly(16, 26, 22);
    NothingLaidOut(22);
    LaidOutSnoc([a], 22);
    LaidOutSnoc([a, b], 22);
    assert [a][..0] == [] && [a, b][..1] == [a];
    hide CodeRows, LaidOut;
  }
}

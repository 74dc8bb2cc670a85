/** tools/gigantick/diff.go: fileDiff.build. */
module Gigantick {
  import opened Spans
  import opened Columns
  import opened Display
  import opened Expanders
  import Text

  /** What the parser of normal-format diffs delivers: non-negative ranges in order. */
  predicate Parsed(h: Hunk) {
    0 <= h.leftStart <= h.leftEnd && 0 <= h.rightStart <= h.rightEnd
  }

  ghost function Ranges(hunks: seq<Hunk>, left: seq<string>, right: seq<string>): seq<Span>
    requires forall h | h in hunks :: Sane(h, left, right)
  {
    seq(|hunks|, i requires 0 <= i < |hunks| => Range(hunks, i, left, right))
  }

  /** A row is near a change if it is within the context of some hunk's rows. */
  ghost predicate NearChange(hunks: seq<Hunk>, left: seq<string>, right: seq<string>, x: int)
    requires forall h | h in hunks :: Sane(h, left, right)
  {
    InSomeWidened(Ranges(hunks, left, right), x)
  }

  /** Rows x and x + 1 are both within the context of one and the same hunk's rows. */
  ghost function OneChange(hunks: seq<Hunk>, left: seq<string>, right: seq<string>): int -> bool
    requires forall h | h in hunks :: Sane(h, left, right)
  {
    JoinedNear(Ranges(hunks, left, right))
  }

  /** Laying a hunk out only ever appends rows. */
  lemma Grows(t: Table, h: Hunk, left: seq<string>, right: seq<string>)
    requires Sane(h, left, right) && t.l >= 0 && t.r >= 0
    ensures |t.left| <= |Lead(t, h, left, right).left| <= |Body(Lead(t, h, left, right), h, left, right).left|
  {
  }

  /** The ranges the spanner is given never go backwards. */
  lemma RangesNonDecreasing(hunks: seq<Hunk>, left: seq<string>, right: seq<string>)
    requires forall h | h in hunks :: Sane(h, left, right)
    ensures NonDecreasing(Ranges(hunks, left, right))
    ensures hunks != [] ==> Ranges(hunks, left, right)[|hunks| - 1].end == |Laid(hunks, left, right).left|
  {
    hide Range, Laid;
    forall i | 0 <= i < |hunks|
      ensures var r := Range(hunks, i, left, right); |Laid(hunks[..i], left, right).left| <= r.start <= r.end
      ensures Range(hunks, i, left, right).end == |Laid(hunks[..i + 1], left, right).left|
    {
      RangeBounds(hunks, i, left, right);
    }
    assert hunks[..|hunks|] == hunks;
  }

  lemma RangeBounds(hunks: seq<Hunk>, i: nat, left: seq<string>, right: seq<string>)
    requires i < |hunks| && forall h | h in hunks :: Sane(h, left, right)
    ensures var r := Range(hunks, i, left, right); |Laid(hunks[..i], left, right).left| <= r.start <= r.end
    ensures Range(hunks, i, left, right).end == |Laid(hunks[..i + 1], left, right).left|
  {
    hide Body, Lead;
    Grows(Laid(hunks[..i], left, right), hunks[i], left, right);
    assert hunks[..i + 1][..i] == hunks[..i];
  }

  /** The spans a list of hunks leads to leave every expander a row to point at. */
  lemma SpansFitting(hunks: seq<Hunk>, left: seq<string>, right: seq<string>)
    requires forall h | h in hunks :: Sane(h, left, right)
    ensures Fitting(InsertAll(Ranges(hunks, left, right)), |Laid(hunks, left, right).left|)
  {
    RangesNonDecreasing(hunks, left, right);
    SpansSorted(Ranges(hunks, left, right));
  }

  lemma RangesSnoc(hunks: seq<Hunk>, i: nat, left: seq<string>, right: seq<string>)
    requires i < |hunks| && forall h | h in hunks :: Sane(h, left, right)
    ensures Ranges(hunks[..i + 1], left, right) == Ranges(hunks[..i], left, right) + [Range(hunks, i, left, right)]
  {
    hide Range, Sane;
    RangeOfFirst(hunks, i + 1, i, left, right);
    forall j | 0 <= j < i
      ensures Range(hunks[..i + 1], j, left, right) == Range(hunks[..i], j, left, right)
    {
      RangeOfFirst(hunks, i + 1, j, left, right);
      RangeOfFirst(hunks, i, j, left, right);
    }
  }

  lemma RangeOfFirst(hunks: seq<Hunk>, n: nat, j: nat, left: seq<string>, right: seq<string>)
    requires j < n <= |hunks| && forall h | h in hunks :: Sane(h, left, right)
    ensures Range(hunks[..n], j, left, right) == Range(hunks, j, left, right)
  {
    hide Laid, Lead, Sane;
    assert hunks[..n][..j] == hunks[..j] && hunks[..n][..j + 1] == hunks[..j + 1];
  }

  method Pad(file: seq<string>, max: int) returns (padded: seq<string>)
    ensures |padded| > max && file <= padded
    ensures forall i :: |file| <= i < |padded| ==> padded[i] == ""
    ensures |file| > max ==> padded == file
  {
    padded := file;
    while |padded| <= max
      invariant file <= padded
      invariant forall i :: |file| <= i < |padded| ==> padded[i] == ""
      invariant |file| > max ==> padded == file
      decreases max - |padded|
    {
      padded := padded + [""];
    }
  }

  method LastLine(hunks: seq<Hunk>) returns (max: int)
    ensures max >= 0 && forall h | h in hunks :: h.leftEnd <= max && h.rightEnd <= max
  {
    max := 0;
    for i := 0 to |hunks|
      invariant max >= 0 && forall j :: 0 <= j < i ==> hunks[j].leftEnd <= max && hunks[j].rightEnd <= max
    {
      if hunks[i].leftEnd > max {
        max := hunks[i].leftEnd;
      }
      if hunks[i].rightEnd > max {
        max := hunks[i].rightEnd;
      }
    }
  }

  datatype State = Initial | Processing | Done

  class FileDiff {
    var left: seq<string>
    var right: seq<string>
    var leftLines: seq<DiffLine>
    var rightLines: seq<DiffLine>
    var displayLines: seq<DisplayLine>
    var state: State

    /** One of the loops that list lines of the left file up to a bound. */
    method ListLeft(cursor0: int, end: int, kind: LineKind) returns (cursor: int)
      requires 0 <= cursor0 && end <= |left|
      modifies this`leftLines
      ensures leftLines == old(leftLines) + Run(left, cursor0, end, kind) && cursor == Max(cursor0, end)
    {
      cursor := cursor0;
      while cursor < end
        invariant cursor0 <= cursor <= Max(cursor0, end)
        invariant leftLines == old(leftLines) + Run(left, cursor0, cursor, kind)
      {
        leftLines := leftLines + [DiffLine(cursor, left[cursor], kind)];
        cursor := cursor + 1;
      }
    }

    method ListRight(cursor0: int, end: int, kind: LineKind) returns (cursor: int)
      requires 0 <= cursor0 && end <= |right|
      modifies this`rightLines
      ensures rightLines == old(rightLines) + Run(right, cursor0, end, kind) && cursor == Max(cursor0, end)
    {
      cursor := cursor0;
      while cursor < end
        invariant cursor0 <= cursor <= Max(cursor0, end)
        invariant rightLines == old(rightLines) + Run(right, cursor0, cursor, kind)
      {
        rightLines := rightLines + [DiffLine(cursor, right[cursor], kind)];
        cursor := cursor + 1;
      }
    }

    method ListAdded(cursor0: int, end: int) returns (cursor: int)
      requires 0 <= cursor0 && end <= |right|
      modifies this`leftLines, this`rightLines
      ensures leftLines == old(leftLines) + Fillers(end - cursor0, Deleted)
      ensures rightLines == old(rightLines) + Run(right, cursor0, end, Added) && cursor == Max(cursor0, end)
    {
      cursor := cursor0;
      while cursor < end
        invariant cursor0 <= cursor <= Max(cursor0, end)
        invariant leftLines == old(leftLines) + Fillers(cursor - cursor0, Deleted)
        invariant rightLines == old(rightLines) + Run(right, cursor0, cursor, Added)
      {
        leftLines := leftLines + [Filler(Deleted)];
        rightLines := rightLines + [DiffLine(cursor, right[cursor], Added)];
        cursor := cursor + 1;
      }
    }

    method ListDeleted(cursor0: int, end: int) returns (cursor: int)
      requires 0 <= cursor0 && end <= |left|
      modifies this`leftLines, this`rightLines
      ensures leftLines == old(leftLines) + Run(left, cursor0, end, Added) && cursor == Max(cursor0, end)
      ensures rightLines == old(rightLines) + Fillers(end - cursor0, Deleted)
    {
      cursor := cursor0;
      while cursor < end
        invariant cursor0 <= cursor <= Max(cursor0, end)
        invariant leftLines == old(leftLines) + Run(left, cursor0, cursor, Added)
        invariant rightLines == old(rightLines) + Fillers(cursor - cursor0, Deleted)
      {
        leftLines := leftLines + [DiffLine(cursor, left[cursor], Added)];
        rightLines := rightLines + [Filler(Deleted)];
        cursor := cursor + 1;
      }
    }

    method ListChanged(l0: int, endL: int, r0: int, endR: int) returns (l: int, r: int)
      requires 0 <= l0 && endL <= |left| && 0 <= r0 && endR <= |right|
      modifies this`leftLines, this`rightLines
      ensures var nl, nr := Max(endL - l0, 0), Max(endR - r0, 0);
        && l == l0 + nl && r == r0 + nr
        && leftLines == old(leftLines) + Run(left, l0, endL, Changed) + Fillers(nr - nl, Changed)
        && rightLines == old(rightLines) + Run(right, r0, endR, Changed) + Fillers(nl - nr, Changed)
    {
      l, r := l0, r0;
      ghost var n := 0;
      while l < endL || r < endR
        invariant l0 <= l <= Max(l0, endL) && r0 <= r <= Max(r0, endR)
        invariant (l < endL ==> l == l0 + n) && (l >= endL ==> n >= l - l0)
        invariant (r < endR ==> r == r0 + n) && (r >= endR ==> n >= r - r0)
        invariant n == Max(l - l0, r - r0)
        invariant leftLines == old(leftLines) + Run(left, l0, l, Changed) + Fillers(n - (l - l0), Changed)
        invariant rightLines == old(rightLines) + Run(right, r0, r, Changed) + Fillers(n - (r - r0), Changed)
        decreases Max(endL - l, 0) + Max(endR - r, 0)
      {
        if l < endL {
          leftLines := leftLines + [DiffLine(l, left[l], Changed)];
          l := l + 1;
        } else {
          leftLines := leftLines + [Filler(Changed)];
        }
        if r < endR {
          rightLines := rightLines + [DiffLine(r, right[r], Changed)];
          r := r + 1;
        } else {
          rightLines := rightLines + [Filler(Changed)];
        }
        n := n + 1;
      }
    }

    /** The rows of one hunk; start is the row it begins at. */
    method ListHunk(d: Hunk, cursorL0: int, cursorR0: int) returns (cursorL: int, cursorR: int, start: int)
      requires Sane(d, left, right) && cursorL0 >= 0 && cursorR0 >= 0
      modifies this`leftLines, this`rightLines
      ensures var lead := Lead(Table(old(leftLines), old(rightLines), cursorL0, cursorR0), d, left, right);
        && Table(leftLines, rightLines, cursorL, cursorR) == Body(lead, d, left, right)
        && start == |lead.left|
    {
      cursorL := ListLeft(cursorL0, d.leftStart, Unchanged);
      cursorR := ListRight(cursorR0, d.rightStart, Unchanged);
      start := |leftLines|;
      match d.kind
      case Add =>
        cursorL := ListLeft(cursorL, d.leftStart + 1, Unchanged);
        cursorR := ListAdded(cursorR, d.rightEnd + 1);
      case Change =>
        cursorL, cursorR := ListChanged(cursorL, d.leftEnd + 1, cursorR, d.rightEnd + 1);
      case Delete =>
        cursorR := ListRight(cursorR, d.rightStart + 1, Unchanged);
        cursorL := ListDeleted(cursorL, d.leftEnd + 1);
    }

    /** The whole layout. For any parsed hunks it never aborts; the display shows, around
        the changes, exactly the rows within the context of a hunk, every row number is
        inside the columns, and comments are woven in without disturbing the rows. What a
        valid diff adds to this is said by Columns.ValidDiffAligned about Laid. */
    method Build(comments: seq<Comment>, diffs: seq<Hunk>, leftData: string, rightData: string) returns (ok: bool)
      requires forall d | d in diffs :: Parsed(d)
      requires CommentRows(comments) && InOrder(displayLines)
      modifies this
      ensures ok && InOrder(displayLines)
      ensures old(state) == Done ==> unchanged(this)
      ensures old(state) != Done ==>
        && state == Processing
        && Text.Split(leftData, '\n') <= left && Text.Split(rightData, '\n') <= right
        && (forall d | d in diffs :: Sane(d, left, right))
        && leftLines == Laid(diffs, left, right).left && rightLines == Laid(diffs, left, right).right
        && Increasing(Codes(displayLines))
        && (forall x :: x in Codes(displayLines) <==> NearChange(diffs, left, right, x) && 0 < x < |leftLines|)
        && var rows := LaidOut(InsertAll(Ranges(diffs, left, right)), |leftLines|);
           && InColumns(rows, |leftLines|) && Expandable(rows, OneChange(diffs, left, right))
           && displayLines == Woven(rows, Attachments(rows, comments), Unanchored(rows, comments))
    {
      if state == Done {
        return true;
      }
      hide Text.Split, Laid, Ranges, InsertAll, LaidOut, InColumns, Expandable, Woven, Attachments, Unanchored,
        WithComments,
        Codes, Increasing;
      var max := LastLine(diffs);
      left := Pad(Text.Split(leftData, '\n'), max);
      right := Pad(Text.Split(rightData, '\n'), max);
      var spanner := new DiffSpanner();
      ok := ListHunks(diffs, spanner);
      if !ok {
        return;
      }
      ok := CheckConsistency(displayLines);
      if !ok {
        return;
      }
      displayLines := LayOut(spanner.spans, |leftLines|);
      DisplayFacts(diffs, left, right, comments);
      ok := CheckConsistency(displayLines);
      if !ok {
        return;
      }
      displayLines := InsertComments(displayLines, comments);
      ok := CheckConsistency(displayLines);
      if !ok {
        return;
      }
      state := Processing;
    }

    method ListHunks(diffs: seq<Hunk>, spanner: DiffSpanner) returns (ok: bool)
      requires forall d | d in diffs :: Sane(d, left, right)
      requires spanner.spans == []
      modifies this`leftLines, this`rightLines, spanner
      ensures ok && spanner.spans == InsertAll(Ranges(diffs, left, right))
      ensures leftLines == Laid(diffs, left, right).left && rightLines == Laid(diffs, left, right).right
    {
      var cursorL, cursorR := 0, 0;
      leftLines, rightLines := [], [];
      for i := 0 to |diffs|
        invariant Table(leftLines, rightLines, cursorL, cursorR) == Laid(diffs[..i], left, right)
        invariant spanner.spans == InsertAll(Ranges(diffs[..i], left, right))
      {
        assert diffs[..i + 1][..i] == diffs[..i];
        var start;
        cursorL, cursorR, start := ListHunk(diffs[i], cursorL, cursorR);
        var end := |leftLines|;
        RangesSnoc(diffs, i, left, right);
        RangesNonDecreasing(diffs[..i + 1], left, right);
        SpansSorted(Ranges(diffs[..i + 1], left, right));
        InsertAllSnoc(Ranges(diffs[..i], left, right), Range(diffs, i, left, right));
        ok := spanner.Insert(start, end);
        if !ok {
          return;
        }
      }
      assert diffs[..|diffs|] == diffs;
      ok := true;
    }
  }

  lemma InsertAllSnoc(ranges: seq<Span>, r: Span)
    ensures InsertAll(ranges + [r]) == Placed(InsertAll(ranges), 0, Widened(r.start, r.end))
  {
    assert (ranges + [r])[..|ranges|] == ranges;
  }

  lemma DisplayFacts(diffs: seq<Hunk>, left: seq<string>, right: seq<string>, comments: seq<Comment>)
    requires (forall d | d in diffs :: Sane(d, left, right)) && CommentRows(comments)
    ensures var count := |Laid(diffs, left, right).left|;
      var rows := LaidOut(InsertAll(Ranges(diffs, left, right)), count);
      && InColumns(rows, count) && InOrder(rows) && InOrder(WithComments(rows, comments))
      && Expandable(rows, OneChange(diffs, left, right))
      && WithComments(rows, comments) == Woven(rows, Attachments(rows, comments), Unanchored(rows, comments))
      && Codes(WithComments(rows, comments)) == Codes(rows) && Increasing(Codes(rows))
      && (forall x :: x in Codes(rows) <==> NearChange(diffs, left, right, x) && 0 < x < count)
  {
    hide Woven, LaidOut, Laid, Attachments, Unanchored;
    var ranges, count := Ranges(diffs, left, right), |Laid(diffs, left, right).left|;
    RangesNonDecreasing(diffs, left, right);
    SpansFitting(diffs, left, right);
    SpansSorted(ranges);
    SpansAreUnion(ranges);
    var rows := LaidOut(InsertAll(ranges), count);
    FittingInColumns(InsertAll(ranges), count);
    RangesExpandable(ranges, count);
    hide Expandable;
    LaidOutCodes(InsertAll(ranges), count);
    CommentsWoven(rows, comments);
    CommentsKeepCodes(rows, comments);
    forall i | 0 <= i < |Codes(rows)|
      ensures Codes(rows)[i] >= 0
    {
      assert Codes(rows)[i] in Codes(rows);
    }
  }
}

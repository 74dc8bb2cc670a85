/** tools/gigantick/diff.go: which rows of the columns are displayed, and where the comments
    go between them. */
module Display {
  import opened Spans

  datatype RowKind = Code | CommentHeader | CommentBody | CommentFooter | Expander

  datatype DisplayLine = DisplayLine(kind: RowKind, subIndex: int, subContent: string)

  /** A comment as it is displayed: the lines it is attached to (0 for none), and its
      header, wrapped body and footer rows. */
  datatype Comment = Comment(leftLine: int, rightLine: int, rows: seq<DisplayLine>)

  // ----- The rows of the spans -----

  /** Rows lo to hi of the columns, except the header row and rows past the end. */
  function CodeRows(lo: int, hi: int, count: int): seq<DisplayLine>
    decreases hi - lo
  {
    if lo > hi then []
    else CodeRows(lo, hi - 1, count) + if 0 < hi < count then [DisplayLine(Code, hi, "")] else []
  }

  /** An expander in front of a span, unless one is there already or nothing is hidden. */
  function Topped(rows: seq<DisplayLine>, s: Span): seq<DisplayLine> {
    if (rows == [] || rows[|rows| - 1].kind != Expander) && s.start > 1
    then rows + [DisplayLine(Expander, s.start - 1, "")] else rows
  }

  /** An expander behind a span, unless it reaches the last row. */
  function Closed(rows: seq<DisplayLine>, s: Span, count: int): seq<DisplayLine> {
    if s.end < count then rows + [DisplayLine(Expander, s.end + 1, "")] else rows
  }

  function LaidOut(spans: seq<Span>, count: int): seq<DisplayLine> {
    if spans == [] then []
    else
      var s := spans[|spans| - 1];
      Closed(Topped(LaidOut(spans[..|spans| - 1], count), s) + CodeRows(s.start, s.end, count), s, count)
  }

  /** The column indices of the code rows, from the top. */
  ghost function Codes(rows: seq<DisplayLine>): seq<int> {
    if rows == [] then []
    else
      var last := rows[|rows| - 1];
      Codes(rows[..|rows| - 1]) + if last.kind == Code then [last.subIndex] else []
  }

  ghost predicate Increasing(xs: seq<int>) {
    forall i, j :: 0 <= i < j < |xs| ==> xs[i] < xs[j]
  }

  /** What checkConsistency accepts. */
  ghost predicate InOrder(rows: seq<DisplayLine>) {
    && (forall i :: 0 <= i < |Codes(rows)| ==> Codes(rows)[i] >= 0)
    && (forall i, j :: 0 <= i < j < |Codes(rows)| ==> Codes(rows)[i] <= Codes(rows)[j])
  }

  lemma {:induction false} CodesConcat(a: seq<DisplayLine>, b: seq<DisplayLine>)
    ensures Codes(a + b) == Codes(a) + Codes(b)
  {
    if b == [] {
      assert a + b == a;
    } else {
      CodesConcat(a, b[..|b| - 1]);
      assert (a + b)[..|a + b| - 1] == a + b[..|b| - 1] && (a + b)[|a + b| - 1] == b[|b| - 1];
    }
  }

  lemma IncreasingConcat(xs: seq<int>, ys: seq<int>)
    requires Increasing(xs) && Increasing(ys)
    requires forall x, y :: x in xs && y in ys ==> x < y
    ensures Increasing(xs + ys)
  {
    forall i, j | 0 <= i < j < |xs + ys|
      ensures (xs + ys)[i] < (xs + ys)[j]
    {
      if i < |xs| <= j {
        assert xs[i] in xs && ys[j - |xs|] in ys;
      }
    }
  }

  lemma CodesSnoc(rows: seq<DisplayLine>, row: DisplayLine)
    ensures Codes(rows + [row]) == if row.kind == Code then Codes(rows) + [row.subIndex] else Codes(rows)
  {
    assert (rows + [row])[..|rows|] == rows;
  }

  lemma {:induction false} CodeRowsShow(lo: int, hi: int, count: int)
    ensures Increasing(Codes(CodeRows(lo, hi, count)))
    ensures forall x :: x in Codes(CodeRows(lo, hi, count)) <==> lo <= x <= hi && 0 < x < count
    decreases hi - lo
  {
    hide Increasing, Codes;
    if lo <= hi {
      CodeRowsShow(lo, hi - 1, count);
      var before := CodeRows(lo, hi - 1, count);
      if 0 < hi < count {
        CodesSnoc(before, DisplayLine(Code, hi, ""));
        NothingLaidOut(hi);
        IncreasingConcat(Codes(before), [hi]);
      } else {
        assert CodeRows(lo, hi, count) == before;
      }
    } else {
      NothingLaidOut(count);
    }
  }

  lemma {:induction false} CodeRowsInColumns(lo: int, hi: int, count: int)
    ensures forall row | row in CodeRows(lo, hi, count) :: row.kind == Code && 0 < row.subIndex < count
    decreases hi - lo
  {
    if lo <= hi {
      CodeRowsInColumns(lo, hi - 1, count);
    }
  }

  /** The spans a diff of count rows leads to: sorted, apart, and none starting so close to
      the end, or ending so close to it, that an expander would have no row. */
  ghost predicate Fitting(spans: seq<Span>, count: int) {
    && Disjoint(spans)
    && (forall i :: 0 <= i < |spans| ==> spans[i].start == 0 || 0 < spans[i].start <= count - CONTEXT)
    && (spans != [] ==> spans[|spans| - 1].end >= count)
  }

  /** The code rows are exactly the rows of the spans, once each and in order. */
  lemma {:induction false} LaidOutCodes(spans: seq<Span>, count: int)
    requires Disjoint(spans)
    ensures Increasing(Codes(LaidOut(spans, count)))
    ensures forall x :: x in Codes(LaidOut(spans, count)) <==> InSome(spans, x) && 0 < x < count
  {
    hide Codes, CodeRows, Increasing;
    if spans != [] {
      hide LaidOut;
      var n := |spans| - 1;
      var s, xs := spans[n], Codes(LaidOut(spans[..n], count));
      LaidOutCodes(spans[..n], count);
      SpanCodes(spans, count);
      CodeRowsShow(s.start, s.end, count);
      forall x
        ensures InSome(spans, x) <==> InSome(spans[..n], x) || s.start <= x <= s.end
        ensures InSome(spans[..n], x) ==> x < s.start
      {
        assert spans == spans[..n] + [s];
        InSomeSnoc(spans[..n], s, x);
        if InSome(spans[..n], x) {
          var i :| 0 <= i < n && spans[..n][i].start <= x <= spans[..n][i].end;
          assert spans[i].end < spans[n].start;
        }
      }
      hide InSome;
      IncreasingConcat(xs, Codes(CodeRows(s.start, s.end, count)));
    } else {
      NothingLaidOut(count);
    }
  }

  lemma NothingLaidOut(count: int)
    ensures LaidOut([], count) == [] && Codes([]) == [] && Increasing([]) && Increasing([count])
    ensures forall x :: !InSome([], x)
  {
  }

  lemma LaidOutSnoc(spans: seq<Span>, count: int)
    requires spans != []
    ensures var n := |spans| - 1;
      LaidOut(spans, count) ==
        Closed(Topped(LaidOut(spans[..n], count), spans[n]) + CodeRows(spans[n].start, spans[n].end, count),
          spans[n], count)
  {
    hide CodeRows;
  }

  lemma SpanCodes(spans: seq<Span>, count: int)
    requires spans != []
    ensures var n := |spans| - 1;
      Codes(LaidOut(spans, count)) ==
        Codes(LaidOut(spans[..n], count)) + Codes(CodeRows(spans[n].start, spans[n].end, count))
  {
    hide Codes, CodeRows;
    var s, before := spans[|spans| - 1], LaidOut(spans[..|spans| - 1], count);
    var code := CodeRows(s.start, s.end, count);
    CodesSnoc(before, DisplayLine(Expander, s.start - 1, ""));
    CodesSnoc(Topped(before, s) + code, DisplayLine(Expander, s.end + 1, ""));
    CodesConcat(Topped(before, s), code);
  }

  ghost predicate InColumns(rows: seq<DisplayLine>, count: int) {
    forall row | row in rows :: (row.kind == Code || row.kind == Expander) && 0 < row.subIndex < count
  }

  /** Every code and expander row indexes inside the columns. */
  lemma {:induction false} LaidOutInColumns(spans: seq<Span>, count: int)
    requires Disjoint(spans)
    requires forall i :: 0 <= i < |spans| ==> spans[i].start == 0 || 0 < spans[i].start <= count - CONTEXT
    requires forall i :: 0 <= i < |spans| && spans[i].end < count ==> 0 <= spans[i].end < count - CONTEXT
    ensures InColumns(LaidOut(spans, count), count)
  {
    if spans != [] {
      var n := |spans| - 1;
      LaidOutInColumns(spans[..n], count);
      CodeRowsInColumns(spans[n].start, spans[n].end, count);
    }
  }

  lemma FittingInColumns(spans: seq<Span>, count: int)
    requires Fitting(spans, count)
    ensures InColumns(LaidOut(spans, count), count)
  {
    forall i | 0 <= i < |spans| && spans[i].end < count
      ensures 0 <= spans[i].end < count - CONTEXT
    {
      assert spans[i].end < spans[i + 1].start;
    }
    LaidOutInColumns(spans, count);
  }

  /** Walking the rows of one span. */
  method AppendCodeRows(rows0: seq<DisplayLine>, s: Span, count: int) returns (rows: seq<DisplayLine>)
    ensures rows == rows0 + CodeRows(s.start, s.end, count)
  {
    rows := rows0;
    var j := s.start;
    while j <= s.end
      invariant s.start <= j && (j <= s.end + 1 || j == s.start)
      invariant rows == rows0 + CodeRows(s.start, j - 1, count)
    {
      if j > 0 {
        if j < count {
          rows := rows + [DisplayLine(Code, j, "")];
        }
      }
      j := j + 1;
    }
    if s.end < s.start {
      assert CodeRows(s.start, s.end, count) == [];
    }
  }

  /** Walking the spans. */
  method LayOut(spans: seq<Span>, count: int) returns (rows: seq<DisplayLine>)
    ensures rows == LaidOut(spans, count)
  {
    rows := [];
    hide CodeRows, LaidOut;
    NothingLaidOut(count);
    for i := 0 to |spans|
      invariant rows == LaidOut(spans[..i], count)
    {
      var s := spans[i];
      assert spans[..i + 1][..i] == spans[..i];
      LaidOutSnoc(spans[..i + 1], count);
      if |rows| == 0 || rows[|rows| - 1].kind != Expander {
        if s.start > 1 {
          rows := rows + [DisplayLine(Expander, s.start - 1, "")];
        }
      }
      rows := AppendCodeRows(rows, s, count);
      if s.end < count {
        rows := rows + [DisplayLine(Expander, s.end + 1, "")];
      }
    }
    assert spans[..|spans|] == spans;
  }

  ghost function LastCode(rows: seq<DisplayLine>): int {
    if Codes(rows) == [] then 0 else Codes(rows)[|Codes(rows)| - 1]
  }

  /** ok is false where the program would abort. */
  method CheckConsistency(rows: seq<DisplayLine>) returns (ok: bool)
    ensures ok <==> InOrder(rows)
  {
    hide InOrder, LastCode;
    OrderStart();
    var last := 0;
    for i := 0 to |rows|
      invariant InOrder(rows[..i]) && last == LastCode(rows[..i])
    {
      OrderStep(rows, i);
      if rows[i].kind == Code {
        if rows[i].subIndex < last {
          return false;
        }
        last := rows[i].subIndex;
      }
    }
    assert rows[..|rows|] == rows;
    return true;
  }

  lemma OrderStart()
    ensures forall rows :: |rows| == 0 ==> InOrder(rows) && LastCode(rows) == 0
  {
  }

  lemma OrderStep(rows: seq<DisplayLine>, i: nat)
    requires i < |rows| && InOrder(rows[..i])
    ensures rows[i].kind != Code ==> InOrder(rows[..i + 1]) && LastCode(rows[..i + 1]) == LastCode(rows[..i])
    ensures rows[i].kind == Code && rows[i].subIndex >= LastCode(rows[..i]) ==>
      InOrder(rows[..i + 1]) && LastCode(rows[..i + 1]) == rows[i].subIndex
    ensures rows[i].kind == Code && rows[i].subIndex < LastCode(rows[..i]) ==> !InOrder(rows)
  {
    var before, row, after := rows[..i], rows[i], rows[i + 1..];
    assert rows[..i + 1] == before + [row] && rows == rows[..i + 1] + after;
    CodesSnoc(before, row);
    CodesConcat(rows[..i + 1], after);
    hide Codes;
    var k := |Codes(before)|;
    if row.kind == Code {
      assert Codes(rows)[k] == row.subIndex;
      assert k > 0 ==> Codes(rows)[k - 1] == LastCode(before);
    }
  }

  // ----- Comments between the rows -----

  predicate Anchors(row: DisplayLine, c: Comment) {
    row.kind == Code && ((c.rightLine > 0 && row.subIndex >= c.rightLine)
      || (c.leftLine > 0 && row.subIndex >= c.leftLine))
  }

  /** The first row that anchors the comment, or the number of rows. */
  function Anchor(rows: seq<DisplayLine>, c: Comment): (r: nat)
    ensures r <= |rows|
    ensures r < |rows| ==> Anchors(rows[r], c)
    ensures forall i :: 0 <= i < r ==> !Anchors(rows[i], c)
  {
    if rows == [] || Anchors(rows[0], c) then 0 else 1 + Anchor(rows[1..], c)
  }

  /** The least line number that the comment was put at. */
  ghost predicate FirstLine(c: Comment, line: int) {
    && (line == c.leftLine || line == c.rightLine) && line > 0
    && (c.leftLine > 0 ==> line <= c.leftLine) && (c.rightLine > 0 ==> line <= c.rightLine)
  }

  /** In rows that are in order the anchor is where the code rows reach the comment's first
      line; a comment without a line has no anchor. */
  lemma AnchorReached(rows: seq<DisplayLine>, c: Comment, i: nat)
    requires InOrder(rows) && i < |rows| && rows[i].kind == Code
    ensures forall line :: FirstLine(c, line) ==> (i >= Anchor(rows, c) <==> rows[i].subIndex >= line)
    ensures (forall line :: !FirstLine(c, line)) ==> Anchor(rows, c) == |rows|
    ensures Anchor(rows, c) < |rows| ==> rows[Anchor(rows, c)].kind == Code
  {
    var r := Anchor(rows, c);
    if r < i { CodesInOrder(rows, r, i); }
    hide Anchor, InOrder;
    if c.leftLine > 0 && (c.rightLine <= 0 || c.leftLine <= c.rightLine) {
      assert FirstLine(c, c.leftLine);
    } else if c.rightLine > 0 {
      assert FirstLine(c, c.rightLine);
    }
  }

  /** Code rows in order do not go back. */
  lemma CodesInOrder(rows: seq<DisplayLine>, r: nat, i: nat)
    requires InOrder(rows) && r < i < |rows| && rows[r].kind == Code && rows[i].kind == Code
    ensures rows[r].subIndex <= rows[i].subIndex
  {
    CodeAt(rows, r);
    CodeAt(rows, i);
    CodeAt(rows[..i], r);
    assert rows[..i][..r] == rows[..r];
    hide Codes;
  }

  lemma CodeAt(rows: seq<DisplayLine>, i: nat)
    requires i < |rows| && rows[i].kind == Code
    ensures var k := |Codes(rows[..i])|; k < |Codes(rows)| && Codes(rows)[k] == rows[i].subIndex
  {
    CodesSnoc(rows[..i], rows[i]);
    CodesConcat(rows[..i] + [rows[i]], rows[i + 1..]);
    assert rows[..i] + [rows[i]] + rows[i + 1..] == rows;
    hide Codes;
  }

  /** The comment's rows go right after its anchor, or to the end. */
  function Spliced(rows: seq<DisplayLine>, c: Comment): seq<DisplayLine> {
    var index := Anchor(rows, c) + 1;
    if index >= |rows| then rows + c.rows else rows[..index] + c.rows + rows[index..]
  }

  method Splice(rows: seq<DisplayLine>, c: Comment) returns (r: seq<DisplayLine>)
    ensures r == Spliced(rows, c)
  {
    var index := 0;
    while index < |rows| && !Anchors(rows[index], c)
      invariant 0 <= index <= |rows|
      invariant Anchor(rows, c) == index + Anchor(rows[index..], c)
    {
      assert rows[index..][1..] == rows[index + 1..];
      index := index + 1;
    }
    index := index + 1;
    if index >= |rows| {
      r := rows + c.rows;
    } else {
      r := rows[..index] + c.rows + rows[index..];
    }
  }

  /** Comments are spliced in from the last to the first. */
  method InsertComments(base: seq<DisplayLine>, comments: seq<Comment>) returns (rows: seq<DisplayLine>)
    ensures rows == WithComments(base, comments)
  {
    rows := base;
    var i := |comments| - 1;
    while i >= 0
      invariant -1 <= i < |comments|
      invariant rows == WithComments(base, comments[i + 1..])
    {
      assert comments[i..][1..] == comments[i + 1..];
      rows := Splice(rows, comments[i]);
      i := i - 1;
    }
    assert comments[0..] == comments;
  }

  function WithComments(base: seq<DisplayLine>, comments: seq<Comment>): seq<DisplayLine> {
    if comments == [] then base else Spliced(WithComments(base, comments[1..]), comments[0])
  }

  // ----- Where every comment ends up -----

  /** The rows of the comments anchored at base row i, in the order of the list. */
  ghost function AttachedTo(base: seq<DisplayLine>, comments: seq<Comment>, i: nat): seq<DisplayLine> {
    if comments == [] then []
    else (if Anchor(base, comments[0]) == i then comments[0].rows else []) + AttachedTo(base, comments[1..], i)
  }

  /** The rows of the comments without an anchor, the last of the list first. */
  ghost function Unanchored(base: seq<DisplayLine>, comments: seq<Comment>): seq<DisplayLine> {
    if comments == [] then []
    else Unanchored(base, comments[1..]) + if Anchor(base, comments[0]) == |base| then comments[0].rows else []
  }

  ghost function Attachments(base: seq<DisplayLine>, comments: seq<Comment>): seq<seq<DisplayLine>> {
    seq(|base|, i requires i >= 0 => AttachedTo(base, comments, i))
  }

  /** Every base row followed by what is attached to it, then the rest. */
  ghost function Woven(base: seq<DisplayLine>, attached: seq<seq<DisplayLine>>,
    rest: seq<DisplayLine>): seq<DisplayLine>
    requires |attached| == |base|
  {
    if base == [] then rest else [base[0]] + attached[0] + Woven(base[1..], attached[1..], rest)
  }

  ghost predicate NoCode(rows: seq<DisplayLine>) {
    forall i :: 0 <= i < |rows| ==> rows[i].kind != Code
  }

  ghost predicate CommentRows(comments: seq<Comment>) {
    forall c | c in comments :: NoCode(c.rows)
  }

  lemma SpliceHead(head: DisplayLine, rows: seq<DisplayLine>, c: Comment)
    requires !Anchors(head, c)
    ensures Spliced([head] + rows, c) == [head] + Spliced(rows, c)
  {
    var all := [head] + rows;
    assert all[1..] == rows;
    var index := Anchor(rows, c) + 1;
    assert Anchor(all, c) == index;
    hide Anchor, Anchors;
    if index < |rows| {
      assert all[..index + 1] == [head] + rows[..index] && all[index + 1..] == rows[index..];
    }
  }

  lemma {:induction false} SpliceSkip(skip: seq<DisplayLine>, rows: seq<DisplayLine>, c: Comment)
    requires NoCode(skip)
    ensures Spliced(skip + rows, c) == skip + Spliced(rows, c)
  {
    hide Spliced;
    if skip == [] {
      assert skip + rows == rows && skip + Spliced(rows, c) == Spliced(rows, c);
    } else {
      SpliceSkip(skip[1..], rows, c);
      SpliceHead(skip[0], skip[1..] + rows, c);
      assert [skip[0]] + (skip[1..] + rows) == skip + rows;
      assert [skip[0]] + (skip[1..] + Spliced(rows, c)) == skip + Spliced(rows, c);
    }
  }

  lemma SpliceHere(head: DisplayLine, rows: seq<DisplayLine>, c: Comment)
    requires Anchors(head, c)
    ensures Spliced([head] + rows, c) == [head] + c.rows + rows
  {
    var all := [head] + rows;
    if |rows| > 0 {
      assert all[..1] == [head] && all[1..] == rows;
    }
  }

  lemma SpliceEnd(rows: seq<DisplayLine>, c: Comment)
    requires NoCode(rows)
    ensures Spliced(rows, c) == rows + c.rows && Anchor([], c) == 0
  {
    assert Anchor(rows, c) == |rows|;
  }

  /** Splicing into a woven display goes in front of what its anchor already carries. */
  lemma {:induction false} SpliceWoven(base: seq<DisplayLine>, attached: seq<seq<DisplayLine>>,
    rest: seq<DisplayLine>, c: Comment)
    requires |attached| == |base| && NoCode(rest)
    requires forall i :: 0 <= i < |attached| ==> NoCode(attached[i])
    ensures var a := Anchor(base, c);
      Spliced(Woven(base, attached, rest), c) ==
        if a < |base| then Woven(base, attached[a := c.rows + attached[a]], rest)
          else Woven(base, attached, rest + c.rows)
  {
    hide Spliced, Anchor, Anchors, NoCode;
    if base == [] {
      SpliceEnd(rest, c);
    } else {
      var tail := Woven(base[1..], attached[1..], rest);
      assert Woven(base, attached, rest) == [base[0]] + (attached[0] + tail);
      if Anchors(base[0], c) {
        SpliceHere(base[0], attached[0] + tail, c);
        WovenHere(base, attached, rest, c);
      } else {
        SpliceHead(base[0], attached[0] + tail, c);
        SpliceSkip(attached[0], tail, c);
        SpliceWoven(base[1..], attached[1..], rest, c);
        WovenPast(base, attached, rest, c);
      }
    }
  }

  lemma WovenHere(base: seq<DisplayLine>, attached: seq<seq<DisplayLine>>, rest: seq<DisplayLine>, c: Comment)
    requires |attached| == |base| > 0 && Anchors(base[0], c)
    ensures Anchor(base, c) == 0
    ensures Woven(base, attached[0 := c.rows + attached[0]], rest) ==
      [base[0]] + c.rows + (attached[0] + Woven(base[1..], attached[1..], rest))
  {
    var more := attached[0 := c.rows + attached[0]];
    assert more[1..] == attached[1..];
  }

  lemma WovenPast(base: seq<DisplayLine>, attached: seq<seq<DisplayLine>>, rest: seq<DisplayLine>, c: Comment)
    requires |attached| == |base| > 0 && !Anchors(base[0], c)
    ensures var a := Anchor(base[1..], c);
      Anchor(base, c) == a + 1 &&
      (if a + 1 < |base| then Woven(base, attached[a + 1 := c.rows + attached[a + 1]], rest)
        else Woven(base, attached, rest + c.rows)) ==
      [base[0]] + (attached[0] +
        if a + 1 < |base| then Woven(base[1..], attached[1..][a := c.rows + attached[1..][a]], rest)
        else Woven(base[1..], attached[1..], rest + c.rows))
  {
    var a := Anchor(base[1..], c);
    if a + 1 < |base| {
      var more := attached[a + 1 := c.rows + attached[a + 1]];
      assert more[1..] == attached[1..][a := c.rows + attached[1..][a]];
    }
  }

  lemma {:induction false} AttachedNoCode(base: seq<DisplayLine>, comments: seq<Comment>)
    requires CommentRows(comments)
    ensures forall i: nat :: NoCode(AttachedTo(base, comments, i))
    ensures NoCode(Unanchored(base, comments))
  {
    if comments != [] {
      assert comments[0] in comments && forall c | c in comments[1..] :: c in comments;
      AttachedNoCode(base, comments[1..]);
      forall i: nat
        ensures NoCode(AttachedTo(base, comments, i))
      {
        assert NoCode(AttachedTo(base, comments[1..], i)) && NoCode(comments[0].rows);
      }
    }
  }

  lemma {:induction false} WovenAlone(base: seq<DisplayLine>, attached: seq<seq<DisplayLine>>)
    requires |attached| == |base| && forall i :: 0 <= i < |attached| ==> attached[i] == []
    ensures Woven(base, attached, []) == base
  {
    if base != [] {
      WovenAlone(base[1..], attached[1..]);
    }
  }

  /** The whole effect of the backwards splicing: every row stays where it is, each comment
      follows the first row that reaches its line, comments on one row keep their order, and
      comments past the last row come at the end. */
  lemma {:induction false} CommentsWoven(base: seq<DisplayLine>, comments: seq<Comment>)
    requires CommentRows(comments)
    ensures WithComments(base, comments) == Woven(base, Attachments(base, comments), Unanchored(base, comments))
  {
    if comments == [] {
      WovenAlone(base, Attachments(base, comments));
    } else {
      var c, later := comments[0], comments[1..];
      assert forall d | d in later :: d in comments;
      CommentsWoven(base, later);
      AttachedNoCode(base, later);
      SpliceWoven(base, Attachments(base, later), Unanchored(base, later), c);
      AttachOne(base, comments);
    }
  }

  lemma AttachOne(base: seq<DisplayLine>, comments: seq<Comment>)
    requires comments != []
    ensures var c, later, a := comments[0], comments[1..], Anchor(base, comments[0]);
      if a < |base| then
        && Attachments(base, comments) == Attachments(base, later)[a := c.rows + Attachments(base, later)[a]]
        && Unanchored(base, comments) == Unanchored(base, later)
      else
        && Attachments(base, comments) == Attachments(base, later)
        && Unanchored(base, comments) == Unanchored(base, later) + c.rows
  {
    hide Anchor;
    var c, later, a := comments[0], comments[1..], Anchor(base, comments[0]);
    forall i: nat
      ensures AttachedTo(base, comments, i) == if a == i then c.rows + AttachedTo(base, later, i)
        else AttachedTo(base, later, i)
    {
      assert [] + AttachedTo(base, later, i) == AttachedTo(base, later, i);
    }
    assert Unanchored(base, later) + [] == Unanchored(base, later);
    hide AttachedTo, Unanchored;
    var was, now := Attachments(base, later), Attachments(base, comments);
    if a < |base| {
      assert now == was[a := c.rows + was[a]];
    } else {
      assert now == was;
    }
  }

  lemma {:induction false} NoCodes(rows: seq<DisplayLine>)
    requires NoCode(rows)
    ensures Codes(rows) == []
  {
    if rows != [] {
      NoCodes(rows[..|rows| - 1]);
    }
  }

  /** Comments change neither the code rows nor their order. */
  lemma {:induction false} CommentsKeepCodes(base: seq<DisplayLine>, comments: seq<Comment>)
    requires CommentRows(comments)
    ensures Codes(WithComments(base, comments)) == Codes(base)
  {
    if comments != [] {
      assert comments[0] in comments && forall d | d in comments[1..] :: d in comments;
      CommentsKeepCodes(base, comments[1..]);
      SpliceKeepsCodes(WithComments(base, comments[1..]), comments[0]);
    }
  }

  lemma SpliceKeepsCodes(rows: seq<DisplayLine>, c: Comment)
    requires NoCode(c.rows)
    ensures Codes(Spliced(rows, c)) == Codes(rows)
  {
    hide Codes, Anchor;
    var index := Anchor(rows, c) + 1;
    NoCodes(c.rows);
    if index >= |rows| {
      CodesConcat(rows, c.rows);
    } else {
      CodesConcat(rows[..index] + c.rows, rows[index..]);
      CodesConcat(rows[..index], c.rows);
      CodesConcat(rows[..index], rows[index..]);
      assert rows[..index] + rows[index..] == rows;
    }
  }
}

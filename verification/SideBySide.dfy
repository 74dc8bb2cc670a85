/** tools/ebert/script/diff.js: pairing a line diff into rows of two cells. */
module SideBySide {
  import opened LineDiff
  import opened DiffRows
  import opened Pairing
  import opened Cells
  import Diff
  import Text

  /** What there is to show: a placeholder until the diff has arrived, then its rows, the
      rows of every left and right line, and the count of the unpaired rows at the end. */
  datatype View = Loading | Paired(rows: seq<Row>, leftlines: map<nat, nat>, rightlines: map<nat, nat>, change: int)

  predicate IsOp(c: char) {
    c == '=' || c == '-' || c == '+'
  }

  /** The text without its first carriage return. */
  function DropCr(s: string): (r: string)
    ensures s != "" && s[0] != '\r' ==> r != "" && r[0] == s[0]
  {
    if s == "" then ""
    else if s[0] == '\r' then s[1..]
    else [s[0]] + DropCr(s[1..])
  }

  /** A diff's lines as the view shows them: carriage returns dropped. */
  ghost function Cleaned(lines: seq<string>): seq<string> {
    if lines == [] then []
    else
      var line := lines[|lines| - 1];
      Cleaned(lines[..|lines| - 1]) + if line != "" && IsOp(line[0]) then [DropCr(line)] else []
  }

  // ----- One column of the view -----

  ghost function Lefts(rows: seq<Row>): seq<Cell> {
    seq(|rows|, i requires 0 <= i < |rows| => rows[i].left)
  }

  ghost function Rights(rows: seq<Row>): seq<Cell> {
    seq(|rows|, i requires 0 <= i < |rows| => rows[i].right)
  }

  /** The column shows exactly these texts, each in one cell, numbered from 1 and in order;
      index maps every (zero-based) line to its row, and is the inverse of the numbering. */
  ghost predicate Column(cells: seq<Cell>, index: map<nat, nat>, texts: seq<string>) {
    && (forall j: nat :: j in index <==> j < |texts|)
    && (forall j: nat :: j < |texts| ==> Shows(cells, index[j], j, texts[j]))
    && (forall r :: 0 <= r < |cells| && cells[r].Line? ==> 1 <= cells[r].no <= |texts| && index[cells[r].no - 1] == r)
    && (forall j: nat, k: nat :: j < k < |texts| ==> index[j] < index[k])
  }

  /** Row r shows the zero-based line j, whose text this is. */
  ghost predicate Shows(cells: seq<Cell>, r: nat, j: nat, text: string) {
    r < |cells| && cells[r].Line? && cells[r].no == j + 1 && Shown(cells[r].pieces) == text
  }

  lemma ColumnLine(cells: seq<Cell>, index: map<nat, nat>, texts: seq<string>, cell: Cell)
    requires Column(cells, index, texts)
    requires cell.Line? && cell.no == |texts| + 1
    ensures Column(cells + [cell], index[|texts| := |cells|], texts + [Shown(cell.pieces)])
  {
    hide Shown;
  }

  lemma ColumnGap(cells: seq<Cell>, index: map<nat, nat>, texts: seq<string>, cell: Cell)
    requires Column(cells, index, texts) && cell.Gap?
    ensures Column(cells + [cell], index, texts)
  {
    hide Shown;
  }

  lemma FillShows(cells: seq<Cell>, index: map<nat, nat>, texts: seq<string>, i: nat, cell: Cell, j: nat)
    requires i < |cells| && (forall r :: i <= r < |cells| ==> cells[r].Gap?)
    requires cell.Line? && j < |texts| && j in index && Shows(cells, index[j], j, texts[j])
    ensures index[j] < i && Shows(cells[i := cell], index[j], j, (texts + [Shown(cell.pieces)])[j])
  {
    hide Shown;
  }

  /** Filling the first of the trailing gaps with the next line. */
  lemma ColumnFill(cells: seq<Cell>, index: map<nat, nat>, texts: seq<string>, i: nat, cell: Cell)
    requires Column(cells, index, texts) && i < |cells|
    requires forall r :: i <= r < |cells| ==> cells[r].Gap?
    requires cell.Line? && cell.no == |texts| + 1
    ensures Column(cells[i := cell], index[|texts| := i], texts + [Shown(cell.pieces)])
  {
    hide Shown;
    var filled, sent, more := cells[i := cell], index[|texts| := i], texts + [Shown(cell.pieces)];
    assert Shows(filled, sent[|texts|], |texts|, more[|texts|]);
    hide Shows;
    forall j: nat | j < |texts|
      ensures index[j] < i && sent[j] == index[j] && Shows(filled, sent[j], j, more[j])
    {
      FillShows(cells, index, texts, i, cell, j);
    }
  }

  /** Showing the same line in other pieces. */
  lemma ColumnRepiece(cells: seq<Cell>, index: map<nat, nat>, texts: seq<string>, i: nat, cell: Cell)
    requires Column(cells, index, texts) && i < |cells| && cells[i].Line?
    requires cell.Line? && cell.no == cells[i].no && Shown(cell.pieces) == Shown(cells[i].pieces)
    ensures Column(cells[i := cell], index, texts)
  {
    hide Shown;
  }

  // ----- The rows -----

  /** |change| rows at the end are unpaired, all on the side change's sign names, each
      holding one whole line; the row before them is paired. */
  ghost predicate Trailing(rows: seq<Row>, change: int) {
    var n := if change < 0 then -change else change;
    && n <= |rows|
    && (n < |rows| ==> rows[|rows| - n - 1].left.Line? && rows[|rows| - n - 1].right.Line?)
    && (forall r :: |rows| - n <= r < |rows| ==>
         var here := if change > 0 then rows[r].right else rows[r].left;
         var gap := if change > 0 then rows[r].left else rows[r].right;
         gap.Gap? && here.Line? && |here.pieces| == 1 && here.pieces[0] != "")
  }

  ghost predicate Rows(rows: seq<Row>, change: int, leftlines: map<nat, nat>, rightlines: map<nat, nat>,
                       lefts: seq<string>, rights: seq<string>) {
    && Trailing(rows, change)
    && Column(Lefts(rows), leftlines, lefts)
    && Column(Rights(rows), rightlines, rights)
  }

  lemma AddEqual(rows: seq<Row>, change: int, ll: map<nat, nat>, rl: map<nat, nat>, lefts: seq<string>,
    rights: seq<string>, row: Row)
    requires Rows(rows, change, ll, rl, lefts, rights)
    requires row.left.Line? && row.left.no == |lefts| + 1 && row.right.Line? && row.right.no == |rights| + 1
    ensures Rows(rows + [row], 0, ll[|lefts| := |rows|], rl[|rights| := |rows|],
                 lefts + [Shown(row.left.pieces)], rights + [Shown(row.right.pieces)])
  {
    hide Shown, Column;
    ColumnLine(Lefts(rows), ll, lefts, row.left);
    ColumnLine(Rights(rows), rl, rights, row.right);
    assert Lefts(rows + [row]) == Lefts(rows) + [row.left];
    assert Rights(rows + [row]) == Rights(rows) + [row.right];
  }

  lemma AddLeft(rows: seq<Row>, change: int, ll: map<nat, nat>, rl: map<nat, nat>, lefts: seq<string>,
    rights: seq<string>, row: Row)
    requires Rows(rows, change, ll, rl, lefts, rights) && change <= 0
    requires row.left.Line? && row.left.no == |lefts| + 1 && row.right.Gap?
    requires |row.left.pieces| == 1 && row.left.pieces[0] != ""
    ensures Rows(rows + [row], change - 1, ll[|lefts| := |rows|], rl, lefts + [Shown(row.left.pieces)], rights)
  {
    hide Shown, Column;
    ColumnLine(Lefts(rows), ll, lefts, row.left);
    ColumnGap(Rights(rows), rl, rights, row.right);
    assert Lefts(rows + [row]) == Lefts(rows) + [row.left];
    assert Rights(rows + [row]) == Rights(rows) + [row.right];
  }

  lemma AddRight(rows: seq<Row>, change: int, ll: map<nat, nat>, rl: map<nat, nat>, lefts: seq<string>,
    rights: seq<string>, row: Row)
    requires Rows(rows, change, ll, rl, lefts, rights) && change >= 0
    requires row.right.Line? && row.right.no == |rights| + 1 && row.left.Gap?
    requires |row.right.pieces| == 1 && row.right.pieces[0] != ""
    ensures Rows(rows + [row], change + 1, ll, rl[|rights| := |rows|], lefts, rights + [Shown(row.right.pieces)])
  {
    hide Shown, Column;
    ColumnGap(Lefts(rows), ll, lefts, row.left);
    ColumnLine(Rights(rows), rl, rights, row.right);
    assert Lefts(rows + [row]) == Lefts(rows) + [row.left];
    assert Rights(rows + [row]) == Rights(rows) + [row.right];
  }

  lemma PairLeft(rows: seq<Row>, change: int, ll: map<nat, nat>, rl: map<nat, nat>, lefts: seq<string>,
    rights: seq<string>, row: Row)
    requires Rows(rows, change, ll, rl, lefts, rights) && change > 0
    requires var was := rows[|rows| - change].right;
      row.right.Line? && row.right.no == was.no && Shown(row.right.pieces) == Shown(was.pieces)
    requires row.left.Line? && row.left.no == |lefts| + 1
    ensures Rows(rows[|rows| - change := row], change - 1, ll[|lefts| := |rows| - change], rl,
      lefts + [Shown(row.left.pieces)], rights)
  {
    hide Shown, Column;
    var i := |rows| - change;
    ColumnFill(Lefts(rows), ll, lefts, i, row.left);
    ColumnRepiece(Rights(rows), rl, rights, i, row.right);
    assert Lefts(rows[i := row]) == Lefts(rows)[i := row.left];
    assert Rights(rows[i := row]) == Rights(rows)[i := row.right];
  }

  lemma PairRight(rows: seq<Row>, change: int, ll: map<nat, nat>, rl: map<nat, nat>, lefts: seq<string>,
    rights: seq<string>, row: Row)
    requires Rows(rows, change, ll, rl, lefts, rights) && change < 0
    requires var was := rows[|rows| + change].left;
      row.left.Line? && row.left.no == was.no && Shown(row.left.pieces) == Shown(was.pieces)
    requires row.right.Line? && row.right.no == |rights| + 1
    ensures Rows(rows[|rows| + change := row], change + 1, ll, rl[|rights| := |rows| + change], lefts,
      rights + [Shown(row.right.pieces)])
  {
    hide Shown, Column;
    var i := |rows| + change;
    ColumnFill(Rights(rows), rl, rights, i, row.right);
    ColumnRepiece(Lefts(rows), ll, lefts, i, row.left);
    assert Lefts(rows[i := row]) == Lefts(rows)[i := row.left];
    assert Rights(rows[i := row]) == Rights(rows)[i := row.right];
  }

  lemma CleanedNext(lines: seq<string>, i: nat)
    requires i < |lines|
    ensures lines[..i + 1][..i] == lines[..i]
    ensures lines[i] == "" || !IsOp(lines[i][0]) ==> Cleaned(lines[..i + 1]) == Cleaned(lines[..i])
    ensures lines[i] != "" && IsOp(lines[i][0]) ==>
      var line := DropCr(lines[i]);
      && line != "" && line[0] == lines[i][0]
      && Cleaned(lines[..i + 1]) == Cleaned(lines[..i]) + [line]
      && (forall op: char :: Side(Cleaned(lines[..i + 1]), op) ==
           if line[0] == '=' || line[0] == op then Side(Cleaned(lines[..i]), op) + [line[1..]]
             else Side(Cleaned(lines[..i]), op))
  {
    assert lines[..i + 1][..i] == lines[..i];
    if lines[i] != "" && IsOp(lines[i][0]) {
      var line, before := DropCr(lines[i]), Cleaned(lines[..i]);
      assert (before + [line])[..|before|] == before;
    }
  }

  /** Pairing the lines of a diff into rows. Deleted lines are matched with the added lines
      of the same run, first with first. Every line of either file ends up in exactly one
      row, in order, and showing its own text; the two index maps invert the numbering and
      send every line to the row Pairing gives it, so that Pairing.SharedRowIff says who shares
      a row; and the rows left unpaired at the end are counted by the final change. */
  method DiffLines(diff: string) returns (view: View)
    ensures view.Loading? <==> diff == ""
    ensures view.Paired? ==>
      && Trailing(view.rows, view.change)
      && Column(Lefts(view.rows), view.leftlines, Side(Cleaned(Text.Split(diff, '\n')), '-'))
      && Column(Rights(view.rows), view.rightlines, Side(Cleaned(Text.Split(diff, '\n')), '+'))
      && Laid(Cleaned(Text.Split(diff, '\n')), |view.rows|, view.change, view.leftlines, view.rightlines)
      && AllProper(view.rows)
      && AllCells(Cleaned(Text.Split(diff, '\n')), view.rows, view.leftlines, view.rightlines)
  {
    hide Rows, Trailing, Column, Side, Cleaned, Shown, Laid, AllCells, AllProper, Highlighted, OneSided;
    hide Proper, RowsKept;
    if diff == "" {
      return Loading;
    }
    var split := Text.Split(diff, '\n');
    var leftline, rightline: nat := 0, 0;
    var lines: seq<Row>, leftlines: map<nat, nat>, rightlines: map<nat, nat>, change := [], map[], map[], 0;
    NoRows(split);
    NoCells();
    var i := 0;
    while i < |split|
      invariant 0 <= i <= |split|
      invariant leftline == |Side(Cleaned(split[..i]), '-')| && rightline == |Side(Cleaned(split[..i]), '+')|
      invariant Rows(lines, change, leftlines, rightlines, Side(Cleaned(split[..i]), '-'),
        Side(Cleaned(split[..i]), '+'))
      invariant Laid(Cleaned(split[..i]), |lines|, change, leftlines, rightlines)
      invariant AllProper(lines) && AllCells(Cleaned(split[..i]), lines, leftlines, rightlines)
    {
      ghost var lefts, rights := Side(Cleaned(split[..i]), '-'), Side(Cleaned(split[..i]), '+');
      ghost var ds, rows, was, ll, rl := Cleaned(split[..i]), lines, change, leftlines, rightlines;
      CleanedNext(split, i);
      var line := DropCr(split[i]);
      if split[i] == "" || !IsOp(split[i][0]) {
        // reported as an unexpected type, and skipped
      } else if split[i][0] == '=' {
        ShownOne(line);
        var row := Row(Line(leftline + 1, "=", [line], Text(line)), Line(rightline + 1, "=", [line], Text(line)));
        AddEqual(lines, change, leftlines, rightlines, lefts, rights, row);
        KeptLine(line, row);
        AddRow(lines, row);
        change := 0;
        leftlines := leftlines[leftline := |lines|];
        rightlines := rightlines[rightline := |lines|];
        leftline := leftline + 1;
        rightline := rightline + 1;
        lines := lines + [row];
      } else if split[i][0] == '-' {
        var j := leftline;
        leftline := leftline + 1;
        if change > 0 {
          Unpaired(lines, change, leftlines, rightlines, lefts, rights);
          var idx := |lines| - change;
          var to := lines[idx].right.pieces[0][1..];
          var left, right := FineDiffs(line[1..], to);
          var row := Row(Line(leftline, "-", left, NoRaw), lines[idx].right.(pieces := right));
          PairLeft(lines, change, leftlines, rightlines, lefts, rights, row);
          ProperGap(lines, idx);
          PairRow(lines, idx, row);
          leftlines := leftlines[j := idx];
          lines := lines[idx := row];
        } else {
          ShownOne(line);
          var row := Row(Line(leftline, "-", [line], Text(line)), Gap(".-"));
          AddLeft(lines, change, leftlines, rightlines, lefts, rights, row);
          LoneLine(line, row);
          AddRow(lines, row);
          leftlines := leftlines[j := |lines|];
          lines := lines + [row];
        }
        change := change - 1;
      } else {
        var j := rightline;
        rightline := rightline + 1;
        if change < 0 {
          Unpaired(lines, change, leftlines, rightlines, lefts, rights);
          var idx := |lines| + change;
          var from := lines[idx].left.pieces[0][1..];
          var left, right := FineDiffs(from, line[1..]);
          var row := Row(lines[idx].left.(pieces := left), Line(rightline, "+", right, NoRaw));
          PairRight(lines, change, leftlines, rightlines, lefts, rights, row);
          ProperGap(lines, idx);
          PairRow(lines, idx, row);
          rightlines := rightlines[j := idx];
          lines := lines[idx := row];
        } else {
          ShownOne(line);
          var row := Row(Gap(".+"), Line(rightline, "+", [line], Text(line)));
          AddRight(lines, change, leftlines, rightlines, lefts, rights, row);
          LoneLine(line, row);
          AddRow(lines, row);
          rightlines := rightlines[j := |lines|];
          lines := lines + [row];
        }
        change := change + 1;
      }
      if split[i] != "" && IsOp(split[i][0]) {
        LaidNext(ds, |rows|, was, ll, rl, line, leftlines, rightlines);
        CellsNext(ds, rows, was, ll, rl, line, lines, leftlines, rightlines);
      }
      i := i + 1;
    }
    assert split[..|split|] == split;
    RowsOf(lines, change, leftlines, rightlines, Side(Cleaned(split), '-'), Side(Cleaned(split), '+'));
    return Paired(lines, leftlines, rightlines, change);
  }

  /** The first unpaired row still holds one whole line. */
  lemma Unpaired(rows: seq<Row>, change: int, ll: map<nat, nat>, rl: map<nat, nat>, lefts: seq<string>,
    rights: seq<string>)
    requires Rows(rows, change, ll, rl, lefts, rights)
    ensures change > 0 ==> change <= |rows| && var cell := rows[|rows| - change].right;
      rows[|rows| - change].left.Gap? && cell.Line? && |cell.pieces| == 1 && cell.pieces[0] != ""
        && Shown(cell.pieces) == cell.pieces[0][1..]
    ensures change < 0 ==> -change <= |rows| && var cell := rows[|rows| + change].left;
      rows[|rows| + change].right.Gap? && cell.Line? && |cell.pieces| == 1 && cell.pieces[0] != ""
        && Shown(cell.pieces) == cell.pieces[0][1..]
  {
    hide Column;
    if change != 0 {
      var row := rows[|rows| - if change > 0 then change else -change];
      var cell := if change > 0 then row.right else row.left;
      assert cell.pieces == [cell.pieces[0]];
      ShownOne(cell.pieces[0]);
    }
  }

  lemma RowsOf(rows: seq<Row>, change: int, ll: map<nat, nat>, rl: map<nat, nat>, lefts: seq<string>,
    rights: seq<string>)
    requires Rows(rows, change, ll, rl, lefts, rights)
    ensures Trailing(rows, change) && Column(Lefts(rows), ll, lefts) && Column(Rights(rows), rl, rights)
  {
  }

  lemma NoRows(split: seq<string>)
    ensures Side(Cleaned(split[..0]), '-') == [] && Side(Cleaned(split[..0]), '+') == []
    ensures Cleaned(split[..0]) == [] && Rows([], 0, map[], map[], [], [])
      && Laid(Cleaned(split[..0]), 0, 0, map[], map[])
  {
  }

  // ----- From two texts to rows -----

  function WithoutCrs(lines: seq<string>): (r: seq<string>)
    ensures |r| == |lines|
  {
    if lines == [] then [] else WithoutCrs(lines[..|lines| - 1]) + [DropCr(lines[|lines| - 1])]
  }

  /** Dropping carriage returns commutes with reading one side of a diff. */
  lemma {:induction false} CleanedSide(ds: seq<string>, op: char)
    requires WellFormed(ds)
    ensures Side(Cleaned(ds), op) == WithoutCrs(Side(ds, op))
  {
    if ds != [] {
      var n := |ds| - 1;
      CleanedSide(ds[..n], op);
      CleanedNext(ds, n);
      SideNext(ds, op);
      assert ds[..n + 1] == ds && IsOp(ds[n][0]);
      hide Cleaned, WithoutCrs, Side, DropCr, IsOp;
      if ds[n][0] == '=' || ds[n][0] == op {
        WithoutCrsNext(Side(ds[..n], op), ds[n][1..]);
        DropCrAfter(ds[n]);
      }
    }
  }

  lemma SideNext(ds: seq<string>, op: char)
    requires WellFormed(ds) && ds != []
    ensures var before, line := ds[..|ds| - 1], ds[|ds| - 1];
      && WellFormed(before)
      && Side(ds, op) == if line[0] == '=' || line[0] == op then Side(before, op) + [line[1..]] else Side(before, op)
  {
  }

  lemma DropCrAfter(line: string)
    requires line != "" && line[0] != '\r'
    ensures DropCr(line) != "" && DropCr(line)[1..] == DropCr(line[1..])
  {
  }

  lemma WithoutCrsNext(lines: seq<string>, line: string)
    ensures WithoutCrs(lines + [line]) == WithoutCrs(lines) + [DropCr(line)]
  {
    hide DropCr;
    assert (lines + [line])[..|lines|] == lines;
  }

  /** The two columns of the view of a computed diff are the two files, line by line. */
  lemma ColumnsAreFiles(diff: string, from: string, to: string)
    requires diff != "" && IsDiff(Diff.Lines(diff), Diff.Lines(from), Diff.Lines(to))
    ensures Side(Cleaned(Text.Split(diff, '\n')), '-') == WithoutCrs(Diff.Lines(from))
    ensures Side(Cleaned(Text.Split(diff, '\n')), '+') == WithoutCrs(Diff.Lines(to))
  {
    CleanedSide(Diff.Lines(diff), '-');
    CleanedSide(Diff.Lines(diff), '+');
  }

  // ----- Finding the row of a comment -----

  predicate Hit(raws: seq<Raw>, line: string, j: int) {
    0 <= j < |raws| && raws[j].Text? && line <= raws[j].text
  }

  function Distance(i: int, j: int): nat {
    if i < j then j - i else i - j
  }

  /** r is the row below bound, other than i, that starts with line and is closest to i,
      the earlier one if two are equally close; it is i itself if there is none. */
  ghost predicate Nearest(raws: seq<Raw>, line: string, i: int, bound: int, r: int) {
    && (r != i ==> Hit(raws, line, r) && r < bound)
    && (forall j :: Hit(raws, line, j) && j != i && j < bound ==>
         r != i && (Distance(i, r) < Distance(i, j) || (Distance(i, r) == Distance(i, j) && r <= j)))
  }

  datatype Placement = Nowhere | At(row: nat)

  /** The row a comment is attached to: the row its recorded line has now if there is
      nothing to compare or the text is unchanged, else the nearest row that starts with
      the recorded text. The very last row is never considered in the search. */
  method MatchContext(recorded: int, content: seq<string>, raws: seq<Raw>, index: map<nat, nat>) returns (r: Placement)
    ensures recorded - 1 !in index ==> r == Nowhere
    ensures recorded - 1 in index ==> r.At? && var i := index[recorded - 1];
      if content == [] || content[|content| - 1] == "" || i >= |raws| || raws[i] == Text(content[|content| - 1])
      then r.row == i
      else Nearest(raws, content[|content| - 1], i, |raws| - 1, r.row)
  {
    var sideLine := recorded - 1;
    if sideLine !in index {
      return Nowhere;
    }
    var i := index[sideLine];
    if content == [] || content[|content| - 1] == "" || i >= |raws| || raws[i] == Text(content[|content| - 1]) {
      return At(i);
    }
    var line := content[|content| - 1];
    var step := 1;
    var limit := |raws| - i - 1;
    while step <= i || step < limit
      invariant step >= 1
      invariant forall j :: Hit(raws, line, j) && j != i && j < |raws| - 1 ==> Distance(i, j) >= step
      decreases i + |raws| - step
    {
      if step <= i && Hit(raws, line, i - step) {
        return At(i - step);
      }
      if step < limit && Hit(raws, line, i + step) {
        return At(i + step);
      }
      step := step + 1;
    }
    return At(i);
  }

  /** The search is meant to find the closest row of all. It does, unless the last row is
      the only closest one. */
  lemma LastRowMissed(raws: seq<Raw>, line: string, i: nat, r: int)
    requires i < |raws| && Nearest(raws, line, i, |raws| - 1, r)
    ensures Nearest(raws, line, i, |raws|, r) <==>
      !(Hit(raws, line, |raws| - 1) && i < |raws| - 1 &&
        forall j :: Hit(raws, line, j) && j != i && j < |raws| - 1 ==> Distance(i, j) > |raws| - 1 - i)
  {
  }

  /** A text that moved to the last row is not found there. */
  lemma LastRowExample()
    ensures var raws := [Text("=x"), Text("-y"), Text("=z")];
      Nearest(raws, "=z", 0, 2, 0) && !Nearest(raws, "=z", 0, 3, 0) && Nearest(raws, "=z", 0, 3, 2)
  {
    var raws := [Text("=x"), Text("-y"), Text("=z")];
    assert "=z"[0] != "-y"[0] && "=z"[1] != "=x"[1];
    assert Hit(raws, "=z", 2) && !Hit(raws, "=z", 1) && !Hit(raws, "=z", 0);
  }
}

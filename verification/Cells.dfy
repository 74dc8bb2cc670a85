/** tools/ebert/script/diff.js: the two cells of a row, what kind each has, and the text that
    comments are matched against. */
module Cells {
  import opened Highlights
  import opened LineDiff
  import opened DiffRows
  import opened Pairing

  /** One cell of a row: a gap (shown blank), or line number no of its file, shown as
      pieces. raw is the text comments are matched against; a line that was paired with an
      earlier row never gets one. */
  datatype Cell =
    | Gap(kind: string)
    | Line(no: nat, kind: string, pieces: seq<string>, raw: Raw)

  datatype Raw = NoRaw | Text(text: string)

  datatype Row = Row(left: Cell, right: Cell)

  // ----- The kinds of row -----

  /** One whole line with this lead. */
  ghost predicate Whole(cell: Cell, lead: char) {
    cell.Line? && cell.kind == [lead] && cell.pieces == [[lead] + Shown(cell.pieces)]
  }

  ghost predicate Kept(row: Row) {
    Whole(row.left, '=') && Whole(row.right, '=') && row.left.pieces == row.right.pieces
  }

  /** A deletion and an addition, highlighted against each other. */
  ghost predicate Changed(row: Row) {
    && row.left.Line? && row.left.kind == "-" && row.right.Line? && row.right.kind == "+"
    && Unchanged(row.left.pieces) == Unchanged(row.right.pieces)
    && OneSided(row.left.pieces, '-') && OneSided(row.right.pieces, '+')
    && exists p: string ::
      Highlighted(p, Shown(row.left.pieces), Shown(row.right.pieces), row.left.pieces, row.right.pieces)
  }

  /** A kept line, a change, a deletion alone or an addition alone. */
  ghost predicate Proper(row: Row) {
    || Kept(row) || Changed(row)
    || (Whole(row.left, '-') && row.right == Gap(".-")) || (row.left == Gap(".+") && Whole(row.right, '+'))
  }

  ghost predicate AllProper(rows: seq<Row>) {
    forall r :: 0 <= r < |rows| ==> Proper(rows[r])
  }

  lemma ProperGap(rows: seq<Row>, r: nat)
    requires r < |rows| && AllProper(rows)
    ensures rows[r].left.Gap? && rows[r].right.Line? ==> rows[r].right.kind == "+"
    ensures rows[r].right.Gap? && rows[r].left.Line? ==> rows[r].left.kind == "-"
  {
    hide Highlighted, Unchanged, OneSided, Shown;
    assert Proper(rows[r]);
  }

  lemma ShownOne(line: string)
    requires line != ""
    ensures Shown([line]) == line[1..]
  {
    assert [line][..0] == [];
  }

  lemma WholeLine(no: nat, line: string, raw: Raw)
    requires line != ""
    ensures Whole(Line(no, [line[0]], [line], raw), line[0])
  {
    ShownOne(line);
    assert line == [line[0]] + line[1..];
  }

  // ----- The cell of a line -----

  /** The line's cell: of its kind, and with its text to match against if it opened the row. */
  ghost predicate CellOf(cell: Cell, line: string, first: bool)
    requires line != ""
  {
    cell.Line? && cell.kind == [line[0]] && cell.raw == if first then Text(line) else NoRaw
  }

  ghost predicate LeftCell(rows: seq<Row>, index: map<nat, nat>, k: nat, line: string, first: bool)
    requires line != ""
  {
    k in index && index[k] < |rows| && CellOf(rows[index[k]].left, line, first)
  }

  ghost predicate RightCell(rows: seq<Row>, index: map<nat, nat>, k: nat, line: string, first: bool)
    requires line != ""
  {
    k in index && index[k] < |rows| && CellOf(rows[index[k]].right, line, first)
  }

  /** Line i opens a row: in its run no line of the other side is still unpaired. */
  ghost predicate Opens(ds: seq<string>, i: nat)
    requires WellFormed(ds) && i < |ds|
  {
    && (ds[i][0] == '-' ==> Deletions(ds[..i]) >= Additions(ds[..i]))
    && (ds[i][0] == '+' ==> Additions(ds[..i]) >= Deletions(ds[..i]))
  }

  /** Line i has its cells in the rows the maps name. */
  ghost predicate LineCells(ds: seq<string>, i: nat, rows: seq<Row>, leftlines: map<nat, nat>, rightlines: map<nat,
    nat>)
    requires WellFormed(ds) && i < |ds|
  {
    && (ds[i][0] != '+' ==> LeftCell(rows, leftlines, |Side(ds[..i], '-')|, ds[i], Opens(ds, i)))
    && (ds[i][0] != '-' ==> RightCell(rows, rightlines, |Side(ds[..i], '+')|, ds[i], Opens(ds, i)))
  }

  ghost predicate AllCells(ds: seq<string>, rows: seq<Row>, leftlines: map<nat, nat>, rightlines: map<nat, nat>) {
    WellFormed(ds) && forall i :: 0 <= i < |ds| ==> LineCells(ds, i, rows, leftlines, rightlines)
  }

  /** Lines keep their kind and raw text. */
  ghost predicate Kindred(was: Cell, now: Cell) {
    was.Line? ==> now.Line? && now.kind == was.kind && now.raw == was.raw
  }

  ghost predicate RowsKept(rows: seq<Row>, more: seq<Row>) {
    |rows| <= |more| && forall r :: 0 <= r < |rows| ==>
      Kindred(rows[r].left, more[r].left) && Kindred(rows[r].right, more[r].right)
  }

  /** One more line, with its cell in the row the loop puts it in. */
  lemma CellsNext(ds: seq<string>, rows: seq<Row>, change: int, leftlines: map<nat, nat>, rightlines: map<nat, nat>,
    line: string, more: seq<Row>, ll: map<nat, nat>, rl: map<nat, nat>)
    requires Laid(ds, |rows|, change, leftlines, rightlines) && AllCells(ds, rows, leftlines, rightlines)
    requires line != "" && (line[0] == '=' || line[0] == '-' || line[0] == '+') && RowsKept(rows, more)
    requires var row := Target(line[0], |rows|, change);
      && 0 <= row < |more| && ll == (if line[0] == '+' then leftlines else leftlines[|Side(ds, '-')| := row])
      && rl == (if line[0] == '-' then rightlines else rightlines[|Side(ds, '+')| := row])
      && (line[0] != '+' ==> CellOf(more[row].left, line, row == |rows|))
      && (line[0] != '-' ==> CellOf(more[row].right, line, row == |rows|))
    ensures AllCells(ds + [line], more, ll, rl)
  {
    CountsNext(ds, line);
    var all, row := ds + [line], Target(line[0], |rows|, change);
    assert all[..|ds|] == ds;
    hide Side, Settled, RowCount, Deletions, Additions, Placed, CellOf, RowsKept;
    assert Opens(all, |ds|) == (row == |rows|);
    assert LineCells(all, |ds|, more, ll, rl);
    hide Opens, LeftCell, RightCell, LineCells;
    forall i | 0 <= i < |ds| ensures LineCells(all, i, more, ll, rl) {
      EarlierCells(ds, i, rows, leftlines, rightlines, line, more, ll, rl);
    }
  }

  lemma EarlierCells(ds: seq<string>, i: nat, rows: seq<Row>, leftlines: map<nat, nat>, rightlines: map<nat, nat>,
    line: string, more: seq<Row>, ll: map<nat, nat>, rl: map<nat, nat>)
    requires WellFormed(ds + [line]) && WellFormed(ds) && i < |ds| && LineCells(ds, i, rows, leftlines, rightlines)
    requires forall k: nat :: k in leftlines && k < |Side(ds, '-')| ==> MapsTo(ll, k, leftlines[k])
    requires forall k: nat :: k in rightlines && k < |Side(ds, '+')| ==> MapsTo(rl, k, rightlines[k])
    requires RowsKept(rows, more)
    ensures LineCells(ds + [line], i, more, ll, rl)
  {
    assert (ds + [line])[..i] == ds[..i] && (ds + [line])[i] == ds[i];
    SideGrows(ds, i, '-');
    SideGrows(ds, i, '+');
    hide Side, Settled, RowCount, Deletions, Additions;
    assert Opens(ds + [line], i) == Opens(ds, i);
    hide Opens;
  }

  lemma NoCells()
    ensures AllCells([], [], map[], map[]) && AllProper([])
  {
  }

  // ----- The rows the loop makes -----

  lemma KeptLine(line: string, row: Row)
    requires line != "" && line[0] == '=' && row.left.Line? && row.right.Line?
    requires row.left == Line(row.left.no, "=", [line], Text(line))
      && row.right == Line(row.right.no, "=", [line], Text(line))
    ensures Proper(row)
  {
    WholeLine(row.left.no, line, Text(line));
    WholeLine(row.right.no, line, Text(line));
    hide Whole;
  }

  lemma LoneLine(line: string, row: Row)
    requires line != ""
    requires
      || (line[0] == '-' && row.left.Line? && row == Row(Line(row.left.no, "-", [line], Text(line)), Gap(".-")))
      || (line[0] == '+' && row.right.Line? && row == Row(Gap(".+"), Line(row.right.no, "+", [line], Text(line))))
    ensures Proper(row)
  {
    WholeLine(if line[0] == '-' then row.left.no else row.right.no, line, Text(line));
    hide Whole;
  }

  lemma AddRow(rows: seq<Row>, row: Row)
    requires AllProper(rows) && Proper(row)
    ensures AllProper(rows + [row]) && RowsKept(rows, rows + [row])
  {
    hide Proper;
  }

  lemma PairRow(rows: seq<Row>, r: nat, row: Row)
    requires r < |rows| && AllProper(rows) && Changed(row)
    requires Kindred(rows[r].left, row.left) && Kindred(rows[r].right, row.right)
    ensures AllProper(rows[r := row]) && RowsKept(rows, rows[r := row])
  {
    hide Changed, Kept, Whole;
    assert Proper(row);
    hide Proper;
  }
}

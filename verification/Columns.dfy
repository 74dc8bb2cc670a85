/** tools/gigantick/diff.go: the two columns a normal-format diff is laid out in. */
module Columns {
  import opened Spans

  datatype LineKind = Unchanged | Added | Changed | Deleted

  /** A hunk in the numbering of POSIX.1-2017 "Diff Default Output Format". Line 0 of
      either file is the header that the depot prints, so the numbers are slice indices. */
  datatype Hunk = Hunk(kind: HunkKind, leftStart: int, leftEnd: int, rightStart: int, rightEnd: int)

  datatype HunkKind = Add | Change | Delete

  datatype DiffLine = DiffLine(lineIndex: int, content: string, kind: LineKind)

  /** A placeholder opposite a line that only the other file has. */
  function Filler(kind: LineKind): DiffLine {
    DiffLine(0, "", kind)
  }

  function Max(a: int, b: int): int {
    if a > b then a else b
  }

  /** Lines lo up to, not including, hi; none if the cursor is past hi already. */
  function Run(file: seq<string>, lo: int, hi: int, kind: LineKind): (r: seq<DiffLine>)
    requires 0 <= lo && (lo < hi ==> hi <= |file|)
    ensures |r| == Max(hi - lo, 0)
  {
    seq(Max(hi - lo, 0), i requires 0 <= i < Max(hi - lo, 0) => DiffLine(lo + i, file[lo + i], kind))
  }

  function Fillers(n: int, kind: LineKind): (r: seq<DiffLine>)
    ensures |r| == Max(n, 0)
  {
    seq(Max(n, 0), _ => Filler(kind))
  }

  /** The columns so far, and the first line of each file not yet in them. */
  datatype Table = Table(left: seq<DiffLine>, right: seq<DiffLine>, l: int, r: int)

  /** What any parsed hunk has: start and end in order, and inside the padded files. */
  predicate Sane(h: Hunk, left: seq<string>, right: seq<string>) {
    0 <= h.leftStart <= h.leftEnd < |left| && 0 <= h.rightStart <= h.rightEnd < |right|
  }

  /** The unchanged lines in front of a hunk. */
  function Lead(t: Table, h: Hunk, left: seq<string>, right: seq<string>): Table
    requires Sane(h, left, right) && t.l >= 0 && t.r >= 0
  {
    Table(t.left + Run(left, t.l, h.leftStart, Unchanged), t.right + Run(right, t.r, h.rightStart, Unchanged),
          Max(t.l, h.leftStart), Max(t.r, h.rightStart))
  }

  function Body(t: Table, h: Hunk, left: seq<string>, right: seq<string>): Table
    requires Sane(h, left, right) && t.l >= 0 && t.r >= 0
  {
    match h.kind
    case Add =>
      Table(t.left + Run(left, t.l, h.leftStart + 1, Unchanged) + Fillers(h.rightEnd + 1 - t.r, Deleted),
            t.right + Run(right, t.r, h.rightEnd + 1, Added),
            Max(t.l, h.leftStart + 1), Max(t.r, h.rightEnd + 1))
    case Change =>
      var nl, nr := Max(h.leftEnd + 1 - t.l, 0), Max(h.rightEnd + 1 - t.r, 0);
      Table(t.left + Run(left, t.l, h.leftEnd + 1, Changed) + Fillers(nr - nl, Changed),
            t.right + Run(right, t.r, h.rightEnd + 1, Changed) + Fillers(nl - nr, Changed),
            t.l + nl, t.r + nr)
    case Delete =>
      Table(t.left + Run(left, t.l, h.leftEnd + 1, Added),
            t.right + Run(right, t.r, h.rightStart + 1, Unchanged) + Fillers(h.leftEnd + 1 - t.l, Deleted),
            Max(t.l, h.leftEnd + 1), Max(t.r, h.rightStart + 1))
  }

  /** The columns after a list of hunks. */
  function Laid(hunks: seq<Hunk>, left: seq<string>, right: seq<string>): (t: Table)
    requires forall h | h in hunks :: Sane(h, left, right)
    ensures t.l >= 0 && t.r >= 0
  {
    if hunks == [] then Table([], [], 0, 0)
    else
      var n := |hunks| - 1;
      Body(Lead(Laid(hunks[..n], left, right), hunks[n], left, right), hunks[n], left, right)
  }

  /** The row range that hunk number i is shown at. */
  function Range(hunks: seq<Hunk>, i: int, left: seq<string>, right: seq<string>): Span
    requires 0 <= i < |hunks| && forall h | h in hunks :: Sane(h, left, right)
  {
    Span(|Lead(Laid(hunks[..i], left, right), hunks[i], left, right).left|, |Laid(hunks[..i + 1], left, right).left|)
  }

  // ----- What a valid diff guarantees -----

  /** The hunk continues a normal-format diff that has reached lines l and r: equally many
      unchanged lines in front of it on both sides, and they read the same. The header
      lines, numbered 0, stand opposite each other and may differ. */
  ghost predicate Continues(h: Hunk, left: seq<string>, right: seq<string>, l: int, r: int) {
    && Sane(h, left, right)
    && 0 <= l <= GapEnd(h).0 && 0 <= r <= GapEnd(h).1 && GapEnd(h).0 - l == GapEnd(h).1 - r
    && 0 < GapEnd(h).0 && 0 < GapEnd(h).1
    && left[Max(l, 1)..GapEnd(h).0] == right[Max(r, 1)..GapEnd(h).1]
  }

  /** The first line of either file that is not in front of the hunk. */
  function GapEnd(h: Hunk): (int, int) {
    (if h.kind == Add then h.leftStart + 1 else h.leftStart,
     if h.kind == Delete then h.rightStart + 1 else h.rightStart)
  }

  ghost predicate ValidDiff(hunks: seq<Hunk>, left: seq<string>, right: seq<string>) {
    && (forall h | h in hunks :: Sane(h, left, right))
    && (hunks != [] ==>
         var n := |hunks| - 1;
         && ValidDiff(hunks[..n], left, right)
         && var t := Laid(hunks[..n], left, right); Continues(hunks[n], left, right, t.l, t.r))
  }

  predicate IsFiller(line: DiffLine) {
    line.kind != Unchanged && line.lineIndex == 0
  }

  /** The line numbers a column lists, from the top. */
  ghost function Listed(column: seq<DiffLine>): seq<int> {
    if column == [] then []
    else
      var last := column[|column| - 1];
      Listed(column[..|column| - 1]) + if IsFiller(last) then [] else [last.lineIndex]
  }

  ghost function UpTo(lo: int, hi: int): seq<int> {
    seq(Max(hi - lo, 0), i => lo + i)
  }

  /** Every listed line shows the file's text. */
  ghost predicate Faithful(column: seq<DiffLine>, file: seq<string>) {
    forall i :: 0 <= i < |column| && !IsFiller(column[i]) ==>
      0 <= column[i].lineIndex < |file| && column[i].content == file[column[i].lineIndex]
  }

  /** The pairs of cells a row may hold: two unchanged lines that read the same (but for the
      headers), a line opposite a placeholder, or two cells of a change, not both empty. */
  ghost predicate RowOk(a: DiffLine, b: DiffLine) {
    || (a.kind == Unchanged && b.kind == Unchanged && (a.lineIndex > 0 || b.lineIndex > 0 ==> a.content == b.content))
    || (a.kind == Added && !IsFiller(a) && b == Filler(Deleted))
    || (a == Filler(Deleted) && b.kind == Added && !IsFiller(b))
    || (a.kind == Changed && b.kind == Changed && !(IsFiller(a) && IsFiller(b)))
  }

  ghost predicate Aligned(t: Table, left: seq<string>, right: seq<string>) {
    && |t.left| == |t.right|
    && Listed(t.left) == UpTo(0, t.l) && Listed(t.right) == UpTo(0, t.r)
    && Faithful(t.left, left) && Faithful(t.right, right)
    && 0 <= t.l && 0 <= t.r && (t.l == 0 <==> t.r == 0)
    && (forall i :: 0 <= i < |t.left| ==> RowOk(t.left[i], t.right[i]))
  }

  lemma {:induction false} ListedConcat(a: seq<DiffLine>, b: seq<DiffLine>)
    ensures Listed(a + b) == Listed(a) + Listed(b)
  {
    if b == [] {
      assert a + b == a;
    } else {
      ListedConcat(a, b[..|b| - 1]);
      assert (a + b)[..|a + b| - 1] == a + b[..|b| - 1];
    }
  }

  lemma {:induction false} ListedRun(file: seq<string>, lo: int, hi: int, kind: LineKind)
    requires 0 <= lo && hi <= |file| && (kind == Unchanged || lo > 0)
    ensures Listed(Run(file, lo, hi, kind)) == UpTo(lo, hi)
    decreases hi - lo
  {
    if lo < hi {
      ListedRun(file, lo, hi - 1, kind);
      assert Run(file, lo, hi, kind)[..hi - lo - 1] == Run(file, lo, hi - 1, kind);
      assert UpTo(lo, hi) == UpTo(lo, hi - 1) + [hi - 1];
    }
  }

  lemma {:induction false} ListedFillers(n: int, kind: LineKind)
    requires kind != Unchanged
    ensures Listed(Fillers(n, kind)) == []
  {
    if n > 0 {
      ListedFillers(n - 1, kind);
      assert Fillers(n, kind)[..n - 1] == Fillers(n - 1, kind);
    }
  }

  /** Lines lo to mid - 1 are listed; lines mid to hi - 1 and placeholders follow. */
  lemma ColumnGrows(column: seq<DiffLine>, file: seq<string>, mid: int, hi: int, kind: LineKind, n: int, fill: LineKind)
    requires Listed(column) == UpTo(0, mid) && Faithful(column, file)
    requires 0 <= mid <= hi <= |file| && (kind == Unchanged || mid > 0) && fill != Unchanged
    ensures Listed(column + Run(file, mid, hi, kind) + Fillers(n, fill)) == UpTo(0, hi)
    ensures Faithful(column + Run(file, mid, hi, kind) + Fillers(n, fill), file)
  {
    hide Listed, Faithful;
    ListedConcat(column + Run(file, mid, hi, kind), Fillers(n, fill));
    ListedConcat(column, Run(file, mid, hi, kind));
    ListedRun(file, mid, hi, kind);
    ListedFillers(n, fill);
    FaithfulGrows(column, file, mid, hi, kind, n, fill);
  }

  lemma FaithfulGrows(column: seq<DiffLine>, file: seq<string>, mid: int, hi: int, kind: LineKind, n: int,
    fill: LineKind)
    requires Faithful(column, file) && 0 <= mid <= hi <= |file| && fill != Unchanged
    ensures Faithful(column + Run(file, mid, hi, kind) + Fillers(n, fill), file)
  {
  }

  // ----- Every hunk keeps the columns aligned -----

  lemma RunJoin(file: seq<string>, lo: int, mid: int, hi: int, kind: LineKind)
    requires 0 <= lo <= hi && mid <= hi <= |file|
    ensures Run(file, lo, mid, kind) + Run(file, Max(lo, mid), hi, kind) == Run(file, lo, hi, kind)
  {
  }

  /** The unchanged lines between the previous hunk and this one. */
  function Gap(t: Table, h: Hunk, left: seq<string>, right: seq<string>): Table
    requires Continues(h, left, right, t.l, t.r)
  {
    var end := GapEnd(h);
    Table(t.left + Run(left, t.l, end.0, Unchanged), t.right + Run(right, t.r, end.1, Unchanged), end.0, end.1)
  }

  lemma GapAligned(t: Table, h: Hunk, left: seq<string>, right: seq<string>)
    requires Aligned(t, left, right) && Continues(h, left, right, t.l, t.r)
    ensures Aligned(Gap(t, h, left, right), left, right)
  {
    hide Listed, Faithful;
    var end := GapEnd(h);
    ColumnGrows(t.left, left, t.l, end.0, Unchanged, 0, Changed);
    ColumnGrows(t.right, right, t.r, end.1, Unchanged, 0, Changed);
    var g := Gap(t, h, left, right);
    assert g.left == t.left + Run(left, t.l, end.0, Unchanged) + Fillers(0, Changed);
    assert g.right == t.right + Run(right, t.r, end.1, Unchanged) + Fillers(0, Changed);
    forall i | |t.left| <= i < |g.left|
      ensures RowOk(g.left[i], g.right[i])
    {
      GapRow(h, left, right, t.l, t.r, i - |t.left|);
    }
  }

  lemma GapRow(h: Hunk, left: seq<string>, right: seq<string>, l: int, r: int, i: int)
    requires Continues(h, left, right, l, r) && (l == 0 <==> r == 0)
    requires 0 <= i < GapEnd(h).0 - l
    ensures RowOk(Run(left, l, GapEnd(h).0, Unchanged)[i], Run(right, r, GapEnd(h).1, Unchanged)[i])
  {
    if l + i > 0 {
      var a, b := left[Max(l, 1)..GapEnd(h).0], right[Max(r, 1)..GapEnd(h).1];
      var k := l + i - Max(l, 1);
      assert a[k] == left[l + i] && b[k] == right[r + i];
    }
  }

  /** A hunk as its unchanged lines followed by its own rows. */
  lemma BodyShape(t: Table, h: Hunk, left: seq<string>, right: seq<string>)
    requires Continues(h, left, right, t.l, t.r)
    ensures var g := Gap(t, h, left, right);
      Body(Lead(t, h, left, right), h, left, right) ==
        match h.kind
        case Add =>
          var n := h.rightEnd + 1 - g.r;
          Table(g.left + Fillers(n, Deleted), g.right + Run(right, g.r, g.r + n, Added), g.l, g.r + n)
        case Change =>
          var nl, nr := h.leftEnd + 1 - g.l, h.rightEnd + 1 - g.r;
          Table(g.left + Run(left, g.l, g.l + nl, Changed) + Fillers(nr - nl, Changed),
                g.right + Run(right, g.r, g.r + nr, Changed) + Fillers(nl - nr, Changed), g.l + nl, g.r + nr)
        case Delete =>
          var n := h.leftEnd + 1 - g.l;
          Table(g.left + Run(left, g.l, g.l + n, Added), g.right + Fillers(n, Deleted), g.l + n, g.r)
  {
    hide Run, Fillers;
    if h.kind == Add {
      RunJoin(left, t.l, h.leftStart, h.leftStart + 1, Unchanged);
    } else if h.kind == Delete {
      RunJoin(right, t.r, h.rightStart, h.rightStart + 1, Unchanged);
    }
  }

  lemma AddAligned(g: Table, left: seq<string>, right: seq<string>, n: nat)
    requires Aligned(g, left, right) && 0 < g.r && g.r + n <= |right|
    ensures Aligned(Table(g.left + Fillers(n, Deleted), g.right + Run(right, g.r, g.r + n, Added), g.l, g.r + n),
      left, right)
  {
    hide Listed, Faithful;
    ListedBounds(g, left, right);
    ColumnGrows(g.left, left, g.l, g.l, Unchanged, n, Deleted);
    ColumnGrows(g.right, right, g.r, g.r + n, Added, 0, Deleted);
    assert g.left + Run(left, g.l, g.l, Unchanged) + Fillers(n, Deleted) == g.left + Fillers(n, Deleted);
    assert g.right + Run(right, g.r, g.r + n, Added) + Fillers(0, Deleted) == g.right + Run(right, g.r, g.r + n, Added);
  }

  lemma DeleteAligned(g: Table, left: seq<string>, right: seq<string>, n: nat)
    requires Aligned(g, left, right) && 0 < g.l && g.l + n <= |left|
    ensures Aligned(Table(g.left + Run(left, g.l, g.l + n, Added), g.right + Fillers(n, Deleted), g.l + n, g.r),
      left, right)
  {
    hide Listed, Faithful;
    ListedBounds(g, left, right);
    ColumnGrows(g.left, left, g.l, g.l + n, Added, 0, Deleted);
    ColumnGrows(g.right, right, g.r, g.r, Unchanged, n, Deleted);
    assert g.right + Run(right, g.r, g.r, Unchanged) + Fillers(n, Deleted) == g.right + Fillers(n, Deleted);
    assert g.left + Run(left, g.l, g.l + n, Added) + Fillers(0, Deleted) == g.left + Run(left, g.l, g.l + n, Added);
  }

  lemma ChangeAligned(g: Table, left: seq<string>, right: seq<string>, nl: nat, nr: nat)
    requires Aligned(g, left, right) && 0 < g.l && g.l + nl <= |left| && 0 < g.r && g.r + nr <= |right|
    ensures Aligned(Table(g.left + Run(left, g.l, g.l + nl, Changed) + Fillers(nr - nl, Changed),
                          g.right + Run(right, g.r, g.r + nr, Changed) + Fillers(nl - nr, Changed),
                          g.l + nl, g.r + nr), left, right)
  {
    hide Listed, Faithful;
    ColumnGrows(g.left, left, g.l, g.l + nl, Changed, nr - nl, Changed);
    ColumnGrows(g.right, right, g.r, g.r + nr, Changed, nl - nr, Changed);
  }

  /** A cursor never passes the end of its file. */
  lemma ListedBounds(t: Table, left: seq<string>, right: seq<string>)
    requires Aligned(t, left, right)
    ensures t.l <= |left| && t.r <= |right|
  {
    ListedInFile(t.left, left);
    ListedInFile(t.right, right);
    assert t.l > 0 ==> Listed(t.left)[t.l - 1] == t.l - 1;
    assert t.r > 0 ==> Listed(t.right)[t.r - 1] == t.r - 1;
  }

  lemma {:induction false} ListedInFile(column: seq<DiffLine>, file: seq<string>)
    requires Faithful(column, file)
    ensures forall i :: 0 <= i < |Listed(column)| ==> 0 <= Listed(column)[i] < |file|
  {
    if column != [] {
      ListedInFile(column[..|column| - 1], file);
    }
  }

  lemma HunkAligned(t: Table, h: Hunk, left: seq<string>, right: seq<string>)
    requires Aligned(t, left, right) && Continues(h, left, right, t.l, t.r)
    ensures Aligned(Body(Lead(t, h, left, right), h, left, right), left, right)
  {
    hide Aligned, Body, Lead;
    var g := Gap(t, h, left, right);
    GapAligned(t, h, left, right);
    BodyShape(t, h, left, right);
    match h.kind
    case Add => AddAligned(g, left, right, h.rightEnd + 1 - g.r);
    case Change => ChangeAligned(g, left, right, h.leftEnd + 1 - g.l, h.rightEnd + 1 - g.r);
    case Delete => DeleteAligned(g, left, right, h.leftEnd + 1 - g.l);
  }

  /** For a valid diff, after every hunk the columns have the same length, list each file's
      lines once, in order and with their text, and pair them row by row as they belong. */
  lemma {:induction false} ValidDiffAligned(hunks: seq<Hunk>, left: seq<string>, right: seq<string>)
    requires ValidDiff(hunks, left, right)
    ensures Aligned(Laid(hunks, left, right), left, right)
  {
    if hunks != [] {
      var n := |hunks| - 1;
      ValidDiffAligned(hunks[..n], left, right);
      HunkAligned(Laid(hunks[..n], left, right), hunks[n], left, right);
    }
  }
}

/** tools/ebert/script/diff.js: character diffs and the pairing of deleted with added
    lines into the rows of a side-by-side view. */
module DiffRows {
  import opened EditScript
  import opened LineDiff
  import opened Highlights
  import Myers

  // ----- Character diffs -----

  function Concat(parts: seq<string>): string {
    if parts == [] then "" else Concat(parts[..|parts| - 1]) + parts[|parts| - 1]
  }

  /** What a cell built from these pieces shows: the pieces without their leads. */
  function Shown(pieces: seq<string>): string {
    if pieces == [] then ""
    else
      var last := pieces[|pieces| - 1];
      Shown(pieces[..|pieces| - 1]) + if last == "" then "" else last[1..]
  }

  lemma {:induction false} ShownConcat(a: seq<string>, b: seq<string>)
    ensures Shown(a + b) == Shown(a) + Shown(b)
  {
    if b == [] {
      assert a + b == a;
    } else {
      ShownConcat(a, b[..|b| - 1]);
      assert (a + b)[..|a + b| - 1] == a + b[..|b| - 1];
    }
  }

  /** A run of one edit consumes as many characters as it is long. */
  lemma {:induction false} Run(p: string, i: int, j: int)
    requires 0 <= i < j <= |p| && forall h :: i <= h < j ==> p[h] == p[i]
    ensures FromLen(p[..j]) == FromLen(p[..i]) + if p[i] == '+' then 0 else j - i
    ensures ToLen(p[..j]) == ToLen(p[..i]) + if p[i] == '-' then 0 else j - i
    ensures Changes(p[..j]) == Changes(p[..i]) + if p[i] == '=' then 0 else j - i
  {
    assert p[..j][..j - 1] == p[..j - 1];
    if j - 1 > i {
      Run(p, i, j - 1);
    }
  }

  lemma {:induction false} PrefixConsumes(p: string, i: int)
    requires 0 <= i <= |p|
    ensures FromLen(p[..i]) <= FromLen(p) && ToLen(p[..i]) <= ToLen(p)
    decreases |p|
  {
    if i < |p| {
      PrefixConsumes(p[..|p| - 1], i);
      assert p[..|p| - 1][..i] == p[..i];
    } else {
      assert p[..i] == p;
    }
  }

  /** In a valid script an equal step matches equal characters. */
  lemma {:induction false} StepAt<T>(p: string, i: int, from: seq<T>, to: seq<T>)
    requires Valid(p, from, to) && 0 <= i < |p|
    ensures p[i] == '=' || p[i] == '-' || p[i] == '+'
    ensures p[i] == '=' ==>
      FromLen(p[..i]) < |from| && ToLen(p[..i]) < |to| && to[ToLen(p[..i])] == from[FromLen(p[..i])]
    decreases |p|
  {
    if i < |p| - 1 {
      StepAt(p[..|p| - 1], i, from, to);
      assert p[..|p| - 1][..i] == p[..i];
    }
  }

  /** The equal characters of a run of '='. */
  lemma {:induction false} EqualRun(p: string, i: int, j: int, from: string, to: string)
    requires Transforms(p, from, to)
    requires 0 <= i <= j <= |p| && forall h :: i <= h < j ==> p[h] == '='
    ensures FromLen(p[..j]) == FromLen(p[..i]) + (j - i) <= |from| && ToLen(p[..j]) == ToLen(p[..i]) + (j - i) <= |to|
    ensures from[FromLen(p[..i])..FromLen(p[..j])] == to[ToLen(p[..i])..ToLen(p[..j])]
  {
    PrefixConsumes(p, j);
    if i < j {
      EqualRun(p, i, j - 1, from, to);
      StepAt(p, j - 1, from, to);
      assert p[..j][..j - 1] == p[..j - 1];
      var f, t, n := FromLen(p[..i]), ToLen(p[..i]), j - 1 - i;
      assert FromLen(p[..j]) == f + n + 1 && ToLen(p[..j]) == t + n + 1;
      hide *;
      OneLonger(from, to, f, t, n);
    }
  }

  lemma OneLonger(from: string, to: string, f: nat, t: nat, n: nat)
    requires f + n < |from| && t + n < |to| && from[f..f + n] == to[t..t + n] && from[f + n] == to[t + n]
    ensures from[f..f + n + 1] == to[t..t + n + 1]
  {
    assert from[f..f + n + 1] == from[f..f + n] + [from[f + n]];
    assert to[t..t + n + 1] == to[t..t + n] + [to[t + n]];
  }

  lemma PieceSides(pieces: seq<string>, e: char, run: string)
    requires WellFormed(pieces) && (e == '=' || e == '-' || e == '+')
    ensures WellFormed(pieces + [[e] + run])
    ensures Concat(Side(pieces + [[e] + run], '-')) == Concat(Side(pieces, '-')) + if e == '+' then "" else run
    ensures Concat(Side(pieces + [[e] + run], '+')) == Concat(Side(pieces, '+')) + if e == '-' then "" else run
  {
    SideSnoc(pieces, e, run, '-');
    SideSnoc(pieces, e, run, '+');
  }

  /** Every piece shows something, and neighbouring pieces have different leads. */
  ghost predicate Maximal(pieces: seq<string>) {
    && (forall i :: 0 <= i < |pieces| ==> |pieces[i]| > 1)
    && (forall i, j :: 0 <= i && j == i + 1 && j < |pieces| ==> pieces[i][0] != pieces[j][0])
  }

  /** How many characters the pieces delete and insert. */
  ghost function CharactersChanged(pieces: seq<string>): nat {
    if pieces == [] then 0
    else
      var x := pieces[|pieces| - 1];
      CharactersChanged(pieces[..|pieces| - 1]) + if x == "" || x[0] == '=' then 0 else |x| - 1
  }

  lemma MarksNext(pieces: seq<string>, e: char, run: string)
    ensures Marks(pieces + [[e] + run]) == Marks(pieces) + Repeat(e, |run|)
  {
    assert (pieces + [[e] + run])[..|pieces|] == pieces;
  }

  /** A run of equal steps is its step repeated. */
  lemma RunRepeats(p: string, i: int, j: int)
    requires 0 <= i < j <= |p| && forall h :: i <= h < j ==> p[h] == p[i]
    ensures p[..j] == p[..i] + Repeat(p[i], j - i)
  {
  }

  lemma ChangedNext(pieces: seq<string>, e: char, run: string)
    ensures CharactersChanged(pieces + [[e] + run]) == CharactersChanged(pieces) + if e == '=' then 0 else |run|
  {
    assert (pieces + [[e] + run])[..|pieces|] == pieces;
  }

  /** The pieces cover the first i edits, which consume fi of `from` and ti of `to`, and
      no run of equal edits is cut at i. */
  ghost predicate Covered(diff: seq<string>, edits: string, i: int, from: string, to: string, fi: int, ti: int) {
    && 0 <= i <= |edits| && fi == FromLen(edits[..i]) <= |from| && ti == ToLen(edits[..i]) <= |to|
    && WellFormed(diff) && Maximal(diff) && CharactersChanged(diff) == Changes(edits[..i])
    && Marks(diff) == edits[..i]
    && (diff == [] <==> i == 0)
    && (diff != [] ==> diff[|diff| - 1][0] == edits[i - 1] && (i < |edits| ==> edits[i] != edits[i - 1]))
    && Concat(Side(diff, '-')) == from[..fi] && Concat(Side(diff, '+')) == to[..ti]
  }

  lemma MaximalNext(diff: seq<string>, e: char, run: string)
    requires Maximal(diff) && run != "" && (diff != [] ==> diff[|diff| - 1][0] != e)
    ensures Maximal(diff + [[e] + run])
  {
  }

  lemma CoveredNext(diff: seq<string>, edits: string, i: int, j: int, from: string, to: string, fi: int, ti: int,
    run: string)
    requires Covered(diff, edits, i, from, to, fi, ti) && Transforms(edits, from, to)
    requires i < j <= |edits| && (forall h :: i <= h < j ==> edits[h] == edits[i])
      && (j < |edits| ==> edits[j] != edits[i])
    requires var n := j - i;
      && (edits[i] != '+' ==> fi + n <= |from| && run == from[fi..fi + n])
      && (edits[i] == '+' ==> ti + n <= |to| && run == to[ti..ti + n])
    ensures edits[i] == '=' || edits[i] == '-' || edits[i] == '+'
    ensures Covered(diff + [[edits[i]] + run], edits, j, from, to,
                    fi + (if edits[i] == '+' then 0 else j - i), ti + (if edits[i] == '-' then 0 else j - i))
  {
    hide Valid, Side, Concat, CharactersChanged, Changes, FromLen, ToLen, Marks, Repeat;
    var e, n := edits[i], j - i;
    Run(edits, i, j);
    PrefixConsumes(edits, j);
    StepAt(edits, i, from, to);
    if e == '=' { EqualRun(edits, i, j, from, to); }
    PieceSides(diff, e, run);
    MaximalNext(diff, e, run);
    ChangedNext(diff, e, run);
    MarksNext(diff, e, run);
    RunRepeats(edits, i, j);
    assert e != '+' ==> from[..fi] + run == from[..fi + n];
    assert e != '-' ==> to[..ti] + run == to[..ti + n];
  }

  lemma RunFits(diff: seq<string>, edits: string, i: int, j: int, from: string, to: string, fi: int, ti: int)
    requires Covered(diff, edits, i, from, to, fi, ti)
    requires Transforms(edits, from, to) && 0 <= i < j <= |edits| && forall h :: i <= h < j ==> edits[h] == edits[i]
    ensures 0 <= fi && 0 <= ti
    ensures edits[i] != '+' ==> fi + (j - i) <= |from|
    ensures edits[i] != '-' ==> ti + (j - i) <= |to|
    ensures edits[i] == '=' || edits[i] == '-' || edits[i] == '+'
  {
    Run(edits, i, j);
    PrefixConsumes(edits, j);
    StepAt(edits, i, from, to);
  }

  lemma IsShortest(edits: string, from: string, to: string)
    requires Transforms(edits, from, to) && forall q: string :: Transforms(q, from, to) ==> Changes(edits) <= Changes(q)
    ensures ShortestScript(edits, from, to)
  {
  }

  lemma CoveredStart(edits: string, from: string, to: string)
    ensures Covered([], edits, 0, from, to, 0, 0)
  {
  }

  lemma CoveredEnd(diff: seq<string>, edits: string, from: string, to: string, fi: int, ti: int)
    requires Transforms(edits, from, to) && Covered(diff, edits, |edits|, from, to, fi, ti)
    ensures WellFormed(diff) && Maximal(diff) && CharactersChanged(diff) == Changes(edits) && Marks(diff) == edits
    ensures Concat(Side(diff, '-')) == from && Concat(Side(diff, '+')) == to
  {
    assert edits[..|edits|] == edits && from[..|from|] == from && to[..|to|] == to;
  }

  /** The end of the run of equal edits that starts at i. */
  method RunEnd(edits: string, i: nat) returns (j: nat)
    requires i < |edits|
    ensures i < j <= |edits| && (forall h :: i <= h < j ==> edits[h] == edits[i])
      && (j < |edits| ==> edits[j] != edits[i])
  {
    j := i + 1;
    while j < |edits| && edits[i] == edits[j]
      invariant i < j <= |edits| && forall h :: i <= h < j ==> edits[h] == edits[i]
    {
      j := j + 1;
    }
  }

  /** The piece of the next run, and how far it leads. */
  method NextPiece(ghost diff: seq<string>, edits: string, i: nat, from: string, to: string, fi0: int, ti0: int)
    returns (piece: string, j: nat, fi: int, ti: int)
    requires Covered(diff, edits, i, from, to, fi0, ti0) && Transforms(edits, from, to) && i < |edits|
    ensures i < j <= |edits| && Covered(diff + [piece], edits, j, from, to, fi, ti)
  {
    hide Covered, Transforms;
    j := RunEnd(edits, i);
    RunFits(diff, edits, i, j, from, to, fi0, ti0);
    var e, n := edits[i], j - i;
    var run := if e == '+' then to[ti0..ti0 + n] else from[fi0..fi0 + n];
    CoveredNext(diff, edits, i, j, from, to, fi0, ti0, run);
    piece := [e] + run;
    fi := fi0 + if e == '+' then 0 else n;
    ti := ti0 + if e == '-' then 0 else n;
  }

  /** The character diff: the shortest script, cut into its maximal runs. */
  method MyersDiff(from: string, to: string) returns (diff: seq<string>)
    ensures WellFormed(diff) && Maximal(diff)
    ensures Concat(Side(diff, '-')) == from && Concat(Side(diff, '+')) == to
    ensures ShortestScript(Marks(diff), from, to) && CharactersChanged(diff) == Changes(Marks(diff))
  {
    diff := [];
    if |from| + |to| == 0 {
      return;
    }
    var found := Myers.Search(from, to);
    var edits := found.edits;
    hide *;
    IsShortest(edits, from, to);
    CoveredStart(edits, from, to);
    var i: nat, fi, ti := 0, 0, 0;
    while i < |edits|
      invariant i <= |edits| && Covered(diff, edits, i, from, to, fi, ti)
    {
      var piece;
      piece, i, fi, ti := NextPiece(diff, edits, i, from, to, fi, ti);
      diff := diff + [piece];
    }
    CoveredEnd(diff, edits, from, to, fi, ti);
  }

  const MIN_SAME_LENGTH := 5

  /** Short equal pieces are shown as changed, to cut the noise. */
  function CleanDiffs(diffs: seq<string>, kind: char): (r: seq<string>)
    ensures |r| == |diffs|
  {
    if diffs == [] then []
    else
      var x := diffs[|diffs| - 1];
      CleanDiffs(diffs[..|diffs| - 1], kind) +
      [if x != "" && x[0] == '=' && |x| < MIN_SAME_LENGTH then [kind] + x[1..] else x]
  }

  /** The pieces that do not have this lead. */
  function Without(diffs: seq<string>, lead: char): seq<string> {
    if diffs == [] then []
    else
      var x := diffs[|diffs| - 1];
      Without(diffs[..|diffs| - 1], lead) + if x != "" && x[0] == lead then [] else [x]
  }

  lemma CleanOneMore(w: seq<string>, x: string, op: char)
    requires x != "" && (x[0] == '=' || x[0] == op) && OneSided(CleanDiffs(w, op), op)
    ensures Shown(CleanDiffs(w + [x], op)) == Shown(CleanDiffs(w, op)) + x[1..]
    ensures OneSided(CleanDiffs(w + [x], op), op)
  {
    assert (w + [x])[..|w|] == w;
    var cleaned := if x[0] == '=' && |x| < MIN_SAME_LENGTH then [op] + x[1..] else x;
    assert CleanDiffs(w + [x], op) == CleanDiffs(w, op) + [cleaned];
    hide CleanDiffs;
    assert (CleanDiffs(w, op) + [cleaned])[..|w|] == CleanDiffs(w, op);
  }

  /** One side of a fine diff, cleaned, shows exactly what that side of the diff reads. */
  lemma {:induction false} CleanShowsSide(diffs: seq<string>, op: char, other: char)
    requires WellFormed(diffs) && ((op == '-' && other == '+') || (op == '+' && other == '-'))
    ensures Shown(CleanDiffs(Without(diffs, other), op)) == Concat(Side(diffs, op))
    ensures OneSided(CleanDiffs(Without(diffs, other), op), op)
  {
    if diffs != [] {
      var init, x := diffs[..|diffs| - 1], diffs[|diffs| - 1];
      CleanShowsSide(init, op, other);
      assert Side(diffs, op) == if x[0] == other then Side(init, op) else Side(init, op) + [x[1..]];
      var w := Without(init, other);
      if x[0] != other {
        assert Without(diffs, other) == w + [x];
        assert (Side(init, op) + [x[1..]])[..|Side(init, op)|] == Side(init, op);
        hide CleanDiffs, Without, Side, Shown, OneSided;
        CleanOneMore(w, x, op);
      } else {
        assert Without(diffs, other) == w;
      }
    }
  }

  /** A side's pieces are all kept or all of that side's kind. */
  ghost predicate OneSided(pieces: seq<string>, op: char) {
    forall i :: 0 <= i < |pieces| ==> pieces[i] != "" && (pieces[i][0] == '=' || pieces[i][0] == op)
  }

  /** What cleaning does to the marks: short kept runs get the side's own mark. */
  lemma {:induction false} CleanMarks(diffs: seq<string>, op: char, other: char)
    requires WellFormed(diffs) && Maximal(diffs) && ((op == '-' && other == '+') || (op == '+' && other == '-'))
    ensures MarkedSteps(Marks(diffs), Marks(CleanDiffs(Without(diffs, other), op)), op) && Steps(Marks(diffs))
  {
    if diffs != [] {
      var init, x := diffs[..|diffs| - 1], diffs[|diffs| - 1];
      CleanMarks(init, op, other);
      LastMark(diffs);
      WithoutLast(diffs, other);
      hide MarkedSteps, Steps, Marks, CleanDiffs, Maximal, Without;
      CleanMarksNext(Marks(init), Without(init, other), x, op, other);
    }
  }

  lemma WithoutLast(diffs: seq<string>, other: char)
    requires diffs != [] && diffs[|diffs| - 1] != ""
    ensures var w, x := Without(diffs[..|diffs| - 1], other), diffs[|diffs| - 1];
      Without(diffs, other) == if x[0] == other then w else w + [x]
  {
  }

  /** Neighbouring pieces have different marks. */
  lemma LastMark(diffs: seq<string>)
    requires diffs != [] && WellFormed(diffs) && Maximal(diffs)
    ensures var init, x := diffs[..|diffs| - 1], diffs[|diffs| - 1];
      && |x| > 1 && Marks(diffs) == Marks(init) + Repeat(x[0], |x| - 1)
      && (Marks(init) != "" ==> Marks(init)[|Marks(init)| - 1] != x[0])
  {
  }

  lemma CleanMarksNext(p: string, w: seq<string>, x: string, op: char, other: char)
    requires MarkedSteps(p, Marks(CleanDiffs(w, op)), op) && Steps(p)
    requires (op == '-' && other == '+') || (op == '+' && other == '-')
    requires |x| > 1 && (x[0] == '=' || x[0] == '-' || x[0] == '+') && (p != "" ==> p[|p| - 1] != x[0])
    ensures Steps(p + Repeat(x[0], |x| - 1))
    ensures MarkedSteps(p + Repeat(x[0], |x| - 1), Marks(CleanDiffs(if x[0] == other then w else w + [x], op)), op)
  {
    var marks := Marks(CleanDiffs(w, op));
    MarkedNext(p, marks, op, x[0], |x| - 1);
    CleanNext(w, x, op);
    assert marks + "" == marks;
    hide MarkedSteps, Steps, Marks, CleanDiffs;
  }

  lemma CleanNext(w: seq<string>, x: string, op: char)
    requires x != ""
    ensures Marks(CleanDiffs(w + [x], op)) == Marks(CleanDiffs(w, op))
      + Repeat(if x[0] == '=' && |x| - 1 < 4 then op else x[0], |x| - 1)
    ensures Unchanged(CleanDiffs(w + [x], op)) == Unchanged(CleanDiffs(w, op))
      + if x[0] == '=' && (|x| - 1 >= 4 || op == '=') then [if |x| - 1 >= 4 then x else [op] + x[1..]] else []
  {
  }

  /** Both sides keep the same pieces. */
  lemma {:induction false} SameUnchanged(diffs: seq<string>)
    requires WellFormed(diffs)
    ensures Unchanged(CleanDiffs(Without(diffs, '+'), '-')) == Unchanged(CleanDiffs(Without(diffs, '-'), '+'))
  {
    if diffs != [] {
      var init, x := diffs[..|diffs| - 1], diffs[|diffs| - 1];
      SameUnchanged(init);
      assert Without(diffs, '+') == if x[0] == '+' then Without(init, '+') else Without(init, '+') + [x];
      assert Without(diffs, '-') == if x[0] == '-' then Without(init, '-') else Without(init, '-') + [x];
      hide CleanDiffs, Unchanged, Without;
      CleanNext(Without(init, '+'), x, '-');
      CleanNext(Without(init, '-'), x, '+');
    }
  }

  /** The two sides show their texts, and mark as unchanged what one script of fewest changes
      keeps in runs of at least four characters, and nothing else. */
  ghost predicate Highlighted(p: string, from: string, to: string, left: seq<string>, right: seq<string>) {
    ShortestScript(p, from, to) && Marked(p, Marks(left), '-') && Marked(p, Marks(right), '+')
  }

  method FineDiffs(from: string, to: string) returns (left: seq<string>, right: seq<string>)
    ensures Shown(left) == from && Shown(right) == to
    ensures OneSided(left, '-') && OneSided(right, '+')
    ensures Unchanged(left) == Unchanged(right)
    ensures exists p: string :: Highlighted(p, from, to, left, right)
  {
    var cdiffs := MyersDiff(from, to);
    left := CleanDiffs(Without(cdiffs, '+'), '-');
    right := CleanDiffs(Without(cdiffs, '-'), '+');
    CleanShowsSide(cdiffs, '-', '+');
    CleanShowsSide(cdiffs, '+', '-');
    SameUnchanged(cdiffs);
    FineMarks(cdiffs, from, to);
  }

  lemma FineMarks(diffs: seq<string>, from: string, to: string)
    requires WellFormed(diffs) && Maximal(diffs) && ShortestScript(Marks(diffs), from, to)
    ensures Highlighted(Marks(diffs), from, to, CleanDiffs(Without(diffs, '+'), '-'),
      CleanDiffs(Without(diffs, '-'), '+'))
  {
    hide Marks, CleanDiffs, Without, Maximal, WellFormed, ShortestScript, MarkedSteps, Marked, Steps;
    CleanMarks(diffs, '-', '+');
    CleanMarks(diffs, '+', '-');
    StepsMark(Marks(diffs), Marks(CleanDiffs(Without(diffs, '+'), '-')), '-');
    StepsMark(Marks(diffs), Marks(CleanDiffs(Without(diffs, '-'), '+')), '+');
  }
}

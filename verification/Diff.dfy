/** tools/ebert/diff/diff.go: the line diff of two texts. */
module Diff {
  import opened EditScript
  import opened LineDiff
  import Myers
  import Text

  datatype DiffError = ExpectedMatch(from: string, to: string) | UnknownEdit(e: char) | NoMinimalDiff

  datatype Result<T> = Ok(value: T) | Err(error: DiffError)

  /** The lines of a text; the empty text has none. */
  function Lines(s: string): seq<string> {
    if |s| > 0 then Text.Split(s, '\n') else []
  }

  /** Replaying a script over the two files. Running past the end of a file would panic,
      so the caller owes a script that consumes no more than there is. */
  method BuildDiffs(from: seq<string>, to: seq<string>, edits: string) returns (r: Result<seq<string>>)
    requires FromLen(edits) <= |from| && ToLen(edits) <= |to|
    ensures r.Ok? <==> Valid(edits, from, to)
    ensures r.Ok? ==> IsDiff(r.value, from[..FromLen(edits)], to[..ToLen(edits)]) && Cost(r.value) == Changes(edits)
  {
    var diffs: seq<string> := [];
    var fi, ti := 0, 0;
    var i := 0;
    EmptyDiff();
    while i < |edits|
      invariant 0 <= i <= |edits|
      invariant Valid(edits[..i], from, to)
      invariant fi == FromLen(edits[..i]) <= |from| && ti == ToLen(edits[..i]) <= |to|
      invariant IsDiff(diffs, from[..fi], to[..ti]) && Cost(diffs) == Changes(edits[..i])
    {
      var e := edits[i];
      Consumes(edits, i);
      InvalidAt(edits, i, from, to);
      if e == '=' {
        if from[fi] != to[ti] {
          return Err(ExpectedMatch(from[fi], to[ti]));
        }
        BuildStep(diffs, from, to, fi, ti, e, from[fi]);
        diffs := diffs + [[e] + from[fi]];
        fi := fi + 1;
        ti := ti + 1;
      } else if e == '-' {
        BuildStep(diffs, from, to, fi, ti, e, from[fi]);
        diffs := diffs + [[e] + from[fi]];
        fi := fi + 1;
      } else if e == '+' {
        BuildStep(diffs, from, to, fi, ti, e, to[ti]);
        diffs := diffs + [[e] + to[ti]];
        ti := ti + 1;
      } else {
        return Err(UnknownEdit(e));
      }
      i := i + 1;
    }
    assert edits[..|edits|] == edits;
    return Ok(diffs);
  }

  /** A prefix of a script consumes no more than the script does. */
  lemma {:induction false} Consumes(p: string, i: int)
    requires 0 <= i < |p|
    ensures p[..i + 1][..i] == p[..i]
    ensures FromLen(p[..i]) + (if p[i] == '+' then 0 else 1) == FromLen(p[..i + 1]) <= FromLen(p)
    ensures ToLen(p[..i]) + (if p[i] == '-' then 0 else 1) == ToLen(p[..i + 1]) <= ToLen(p)
    ensures Changes(p[..i]) + (if p[i] == '=' then 0 else 1) == Changes(p[..i + 1])
    decreases |p|
  {
    assert p[..i + 1][..i] == p[..i];
    if i + 1 < |p| {
      Consumes(p[..|p| - 1], i);
      assert p[..|p| - 1][..i + 1] == p[..i + 1] && p[..|p| - 1][..i] == p[..i];
    } else {
      assert p[..i + 1] == p;
    }
  }

  lemma {:induction false} ValidPrefix<T>(p: string, i: int, from: seq<T>, to: seq<T>)
    requires Valid(p, from, to) && 0 <= i <= |p|
    ensures Valid(p[..i], from, to)
    decreases |p|
  {
    if i < |p| {
      ValidPrefix(p[..|p| - 1], i, from, to);
      assert p[..|p| - 1][..i] == p[..i];
    } else {
      assert p[..i] == p;
    }
  }

  /** A valid script has a valid step everywhere. */
  lemma InvalidAt<T>(p: string, i: int, from: seq<T>, to: seq<T>)
    requires 0 <= i < |p| && FromLen(p) <= |from| && ToLen(p) <= |to|
    ensures Valid(p, from, to) ==> p[i] == '=' || p[i] == '-' || p[i] == '+'
    ensures p[i] == '=' ==> FromLen(p[..i]) < |from| && ToLen(p[..i]) < |to|
    ensures p[i] == '=' && Valid(p, from, to) ==> to[ToLen(p[..i])] == from[FromLen(p[..i])]
    ensures Valid(p[..i], from, to)
      && (p[i] == '-' || p[i] == '+' || (p[i] == '=' && to[ToLen(p[..i])] == from[FromLen(p[..i])]))
      ==> Valid(p[..i + 1], from, to)
  {
    Consumes(p, i);
    if Valid(p, from, to) {
      ValidPrefix(p, i + 1, from, to);
    }
  }

  lemma BuildStep(ds: seq<string>, from: seq<string>, to: seq<string>, fi: int, ti: int, e: char, line: string)
    requires 0 <= fi <= |from| && 0 <= ti <= |to| && IsDiff(ds, from[..fi], to[..ti])
    requires e == '=' || e == '-' || e == '+'
    requires e != '+' ==> fi < |from| && line == from[fi]
    requires e != '-' ==> ti < |to| && line == to[ti]
    ensures IsDiff(ds + [[e] + line], from[..if e == '+' then fi else fi + 1], to[..if e == '-' then ti else ti + 1])
    ensures Cost(ds + [[e] + line]) == Cost(ds) + if e == '=' then 0 else 1
  {
    IsDiffSnoc(ds, from[..fi], to[..ti], e, line);
    assert e != '+' ==> from[..fi] + [line] == from[..fi + 1];
    assert e != '-' ==> to[..ti] + [line] == to[..ti + 1];
    assert (ds + [[e] + line])[..|ds|] == ds;
  }

  /** A shortest diff of two files; it never fails. */
  method MyersDiff(from: seq<string>, to: seq<string>) returns (r: Result<seq<string>>)
    ensures r.Ok? && Shortest(r.value, from, to)
  {
    if |from| + |to| == 0 {
      EmptyDiff();
      return Ok([]);
    }
    var found := Myers.Search(from, to);
    match found
    case Found(edits) =>
      r := BuildDiffs(from, to, edits);
      assert from[..|from|] == from && to[..|to|] == to;
      forall other | IsDiff(other, from, to)
        ensures Cost(r.value) <= Cost(other)
      {
        LeadsValid(other, from, to);
      }
    case Failed =>
      r := Err(NoMinimalDiff);
  }

  method FindCommonPrefix(from: seq<string>, to: seq<string>) returns (k: nat)
    ensures k <= |from| && k <= |to| && from[..k] == to[..k]
    ensures k < |from| && k < |to| ==> from[k] != to[k]
  {
    var min := |from|;
    if |to| < min {
      min := |to|;
    }
    for i := 0 to min
      invariant from[..i] == to[..i]
    {
      if from[i] != to[i] {
        return i;
      }
    }
    return min;
  }

  method FindCommonSuffix(from: seq<string>, to: seq<string>) returns (k: nat)
    ensures k <= |from| && k <= |to| && from[|from| - k..] == to[|to| - k..]
    ensures k < |from| && k < |to| ==> from[|from| - k - 1] != to[|to| - k - 1]
  {
    var min := |from|;
    var f, t := from, to;
    if |to| < min {
      min := |to|;
      f := f[|f| - min..];
    } else {
      t := t[|t| - min..];
    }
    var i := min;
    while i > 0
      invariant 0 <= i <= min && f[i..] == t[i..]
    {
      if f[i - 1] != t[i - 1] {
        return min - i;
      }
      i := i - 1;
    }
    return min;
  }

  /** Appending lines lo up to hi as kept lines: one of the two loops around the middle. */
  method AppendKept(diffs: seq<string>, lines: seq<string>, lo: int, hi: int) returns (r: seq<string>)
    requires 0 <= lo <= hi <= |lines|
    ensures r == diffs + Kept(lines[lo..hi])
  {
    r := diffs;
    for i := lo to hi
      invariant r == diffs + Kept(lines[lo..i])
    {
      r := r + ["=" + lines[i]];
    }
  }

  /** The texts' lines are diffed between their common ends; the result is the diff's lines
      joined. It always succeeds, reading the output back line by line gives a shortest
      diff, and its two sides joined are the two input texts. */
  method Compute(from: string, to: string) returns (r: Result<string>)
    ensures r.Ok?
    ensures Shortest(Lines(r.value), Lines(from), Lines(to))
    ensures Text.Join(Side(Lines(r.value), '-'), '\n') == from
    ensures Text.Join(Side(Lines(r.value), '+'), '\n') == to
  {
    hide Shortest, Side, Kept, Text.Split, Text.Join;
    var fromLines, toLines := [], [];
    if |from| > 0 {
      fromLines := Text.Split(from, '\n');
    }
    if |to| > 0 {
      toLines := Text.Split(to, '\n');
    }
    var prefix := FindCommonPrefix(fromLines, toLines);
    var suffix := FindCommonSuffix(fromLines[prefix..], toLines[prefix..]);
    var middle := MyersDiff(fromLines[prefix..|fromLines| - suffix], toLines[prefix..|toLines| - suffix]);
    match middle
    case Err(error) =>
      r := Err(error);
    case Ok(lines) =>
      var diffs := AppendKept([], fromLines, 0, prefix);
      diffs := diffs + lines;
      diffs := AppendKept(diffs, fromLines, |fromLines| - suffix, |fromLines|);
      Trimmed(fromLines, toLines, prefix, suffix, lines, diffs);
      LinesOfJoin(diffs, from, to);
      r := Ok(Text.Join(diffs, '\n'));
  }

  /** What the trimming leaves is put back around a shortest diff of the middles. */
  lemma Trimmed(from: seq<string>, to: seq<string>, prefix: nat, suffix: nat, middle: seq<string>, all: seq<string>)
    requires prefix + suffix <= |from| && prefix + suffix <= |to|
    requires from[..prefix] == to[..prefix]
    requires from[prefix..][|from| - prefix - suffix..] == to[prefix..][|to| - prefix - suffix..]
    requires Shortest(middle, from[prefix..|from| - suffix], to[prefix..|to| - suffix])
    requires all == [] + Kept(from[0..prefix]) + middle + Kept(from[|from| - suffix..|from|])
    ensures Shortest(all, from, to)
  {
    hide Shortest, Kept;
    var head, tail := from[..prefix], from[|from| - suffix..];
    assert tail == from[prefix..][|from| - prefix - suffix..];
    TrimmedIsShortest(middle, head, from[prefix..|from| - suffix], to[prefix..|to| - suffix], tail);
    assert head + from[prefix..|from| - suffix] + tail == from;
    assert head + to[prefix..|to| - suffix] + tail == to;
    assert from[0..prefix] == head && from[|from| - suffix..|from|] == tail;
    assert all == Kept(head) + middle + Kept(tail);
  }

  /** No line of a diff has a newline if no line of the two files has one. */
  lemma {:induction false} NoNewline(ds: seq<string>)
    requires WellFormed(ds)
    requires forall line | line in Side(ds, '-') + Side(ds, '+') :: '\n' !in line
    ensures forall line | line in ds :: '\n' !in line
  {
    if ds != [] {
      var init, last := ds[..|ds| - 1], ds[|ds| - 1];
      assert Side(init, '-') <= Side(ds, '-') && Side(init, '+') <= Side(ds, '+');
      NoNewline(init);
      assert last[1..] in Side(ds, '-') + Side(ds, '+');
      assert last == [last[0]] + last[1..] && ds == init + [last];
    }
  }

  /** Joining the lines of a diff loses nothing. */
  lemma LinesOfJoin(ds: seq<string>, from: string, to: string)
    requires Shortest(ds, Lines(from), Lines(to))
    ensures Lines(Text.Join(ds, '\n')) == ds
    ensures Text.Join(Side(ds, '-'), '\n') == from && Text.Join(Side(ds, '+'), '\n') == to
  {
    Text.JoinSplit(from, '\n');
    Text.JoinSplit(to, '\n');
    NoNewline(ds);
    if ds != [] {
      Text.SplitJoin(ds, '\n');
      assert Text.Join(ds, '\n') != "";
    }
  }
}

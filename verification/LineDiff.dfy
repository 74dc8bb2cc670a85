/** What a line diff means, and when it is shortest. A diff is a list of lines, each led
    by '=' (kept), '-' (only in the old file) or '+' (only in the new one). */
module LineDiff {
  import opened EditScript

  /** The lines led by '=' or by op, in order, without their lead. */
  ghost function Side(ds: seq<string>, op: char): seq<string> {
    if ds == [] then []
    else
      var line := ds[|ds| - 1];
      Side(ds[..|ds| - 1], op) + if line != "" && (line[0] == '=' || line[0] == op) then [line[1..]] else []
  }

  /** The number of lines that are not kept. */
  ghost function Cost(ds: seq<string>): nat {
    if ds == [] then 0
    else Cost(ds[..|ds| - 1]) + if ds[|ds| - 1] != "" && ds[|ds| - 1][0] == '=' then 0 else 1
  }

  ghost predicate WellFormed(ds: seq<string>) {
    forall i :: 0 <= i < |ds| ==> ds[i] != "" && (ds[i][0] == '=' || ds[i][0] == '-' || ds[i][0] == '+')
  }

  /** ds reads as `from` on its '=' and '-' lines and as `to` on its '=' and '+' lines. */
  ghost predicate IsDiff(ds: seq<string>, from: seq<string>, to: seq<string>) {
    WellFormed(ds) && Side(ds, '-') == from && Side(ds, '+') == to
  }

  /** No diff between the same files changes fewer lines. */
  ghost predicate Shortest(ds: seq<string>, from: seq<string>, to: seq<string>) {
    IsDiff(ds, from, to) && forall other :: IsDiff(other, from, to) ==> Cost(ds) <= Cost(other)
  }

  lemma {:induction false} SideConcat(a: seq<string>, b: seq<string>, op: char)
    ensures Side(a + b, op) == Side(a, op) + Side(b, op)
  {
    if b == [] {
      assert a + b == a;
    } else {
      SideConcat(a, b[..|b| - 1], op);
      assert (a + b)[..|a + b| - 1] == a + b[..|b| - 1];
    }
  }

  /** The leads of a diff's lines form an edit script for its two sides. */
  ghost function Leads(ds: seq<string>): string
    requires WellFormed(ds)
  {
    if ds == [] then "" else Leads(ds[..|ds| - 1]) + [ds[|ds| - 1][0]]
  }

  lemma {:induction false} LeadsValid(ds: seq<string>, from: seq<string>, to: seq<string>)
    requires WellFormed(ds) && Side(ds, '-') <= from && Side(ds, '+') <= to
    ensures Valid(Leads(ds), from, to) && Changes(Leads(ds)) == Cost(ds)
    ensures FromLen(Leads(ds)) == |Side(ds, '-')| && ToLen(Leads(ds)) == |Side(ds, '+')|
  {
    if ds != [] {
      var init := ds[..|ds| - 1];
      LeadsValid(init, from, to);
      Extend(Leads(init), ds[|ds| - 1][0], from, to);
    }
  }

  // ----- Shortest diffs are longest common subsequences -----

  ghost predicate IsSubsequence(c: seq<string>, s: seq<string>) {
    c == [] ||
    (s != [] &&
     ((c[|c| - 1] == s[|s| - 1] && IsSubsequence(c[..|c| - 1], s[..|s| - 1])) || IsSubsequence(c, s[..|s| - 1])))
  }

  ghost predicate Common(c: seq<string>, from: seq<string>, to: seq<string>) {
    IsSubsequence(c, from) && IsSubsequence(c, to)
  }

  ghost predicate LongestCommon(c: seq<string>, from: seq<string>, to: seq<string>) {
    Common(c, from, to) && forall other :: Common(other, from, to) ==> |other| <= |c|
  }

  lemma SubsequenceSnoc(c: seq<string>, s: seq<string>, x: string)
    requires IsSubsequence(c, s)
    ensures IsSubsequence(c, s + [x]) && IsSubsequence(c + [x], s + [x])
  {
    assert (s + [x])[..|s|] == s && (c + [x])[..|c|] == c;
  }

  lemma SideSnoc(ds: seq<string>, e: char, line: string, op: char)
    ensures Side(ds + [[e] + line], op) == if e == '=' || e == op then Side(ds, op) + [line] else Side(ds, op)
  {
    assert (ds + [[e] + line])[..|ds|] == ds;
    assert ([e] + line)[1..] == line;
  }

  lemma IsDiffSnoc(ds: seq<string>, from: seq<string>, to: seq<string>, e: char, line: string)
    requires IsDiff(ds, from, to) && (e == '=' || e == '-' || e == '+')
    ensures IsDiff(ds + [[e] + line], if e == '+' then from else from + [line], if e == '-' then to else to + [line])
    ensures Side(ds + [[e] + line], '=') == if e == '=' then Side(ds, '=') + [line] else Side(ds, '=')
  {
    SideSnoc(ds, e, line, '-');
    SideSnoc(ds, e, line, '+');
    SideSnoc(ds, e, line, '=');
  }

  /** The kept lines are a common subsequence of the two sides. */
  lemma {:induction false} KeptIsCommon(ds: seq<string>)
    requires WellFormed(ds)
    ensures Common(Side(ds, '='), Side(ds, '-'), Side(ds, '+'))
  {
    hide IsSubsequence;
    if ds != [] {
      var init, e, line := ds[..|ds| - 1], ds[|ds| - 1][0], ds[|ds| - 1][1..];
      KeptIsCommon(init);
      assert [e] + line == ds[|ds| - 1] && ds == init + [ds[|ds| - 1]];
      SideSnoc(init, e, line, '=');
      SideSnoc(init, e, line, '-');
      SideSnoc(init, e, line, '+');
      SubsequenceSnoc(Side(init, '='), Side(init, '-'), line);
      SubsequenceSnoc(Side(init, '='), Side(init, '+'), line);
    } else {
      EmptyDiff();
    }
  }

  lemma EmptyDiff()
    ensures IsDiff([], [], []) && Side([], '=') == [] && Common([], [], [])
  {
  }

  /** The number of kept lines determines the cost. */
  lemma {:induction false} CostOfKept(ds: seq<string>)
    requires WellFormed(ds)
    ensures Cost(ds) == |Side(ds, '-')| + |Side(ds, '+')| - 2 * |Side(ds, '=')|
  {
    if ds != [] {
      CostOfKept(ds[..|ds| - 1]);
    }
  }

  /** A common subsequence that needs the last lines of both files ends with them. */
  lemma LastShared(c: seq<string>, from: seq<string>, to: seq<string>)
    requires Common(c, from, to) && from != [] && to != []
    requires !IsSubsequence(c, from[..|from| - 1]) && !IsSubsequence(c, to[..|to| - 1])
    ensures c != [] && c == c[..|c| - 1] + [from[|from| - 1]] && from[|from| - 1] == to[|to| - 1]
    ensures Common(c[..|c| - 1], from[..|from| - 1], to[..|to| - 1])
  {
  }

  /** Every common subsequence is what some diff keeps. */
  lemma {:induction false} DiffKeeping(c: seq<string>, from: seq<string>, to: seq<string>) returns (ds: seq<string>)
    requires Common(c, from, to)
    ensures IsDiff(ds, from, to) && Side(ds, '=') == c
    decreases |from| + |to|
  {
    hide Side, IsDiff;
    var m, n := |from|, |to|;
    assert m > 0 ==> from[..m - 1] + [from[m - 1]] == from;
    assert n > 0 ==> to[..n - 1] + [to[n - 1]] == to;
    EmptyDiff();
    if m > 0 && IsSubsequence(c, from[..m - 1]) {
      ds := DiffKeeping(c, from[..m - 1], to);
      IsDiffSnoc(ds, from[..m - 1], to, '-', from[m - 1]);
      ds := ds + ["-" + from[m - 1]];
    } else if n > 0 && IsSubsequence(c, to[..n - 1]) {
      ds := DiffKeeping(c, from, to[..n - 1]);
      IsDiffSnoc(ds, from, to[..n - 1], '+', to[n - 1]);
      ds := ds + ["+" + to[n - 1]];
    } else if m > 0 && n > 0 {
      LastShared(c, from, to);
      ds := DiffKeeping(c[..|c| - 1], from[..m - 1], to[..n - 1]);
      IsDiffSnoc(ds, from[..m - 1], to[..n - 1], '=', from[m - 1]);
      ds := ds + ["=" + from[m - 1]];
    } else {
      ds := [];
    }
  }

  /** A diff is shortest exactly when it keeps a longest common subsequence, so the cost of
      a shortest diff is m + n minus twice the length of one. */
  lemma ShortestIffLongestKept(ds: seq<string>, from: seq<string>, to: seq<string>)
    requires IsDiff(ds, from, to)
    ensures Shortest(ds, from, to) <==> LongestCommon(Side(ds, '='), from, to)
    ensures Cost(ds) == |from| + |to| - 2 * |Side(ds, '=')|
  {
    KeptIsCommon(ds);
    CostOfKept(ds);
    forall other | IsDiff(other, from, to)
      ensures Common(Side(other, '='), from, to) && Cost(other) == |from| + |to| - 2 * |Side(other, '=')|
    {
      KeptIsCommon(other);
      CostOfKept(other);
    }
    forall c | Common(c, from, to)
      ensures exists other :: IsDiff(other, from, to) && Side(other, '=') == c
    {
      var other := DiffKeeping(c, from, to);
    }
  }

  // ----- Trimming what two files share at either end -----

  lemma {:induction false} DropLast(c: seq<string>, s: seq<string>)
    requires c != [] && IsSubsequence(c, s)
    ensures IsSubsequence(c[..|c| - 1], s)
  {
    var last := |s| - 1;
    if !IsSubsequence(c, s[..last]) && |c| > 1 {
      DropLast(c[..|c| - 1], s[..last]);
    } else if |c| > 1 {
      DropLast(c, s[..last]);
    }
  }

  lemma {:induction false} DropFirst(c: seq<string>, h: string, s: seq<string>)
    requires c != [] && IsSubsequence(c, [h] + s)
    ensures IsSubsequence(c[1..], s)
  {
    var n, m := |s|, |c| - 1;
    if m == 0 {
      assert c[1..] == [];
    } else if n == 0 {
      assert s == [];
      TooLong(c, h);
      assert false;
    } else {
      assert ([h] + s)[..n] == [h] + s[..n - 1] && ([h] + s)[n] == s[n - 1];
      if IsSubsequence(c, [h] + s[..n - 1]) {
        DropFirst(c, h, s[..n - 1]);
      } else {
        DropFirst(c[..m], h, s[..n - 1]);
        var d := c[1..];
        assert d[..m - 1] == c[..m][1..] && d[m - 1] == s[n - 1];
      }
    }
  }

  /** More than one line is no part of a single one. */
  lemma TooLong(c: seq<string>, h: string)
    requires |c| > 1
    ensures !IsSubsequence(c, [h] + [])
  {
    assert ([h] + [])[..0] == [];
    assert !IsSubsequence(c[..|c| - 1], []) && !IsSubsequence(c, []);
  }

  lemma {:induction false} AddFirst(c: seq<string>, h: string, s: seq<string>)
    requires IsSubsequence(c, s)
    ensures IsSubsequence([h] + c, [h] + s)
  {
    var n := |s|;
    if n > 0 {
      assert ([h] + s)[..n] == [h] + s[..n - 1];
      if IsSubsequence(c, s[..n - 1]) {
        AddFirst(c, h, s[..n - 1]);
      } else {
        AddFirst(c[..|c| - 1], h, s[..n - 1]);
        assert ([h] + c)[..|c|] == [h] + c[..|c| - 1];
      }
    } else {
      assert [h] + c == [h] && [h] + s == [h];
    }
  }

  lemma SharedFirst(c: seq<string>, h: string, from: seq<string>, to: seq<string>)
    requires LongestCommon(c, from, to)
    ensures LongestCommon([h] + c, [h] + from, [h] + to)
  {
    AddFirst(c, h, from);
    AddFirst(c, h, to);
    forall other | Common(other, [h] + from, [h] + to)
      ensures |other| <= |c| + 1
    {
      if other != [] {
        DropFirst(other, h, from);
        DropFirst(other, h, to);
        assert Common(other[1..], from, to);
      }
    }
  }

  lemma SharedLast(c: seq<string>, h: string, from: seq<string>, to: seq<string>)
    requires LongestCommon(c, from, to)
    ensures LongestCommon(c + [h], from + [h], to + [h])
  {
    assert (c + [h])[..|c|] == c && (from + [h])[..|from|] == from && (to + [h])[..|to|] == to;
    forall other | Common(other, from + [h], to + [h])
      ensures |other| <= |c| + 1
    {
      if other != [] {
        var init := other[..|other| - 1];
        if IsSubsequence(other, from) { DropLast(other, from); }
        if IsSubsequence(other, to) { DropLast(other, to); }
        assert Common(init, from, to);
      }
    }
  }

  lemma {:induction false} SharedHead(c: seq<string>, head: seq<string>, from: seq<string>, to: seq<string>)
    requires LongestCommon(c, from, to)
    ensures LongestCommon(head + c, head + from, head + to)
  {
    hide LongestCommon;
    if head == [] {
      assert head + c == c && head + from == from && head + to == to;
    } else {
      var h, rest := head[0], head[1..];
      SharedHead(c, rest, from, to);
      SharedFirst(rest + c, h, rest + from, rest + to);
      assert [h] + (rest + c) == head + c && [h] + (rest + from) == head + from && [h] + (rest + to) == head + to;
    }
  }

  lemma {:induction false} SharedTail(c: seq<string>, from: seq<string>, to: seq<string>, tail: seq<string>)
    requires LongestCommon(c, from, to)
    ensures LongestCommon(c + tail, from + tail, to + tail)
  {
    hide LongestCommon;
    if tail == [] {
      assert c + tail == c && from + tail == from && to + tail == to;
    } else {
      var h, rest := tail[|tail| - 1], tail[..|tail| - 1];
      SharedTail(c, from, to, rest);
      SharedLast(c + rest, h, from + rest, to + rest);
      assert c + rest + [h] == c + tail && from + rest + [h] == from + tail && to + rest + [h] == to + tail;
    }
  }

  /** Keeping every line. */
  ghost function Kept(lines: seq<string>): seq<string> {
    seq(|lines|, i requires 0 <= i < |lines| => "=" + lines[i])
  }

  lemma {:induction false} KeptSides(lines: seq<string>, op: char)
    ensures Side(Kept(lines), op) == lines
  {
    if lines != [] {
      var n := |lines| - 1;
      KeptSides(lines[..n], op);
      assert Kept(lines) == Kept(lines[..n]) + ["=" + lines[n]];
      SideSnoc(Kept(lines[..n]), '=', lines[n], op);
    }
  }

  lemma KeptWellFormed(lines: seq<string>)
    ensures WellFormed(Kept(lines))
  {
  }

  /** A shortest diff of the middles, between the kept shared ends, is a shortest diff of
      the whole: trimming a common prefix and suffix does not cost a change. */
  lemma TrimmedIsShortest(ds: seq<string>, head: seq<string>, from: seq<string>, to: seq<string>, tail: seq<string>)
    requires Shortest(ds, from, to)
    ensures Shortest(Kept(head) + ds + Kept(tail), head + from + tail, head + to + tail)
  {
    hide Kept, Common, LongestCommon;
    var all := Kept(head) + ds + Kept(tail);
    KeptWellFormed(head);
    KeptWellFormed(tail);
    forall op: char
      ensures Side(all, op) == head + Side(ds, op) + tail
    {
      SideConcat(Kept(head) + ds, Kept(tail), op);
      SideConcat(Kept(head), ds, op);
      KeptSides(head, op);
      KeptSides(tail, op);
    }
    ShortestIffLongestKept(ds, from, to);
    SharedHead(Side(ds, '='), head, from, to);
    SharedTail(head + Side(ds, '='), head + from, head + to, tail);
    ShortestIffLongestKept(all, head + from + tail, head + to + tail);
  }
}

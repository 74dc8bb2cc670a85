/** tools/gigantick/diff.go: the spans of interest around the changes of a diff. */
module Spans {

  datatype Span = Span(start: int, end: int)

  const CONTEXT := 5

  /** The range, ordered, widened by the context and cut off at 0. */
  function Widened(start: int, end: int): Span {
    var lo, hi := if start > end then end else start, if start > end then start else end;
    Span(if lo - CONTEXT < 0 then 0 else lo - CONTEXT, hi + CONTEXT)
  }

  predicate Touches(a: Span, b: Span) {
    (b.end >= a.start && b.start <= a.end) || (b.start >= a.start && b.start <= a.end)
  }

  function Merged(a: Span, b: Span): Span {
    Span(if b.start < a.start then b.start else a.start, if b.end > a.end then b.end else a.end)
  }

  /** Where a widened range goes, looking from span i on. */
  function Placed(spans: seq<Span>, i: nat, w: Span): seq<Span>
    requires i <= |spans|
    decreases |spans| - i
  {
    if i == |spans| then spans + [w]
    else if Touches(spans[i], w) then spans[i := Merged(spans[i], w)]
    else if i > 0 && w.end < spans[i].start && w.start > spans[i - 1].end then spans[..i] + [w] + spans[i..]
    else Placed(spans, i + 1, w)
  }

  /** What validate accepts; it lets neighbours share an end point. */
  ghost predicate Consistent(spans: seq<Span>) {
    && (forall i :: 0 <= i < |spans| ==> spans[i].start <= spans[i].end)
    && (forall i, j :: 0 <= i && j == i + 1 && j < |spans| ==> spans[i].end <= spans[j].start)
  }

  class DiffSpanner {
    var spans: seq<Span>

    constructor ()
      ensures spans == []
    {
      spans := [];
    }

    /** ok is false where the program would abort. */
    method Validate() returns (ok: bool)
      ensures ok == Consistent(spans)
    {
      var i := 0;
      while i < |spans|
        invariant 0 <= i <= |spans|
        invariant Consistent(spans[..i])
      {
        if spans[i].start > spans[i].end {
          return false;
        }
        if i > 0 {
          if spans[i - 1].end > spans[i].start {
            return false;
          }
        }
        assert spans[..i + 1] == spans[..i] + [spans[i]];
        i := i + 1;
      }
      assert spans[..|spans|] == spans;
      return true;
    }

    method Insert(start0: int, end0: int) returns (ok: bool)
      modifies this
      ensures spans == Placed(old(spans), 0, Widened(start0, end0))
      ensures ok == Consistent(spans)
    {
      var start, end := start0, end0;
      if start > end {
        start, end := end, start;
      }
      start := start - CONTEXT;
      if start < 0 {
        start := 0;
      }
      end := end + CONTEXT;
      var i := 0;
      while i < |spans|
        invariant 0 <= i <= |spans| && spans == old(spans)
        invariant Span(start, end) == Widened(start0, end0)
        invariant Placed(spans, 0, Span(start, end)) == Placed(spans, i, Span(start, end))
      {
        if (end >= spans[i].start && start <= spans[i].end) || (start >= spans[i].start && start <= spans[i].end) {
          var s := spans[i];
          if start < s.start {
            s := s.(start := start);
          }
          if end > s.end {
            s := s.(end := end);
          }
          spans := spans[i := s];
          ok := Validate();
          return;
        }
        if i > 0 && end < spans[i].start && start > spans[i - 1].end {
          spans := spans[..i] + [Span(start, end)] + spans[i..];
          ok := Validate();
          return;
        }
        i := i + 1;
      }
      spans := spans + [Span(start, end)];
      ok := Validate();
    }
  }

  // ----- Inserting one range after another -----

  /** Each span is a range, and a gap of at least one separates neighbours. */
  ghost predicate Disjoint(spans: seq<Span>) {
    && (forall i :: 0 <= i < |spans| ==> spans[i].start <= spans[i].end)
    && (forall i, j :: 0 <= i < j < |spans| ==> spans[i].end < spans[j].start)
  }

  ghost predicate InSome(spans: seq<Span>, x: int) {
    exists i :: 0 <= i < |spans| && spans[i].start <= x <= spans[i].end
  }

  /** The row ranges of successive hunks: none starts before the previous one ended. */
  ghost predicate NonDecreasing(ranges: seq<Span>) {
    && (forall i :: 0 <= i < |ranges| ==> 0 <= ranges[i].start <= ranges[i].end)
    && (forall i, j :: 0 <= i && j == i + 1 && j < |ranges| ==> ranges[i].end <= ranges[j].start)
  }

  function InsertAll(ranges: seq<Span>): seq<Span> {
    if ranges == [] then []
    else
      var r := ranges[|ranges| - 1];
      Placed(InsertAll(ranges[..|ranges| - 1]), 0, Widened(r.start, r.end))
  }

  ghost predicate InSomeWidened(ranges: seq<Span>, x: int) {
    0 <= x && exists i :: 0 <= i < |ranges| && ranges[i].start - 5 <= x <= ranges[i].end + 5
  }

  /** Nothing before the last span is in the way of a range that starts after it does. */
  lemma {:induction false} PlacedAtEnd(spans: seq<Span>, i: nat, w: Span)
    requires Disjoint(spans) && spans != [] && i <= |spans| - 1
    requires spans[|spans| - 1].start <= w.start <= w.end
    ensures Placed(spans, i, w) ==
      if w.start <= spans[|spans| - 1].end then spans[|spans| - 1 := Merged(spans[|spans| - 1], w)] else spans + [w]
    decreases |spans| - i
  {
    if i < |spans| - 1 {
      PlacedAtEnd(spans, i + 1, w);
    }
  }

  /** After any non-decreasing run of insertions the spans are sorted and strictly disjoint,
      so validate accepts them; the last one ends where the last range does, widened. */
  lemma {:induction false} SpansSorted(ranges: seq<Span>)
    requires NonDecreasing(ranges)
    ensures Disjoint(InsertAll(ranges)) && Consistent(InsertAll(ranges))
    ensures ranges != [] ==> var spans, r := InsertAll(ranges), ranges[|ranges| - 1];
      && spans != [] && spans[|spans| - 1].end == r.end + CONTEXT
      && spans[|spans| - 1].start <= Widened(r.start, r.end).start
      && (forall i :: 0 <= i < |spans| ==> spans[i].start == 0 || 0 < spans[i].start <= r.start - CONTEXT)
  {
    if ranges != [] {
      var n := |ranges| - 1;
      SpansSorted(ranges[..n]);
      NextPlaced(ranges);
      hide Placed, Touches, Merged, InsertAll;
      var before, w := InsertAll(ranges[..n]), Widened(ranges[n].start, ranges[n].end);
      NextDisjoint(before, w, if n > 0 then ranges[n - 1].start - CONTEXT else 0, ranges[n].start - CONTEXT);
    }
  }

  lemma NextDisjoint(before: seq<Span>, w: Span, was: int, bound: int)
    requires Disjoint(before) && w.start <= w.end && (w.start == 0 || 0 < w.start <= bound)
    requires before != [] ==> was <= bound && before[|before| - 1].start <= w.start && before[|before| - 1].end <= w.end
    requires forall i :: 0 <= i < |before| ==> before[i].start == 0 || 0 < before[i].start <= was
    ensures var spans := if before != [] && w.start <= before[|before| - 1].end
                         then before[|before| - 1 := Merged(before[|before| - 1], w)] else before + [w];
      && Disjoint(spans) && Consistent(spans) && spans[|spans| - 1].end == w.end && spans[|spans| - 1].start <= w.start
      && forall i :: 0 <= i < |spans| ==> spans[i].start == 0 || 0 < spans[i].start <= bound
  {
  }

  /** What one more range does: it is merged into the last span or becomes the last span. */
  lemma NextPlaced(ranges: seq<Span>)
    requires NonDecreasing(ranges) && ranges != []
    requires var before, n := InsertAll(ranges[..|ranges| - 1]), |ranges| - 1;
      && Disjoint(before)
      && (n > 0 ==> before != [])
      && (n > 0 ==> before[|before| - 1].end == ranges[n - 1].end + CONTEXT)
      && (n > 0 ==> before[|before| - 1].start <= Widened(ranges[n - 1].start, ranges[n - 1].end).start)
    ensures var before, n := InsertAll(ranges[..|ranges| - 1]), |ranges| - 1;
      var w := Widened(ranges[n].start, ranges[n].end);
      && (n == 0 ==> before == [])
      && (n > 0 ==> before[|before| - 1].start <= w.start && before[|before| - 1].end <= w.end)
      && InsertAll(ranges) ==
           if before != [] && w.start <= before[|before| - 1].end
           then before[|before| - 1 := Merged(before[|before| - 1], w)] else before + [w]
  {
    var n := |ranges| - 1;
    if n > 0 {
      PlacedAtEnd(InsertAll(ranges[..n]), 0, Widened(ranges[n].start, ranges[n].end));
    }
  }

  /** ... and they cover exactly the union of the widened ranges. */
  lemma {:induction false} SpansAreUnion(ranges: seq<Span>)
    requires NonDecreasing(ranges)
    ensures forall x :: InSome(InsertAll(ranges), x) <==> InSomeWidened(ranges, x)
  {
    if ranges != [] {
      var n := |ranges| - 1;
      SpansAreUnion(ranges[..n]);
      SpansSorted(ranges[..n]);
      NextPlaced(ranges);
      UnionStep(ranges, InsertAll(ranges[..n]), Widened(ranges[n].start, ranges[n].end));
    }
  }

  lemma UnionStep(ranges: seq<Span>, before: seq<Span>, w: Span)
    requires ranges != [] && w == Widened(ranges[|ranges| - 1].start, ranges[|ranges| - 1].end)
    requires w.start <= w.end && ranges[|ranges| - 1].start <= ranges[|ranges| - 1].end
    requires forall x :: InSome(before, x) <==> InSomeWidened(ranges[..|ranges| - 1], x)
    requires before != [] ==> before[|before| - 1].start <= w.start && before[|before| - 1].end <= w.end
    ensures forall x :: InSome(before + [w], x) <==> InSomeWidened(ranges, x)
    ensures before != [] && w.start <= before[|before| - 1].end ==>
      forall x :: InSome(before[|before| - 1 := Merged(before[|before| - 1], w)], x) <==> InSomeWidened(ranges, x)
  {
    hide InSome;
    var n := |ranges| - 1;
    forall x
      ensures InSomeWidened(ranges, x) <==> InSomeWidened(ranges[..n], x) || w.start <= x <= w.end
    {
      if InSomeWidened(ranges[..n], x) {
        var i :| 0 <= i < n && 0 <= x && ranges[..n][i].start - 5 <= x <= ranges[..n][i].end + 5;
        assert ranges[i] == ranges[..n][i];
      }
      if InSomeWidened(ranges, x) && !(w.start <= x <= w.end) {
        var i :| 0 <= i < |ranges| && 0 <= x && ranges[i].start - 5 <= x <= ranges[i].end + 5;
        assert ranges[i] == ranges[..n][i];
      }
    }
    forall x
      ensures InSome(before + [w], x) <==> InSome(before, x) || w.start <= x <= w.end
    {
      InSomeSnoc(before, w, x);
    }
    if before != [] && w.start <= before[|before| - 1].end {
      forall x
        ensures InSome(before[|before| - 1 := Merged(before[|before| - 1], w)], x) <==>
          InSome(before, x) || w.start <= x <= w.end
      {
        InSomeMerged(before, w, x);
      }
    }
  }

  lemma InSomeMerged(spans: seq<Span>, w: Span, x: int)
    requires spans != [] && w.start <= w.end
    requires var last := spans[|spans| - 1]; last.start <= w.start <= last.end <= w.end
    ensures InSome(spans[|spans| - 1 := Merged(spans[|spans| - 1], w)], x) <==>
      InSome(spans, x) || w.start <= x <= w.end
  {
    hide InSome;
    var m := |spans| - 1;
    assert spans == spans[..m] + [spans[m]];
    assert spans[m := Merged(spans[m], w)] == spans[..m] + [Merged(spans[m], w)];
    InSomeSnoc(spans[..m], spans[m], x);
    InSomeSnoc(spans[..m], Merged(spans[m], w), x);
  }

  lemma InSomeSnoc(spans: seq<Span>, s: Span, x: int)
    ensures InSome(spans + [s], x) <==> InSome(spans, x) || s.start <= x <= s.end
  {
    if InSome(spans, x) {
      var i :| 0 <= i < |spans| && spans[i].start <= x <= spans[i].end;
      assert (spans + [s])[i] == spans[i];
    }
    if s.start <= x <= s.end {
      assert (spans + [s])[|spans|] == s;
    }
  }

  // ----- Inserting any range -----

  /** The first span at or after i that the range touches, or the number of spans. */
  function FirstTouched(spans: seq<Span>, i: nat, w: Span): (r: nat)
    requires i <= |spans|
    ensures i <= r <= |spans|
    ensures r < |spans| ==> Touches(spans[r], w)
    ensures forall j :: i <= j < r ==> !Touches(spans[j], w)
    decreases |spans| - i
  {
    if i == |spans| || Touches(spans[i], w) then i else FirstTouched(spans, i + 1, w)
  }

  /** In general insert is not safe: exactly when a range reaches past the start of the span
      after the first it touches, or lies wholly before the first span, the spans come out
      inconsistent and the program aborts. */
  lemma InsertConsistentIff(spans: seq<Span>, start: int, end: int)
    requires Consistent(spans) && start >= 0 && end >= 0
    ensures var w, t := Widened(start, end), FirstTouched(spans, 0, Widened(start, end));
      Consistent(Placed(spans, 0, w)) <==>
        if t < |spans| then t + 1 < |spans| ==> w.end <= spans[t + 1].start
        else spans != [] ==> w.end >= spans[0].start
  {
    var w := Widened(start, end);
    ConsistentIsOrdered(spans);
    PlacedConsistent(spans, 0, w);
  }

  /** Spans that do not overlap; they may share end points. */
  ghost predicate Ordered(spans: seq<Span>) {
    && (forall i :: 0 <= i < |spans| ==> spans[i].start <= spans[i].end)
    && (forall i, j :: 0 <= i < j < |spans| ==> spans[i].end <= spans[j].start)
  }

  /** What validate checks of neighbours holds of any two spans. */
  lemma {:induction false} ConsistentIsOrdered(spans: seq<Span>)
    requires Consistent(spans)
    ensures Ordered(spans)
  {
    if |spans| > 1 {
      var n := |spans| - 1;
      ConsistentIsOrdered(spans[..n]);
      forall i | 0 <= i < n
        ensures spans[i].end <= spans[n].start
      {
        assert spans[..n][i] == spans[i] && spans[..n][n - 1] == spans[n - 1];
      }
      forall i, j | 0 <= i < j < n
        ensures spans[i].end <= spans[j].start
      {
        assert spans[..n][i] == spans[i] && spans[..n][j] == spans[j];
      }
    }
  }

  /** The search for a place has passed spans 0 to i - 1 without stopping. */
  ghost predicate Passed(spans: seq<Span>, i: nat, w: Span) {
    && Ordered(spans) && w.start <= w.end && i <= |spans|
    && (i > 0 && w.start <= spans[i - 1].end ==> w.end < spans[0].start)
  }

  ghost predicate StopsAt(spans: seq<Span>, i: nat, w: Span) {
    i >= |spans| || Touches(spans[i], w) || (i > 0 && w.end < spans[i].start && w.start > spans[i - 1].end)
  }

  /** The condition under which the spans stay consistent, t being the first one touched. */
  ghost predicate Fits(spans: seq<Span>, t: nat, w: Span) {
    if t < |spans| then t + 1 < |spans| ==> w.end <= spans[t + 1].start
    else spans != [] ==> w.end >= spans[0].start
  }

  lemma {:induction false} PlacedConsistent(spans: seq<Span>, i: nat, w: Span)
    requires Passed(spans, i, w)
    ensures Consistent(Placed(spans, i, w)) <==> Fits(spans, FirstTouched(spans, i, w), w)
    decreases |spans| - i
  {
    hide Consistent, Fits;
    if StopsAt(spans, i, w) {
      PlacedHere(spans, i, w);
    } else {
      assert i > 0 ==> spans[0].start <= spans[i].start;
      PlacedConsistent(spans, i + 1, w);
    }
  }

  lemma PlacedHere(spans: seq<Span>, i: nat, w: Span)
    requires Passed(spans, i, w) && StopsAt(spans, i, w)
    ensures Consistent(Placed(spans, i, w)) <==> Fits(spans, FirstTouched(spans, i, w), w)
  {
    hide Consistent;
    if i == |spans| == 0 {
      OneConsistent(w);
    } else if i == |spans| {
      InsertedConsistent(spans, i, w);
      assert spans[0].start <= spans[i - 1].start <= spans[i - 1].end;
      assert spans + [w] == spans[..i] + [w] + spans[i..];
    } else if Touches(spans[i], w) {
      assert i > 0 ==> spans[0].start <= spans[i - 1].start && spans[i - 1].end <= Merged(spans[i], w).start;
      ReplacedConsistent(spans, i, Merged(spans[i], w));
    } else {
      NoneTouched(spans, i, w);
      assert spans[0].start <= spans[i - 1].start <= spans[i - 1].end;
      InsertedConsistent(spans, i, w);
    }
  }

  lemma {:induction false} NoneTouched(spans: seq<Span>, i: nat, w: Span)
    requires Ordered(spans) && i < |spans| && w.start <= w.end < spans[i].start
    ensures FirstTouched(spans, i, w) == |spans|
    decreases |spans| - i
  {
    if i + 1 < |spans| {
      assert spans[i].start <= spans[i + 1].start;
      NoneTouched(spans, i + 1, w);
    }
  }

  lemma InsertedConsistent(spans: seq<Span>, i: nat, w: Span)
    requires Ordered(spans) && 0 < i <= |spans| && w.start <= w.end && (i < |spans| ==> w.end <= spans[i].start)
    ensures Consistent(spans[..i] + [w] + spans[i..]) <==> spans[i - 1].end <= w.start
  {
    var r := spans[..i] + [w] + spans[i..];
    assert r[i - 1] == spans[i - 1] && r[i] == w;
  }

  lemma OneConsistent(w: Span)
    requires w.start <= w.end
    ensures Consistent([] + [w])
  {
  }

  lemma ReplacedConsistent(spans: seq<Span>, i: nat, m: Span)
    requires Ordered(spans) && i < |spans| && m.start <= m.end && (i > 0 ==> spans[i - 1].end <= m.start)
    ensures Consistent(spans[i := m]) <==> (i + 1 < |spans| ==> m.end <= spans[i + 1].start)
  {
    var r := spans[i := m];
    if i + 1 < |spans| {
      assert r[i] == m && r[i + 1] == spans[i + 1];
    }
  }
}

/** tools/ebert/script/diff.js: which characters a fine diff marks. A piece is a text with its
    mark in front: '=' for unchanged, '-' or '+' for changed. */
module Highlights {
  import opened EditScript

  /** The mark of every character that the pieces show. */
  ghost function Marks(pieces: seq<string>): string {
    if pieces == [] then ""
    else
      var last := pieces[|pieces| - 1];
      Marks(pieces[..|pieces| - 1]) + if last == "" then "" else Repeat(last[0], |last| - 1)
  }

  function Repeat(c: char, n: nat): (s: string)
    ensures |s| == n && forall i :: 0 <= i < n ==> s[i] == c
  {
    seq(n, _ => c)
  }

  /** The pieces marked as unchanged. */
  ghost function Unchanged(pieces: seq<string>): seq<string> {
    if pieces == [] then []
    else
      var last := pieces[|pieces| - 1];
      Unchanged(pieces[..|pieces| - 1]) + if last != "" && last[0] == '=' then [last] else []
  }

  /** Step h of the script keeps a character, among at least four kept in a row. */
  ghost predicate LongKept(p: string, h: nat) {
    exists a: nat, b: nat :: a <= h < b <= |p| && b - a >= 4 && KeptFrom(p, a, b)
  }

  ghost predicate KeptFrom(p: string, a: nat, b: nat)
    requires b <= |p|
  {
    forall k :: a <= k < b ==> p[k] == '='
  }

  /** How many characters of the old text ('-') or the new one ('+') the script consumes. */
  ghost function Consumed(p: string, op: char): nat {
    if op == '-' then FromLen(p) else ToLen(p)
  }

  predicate Consumes(step: char, op: char) {
    step == '=' || step == op
  }

  /** The script turns one text into the other with the fewest changes. */
  ghost predicate ShortestScript(p: string, from: string, to: string) {
    Transforms(p, from, to) && forall q: string :: Transforms(q, from, to) ==> Changes(p) <= Changes(q)
  }

  /** Character i of one text is marked unchanged exactly if the script keeps it in a run of at
      least four, and else with the side's own mark. */
  ghost predicate Marked(p: string, marks: string, op: char) {
    && |marks| == Consumed(p, op)
    && forall i :: 0 <= i < |marks| ==>
         && (marks[i] == '=' || marks[i] == op)
         && (marks[i] == '=' <==> exists h: nat :: KeepsAt(p, h, i, op) && LongKept(p, h))
  }

  /** Step h keeps character i. */
  ghost predicate KeepsAt(p: string, h: nat, i: nat, op: char) {
    h < |p| && p[h] == '=' && Consumed(p[..h], op) == i
  }

  // ----- Step by step -----

  /** The mark of the character that step h consumes. */
  ghost function MarkOf(p: string, h: nat, op: char): char
    requires h < |p|
  {
    if p[h] == '=' && LongKept(p, h) then '=' else op
  }

  /** The mark of step h stands at its character. */
  ghost predicate StepMarked(p: string, marks: string, op: char, h: nat)
    requires h < |p|
  {
    Consumes(p[h], op) ==> Consumed(p[..h], op) < |marks| && marks[Consumed(p[..h], op)] == MarkOf(p, h, op)
  }

  ghost predicate MarkedSteps(p: string, marks: string, op: char) {
    && |marks| == Consumed(p, op)
    && forall h :: 0 <= h < |p| ==> StepMarked(p, marks, op, h)
  }

  ghost predicate Sided(op: char) {
    op == '-' || op == '+'
  }

  ghost predicate Steps(p: string) {
    forall h :: 0 <= h < |p| ==> p[h] == '=' || p[h] == '-' || p[h] == '+'
  }

  lemma ConsumedNext(p: string, h: nat, op: char)
    requires h < |p| && Steps(p) && Sided(op)
    ensures Consumed(p[..h + 1], op) == Consumed(p[..h], op) + if Consumes(p[h], op) then 1 else 0
  {
    assert p[..h + 1][..h] == p[..h];
  }

  /** Every character is consumed by some step. */
  lemma {:induction false} StepOf(p: string, n: nat, i: nat, op: char) returns (h: nat)
    requires n <= |p| && Steps(p) && Sided(op) && i < Consumed(p[..n], op)
    ensures h < n && Consumes(p[h], op) && Consumed(p[..h], op) == i
  {
    ConsumedNext(p, n - 1, op);
    hide Consumed;
    if i < Consumed(p[..n - 1], op) {
      h := StepOf(p, n - 1, i, op);
    } else {
      h := n - 1;
    }
  }

  lemma StepsMark(p: string, marks: string, op: char)
    requires MarkedSteps(p, marks, op) && Steps(p) && Sided(op)
    ensures Marked(p, marks, op)
  {
    assert p[..|p|] == p;
    hide Consumed, LongKept;
    forall i: nat | i < |marks|
      ensures marks[i] == '=' || marks[i] == op
      ensures marks[i] == '=' <==> exists h: nat :: KeepsAt(p, h, i, op) && LongKept(p, h)
    {
      var h := StepOf(p, |p|, i, op);
      assert StepMarked(p, marks, op, h);
      if marks[i] == '=' {
        assert KeepsAt(p, h, i, op) && LongKept(p, h);
      }
      forall k: nat | KeepsAt(p, k, i, op) && LongKept(p, k)
        ensures marks[i] == '='
      {
        assert StepMarked(p, marks, op, k);
      }
    }
  }

  // ----- Run by run -----

  /** A run of other steps behind a script leaves its kept runs as they are. */
  lemma LongBefore(p: string, e: char, n: nat, h: nat)
    requires h < |p| && n > 0 && !(e == '=' && p[|p| - 1] == '=')
    ensures LongKept(p + Repeat(e, n), h) <==> LongKept(p, h)
  {
    var more := p + Repeat(e, n);
    assert more[|p|] == e && forall k :: 0 <= k < |p| ==> more[k] == p[k];
    if a: nat, b: nat :| a <= h < b <= |more| && b - a >= 4 && KeptFrom(more, a, b) {
      assert b <= |p|;
      assert KeptFrom(p, a, b);
    }
    if a: nat, b: nat :| a <= h < b <= |p| && b - a >= 4 && KeptFrom(p, a, b) {
      assert KeptFrom(more, a, b);
    }
  }

  /** A step of the run itself is among four kept exactly if the run keeps at least four. */
  lemma LongInside(p: string, e: char, n: nat, h: nat)
    requires |p| <= h < |p| + n && (p != "" ==> !(e == '=' && p[|p| - 1] == '='))
    ensures LongKept(p + Repeat(e, n), h) <==> e == '=' && n >= 4
  {
    var more := p + Repeat(e, n);
    assert more[h] == e == more[|p|] && (p != "" ==> more[|p| - 1] == p[|p| - 1]);
    if a: nat, b: nat :| a <= h < b <= |more| && b - a >= 4 && KeptFrom(more, a, b) {
      assert a >= |p|;
    }
    if e == '=' && n >= 4 {
      assert KeptFrom(more, |p|, |p| + n);
    }
  }

  lemma {:induction false} RepeatConsumed(p: string, e: char, n: nat, op: char)
    requires Sided(op) && (e == '=' || e == '-' || e == '+')
    ensures Consumed(p + Repeat(e, n), op) == Consumed(p, op) + if Consumes(e, op) then n else 0
  {
    if n == 0 {
      assert p + Repeat(e, n) == p;
    } else {
      RepeatConsumed(p, e, n - 1, op);
      assert (p + Repeat(e, n))[..|p| + n - 1] == p + Repeat(e, n - 1);
    }
  }

  lemma EarlierMarked(p: string, marks: string, op: char, e: char, n: nat, more: string, h: nat)
    requires MarkedSteps(p, marks, op) && h < |p| && n > 0 && p[|p| - 1] != e
    ensures StepMarked(p + Repeat(e, n), marks + more, op, h)
  {
    hide Consumed, LongKept;
    assert StepMarked(p, marks, op, h);
    assert (p + Repeat(e, n))[..h] == p[..h] && (p + Repeat(e, n))[h] == p[h];
    LongBefore(p, e, n, h);
  }

  lemma RunMarked(p: string, marks: string, op: char, e: char, n: nat, h: nat)
    requires |marks| == Consumed(p, op) && Sided(op) && |p| <= h < |p| + n
    requires (e == '=' || e == '-' || e == '+') && (p != "" ==> p[|p| - 1] != e)
    ensures var own := if e == '=' && n >= 4 then '=' else op;
      StepMarked(p + Repeat(e, n), marks + (if Consumes(e, op) then Repeat(own, n) else ""), op, h)
  {
    hide Consumed, LongKept;
    assert (p + Repeat(e, n))[..h] == p + Repeat(e, h - |p|) && (p + Repeat(e, n))[h] == e;
    RepeatConsumed(p, e, h - |p|, op);
    LongInside(p, e, n, h);
  }

  /** One more run of equal steps, and the marks of its characters on one side. */
  lemma MarkedNext(p: string, marks: string, op: char, e: char, n: nat)
    requires MarkedSteps(p, marks, op) && Steps(p) && Sided(op) && n > 0
    requires (e == '=' || e == '-' || e == '+') && (p != "" ==> p[|p| - 1] != e)
    ensures var own := if e == '=' && n >= 4 then '=' else op;
      MarkedSteps(p + Repeat(e, n), marks + (if Consumes(e, op) then Repeat(own, n) else ""), op)
    ensures Steps(p + Repeat(e, n))
  {
    var own := if e == '=' && n >= 4 then '=' else op;
    var more, all := p + Repeat(e, n), marks + (if Consumes(e, op) then Repeat(own, n) else "");
    RepeatConsumed(p, e, n, op);
    assert Steps(more);
    hide Consumed, LongKept, Steps, MarkOf;
    forall h: nat | h < |more|
      ensures StepMarked(more, all, op, h)
    {
      if h < |p| {
        EarlierMarked(p, marks, op, e, n, if Consumes(e, op) then Repeat(own, n) else "", h);
      } else {
        RunMarked(p, marks, op, e, n, h);
      }
    }
  }
}

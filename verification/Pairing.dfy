/** tools/ebert/script/diff.js: which lines of a diff share a row. Between two kept lines the
    first deletion stands beside the first addition, the second beside the second, and so on. */
module Pairing {
  import opened LineDiff

  function Max(a: nat, b: nat): nat {
    if a < b then b else a
  }

  /** The deletions since the last kept line. */
  ghost function Deletions(ds: seq<string>): nat
    requires WellFormed(ds)
  {
    if ds == [] then 0
    else
      var before, lead := ds[..|ds| - 1], ds[|ds| - 1][0];
      if lead == '=' then 0 else Deletions(before) + if lead == '-' then 1 else 0
  }

  /** The additions since the last kept line. */
  ghost function Additions(ds: seq<string>): nat
    requires WellFormed(ds)
  {
    if ds == [] then 0
    else
      var before, lead := ds[..|ds| - 1], ds[|ds| - 1][0];
      if lead == '=' then 0 else Additions(before) + if lead == '+' then 1 else 0
  }

  /** The rows up to the last kept line. */
  ghost function Settled(ds: seq<string>): nat
    requires WellFormed(ds)
    decreases |ds|, 0
  {
    if ds == [] then 0
    else
      var before, lead := ds[..|ds| - 1], ds[|ds| - 1][0];
      if lead == '=' then RowCount(before) + 1 else Settled(before)
  }

  ghost function RowCount(ds: seq<string>): nat
    requires WellFormed(ds)
    decreases |ds|, 1
  {
    Settled(ds) + Max(Deletions(ds), Additions(ds))
  }

  /** The row of line i: a deletion comes after the deletions of its run, an addition after the
      additions, and a kept line after all. */
  ghost function RowOf(ds: seq<string>, i: nat): nat
    requires WellFormed(ds) && i < |ds|
  {
    var before := ds[..i];
    if ds[i][0] == '-' then Settled(before) + Deletions(before)
    else if ds[i][0] == '+' then Settled(before) + Additions(before)
    else RowCount(before)
  }

  /** The two maps send line i to its row. */
  ghost predicate LinePlaced(ds: seq<string>, i: nat, leftlines: map<nat, nat>, rightlines: map<nat, nat>)
    requires WellFormed(ds) && i < |ds|
  {
    && (ds[i][0] != '+' ==> MapsTo(leftlines, |Side(ds[..i], '-')|, RowOf(ds, i)))
    && (ds[i][0] != '-' ==> MapsTo(rightlines, |Side(ds[..i], '+')|, RowOf(ds, i)))
  }

  ghost predicate Placed(ds: seq<string>, leftlines: map<nat, nat>, rightlines: map<nat, nat>)
    requires WellFormed(ds)
  {
    forall i :: 0 <= i < |ds| ==> LinePlaced(ds, i, leftlines, rightlines)
  }

  predicate MapsTo(index: map<nat, nat>, line: nat, row: nat) {
    line in index && index[line] == row
  }

  lemma {:induction false} SideGrows(ds: seq<string>, i: nat, op: char)
    requires i <= |ds|
    ensures |Side(ds[..i], op)| <= |Side(ds, op)|
    ensures i < |ds| && ds[i] != "" && (ds[i][0] == '=' || ds[i][0] == op) ==> |Side(ds[..i], op)| < |Side(ds, op)|
    decreases |ds|
  {
    if i < |ds| {
      SideGrows(ds[..|ds| - 1], i, op);
      assert ds[..|ds| - 1][..i] == ds[..i];
    } else {
      assert ds[..i] == ds;
    }
  }

  /** One more line, sent to its row. */
  lemma PlacedNext(ds: seq<string>, leftlines: map<nat, nat>, rightlines: map<nat, nat>,
                   line: string, ll: map<nat, nat>, rl: map<nat, nat>)
    requires WellFormed(ds + [line]) && WellFormed(ds) && Placed(ds, leftlines, rightlines)
    requires var row := RowOf(ds + [line], |ds|);
      && ll == (if line[0] == '+' then leftlines else leftlines[|Side(ds, '-')| := row])
      && rl == (if line[0] == '-' then rightlines else rightlines[|Side(ds, '+')| := row])
    ensures Placed(ds + [line], ll, rl)
  {
    var more := ds + [line];
    assert more[..|ds|] == ds;
    hide Side, Settled, RowCount, Deletions, Additions;
    assert LinePlaced(more, |ds|, ll, rl);
    forall i | 0 <= i < |ds|
      ensures LinePlaced(more, i, ll, rl)
    {
      EarlierPlaced(ds, i, leftlines, rightlines, line, ll, rl);
    }
  }

  lemma EarlierPlaced(ds: seq<string>, i: nat, leftlines: map<nat, nat>, rightlines: map<nat, nat>,
                      line: string, ll: map<nat, nat>, rl: map<nat, nat>)
    requires WellFormed(ds + [line]) && WellFormed(ds) && i < |ds| && LinePlaced(ds, i, leftlines, rightlines)
    requires forall k: nat :: k in leftlines && k < |Side(ds, '-')| ==> MapsTo(ll, k, leftlines[k])
    requires forall k: nat :: k in rightlines && k < |Side(ds, '+')| ==> MapsTo(rl, k, rightlines[k])
    ensures LinePlaced(ds + [line], i, ll, rl)
  {
    assert (ds + [line])[..i] == ds[..i] && (ds + [line])[i] == ds[i];
    SideGrows(ds, i, '-');
    SideGrows(ds, i, '+');
    hide Side, Settled, RowCount, Deletions, Additions;
    assert RowOf(ds + [line], i) == RowOf(ds, i);
    hide RowOf;
  }

  /** How one more line changes the counts. */
  lemma CountsNext(ds: seq<string>, line: string)
    requires WellFormed(ds) && line != "" && (line[0] == '=' || line[0] == '-' || line[0] == '+')
    ensures WellFormed(ds + [line])
    ensures Deletions(ds + [line]) == if line[0] == '=' then 0 else Deletions(ds) + if line[0] == '-' then 1 else 0
    ensures Additions(ds + [line]) == if line[0] == '=' then 0 else Additions(ds) + if line[0] == '+' then 1 else 0
    ensures Settled(ds + [line]) == if line[0] == '=' then RowCount(ds) + 1 else Settled(ds)
    ensures RowOf(ds + [line], |ds|) ==
      if line[0] == '-' then Settled(ds) + Deletions(ds)
      else if line[0] == '+' then Settled(ds) + Additions(ds)
      else RowCount(ds)
  {
    assert (ds + [line])[..|ds|] == ds;
  }

  // ----- The loop that makes the rows -----

  /** n rows so far; change is how many more additions than deletions since the last kept line. */
  ghost predicate Laid(ds: seq<string>, n: nat, change: int, leftlines: map<nat, nat>, rightlines: map<nat, nat>) {
    && WellFormed(ds) && n == RowCount(ds) && change == Additions(ds) - Deletions(ds)
    && Placed(ds, leftlines, rightlines)
  }

  /** Where the loop puts the next line: in the first unpaired row of the other side, or in a
      new one. */
  function Target(lead: char, n: nat, change: int): int {
    if lead == '-' && change > 0 then n - change else if lead == '+' && change < 0 then n + change else n
  }

  function ChangeAfter(lead: char, change: int): int {
    if lead == '-' then change - 1 else if lead == '+' then change + 1 else 0
  }

  lemma LaidNext(ds: seq<string>, n: nat, change: int, leftlines: map<nat, nat>, rightlines: map<nat, nat>,
                 line: string, ll: map<nat, nat>, rl: map<nat, nat>)
    requires Laid(ds, n, change, leftlines, rightlines)
    requires line != "" && (line[0] == '=' || line[0] == '-' || line[0] == '+')
    requires var row := Target(line[0], n, change); row >= 0 ==>
      && ll == (if line[0] == '+' then leftlines else leftlines[|Side(ds, '-')| := row])
      && rl == (if line[0] == '-' then rightlines else rightlines[|Side(ds, '+')| := row])
    ensures Target(line[0], n, change) >= 0
    ensures Laid(ds + [line], n + (if Target(line[0], n, change) == n then 1 else 0), ChangeAfter(line[0], change),
      ll, rl)
  {
    CountsNext(ds, line);
    hide Side, Settled, Deletions, Additions, Placed, RowOf, LinePlaced;
    PlacedNext(ds, leftlines, rightlines, line, ll, rl);
  }

  // ----- Who shares a row -----

  /** No kept line stands between the two. */
  ghost predicate SameRun(ds: seq<string>, i: nat, j: nat)
    requires WellFormed(ds) && i < |ds| && j < |ds|
  {
    forall m :: (i < m < j || j < m < i) ==> ds[m][0] != '='
  }

  lemma {:induction false} SettledGrows(ds: seq<string>, i: nat, j: nat)
    requires WellFormed(ds) && i <= j <= |ds|
    ensures Settled(ds[..i]) <= Settled(ds[..j]) && RowCount(ds[..i]) <= RowCount(ds[..j])
    ensures (forall m :: i <= m < j ==> ds[m][0] != '=') ==> Settled(ds[..i]) == Settled(ds[..j])
    ensures (exists m :: i <= m < j && ds[m][0] == '=') ==> RowCount(ds[..i]) < Settled(ds[..j])
    decreases j
  {
    if i < j {
      SettledGrows(ds, i, j - 1);
      assert ds[..j] == ds[..j - 1] + [ds[j - 1]];
      CountsNext(ds[..j - 1], ds[j - 1]);
      hide Settled, Deletions, Additions;
    }
  }

  /** A deletion and an addition share a row exactly if they are in one run and have the same
      place among its deletions and its additions. */
  lemma SharedRowIff(ds: seq<string>, i: nat, j: nat)
    requires WellFormed(ds) && i < |ds| && j < |ds| && ds[i][0] == '-' && ds[j][0] == '+'
    ensures RowOf(ds, i) == RowOf(ds, j) <==> SameRun(ds, i, j) && Deletions(ds[..i]) == Additions(ds[..j])
  {
    hide Settled, Deletions, Additions;
    if i < j {
      SettledGrows(ds, i, j);
    } else {
      SettledGrows(ds, j, i);
    }
  }
}

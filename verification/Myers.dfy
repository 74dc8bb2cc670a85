/** The greedy O(ND) search of Myers (1986), as tools/ebert/diff/diff.go runs it over one
    array of furthest points and tools/ebert/script/diff.js repeats it on characters. */
module Myers {
  import opened EditScript

  /** A furthest point of one diagonal: how much of `to` it consumes, and the script that
      gets there behind one bogus leading character. */
  datatype DiffPath = DiffPath(x: int, path: string)

  datatype SearchResult = Found(edits: string) | Failed

  /** path, without its bogus first character, is a script that consumes x of `to` and
      y of `from` with d changes. */
  ghost predicate LeadsTo<T>(path: string, from: seq<T>, to: seq<T>, d: int, x: int, y: int) {
    && |path| >= 1
    && Valid(path[1..], from, to)
    && Changes(path[1..]) == d && ToLen(path[1..]) == x && FromLen(path[1..]) == y
  }

  /** What round d leaves on diagonal k: a script of exactly d changes that gets as far
      along k as any script of d changes can. */
  ghost predicate Reached<T>(e: DiffPath, from: seq<T>, to: seq<T>, d: int, k: int) {
    LeadsTo(e.path, from, to, d, e.x, e.x - k) && Furthest(from, to, d, k, e.x)
  }

  /** Round d has filled its diagonals from -d up to but not including k, and none of the
      scripts it stored gets to the far corner. Round -1 is the zeroed array: the search
      starts from x = 0 on diagonal 1. */
  ghost predicate Filled<T>(v: seq<DiffPath>, from: seq<T>, to: seq<T>, d: int, k: int) {
    var mid := |from| + |to|;
    && |v| == 2 * mid + 1
    && (d == -1 && mid > 0 ==> v[mid + 1] == DiffPath(0, ""))
    && forall i :: 0 <= i < |v| && -d <= i - mid < k && (i - mid + d) % 2 == 0 ==>
         Reached(v[i], from, to, d, i - mid) && (v[i].x < |to| || v[i].x - (i - mid) < |from|)
  }

  lemma FilledBounds<T>(v: seq<DiffPath>, from: seq<T>, to: seq<T>, d: nat, q: string)
    requires Filled(v, from, to, d, d + 1) && d <= |from| + |to|
    requires Valid(q, from, to) && Changes(q) == d
    ensures !Covers(q, from, to)
  {
    DiagonalBound(q, from, to);
    hide Valid, ToLen, FromLen, Changes;
    var k := ToLen(q) - FromLen(q);
    var e := v[k + |from| + |to|];
    assert ToLen(q) <= e.x;
  }

  /** A round that ends without a hit moves the corner out of reach of d changes. */
  lemma RoundOver<T>(v: seq<DiffPath>, from: seq<T>, to: seq<T>, d: nat)
    requires Filled(v, from, to, d, d + 1) && d <= |from| + |to|
    requires OutOfReach(from, to, d)
    ensures OutOfReach(from, to, d + 1)
  {
    forall q: string | Valid(q, from, to) && Changes(q) == d
      ensures !Covers(q, from, to)
    {
      FilledBounds(v, from, to, d, q);
    }
  }

  lemma RoundStarts<T>(v: seq<DiffPath>, from: seq<T>, to: seq<T>, d: nat)
    requires Filled(v, from, to, d - 1, d)
    ensures Filled(v, from, to, d, -(d as int))
  {
    hide Reached;
  }

  lemma RoundEnds<T>(v: seq<DiffPath>, from: seq<T>, to: seq<T>, d: nat, k: int)
    requires Filled(v, from, to, d, k) && k > d && d <= |from| + |to| && OutOfReach(from, to, d)
    ensures Filled(v, from, to, d, d + 1) && OutOfReach(from, to, d + 1)
  {
    hide Reached, OutOfReach;
    RoundOver(v, from, to, d);
  }

  /** No round after m + n is ever needed. */
  lemma WithinReach<T>(from: seq<T>, to: seq<T>, d: int)
    requires OutOfReach(from, to, d)
    ensures d <= |from| + |to|
  {
    var p := ReplaceAll(from, to, |from|, |to|);
    assert Covers(p, from, to);
  }

  /** Taking the edit e and sliding along equal elements. */
  lemma LeadsOn<T>(path: string, e: char, from: seq<T>, to: seq<T>, d: int, x: int, y: int)
    requires LeadsTo(path, from, to, d, x, y) && (e == '=' || e == '-' || e == '+')
    requires e == '=' ==> x < |to| && y < |from| && to[x] == from[y]
    ensures LeadsTo(path + [e], from, to, d + (if e == '=' then 0 else 1),
                    x + (if e == '-' then 0 else 1), y + (if e == '+' then 0 else 1))
  {
    Extend(path[1..], e, from, to);
    assert (path + [e])[1..] == path[1..] + [e];
  }

  /** The search starts at the origin: the first, bogus character is all the path there is. */
  lemma Start<T>(from: seq<T>, to: seq<T>)
    ensures LeadsTo("" + "-", from, to, 0, 0, 0)
  {
    assert ("" + "-")[1..] == "";
  }

  /** The point a slide ends on is the furthest of its diagonal. */
  lemma SlideFurthest<T>(v: seq<DiffPath>, from: seq<T>, to: seq<T>, d: int, k: int, x0: int, x: int)
    requires 0 <= d <= |from| + |to| && -d <= k <= d && (k + d) % 2 == 0
    requires Filled(v, from, to, d - 1, d) && |from| + |to| > 0
    requires d == 0 ==> x0 >= 0
    requires d > 0 && k > -d ==> v[k + |from| + |to| - 1].x + 1 <= x0
    requires d > 0 && k < d ==> v[k + |from| + |to| + 1].x <= x0
    requires x0 <= x && !(0 <= x < |to| && 0 <= x - k < |from| && to[x] == from[x - k])
    ensures Furthest(from, to, d, k, x)
  {
    hide Valid, ToLen, FromLen, Changes;
    var mid := |from| + |to|;
    var a, b := v[k + mid - (if k > -d then 1 else 0)].x, v[k + mid + (if k < d then 1 else 0)].x;
    forall q: string | Valid(q, from, to) && Changes(q) == d && ToLen(q) - FromLen(q) == k
      ensures ToLen(q) <= x
    {
      StepFurthest(from, to, d, k, a, b, x, q);
    }
  }

  /** The exit test: the first point at or past the far corner is the corner itself. */
  lemma Hit<T>(from: seq<T>, to: seq<T>, d: int, k: int, x: int, path: string)
    requires Reached(DiffPath(x, path), from, to, d, k) && OutOfReach(from, to, d)
    requires x >= |to| && x - k >= |from|
    ensures |path| >= 1 && Transforms(path[1..], from, to)
    ensures forall q: string :: Transforms(q, from, to) ==> Changes(path[1..]) <= Changes(q)
  {
    FirstCoverIsExact(path[1..], from, to);
  }

  /** Storing a point that does not cover the corner: the entries of the previous round
      are untouched, because their diagonals have the other parity. */
  lemma FilledNext<T>(v: seq<DiffPath>, from: seq<T>, to: seq<T>, d: int, k: int, e: DiffPath)
    requires 0 <= d <= |from| + |to| && -d <= k <= d && (k + d) % 2 == 0 && |from| + |to| > 0
    requires Filled(v, from, to, d - 1, d) && Filled(v, from, to, d, k)
    requires Reached(e, from, to, d, k) && (e.x < |to| || e.x - k < |from|)
    ensures Filled(v[k + |from| + |to| := e], from, to, d - 1, d)
    ensures Filled(v[k + |from| + |to| := e], from, to, d, k + 2)
  {
    hide Reached;
  }

  /** One step of round d on diagonal k, up to the exit test: the better of the two
      neighbours plus one change, then a slide along equal elements. */
  method Advance<T(==)>(v: array<DiffPath>, from: seq<T>, to: seq<T>, d: int, k: int)
    returns (x: int, path: string)
    requires 0 <= d <= |from| + |to| && -d <= k <= d && (k + d) % 2 == 0 && |from| + |to| > 0
    requires Filled(v[..], from, to, d - 1, d)
    ensures Reached(DiffPath(x, path), from, to, d, k)
  {
    hide Valid, ToLen, FromLen, Changes, Furthest;
    Start(from, to);
    var max := |from| + |to|;
    if k == -d || (k != d && v[k + max - 1].x < v[k + max + 1].x) {
      x := v[k + max + 1].x;
      path := v[k + max + 1].path + "-";
      if d > 0 { LeadsOn(v[k + max + 1].path, '-', from, to, d - 1, x, x - k - 1); }
    } else {
      x := v[k + max - 1].x + 1;
      path := v[k + max - 1].path + "+";
      LeadsOn(v[k + max - 1].path, '+', from, to, d - 1, x - 1, x - k);
    }
    ghost var x0 := x;
    x, path := Slide(from, to, d, x, x - k, path);
    SlideFurthest(v[..], from, to, d, k, x0, x);
  }

  /** Following equal elements from (x, y) for as long as there are any. */
  method Slide<T(==)>(from: seq<T>, to: seq<T>, ghost d: int, x0: int, y0: int, path0: string)
    returns (x: int, path: string)
    requires LeadsTo(path0, from, to, d, x0, y0)
    ensures x0 <= x && LeadsTo(path, from, to, d, x, y0 + x - x0)
    ensures !(x < |to| && y0 + x - x0 < |from| && to[x] == from[y0 + x - x0])
  {
    var y;
    x, y := x0, y0;
    var same := "";
    assert path0 + same == path0;
    while x < |to| && y < |from| && to[x] == from[y]
      invariant x0 <= x && y == y0 + x - x0
      invariant LeadsTo(path0 + same, from, to, d, x, y)
    {
      LeadsOn(path0 + same, '=', from, to, d, x, y);
      assert path0 + (same + "=") == path0 + same + "=";
      x := x + 1;
      y := y + 1;
      same := same + "=";
    }
    path := path0 + same;
  }

  /** One entry of round d is overwritten in place. */
  method Store<T>(v: array<DiffPath>, ghost from: seq<T>, ghost to: seq<T>, ghost d: int, i: nat, e: DiffPath)
    requires i < v.Length && |from| + |to| > 0
    requires 0 <= d <= |from| + |to| && -d <= i - |from| - |to| <= d && (i - |from| - |to| + d) % 2 == 0
    requires Filled(v[..], from, to, d - 1, d) && Filled(v[..], from, to, d, i - |from| - |to|)
    requires Reached(e, from, to, d, i - |from| - |to|) && (e.x < |to| || e.x - (i - |from| - |to|) < |from|)
    modifies v
    ensures Filled(v[..], from, to, d - 1, d) && Filled(v[..], from, to, d, i - |from| - |to| + 2)
  {
    FilledNext(v[..], from, to, d, i - |from| - |to|, e);
    hide Filled, Reached;
    ghost var next := v[..][i := e];
    v[i] := e;
    assert v[..] == next;
  }

  /** One round over the diagonals, each step reading the two neighbouring entries of the
      previous round and overwriting one entry; hit says that the far corner was reached. */
  method Round<T(==)>(v: array<DiffPath>, from: seq<T>, to: seq<T>, d: int) returns (hit: bool, edits: string)
    requires 0 <= d <= |from| + |to| && |from| + |to| > 0 && v.Length == 2 * (|from| + |to|) + 1
    requires Filled(v[..], from, to, d - 1, d) && OutOfReach(from, to, d)
    modifies v
    ensures hit ==> Transforms(edits, from, to)
    ensures hit ==> forall q: string :: Transforms(q, from, to) ==> Changes(edits) <= Changes(q)
    ensures !hit ==> Filled(v[..], from, to, d, d + 1) && OutOfReach(from, to, d + 1)
  {
    hide Reached, Transforms, LeadsTo, OutOfReach, Filled, Changes;
    var m, n := |from|, |to|;
    var k := -d;
    RoundStarts(v[..], from, to, d);
    while k <= d
      invariant -d <= k <= d + 2 && (k + d) % 2 == 0
      invariant Filled(v[..], from, to, d - 1, d) && Filled(v[..], from, to, d, k)
    {
      var x, path := Advance(v, from, to, d, k);
      if x >= n && x - k >= m {
        Hit(from, to, d, k, x, path);
        if |path| >= 1 {
          path := path[1..];
        }
        return true, path;
      }
      Store(v, from, to, d, k + m + n, DiffPath(x, path));
      k := k + 2;
    }
    RoundEnds(v[..], from, to, d, k);
    return false, "";
  }

  /** Round after round. The search never gives up, every access is inside the array, and the
      script it finds ends exactly on the far corner with the fewest changes of any script
      that gets there. */
  method Search<T(==)>(from: seq<T>, to: seq<T>) returns (r: SearchResult)
    requires |from| + |to| > 0
    ensures r.Found? && Transforms(r.edits, from, to)
    ensures forall q: string :: Transforms(q, from, to) ==> Changes(r.edits) <= Changes(q)
  {
    var max := |from| + |to|;
    var v := new DiffPath[2 * max + 1](_ => DiffPath(0, ""));
    assert OutOfReach(from, to, 0) && Filled(v[..], from, to, -1, 0);
    hide Transforms, OutOfReach, Filled, Changes;
    for d := 0 to max + 1
      invariant Filled(v[..], from, to, d - 1, d) && OutOfReach(from, to, d)
    {
      var hit, edits := Round(v, from, to, d);
      if hit {
        return Found(edits);
      }
    }
    WithinReach(from, to, max + 1);
    return Failed;
  }
}

/** Edit scripts and the minimality theory behind both Myers searches.

    A script is a string of '=', '-' and '+'. Read from the left it walks a grid:
    '+' consumes one element of `to`, '-' one of `from`, and '=' one of each.
    The greedy search lets '+' and '-' run past the end of a sequence, so a valid
    script is not confined to the grid; only '=' has to be inside it. */
module EditScript {

  /** How many elements of `to` the script consumes. */
  ghost function ToLen(p: string): nat {
    if p == "" then 0
    else ToLen(p[..|p| - 1]) + if p[|p| - 1] == '-' then 0 else 1
  }

  /** How many elements of `from` the script consumes. */
  ghost function FromLen(p: string): nat {
    if p == "" then 0
    else FromLen(p[..|p| - 1]) + if p[|p| - 1] == '+' then 0 else 1
  }

  /** The number of insertions and deletions. */
  ghost function Changes(p: string): nat {
    if p == "" then 0
    else Changes(p[..|p| - 1]) + if p[|p| - 1] == '=' then 0 else 1
  }

  ghost predicate Valid<T>(p: string, from: seq<T>, to: seq<T>) {
    p == "" ||
    var q, e := p[..|p| - 1], p[|p| - 1];
    && Valid(q, from, to)
    && (e == '=' || e == '-' || e == '+')
    && (e == '=' ==> ToLen(q) < |to| && FromLen(q) < |from| && to[ToLen(q)] == from[FromLen(q)])
  }

  /** The script turns all of `from` into all of `to`. */
  ghost predicate Transforms<T>(p: string, from: seq<T>, to: seq<T>) {
    Valid(p, from, to) && ToLen(p) == |to| && FromLen(p) == |from|
  }

  /** The script gets to or past the far corner of the grid. */
  ghost predicate Covers<T>(p: string, from: seq<T>, to: seq<T>) {
    Valid(p, from, to) && ToLen(p) >= |to| && FromLen(p) >= |from|
  }

  /** One more step. */
  lemma Extend<T>(p: string, e: char, from: seq<T>, to: seq<T>)
    requires Valid(p, from, to) && (e == '=' || e == '-' || e == '+')
    requires e == '=' ==> ToLen(p) < |to| && FromLen(p) < |from| && to[ToLen(p)] == from[FromLen(p)]
    ensures Valid(p + [e], from, to)
    ensures ToLen(p + [e]) == ToLen(p) + if e == '-' then 0 else 1
    ensures FromLen(p + [e]) == FromLen(p) + if e == '+' then 0 else 1
    ensures Changes(p + [e]) == Changes(p) + if e == '=' then 0 else 1
  {
  }

  /** d changes reach only diagonals between -d and d, and only those of d's parity. */
  lemma {:induction false} DiagonalBound<T>(p: string, from: seq<T>, to: seq<T>)
    requires Valid(p, from, to)
    ensures -(Changes(p) as int) <= ToLen(p) - FromLen(p) <= Changes(p)
    ensures (ToLen(p) - FromLen(p) + Changes(p)) % 2 == 0
  {
    if p != "" {
      var q, e := p[..|p| - 1], p[|p| - 1];
      DiagonalBound(q, from, to);
      assert ToLen(p) - FromLen(p) == ToLen(q) - FromLen(q) + if e == '+' then 1 else if e == '-' then -1 else 0;
      assert Changes(p) == Changes(q) + if e == '=' then 0 else 1;
      assert e == '=' || e == '-' || e == '+';
      hide ToLen, FromLen, Changes, Valid;
    }
  }

  /** No valid script with d changes that ends on diagonal k gets further than x. */
  ghost predicate Furthest<T>(from: seq<T>, to: seq<T>, d: int, k: int, x: int) {
    forall q: string :: Valid(q, from, to) && Changes(q) == d && ToLen(q) - FromLen(q) == k ==> ToLen(q) <= x
  }

  /** No valid script with fewer than d changes gets to the far corner. */
  ghost predicate OutOfReach<T>(from: seq<T>, to: seq<T>, d: int) {
    forall q: string :: Covers(q, from, to) ==> Changes(q) >= d
  }

  /** The inductive heart of the greedy search: bounds a and b on the two neighbouring
      diagonals, one step, and a slide that stopped because it could not go on, together
      bound this diagonal. */
  lemma {:induction false} StepFurthest<T>(from: seq<T>, to: seq<T>, d: int, k: int, a: int, b: int, x: int, q: string)
    requires d >= 0
    requires d == 0 ==> k == 0 && x >= 0
    requires d > 0 && k > -d ==> Furthest(from, to, d - 1, k - 1, a) && a + 1 <= x
    requires d > 0 && k < d ==> Furthest(from, to, d - 1, k + 1, b) && b <= x
    requires !(0 <= x < |to| && 0 <= x - k < |from| && to[x] == from[x - k])
    requires Valid(q, from, to) && Changes(q) == d && ToLen(q) - FromLen(q) == k
    ensures ToLen(q) <= x
  {
    if q != "" {
      var q' := q[..|q| - 1];
      DiagonalBound(q', from, to);
      if q[|q| - 1] == '=' {
        StepFurthest(from, to, d, k, a, b, x, q');
      }
    }
  }

  /** Cutting a script back to the grid: insertions past the end of `to` and deletions
      past the end of `from` are dropped, one change saved for each. */
  lemma {:induction false} Clamp<T>(p: string, from: seq<T>, to: seq<T>) returns (q: string)
    requires Valid(p, from, to)
    ensures Valid(q, from, to)
    ensures ToLen(q) == if ToLen(p) <= |to| then ToLen(p) else |to|
    ensures FromLen(q) == if FromLen(p) <= |from| then FromLen(p) else |from|
    ensures Changes(q) == Changes(p) - (ToLen(p) - ToLen(q)) - (FromLen(p) - FromLen(q))
  {
    q := "";
    if p != "" {
      var e := p[|p| - 1];
      q := Clamp(p[..|p| - 1], from, to);
      if e == '=' || (e == '+' && ToLen(p) <= |to|) || (e == '-' && FromLen(p) <= |from|) {
        Extend(q, e, from, to);
        q := q + [e];
      }
    }
  }

  /** The first script found to cover the corner ends exactly on it, and is shortest. */
  lemma FirstCoverIsExact<T>(p: string, from: seq<T>, to: seq<T>)
    requires Covers(p, from, to) && OutOfReach(from, to, Changes(p))
    ensures Transforms(p, from, to)
    ensures forall q: string :: Transforms(q, from, to) ==> Changes(p) <= Changes(q)
  {
    var q := Clamp(p, from, to);
    assert Covers(q, from, to);
  }

  /** Deleting everything and inserting everything is a script of m + n changes, so a
      covering script is found no later than in round m + n. */
  lemma {:induction false} ReplaceAll<T>(from: seq<T>, to: seq<T>, fromLen: nat, toLen: nat) returns (p: string)
    ensures Valid(p, from, to) && ToLen(p) == toLen && FromLen(p) == fromLen && Changes(p) == fromLen + toLen
  {
    p := "";
    if fromLen > 0 {
      p := ReplaceAll(from, to, fromLen - 1, toLen);
      Extend(p, '-', from, to);
      p := p + "-";
    } else if toLen > 0 {
      p := ReplaceAll(from, to, fromLen, toLen - 1);
      Extend(p, '+', from, to);
      p := p + "+";
    }
  }
}

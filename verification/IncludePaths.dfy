/** tools/incredible/src/main.rs: what an include directive resolves to. */
module IncludePaths {
  import opened Wrappers

  /** A path as its components; an absolute one starts with the root component "/". */
  type Path = seq<string>

  datatype SearchKind = Local | System

  /** An include directive: the text between the quotes or brackets. */
  datatype Ref = Ref(name: string, kind: SearchKind)

  /** What a scan depends on and never changes: the files there are, the directives found
      in each of them, in order (none if it cannot be read), the include directories, and
      how a file name splits into components with and without normalised separators. */
  datatype World = World(
    files: set<Path>,
    refs: Path -> seq<Ref>,
    includes: seq<Path>,
    sanitised: string -> Path,
    plain: string -> Path)

  function Resolved(v: seq<string>, c: string): seq<string> {
    if c == ".." then (if v == [] then [] else v[..|v| - 1]) else v + [c]
  }

  function Absolute(src: Path): Path {
    if src == [] then [] else Resolved(Absolute(src[..|src| - 1]), src[|src| - 1])
  }

  /** A stack of components; ".." pops. */
  method PathAbsolute(src: Path) returns (pb: Path)
    ensures pb == Absolute(src)
  {
    var v: seq<string> := [];
    for i := 0 to |src|
      invariant v == Absolute(src[..i])
    {
      assert src[..i + 1][..i] == src[..i];
      if ".." == src[i] {
        if |v| > 0 {
          v := v[..|v| - 1];
        }
      } else {
        v := v + [src[i]];
      }
    }
    assert src[..|src|] == src;
    return v;
  }

  /** The result has no ".." left, so it is its own absolute path, and it is the path
      itself if there was none. */
  lemma {:induction false} AbsoluteIsNormal(src: Path)
    ensures ".." !in Absolute(src) && Absolute(Absolute(src)) == Absolute(src)
    ensures ".." !in src ==> Absolute(src) == src
  {
    if src != [] {
      AbsoluteIsNormal(src[..|src| - 1]);
      NoParentIsNormal(Absolute(src));
    }
  }

  // ----- A ".." takes off the component before it -----

  lemma AbsoluteSnoc(a: Path, c: string)
    ensures Absolute(a + [c]) == Resolved(Absolute(a), c)
  {
    assert (a + [c])[..|a|] == a;
  }

  lemma LastApart(a: Path, b: Path)
    requires b != []
    ensures a + b == a + b[..|b| - 1] + [b[|b| - 1]]
  {
  }

  lemma {:induction false} SameStart(a: Path, a': Path, b: Path)
    requires Absolute(a) == Absolute(a')
    ensures Absolute(a + b) == Absolute(a' + b)
  {
    hide Absolute, Resolved;
    if b == [] {
      assert a + b == a && a' + b == a';
    } else {
      var init, c := b[..|b| - 1], b[|b| - 1];
      SameStart(a, a', init);
      LastApart(a, b);
      LastApart(a', b);
      AbsoluteSnoc(a + init, c);
      AbsoluteSnoc(a' + init, c);
    }
  }

  /** A component and the ".." behind it cancel out. */
  lemma ParentCancels(a: Path, c: string, b: Path)
    requires c != ".."
    ensures Absolute(a + [c, ".."] + b) == Absolute(a + b)
  {
    AbsoluteSnoc(a, c);
    AbsoluteSnoc(a + [c], "..");
    assert a + [c, ".."] == a + [c] + [".."];
    SameStart(a + [c, ".."], a, b);
  }

  /** With nothing before it a ".." is dropped. */
  lemma ParentOfNothing(b: Path)
    ensures Absolute([".."] + b) == Absolute(b)
  {
    AbsoluteSnoc([], "..");
    assert [] + [".."] == [".."] && [] + b == b;
    SameStart([".."], [], b);
  }

  /** These laws leave no choice: whatever satisfies them is this function. */
  lemma {:induction false} AbsoluteIsOnly(f: Path -> Path, p: Path)
    requires forall q: Path :: ".." !in q ==> f(q) == q
    requires forall a: Path, c: string, b: Path :: c != ".." ==> f(a + [c, ".."] + b) == f(a + b)
    requires forall b: Path :: f([".."] + b) == f(b)
    ensures f(p) == Absolute(p)
    decreases |p|
  {
    if ".." !in p {
      NoParentIsNormal(p);
    } else {
      var i := FirstParent(p, 0);
      var b := p[i + 1..];
      if i == 0 {
        assert p == [".."] + b;
        ParentOfNothing(b);
        AbsoluteIsOnly(f, b);
      } else {
        var a, c := p[..i - 1], p[i - 1];
        assert p == a + [c, ".."] + b;
        ParentCancels(a, c, b);
        AbsoluteIsOnly(f, a + b);
      }
    }
  }

  lemma {:induction false} FirstParent(p: Path, from: nat) returns (i: nat)
    requires from <= |p| && ".." in p[from..]
    ensures from <= i < |p| && p[i] == ".." && ".." !in p[from..i]
    decreases |p| - from
  {
    if p[from] == ".." {
      i := from;
    } else {
      assert p[from..] == [p[from]] + p[from + 1..];
      i := FirstParent(p, from + 1);
      assert p[from..i] == [p[from]] + p[from + 1..i];
    }
  }

  lemma {:induction false} NoParentIsNormal(p: Path)
    requires ".." !in p
    ensures Absolute(p) == p
  {
    if p != [] {
      NoParentIsNormal(p[..|p| - 1]);
    }
  }

  function Join(base: Path, p: Path): Path {
    if p != [] && p[0] == "/" then p else base + p
  }

  function Parent(p: Path): Path {
    if p == [] then [] else p[..|p| - 1]
  }

  /** Where an include is looked for: beside the including file first if it is quoted, then
      in the include directories, then beside the file. */
  function Candidates(w: World, base: Path, ref: Ref): seq<Path> {
    var beside := Absolute(Join(base, w.sanitised(ref.name)));
    (if ref.kind == Local then [beside] else [])
    + seq(|w.includes|, i requires 0 <= i < |w.includes| => Absolute(Join(w.includes[i], w.plain(ref.name))))
    + [beside]
  }

  function FirstFile(w: World, candidates: seq<Path>): (r: Option<Path>)
    ensures r.Some? ==> r.value in w.files && r.value in candidates
    ensures r.None? <==> forall p | p in candidates :: p !in w.files
  {
    if candidates == [] then None
    else if candidates[0] in w.files then Some(candidates[0])
    else FirstFile(w, candidates[1..])
  }

  function Resolve(w: World, base: Path, ref: Ref): (r: Option<Path>)
    ensures r.Some? ==> r.value in w.files
  {
    FirstFile(w, Candidates(w, base, ref))
  }

  /** The first candidate, if it is a file, is the answer. */
  lemma ResolvesFirst(w: World, base: Path, ref: Ref, p: Path)
    requires p in w.files && ".." !in p
    requires p ==
      if ref.kind == Local || w.includes == [] then Join(base, w.sanitised(ref.name))
      else Join(w.includes[0], w.plain(ref.name))
    ensures Resolve(w, base, ref) == Some(p)
  {
    NoParentIsNormal(p);
    hide Absolute, Join;
    assert Candidates(w, base, ref)[0] == p;
  }

  /** Where an include directory or the including file leads to. */
  function InDirectory(w: World, i: nat, ref: Ref): Path
    requires i < |w.includes|
  {
    Absolute(Join(w.includes[i], w.plain(ref.name)))
  }

  function Beside(w: World, base: Path, ref: Ref): Path {
    Absolute(Join(base, w.sanitised(ref.name)))
  }

  /** A quoted name is looked for beside the file first; any name then in the include
      directories, in order; and at last beside the file. */
  lemma ResolvesInOrder(w: World, base: Path, ref: Ref)
    ensures ref.kind == Local && Beside(w, base, ref) in w.files ==> Resolve(w, base, ref) == Some(Beside(w, base, ref))
    ensures forall i: nat | i < |w.includes| && InDirectory(w, i, ref) in w.files ::
      (ref.kind == Local ==> Beside(w, base, ref) !in w.files)
      && (forall j: nat | j < i :: InDirectory(w, j, ref) !in w.files)
      ==> Resolve(w, base, ref) == Some(InDirectory(w, i, ref))
    ensures (forall i: nat | i < |w.includes| :: InDirectory(w, i, ref) !in w.files) ==>
      Resolve(w, base, ref) == if Beside(w, base, ref) in w.files then Some(Beside(w, base, ref)) else None
  {
    var all, n := Candidates(w, base, ref), if ref.kind == Local then 1 else 0;
    hide Absolute, Join, Resolve, Candidates;
    CandidatesAre(w, base, ref);
    if ref.kind == Local && Beside(w, base, ref) in w.files { FirstAt(w, base, ref, 0); }
    forall i: nat | i < |w.includes| && InDirectory(w, i, ref) in w.files
        && (ref.kind == Local ==> Beside(w, base, ref) !in w.files)
        && forall j: nat | j < i :: InDirectory(w, j, ref) !in w.files
      ensures Resolve(w, base, ref) == Some(InDirectory(w, i, ref))
    {
      FirstAt(w, base, ref, n + i);
    }
    if forall i: nat | i < |w.includes| :: InDirectory(w, i, ref) !in w.files {
      if Beside(w, base, ref) in w.files {
        FirstAt(w, base, ref, if ref.kind == Local then 0 else |w.includes|);
      } else {
        NoneOf(w, base, ref);
      }
    }
  }

  lemma CandidatesAre(w: World, base: Path, ref: Ref)
    ensures var all, n := Candidates(w, base, ref), if ref.kind == Local then 1 else 0;
      && |all| == n + |w.includes| + 1
      && (n == 1 ==> all[0] == Beside(w, base, ref)) && all[|all| - 1] == Beside(w, base, ref)
      && forall i: nat | n <= i < n + |w.includes| :: all[i] == InDirectory(w, i - n, ref)
  {
    hide Absolute, Join;
  }

  lemma FirstAt(w: World, base: Path, ref: Ref, k: nat)
    requires k < |Candidates(w, base, ref)| && Candidates(w, base, ref)[k] in w.files
    requires forall i | 0 <= i < k :: Candidates(w, base, ref)[i] !in w.files
    ensures Resolve(w, base, ref) == Some(Candidates(w, base, ref)[k])
  {
    hide Candidates;
    var all := Candidates(w, base, ref);
    assert all == all[..k] + all[k..];
    FirstFileFrom(w, all[..k], all[k..]);
  }

  lemma NoneOf(w: World, base: Path, ref: Ref)
    requires forall p | p in Candidates(w, base, ref) :: p !in w.files
    ensures Resolve(w, base, ref) == None
  {
    hide Candidates;
  }

  lemma {:induction false} FirstFileFrom(w: World, skipped: seq<Path>, rest: seq<Path>)
    requires forall p | p in skipped :: p !in w.files
    ensures FirstFile(w, skipped + rest) == FirstFile(w, rest)
  {
    if skipped == [] {
      assert skipped + rest == rest;
    } else {
      assert (skipped + rest)[1..] == skipped[1..] + rest;
      FirstFileFrom(w, skipped[1..], rest);
    }
  }

  /** The search, one file-system test after another. */
  method IncludeResolvePath(w: World, base: Path, ref: Ref) returns (r: Option<Path>)
    ensures r == Resolve(w, base, ref)
  {
    var beside := PathAbsolute(Join(base, w.sanitised(ref.name)));
    ghost var all := Candidates(w, base, ref);
    ghost var first: nat := if ref.kind == Local then 1 else 0;
    if ref.kind == Local {
      if beside in w.files {
        return Some(beside);
      }
    }
    for i := 0 to |w.includes|
      invariant forall p | p in all[..first + i] :: p !in w.files
    {
      var absPath := PathAbsolute(Join(w.includes[i], w.plain(ref.name)));
      assert all[first + i] == absPath && all[..first + i + 1] == all[..first + i] + [absPath];
      if absPath in w.files {
        assert all == all[..first + i] + all[first + i..];
        FirstFileFrom(w, all[..first + i], all[first + i..]);
        return Some(absPath);
      }
    }
    var n: nat := first + |w.includes|;
    assert all == all[..n] + [beside];
    FirstFileFrom(w, all[..n], [beside]);
    if beside in w.files {
      return Some(beside);
    }
    return None;
  }

  /** The files a file includes directly: the edges of the include graph. */
  ghost predicate Edge(w: World, from: Path, to: Path) {
    exists i :: 0 <= i < |w.refs(from)| && Resolve(w, Parent(from), w.refs(from)[i]) == Some(to)
  }

  /** A walk along edges from one of the inputs. */
  ghost predicate Walk(w: World, inputs: seq<Path>, chain: seq<Path>) {
    && |chain| >= 2 && chain[0] in inputs
    && forall i, j :: 0 <= i && j == i + 1 && j < |chain| ==> Edge(w, chain[i], chain[j])
  }

  /** Reached from an input by one or more edges. */
  ghost predicate Reachable(w: World, inputs: seq<Path>, p: Path) {
    exists chain :: Walk(w, inputs, chain) && chain[|chain| - 1] == p
  }

  lemma ReachNext(w: World, inputs: seq<Path>, from: Path, to: Path)
    requires Edge(w, from, to) && (from in inputs || Reachable(w, inputs, from))
    ensures Reachable(w, inputs, to)
  {
    hide Edge;
    if from in inputs {
      assert Walk(w, inputs, [from, to]);
      assert [from, to][|[from, to]| - 1] == to;
    } else {
      var chain :| Walk(w, inputs, chain) && chain[|chain| - 1] == from;
      WalkNext(w, inputs, chain, to);
      assert (chain + [to])[|chain + [to]| - 1] == to;
    }
  }

  lemma WalkNext(w: World, inputs: seq<Path>, chain: seq<Path>, to: Path)
    requires Walk(w, inputs, chain) && Edge(w, chain[|chain| - 1], to)
    ensures Walk(w, inputs, chain + [to])
  {
    hide Edge;
    forall i, j | 0 <= i && j == i + 1 && j < |chain + [to]|
      ensures Edge(w, (chain + [to])[i], (chain + [to])[j])
    {
      if j < |chain| {
        assert Edge(w, chain[i], chain[j]);
      }
    }
  }

  /** A set that takes in every edge out of the inputs and out of itself has every
      reachable file. */
  lemma ClosedHasReachable(w: World, inputs: seq<Path>, closed: set<Path>, p: Path)
    requires forall from, to :: (from in inputs || from in closed) && Edge(w, from, to) ==> to in closed
    requires Reachable(w, inputs, p)
    ensures p in closed
  {
    var chain :| Walk(w, inputs, chain) && chain[|chain| - 1] == p;
    WalkStaysIn(w, inputs, closed, chain);
  }

  lemma {:induction false} WalkStaysIn(w: World, inputs: seq<Path>, closed: set<Path>, chain: seq<Path>)
    requires forall from, to :: (from in inputs || from in closed) && Edge(w, from, to) ==> to in closed
    requires Walk(w, inputs, chain)
    ensures chain[|chain| - 1] in closed
  {
    var n := |chain| - 1;
    if n > 1 {
      WalkStaysIn(w, inputs, closed, chain[..n]);
    }
    assert Edge(w, chain[n - 1], chain[n]);
  }
}

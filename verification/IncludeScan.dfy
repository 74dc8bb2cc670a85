/** tools/incredible/src/main.rs: the worklist scan, single- and multi-threaded. */
module IncludeScan {
  import opened Wrappers
  import opened IncludePaths

  /** The files found so far, and those of them (or of the inputs) still to be read. */
  datatype Work = Work(processed: set<Path>, queue: seq<Path>)

  /** The include names one file's scan has resolved already, by directory; quoted and
      bracketed names apart, since they are looked for in different places. */
  datatype Caches = Caches(local: map<Path, set<string>>, system: map<Path, set<string>>)

  const NoCaches := Caches(map[], map[])

  predicate Cached(caches: Caches, base: Path, ref: Ref) {
    var cache := if ref.kind == Local then caches.local else caches.system;
    base in cache && ref.name in cache[base]
  }

  function Remember(caches: Caches, base: Path, ref: Ref): Caches {
    var cache := if ref.kind == Local then caches.local else caches.system;
    var more := cache[base := (if base in cache then cache[base] else {}) + {ref.name}];
    if ref.kind == Local then caches.(local := more) else caches.(system := more)
  }

  /** What adding an include does if nothing is cached. */
  function Added(w: World, work: Work, base: Path, ref: Ref): Work {
    match Resolve(w, base, ref)
    case None => work
    case Some(p) => if p in work.processed then work else Work(work.processed + {p}, work.queue + [p])
  }

  /** A cached name is one that resolves to a file already processed. */
  ghost predicate CachesOk(w: World, caches: Caches, processed: set<Path>) {
    forall base, ref :: Cached(caches, base, ref) ==>
      Resolve(w, base, ref).Some? && Resolve(w, base, ref).value in processed
  }

  lemma RememberOk(w: World, caches: Caches, base: Path, ref: Ref, processed: set<Path>)
    requires CachesOk(w, caches, processed)
    requires Resolve(w, base, ref).Some? && Resolve(w, base, ref).value in processed
    ensures CachesOk(w, Remember(caches, base, ref), processed)
  {
    hide Resolve;
    forall b, r | Cached(Remember(caches, base, ref), b, r)
      ensures Cached(caches, b, r) || (b == base && r == ref)
    {
    }
  }

  /** The same name can mean another file in brackets, which is why the two kinds of
      include must not share a cache. */
  lemma KindsDiffer()
    ensures exists w: World, base, name :: Resolve(w, base, Ref(name, Local)) != Resolve(w, base, Ref(name, System))
  {
    var inc, here: Path := ["inc", "a.h"], ["src", "a.h"];
    var w := World({inc, here}, _ => [], [["inc"]], _ => ["a.h"], _ => ["a.h"]);
    assert inc[0] != here[0];
    TwoFiles();
    hide Resolve, Join;
    ResolvesFirst(w, ["src"], Ref("a.h", Local), here);
    ResolvesFirst(w, ["src"], Ref("a.h", System), inc);
  }

  lemma TwoFiles()
    ensures Join(["src"], ["a.h"]) == ["src", "a.h"] && Join(["inc"], ["a.h"]) == ["inc", "a.h"]
    ensures ".." !in ["src", "a.h"] && ".." !in ["inc", "a.h"]
  {
    assert ["src"] + ["a.h"] == ["src", "a.h"] && ["inc"] + ["a.h"] == ["inc", "a.h"];
    assert "a.h"[0] != ".."[0] && "src"[0] != ".."[0] && "inc"[0] != ".."[0];
  }

  /** The directives of a file, from the first to the i-th, added without a cache. */
  function AddedRefs(w: World, work: Work, path: Path, i: nat): Work
    requires i <= |w.refs(path)|
  {
    if i == 0 then work else Added(w, AddedRefs(w, work, path, i - 1), Parent(path), w.refs(path)[i - 1])
  }

  lemma NothingCached(w: World, processed: set<Path>)
    ensures CachesOk(w, NoCaches, processed)
  {
  }

  /** The same for any list of directives. */
  function AddedAll(w: World, work: Work, base: Path, refs: seq<Ref>): Work {
    if refs == [] then work else Added(w, AddedAll(w, work, base, refs[..|refs| - 1]), base, refs[|refs| - 1])
  }

  lemma {:induction false} AllAreRefs(w: World, work: Work, path: Path, refs: seq<Ref>)
    requires refs <= w.refs(path)
    ensures AddedAll(w, work, Parent(path), refs) == AddedRefs(w, work, path, |refs|)
  {
    hide Added, Parent;
    if refs != [] { AllAreRefs(w, work, path, refs[..|refs| - 1]); }
  }

  // ----- The single-threaded scan -----

  /** Everything found is reachable, and nothing is found that has not been or will not be
      read. */
  ghost predicate Scanned(w: World, inputs: seq<Path>, processed: set<Path>, queue: seq<Path>) {
    && (forall p | p in processed :: Reachable(w, inputs, p) && p in w.files)
    && (forall p | p in queue :: p in inputs || p in processed)
    && (forall p, q :: (p in inputs || p in processed) && p !in queue && Edge(w, p, q) ==> q in processed)
  }

  ghost function SetOf(paths: seq<Path>): set<Path> {
    set p | p in paths
  }

  /** The new files of a scan, each of them new once and at the end of the queue. */
  lemma {:induction false} AddedFresh(w: World, work: Work, path: Path, i: nat) returns (added: seq<Path>)
    requires i <= |w.refs(path)|
    ensures AddedRefs(w, work, path, i) == Work(work.processed + SetOf(added), work.queue + added)
    ensures forall p | p in added :: p !in work.processed && p in w.files && Edge(w, path, p)
    ensures forall j, k :: 0 <= j < k < |added| ==> added[j] != added[k]
  {
    hide Resolve;
    added := [];
    if i > 0 {
      added := AddedFresh(w, work, path, i - 1);
      var before := AddedRefs(w, work, path, i - 1);
      var r := Resolve(w, Parent(path), w.refs(path)[i - 1]);
      if r.Some? && r.value !in before.processed {
        assert SetOf(added + [r.value]) == SetOf(added) + {r.value};
        added := added + [r.value];
      }
    }
  }

  lemma {:induction false} EachAdded(w: World, work: Work, path: Path, i: nat, j: nat)
    requires j < i <= |w.refs(path)|
    ensures var r := Resolve(w, Parent(path), w.refs(path)[j]);
      r.Some? ==> r.value in AddedRefs(w, work, path, i).processed
    decreases i
  {
    hide Resolve;
    if j < i - 1 {
      EachAdded(w, work, path, i - 1, j);
    }
  }

  lemma EdgesAdded(w: World, work: Work, path: Path, q: Path)
    requires Edge(w, path, q)
    ensures q in AddedRefs(w, work, path, |w.refs(path)|).processed
  {
    hide Resolve;
    var j :| 0 <= j < |w.refs(path)| && Resolve(w, Parent(path), w.refs(path)[j]) == Some(q);
    EachAdded(w, work, path, |w.refs(path)|, j);
  }

  lemma ScannedNext(w: World, inputs: seq<Path>, processed: set<Path>, queue: seq<Path>)
    requires Scanned(w, inputs, processed, queue) && queue != []
    ensures var now := AddedRefs(w, Work(processed, queue[1..]), queue[0], |w.refs(queue[0])|);
      && Scanned(w, inputs, now.processed, now.queue)
      && (now == Work(processed, queue[1..]) || exists p :: p in now.processed && p !in processed && p in w.files)
      && processed <= now.processed
  {
    hide Resolve;
    var f, n := queue[0], |w.refs(queue[0])|;
    var work := Work(processed, queue[1..]);
    var added := AddedFresh(w, work, f, n);
    var now := AddedRefs(w, work, f, n);
    assert forall p | p in queue :: p == f || p in queue[1..];
    forall p | p in added
      ensures Reachable(w, inputs, p)
    {
      ReachNext(w, inputs, f, p);
    }
    forall p, q | (p in inputs || p in now.processed) && p !in now.queue && Edge(w, p, q)
      ensures q in now.processed
    {
      if p == f {
        EdgesAdded(w, work, f, q);
      }
    }
    if added == [] {
      assert now == work;
    } else {
      assert added[0] in now.processed;
    }
  }

  class Scan {
    const w: World
    var processed: set<Path>
    var queue: seq<Path>

    constructor (w: World)
      ensures this.w == w && processed == {} && queue == []
    {
      this.w := w;
      processed, queue := {}, [];
    }

    /** Adding one include of a file in base. */
    method FileAdd(base: Path, ref: Ref, caches0: Caches) returns (caches: Caches)
      requires CachesOk(w, caches0, processed)
      modifies this
      ensures Work(processed, queue) == Added(w, Work(old(processed), old(queue)), base, ref)
      ensures CachesOk(w, caches, processed)
    {
      caches := caches0;
      if Cached(caches, base, ref) {
        return;
      }
      var result := IncludeResolvePath(w, base, ref);
      if result.Some? {
        var absPath := result.value;
        if absPath !in processed {
          processed := processed + {absPath};
          queue := queue + [absPath];
          RememberOk(w, caches, base, ref, processed);
          caches := Remember(caches, base, ref);
        }
      }
    }

    /** Adding the includes of a file in base one after another, with caches of its own. */
    method AddAll(base: Path, refs: seq<Ref>)
      modifies this
      ensures Work(processed, queue) == AddedAll(w, Work(old(processed), old(queue)), base, refs)
    {
      var caches := NoCaches;
      NothingCached(w, processed);
      ghost var was := Work(processed, queue);
      for i := 0 to |refs|
        invariant CachesOk(w, caches, processed)
        invariant Work(processed, queue) == AddedAll(w, was, base, refs[..i])
      {
        assert refs[..i + 1][..i] == refs[..i];
        hide Added, CachesOk;
        caches := FileAdd(base, refs[i], caches);
      }
      assert refs[..|refs|] == refs;
    }

    /** Reading one file. */
    method FileProcess(path: Path)
      modifies this
      ensures Work(processed, queue) == AddedRefs(w, Work(old(processed), old(queue)), path, |w.refs(path)|)
    {
      AllAreRefs(w, Work(processed, queue), path, w.refs(path));
      hide AddedAll, AddedRefs;
      AddAll(Parent(path), w.refs(path));
    }

    /** The main loop with a single thread. It terminates, and it finds exactly the files
        that are reachable from the inputs by one or more includes. */
    method Run(inputs: seq<Path>)
      requires processed == {} && queue == []
      modifies this
      ensures queue == []
      ensures forall p :: p in processed <==> Reachable(w, inputs, p)
    {
      for i := 0 to |inputs|
        invariant processed == {} && queue == inputs[..i]
      {
        queue := queue + [inputs[i]];
      }
      while |queue| > 0
        invariant Scanned(w, inputs, processed, queue)
        decreases w.files - processed, |queue|
      {
        ghost var was := processed;
        ScannedNext(w, inputs, processed, queue);
        var f := queue[0];
        queue := queue[1..];
        FileProcess(f);
      }
      forall p | Reachable(w, inputs, p)
        ensures p in processed
      {
        ClosedHasReachable(w, inputs, processed, p);
      }
    }
  }
}

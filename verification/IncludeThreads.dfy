/** tools/incredible/src/main.rs: the scan with one thread per file, as a state machine.

    Main pops a path, counts a job, spawns its thread, and goes on; on an empty queue it
    reads the job counter in a second step and leaves if it is 0. A thread adds one include
    after another and then counts itself off. Adding is atomic: the test, the insertion and
    the push happen under the lock of the processed set. */
module IncludeThreads {
  import opened Wrappers
  import opened IncludePaths
  import opened IncludeScan

  datatype Main = Popping | Popped(path: Path) | Counted(path: Path) | SawEmpty | Left

  /** A thread that has handled the first next directives of its file, or has ended. */
  datatype Thread = Running(path: Path, next: nat, caches: Caches) | Ended(path: Path)

  /** pushed records, for the statements below, every path a thread has put in the queue. */
  datatype State = State(work: Work, jobs: int, main: Main, threads: seq<Thread>, pushed: seq<Path>)

  datatype Step = MainStep | ThreadStep(id: nat)

  function Initial(inputs: seq<Path>): State {
    State(Work({}, inputs), 0, Popping, [], [])
  }

  function StepMain(s: State): State {
    match s.main
    case Popping =>
      if s.work.queue == [] then s.(main := SawEmpty)
      else s.(work := s.work.(queue := s.work.queue[1..]), main := Popped(s.work.queue[0]))
    case Popped(path) => s.(jobs := s.jobs + 1, main := Counted(path))
    case Counted(path) => s.(threads := s.threads + [Running(path, 0, NoCaches)], main := Popping)
    case SawEmpty => s.(main := if s.jobs == 0 then Left else Popping)
    case Left => s
  }

  /** One directive of a thread, through its caches. */
  function Handled(w: World, s: State, id: nat): State
    requires id < |s.threads| && s.threads[id].Running? && s.threads[id].next < |w.refs(s.threads[id].path)|
  {
    var t := s.threads[id];
    var base, ref := Parent(t.path), w.refs(t.path)[t.next];
    var r := Resolve(w, base, ref);
    if Cached(t.caches, base, ref) || r.None? || r.value in s.work.processed
    then s.(threads := s.threads[id := t.(next := t.next + 1)])
    else s.(work := Work(s.work.processed + {r.value}, s.work.queue + [r.value]), pushed := s.pushed + [r.value],
            threads := s.threads[id := Running(t.path, t.next + 1, Remember(t.caches, base, ref))])
  }

  function StepThread(w: World, s: State, id: nat): State {
    if id >= |s.threads| || s.threads[id].Ended? then s
    else if s.threads[id].next < |w.refs(s.threads[id].path)| then Handled(w, s, id)
    else s.(threads := s.threads[id := Ended(s.threads[id].path)], jobs := s.jobs - 1)
  }

  function Take(w: World, s: State, step: Step): State {
    match step
    case MainStep => StepMain(s)
    case ThreadStep(id) => StepThread(w, s, id)
  }

  /** Any interleaving of main and the threads. */
  function Run(w: World, inputs: seq<Path>, steps: seq<Step>): State {
    if steps == [] then Initial(inputs) else Take(w, Run(w, inputs, steps[..|steps| - 1]), steps[|steps| - 1])
  }

  // ----- What holds in every reachable state -----

  /** The path is an input or has been found. */
  ghost predicate Known(inputs: seq<Path>, processed: set<Path>, p: Path) {
    p in inputs || p in processed
  }

  /** The first i directives of p have been taken in. */
  ghost predicate RefsDone(w: World, processed: set<Path>, p: Path, i: nat) {
    forall j :: 0 <= j < i && j < |w.refs(p)| && Resolve(w, Parent(p), w.refs(p)[j]).Some? ==>
      Resolve(w, Parent(p), w.refs(p)[j]).value in processed
  }

  ghost predicate ThreadOk(w: World, inputs: seq<Path>, processed: set<Path>, t: Thread) {
    && Known(inputs, processed, t.path)
    && RefsDone(w, processed, t.path, if t.Running? then t.next else |w.refs(t.path)|)
    && (t.Running? ==> CachesOk(w, t.caches, processed))
  }

  /** The path waits in the queue, is held by main, or has a thread. */
  ghost predicate Tracked(queue: seq<Path>, main: Main, threads: seq<Thread>, p: Path) {
    || p in queue
    || main == Popped(p) || main == Counted(p)
    || exists id :: 0 <= id < |threads| && threads[id].path == p
  }

  function Active(threads: seq<Thread>): nat {
    if threads == [] then 0
    else Active(threads[..|threads| - 1]) + if threads[|threads| - 1].Running? then 1 else 0
  }

  ghost predicate Held(inputs: seq<Path>, processed: set<Path>, queue: seq<Path>, main: Main) {
    && (forall p | p in queue :: Known(inputs, processed, p))
    && (main.Popped? || main.Counted? ==> Known(inputs, processed, main.path))
  }

  ghost predicate ThreadsOk(w: World, inputs: seq<Path>, processed: set<Path>, threads: seq<Thread>) {
    forall id :: 0 <= id < |threads| ==> ThreadOk(w, inputs, processed, threads[id])
  }

  ghost predicate AllTracked(inputs: seq<Path>, processed: set<Path>, queue: seq<Path>, main: Main,
    threads: seq<Thread>) {
    forall p :: Known(inputs, processed, p) ==> Tracked(queue, main, threads, p)
  }

  ghost predicate AllReachable(w: World, inputs: seq<Path>, processed: set<Path>) {
    forall p | p in processed :: Reachable(w, inputs, p)
  }

  /** Every path found was pushed, and pushed once. */
  ghost predicate PushedOnce(pushed: seq<Path>, processed: set<Path>) {
    && (forall i, j :: 0 <= i < j < |pushed| ==> pushed[i] != pushed[j])
    && (forall p :: p in pushed <==> p in processed)
  }

  /** The counter counts the running threads and the one about to be spawned. */
  ghost predicate Counts(s: State) {
    && s.jobs == Active(s.threads) + (if s.main.Counted? then 1 else 0)
    && (s.main.Left? ==> Active(s.threads) == 0)
  }

  ghost predicate Safe(w: World, inputs: seq<Path>, s: State) {
    && AllReachable(w, inputs, s.work.processed)
    && PushedOnce(s.pushed, s.work.processed)
    && Held(inputs, s.work.processed, s.work.queue, s.main)
    && ThreadsOk(w, inputs, s.work.processed, s.threads)
    && AllTracked(inputs, s.work.processed, s.work.queue, s.main, s.threads)
    && Counts(s)
  }

  lemma {:induction false} ActiveUpdate(threads: seq<Thread>, id: nat, t: Thread)
    requires id < |threads|
    ensures Active(threads[id := t]) ==
      Active(threads) - (if threads[id].Running? then 1 else 0) + (if t.Running? then 1 else 0)
  {
    var n := |threads| - 1;
    if id < n {
      ActiveUpdate(threads[..n], id, t);
      assert threads[id := t][..n] == threads[..n][id := t];
    } else {
      assert threads[id := t][..n] == threads[..n];
    }
  }

  lemma {:induction false} NoneActive(threads: seq<Thread>, id: nat)
    requires Active(threads) == 0 && id < |threads|
    ensures threads[id].Ended?
  {
    if id < |threads| - 1 {
      NoneActive(threads[..|threads| - 1], id);
    }
  }

  lemma PopTracked(inputs: seq<Path>, processed: set<Path>, queue: seq<Path>, threads: seq<Thread>)
    requires queue != [] && AllTracked(inputs, processed, queue, Popping, threads)
      && Held(inputs, processed, queue, Popping)
    ensures AllTracked(inputs, processed, queue[1..], Popped(queue[0]), threads)
    ensures Held(inputs, processed, queue[1..], Popped(queue[0]))
  {
    assert queue[0] in queue && forall p | p in queue[1..] :: p in queue;
    forall p | Known(inputs, processed, p)
      ensures Tracked(queue[1..], Popped(queue[0]), threads, p)
    {
      assert Tracked(queue, Popping, threads, p);
      assert p in queue ==> p == queue[0] || p in queue[1..];
    }
  }

  lemma SpawnTracked(inputs: seq<Path>, processed: set<Path>, queue: seq<Path>, threads: seq<Thread>, t: Thread)
    requires AllTracked(inputs, processed, queue, Counted(t.path), threads)
    ensures AllTracked(inputs, processed, queue, Popping, threads + [t])
  {
    forall p | Known(inputs, processed, p)
      ensures Tracked(queue, Popping, threads + [t], p)
    {
      assert Tracked(queue, Counted(t.path), threads, p);
      if id :| 0 <= id < |threads| && threads[id].path == p {
        assert (threads + [t])[id].path == p;
      } else {
        assert (threads + [t])[|threads|] == t;
      }
    }
  }

  lemma MainTracked(inputs: seq<Path>, processed: set<Path>, queue: seq<Path>, main: Main, main': Main,
    threads: seq<Thread>)
    requires AllTracked(inputs, processed, queue, main, threads) && Held(inputs, processed, queue, main)
    requires (!main.Popped? && !main.Counted?) || (main.Popped? && main' == Counted(main.path))
    requires main.Popped? || (!main'.Popped? && !main'.Counted?)
    ensures AllTracked(inputs, processed, queue, main', threads) && Held(inputs, processed, queue, main')
  {
    forall p | Known(inputs, processed, p)
      ensures Tracked(queue, main', threads, p)
    {
      assert Tracked(queue, main, threads, p);
    }
  }

  lemma SafeMain(w: World, inputs: seq<Path>, s: State)
    requires Safe(w, inputs, s)
    ensures Safe(w, inputs, StepMain(s))
  {
    hide AllTracked, Held, AllReachable, PushedOnce;
    var processed, queue, threads := s.work.processed, s.work.queue, s.threads;
    match s.main
    case Popping =>
      if queue == [] {
        MainTracked(inputs, processed, queue, s.main, SawEmpty, threads);
      } else {
        PopTracked(inputs, processed, queue, threads);
      }
    case Popped(path) =>
      MainTracked(inputs, processed, queue, s.main, Counted(path), threads);
    case Counted(path) =>
      var t := Running(path, 0, NoCaches);
      SpawnTracked(inputs, processed, queue, threads, t);
      SpawnHeld(w, inputs, processed, queue, threads, path);
      assert (threads + [t])[..|threads|] == threads;
    case SawEmpty =>
      MainTracked(inputs, processed, queue, s.main, StepMain(s).main, threads);
    case Left =>
  }

  lemma SpawnHeld(w: World, inputs: seq<Path>, processed: set<Path>, queue: seq<Path>, threads: seq<Thread>, path: Path)
    requires Held(inputs, processed, queue, Counted(path)) && ThreadsOk(w, inputs, processed, threads)
    ensures Held(inputs, processed, queue, Popping)
    ensures ThreadsOk(w, inputs, processed, threads + [Running(path, 0, NoCaches)])
  {
  }

  /** A thread replaced by one on the same path. */
  lemma ThreadTracked(inputs: seq<Path>, processed: set<Path>, queue: seq<Path>, main: Main, threads: seq<Thread>,
    id: nat, t: Thread)
    requires AllTracked(inputs, processed, queue, main, threads) && id < |threads| && t.path == threads[id].path
    ensures AllTracked(inputs, processed, queue, main, threads[id := t])
  {
    forall p | Known(inputs, processed, p)
      ensures Tracked(queue, main, threads[id := t], p)
    {
      assert Tracked(queue, main, threads, p);
      if i :| 0 <= i < |threads| && threads[i].path == p {
        assert threads[id := t][i].path == p;
      }
    }
  }

  lemma PushTracked(inputs: seq<Path>, processed: set<Path>, queue: seq<Path>, main: Main, threads: seq<Thread>,
    q: Path)
    requires AllTracked(inputs, processed, queue, main, threads) && Held(inputs, processed, queue, main)
    ensures AllTracked(inputs, processed + {q}, queue + [q], main, threads)
      && Held(inputs, processed + {q}, queue + [q], main)
  {
    forall p | Known(inputs, processed + {q}, p)
      ensures Tracked(queue + [q], main, threads, p)
    {
      assert p != q ==> Tracked(queue, main, threads, p);
    }
  }

  /** More found files disturb no thread. */
  lemma ThreadsStayOk(w: World, inputs: seq<Path>, processed: set<Path>, more: set<Path>, threads: seq<Thread>)
    requires ThreadsOk(w, inputs, processed, threads) && processed <= more
    ensures ThreadsOk(w, inputs, more, threads)
  {
    hide Resolve, Cached;
    forall id | 0 <= id < |threads|
      ensures ThreadOk(w, inputs, more, threads[id])
    {
      assert ThreadOk(w, inputs, processed, threads[id]);
    }
  }

  /** The next directive is taken in once what it resolves to, if anything, is found. */
  lemma DirectiveDone(w: World, inputs: seq<Path>, processed: set<Path>, t: Thread, caches: Caches)
    requires ThreadOk(w, inputs, processed, t) && t.Running? && t.next < |w.refs(t.path)|
    requires var r := Resolve(w, Parent(t.path), w.refs(t.path)[t.next]); r.Some? ==> r.value in processed
    requires CachesOk(w, caches, processed)
    ensures ThreadOk(w, inputs, processed, Running(t.path, t.next + 1, caches))
  {
    hide Resolve, CachesOk;
  }

  /** A thread's file was reached, and so is what it includes. */
  lemma FoundReachable(w: World, inputs: seq<Path>, processed: set<Path>, t: Thread)
    requires ThreadOk(w, inputs, processed, t) && AllReachable(w, inputs, processed)
    requires t.Running? && t.next < |w.refs(t.path)|
    requires Resolve(w, Parent(t.path), w.refs(t.path)[t.next]).Some?
    ensures AllReachable(w, inputs, processed + {Resolve(w, Parent(t.path), w.refs(t.path)[t.next]).value})
  {
    hide Resolve;
    ReachNext(w, inputs, t.path, Resolve(w, Parent(t.path), w.refs(t.path)[t.next]).value);
  }

  lemma SafeHandled(w: World, inputs: seq<Path>, s: State, id: nat)
    requires Safe(w, inputs, s)
    requires id < |s.threads| && s.threads[id].Running? && s.threads[id].next < |w.refs(s.threads[id].path)|
    ensures Safe(w, inputs, Handled(w, s, id))
  {
    hide Resolve, AllTracked, Held, AllReachable, ThreadOk;
    var t := s.threads[id];
    var base, ref := Parent(t.path), w.refs(t.path)[t.next];
    var r := Resolve(w, base, ref);
    assert ThreadOk(w, inputs, s.work.processed, t);
    ThreadCaches(w, inputs, s.work.processed, t);
    var t', more := Running(t.path, t.next + 1, t.caches), s.work.processed;
    if !Cached(t.caches, base, ref) && r.Some? && r.value !in s.work.processed {
      more := s.work.processed + {r.value};
      FoundReachable(w, inputs, s.work.processed, t);
      PushTracked(inputs, s.work.processed, s.work.queue, s.main, s.threads, r.value);
      ThreadsStayOk(w, inputs, s.work.processed, more, s.threads);
      assert ThreadOk(w, inputs, more, t);
      ThreadCaches(w, inputs, more, t);
      RememberOk(w, t.caches, base, ref, more);
      t' := Running(t.path, t.next + 1, Remember(t.caches, base, ref));
    }
    DirectiveDone(w, inputs, more, t, t'.caches);
    ThreadTracked(inputs, more, Handled(w, s, id).work.queue, s.main, s.threads, id, t');
    ActiveUpdate(s.threads, id, t');
  }

  lemma ThreadCaches(w: World, inputs: seq<Path>, processed: set<Path>, t: Thread)
    requires ThreadOk(w, inputs, processed, t) && t.Running?
    ensures CachesOk(w, t.caches, processed)
  {
  }

  lemma SafeThread(w: World, inputs: seq<Path>, s: State, id: nat)
    requires Safe(w, inputs, s)
    ensures Safe(w, inputs, StepThread(w, s, id))
  {
    hide Handled, AllTracked, Held, AllReachable, PushedOnce;
    if id < |s.threads| && s.threads[id].Running? {
      var t := s.threads[id];
      if t.next < |w.refs(t.path)| {
        SafeHandled(w, inputs, s, id);
      } else {
        ThreadTracked(inputs, s.work.processed, s.work.queue, s.main, s.threads, id, Ended(t.path));
        ActiveUpdate(s.threads, id, Ended(t.path));
      }
    }
  }

  /** Safety of every interleaving: only reachable files are found, and no file is ever
      pushed twice. */
  lemma {:induction false} AllRunsSafe(w: World, inputs: seq<Path>, steps: seq<Step>)
    ensures Safe(w, inputs, Run(w, inputs, steps))
  {
    if steps == [] {
      assert Active([]) == 0;
    } else {
      var before := steps[..|steps| - 1];
      AllRunsSafe(w, inputs, before);
      match steps[|steps| - 1]
      case MainStep => SafeMain(w, inputs, Run(w, inputs, before));
      case ThreadStep(id) => SafeThread(w, inputs, Run(w, inputs, before), id);
    }
  }

  // ----- Completeness -----

  /** The exit test reads the queue and the counter one after the other, so it can leave with
      a queue that was filled in between. When it leaves, every thread has ended, and the
      result is complete exactly if the queue holds nothing that includes anything new; in
      particular if the queue is empty. */
  lemma ExitComplete(w: World, inputs: seq<Path>, steps: seq<Step>)
    requires Run(w, inputs, steps).main.Left?
    ensures var s := Run(w, inputs, steps);
      && (forall id :: 0 <= id < |s.threads| ==> s.threads[id].Ended?)
      && ((forall p :: p in s.work.processed <==> Reachable(w, inputs, p)) <==>
          (forall p, q :: p in s.work.queue && Edge(w, p, q) ==> q in s.work.processed))
  {
    var s := Run(w, inputs, steps);
    AllRunsSafe(w, inputs, steps);
    forall id | 0 <= id < |s.threads|
      ensures s.threads[id].Ended?
    {
      NoneActive(s.threads, id);
    }
    if forall p, q :: p in s.work.queue && Edge(w, p, q) ==> q in s.work.processed {
      forall p, q | (p in inputs || p in s.work.processed) && Edge(w, p, q)
        ensures q in s.work.processed
      {
        EndedDone(w, inputs, s, p, q);
      }
      forall p | Reachable(w, inputs, p)
        ensures p in s.work.processed
      {
        ClosedHasReachable(w, inputs, s.work.processed, p);
      }
    }
    if forall p :: p in s.work.processed <==> Reachable(w, inputs, p) {
      forall p, q | p in s.work.queue && Edge(w, p, q)
        ensures q in s.work.processed
      {
        assert Known(inputs, s.work.processed, p);
        ReachNext(w, inputs, p, q);
      }
    }
  }

  lemma EndedDone(w: World, inputs: seq<Path>, s: State, p: Path, q: Path)
    requires Safe(w, inputs, s) && s.main.Left? && (forall id :: 0 <= id < |s.threads| ==> s.threads[id].Ended?)
    requires (p in inputs || p in s.work.processed) && Edge(w, p, q)
    requires p in s.work.queue ==> q in s.work.processed
    ensures q in s.work.processed
  {
    assert Known(inputs, s.work.processed, p);
    assert Tracked(s.work.queue, s.main, s.threads, p);
    if p !in s.work.queue {
      var id :| 0 <= id < |s.threads| && s.threads[id].path == p;
      assert ThreadOk(w, inputs, s.work.processed, s.threads[id]);
      var j :| 0 <= j < |w.refs(p)| && Resolve(w, Parent(p), w.refs(p)[j]) == Some(q);
    }
  }

  lemma RunNext(w: World, inputs: seq<Path>, steps: seq<Step>, step: Step)
    ensures Run(w, inputs, steps + [step]) == Take(w, Run(w, inputs, steps), step)
  {
    assert (steps + [step])[..|steps|] == steps;
  }

  /** a includes b, and b includes c. */
  function Example(): World {
    World({["a"], ["b"], ["c"]},
          p => if p == ["a"] then [Ref("b", Local)] else if p == ["b"] then [Ref("c", Local)] else [],
          [], name => [name], name => [name])
  }

  lemma ExampleResolves(name: string)
    requires name == "b" || name == "c"
    ensures Resolve(Example(), [], Ref(name, Local)) == Some([name])
  {
    assert "b" != ".." && "c" != "..";
    assert [] + [name] == [name];
    ResolvesFirst(Example(), [], Ref(name, Local), [name]);
  }

  lemma ExampleReaches()
    ensures Reachable(Example(), [["a"]], ["c"]) && ["b"] != ["c"]
  {
    var w, a, b: Path := Example(), ["a"], ["b"];
    assert "a" != "b" && "b" != "c";
    ExampleResolves("b");
    ExampleResolves("c");
    hide Resolve;
    assert w.refs(a)[0] == Ref("b", Local) && w.refs(b)[0] == Ref("c", Local) && Parent(a) == [] == Parent(b);
    assert Edge(w, a, b) && Edge(w, b, ["c"]);
    hide Edge;
    ReachNext(w, [["a"]], a, b);
    ReachNext(w, [["a"]], b, ["c"]);
    assert ["b"][0] != ["c"][0];
  }

  lemma ExampleSpawns(m: Step)
    requires m == MainStep
    ensures Run(Example(), [["a"]], [] + [m] + [m] + [m] + [m]) ==
      State(Work({}, []), 1, SawEmpty, [Running(["a"], 0, NoCaches)], [])
  {
    var w, inputs := Example(), [["a"]];
    RunNext(w, inputs, [], m);
    RunNext(w, inputs, [] + [m], m);
    RunNext(w, inputs, [] + [m] + [m], m);
    RunNext(w, inputs, [] + [m] + [m] + [m], m);
  }

  /** From there the thread pushes b and counts itself off, and main leaves. */
  lemma ExampleLeaves(m: Step, t: Step)
    requires m == MainStep && t == ThreadStep(0)
    ensures var s := State(Work({}, []), 1, SawEmpty, [Running(["a"], 0, NoCaches)], []);
      Take(Example(), Take(Example(), Take(Example(), s, t), t), m) ==
        State(Work({["b"]}, [["b"]]), 0, Left, [Ended(["a"])], [["b"]])
  {
    var w, a, b: Path := Example(), ["a"], ["b"];
    var s := State(Work({}, []), 1, SawEmpty, [Running(a, 0, NoCaches)], []);
    ExampleResolves("b");
    assert w.refs(a) == [Ref("b", Local)] && Parent(a) == [];
    assert !Cached(NoCaches, [], Ref("b", Local));
    hide Resolve, Remember, Cached, Example;
    var caches := Remember(NoCaches, [], Ref("b", Local));
    assert {} + {b} == {b} && [] + [b] == [b];
    assert Handled(w, s, 0) == State(Work({b}, [b]), 1, SawEmpty, [Running(a, 1, caches)], [b]);
  }

  /** The run that leaves too early: main finds the queue empty, then the only thread pushes
      b and counts itself off, then main finds the counter at 0. Nothing has read b, and c
      is missing from the result. */
  lemma ExitTooEarly() returns (steps: seq<Step>)
    ensures var s := Run(Example(), [["a"]], steps);
      s.main.Left? && s.work == Work({["b"]}, [["b"]]) && Reachable(Example(), [["a"]], ["c"])
        && ["c"] !in s.work.processed
  {
    var w, inputs, m, t := Example(), [["a"]], MainStep, ThreadStep(0);
    ExampleReaches();
    ExampleSpawns(m);
    ExampleLeaves(m, t);
    hide Take, Reachable, Run, Example;
    var s4 := [] + [m] + [m] + [m] + [m];
    RunNext(w, inputs, s4, t);
    RunNext(w, inputs, s4 + [t], t);
    RunNext(w, inputs, s4 + [t] + [t], m);
    steps := s4 + [t] + [t] + [m];
    var s := Run(w, inputs, steps);
    assert s == State(Work({["b"]}, [["b"]]), 0, Left, [Ended(["a"])], [["b"]]);
  }
}

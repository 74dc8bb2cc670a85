/** tools/ebert/watcher/watcher.go: any number of watchers sharing one watermark key. */
module Watcher {
  import opened Numbers

  const MAX_CHANGES_PER_POLL := 100

  /** Where a watcher is in one round: waiting; the key read as seen; working through a page
      of changes; about to write the key. */
  datatype Phase = Idle | Got(seen: string) | Looping(seen: string, todo: seq<int>) | Storing(seen: string)

  datatype Watch = Watch(dev: bool, lastChecked: int, phase: Phase)

  datatype Key = Missing | Value(text: string)

  datatype State = State(submitted: set<int>, dispatched: set<int>, key: Key, watchers: seq<Watch>)

  /** What can happen next. The environment submits changes; a watcher's step carries what
      the server answers. */
  datatype Step =
    | Submit(cl: int)
    | Read(id: nat, ok: bool)
    | Query(id: nat, ok: bool, page: seq<int>)
    | Dispatch(id: nat)
    | Store(id: nat, ok: bool)

  /** The oldest changes from first on, at most a page of them, in ascending order. */
  ghost predicate IsPage(submitted: set<int>, first: int, page: seq<int>) {
    && |page| <= MAX_CHANGES_PER_POLL
    && (forall i :: 0 <= i < |page| ==> page[i] in submitted && page[i] >= first)
    && (forall i, j :: 0 <= i < j < |page| ==> page[i] < page[j])
    && (forall c | c in submitted && first <= c && c !in page ::
         |page| == MAX_CHANGES_PER_POLL && forall i :: 0 <= i < |page| ==> page[i] < c)
  }

  /** What the server lets happen. Submitted changes are numbered in the order of their
      submission. */
  ghost predicate Enabled(s: State, step: Step) {
    match step
    case Submit(cl) => 1 <= cl && InRange(cl) && forall c | c in s.submitted :: c < cl
    case Read(id, _) => id < |s.watchers| && s.watchers[id].phase.Idle?
    case Query(id, ok, page) =>
      id < |s.watchers| && s.watchers[id].phase.Got?
        && (ok ==> IsPage(s.submitted, s.watchers[id].lastChecked + 1, page))
    case Dispatch(id) => id < |s.watchers| && s.watchers[id].phase.Looping?
    case Store(id, _) => id < |s.watchers| && s.watchers[id].phase.Storing?
  }

  /** The answer to reading the key: "0" if it is missing or the read fails. */
  function KeyGet(key: Key, ok: bool): string {
    if ok && key.Value? then key.text else "0"
  }

  function Checked(w: Watch, seen: string): int {
    match Atoi(seen)
    case NotANumber => w.lastChecked
    case Number(i) => if !w.dev || i > w.lastChecked then i else w.lastChecked
  }

  /** The write at the end of a round: a plain set if "0" was read, else a check-and-set,
      which does nothing if the key has changed. */
  function Stored(key: Key, seen: string, fresher: string, ok: bool): Key {
    if !ok then key
    else if seen == "0" then Value(fresher)
    else if key == Value(seen) then Value(fresher)
    else key
  }

  ghost function Next(s: State, step: Step): State
    requires Enabled(s, step)
  {
    match step
    case Submit(cl) => s.(submitted := s.submitted + {cl})
    case Read(id, ok) =>
      var w, seen := s.watchers[id], KeyGet(s.key, ok);
      s.(watchers := s.watchers[id := w.(lastChecked := Checked(w, seen), phase := Got(seen))])
    case Query(id, ok, page) =>
      var w := s.watchers[id];
      s.(watchers := s.watchers[id := w.(phase := if ok then Looping(w.phase.seen, page) else Idle)])
    case Dispatch(id) =>
      var w := s.watchers[id];
      var todo := w.phase.todo;
      if todo != [] then
        s.(dispatched := s.dispatched + {todo[0]},
           watchers := s.watchers[id := w.(lastChecked := todo[0], phase := Looping(w.phase.seen, todo[1..]))])
      else s.(watchers := s.watchers[id := w.(phase := if w.dev then Idle else Storing(w.phase.seen))])
    case Store(id, ok) =>
      var w := s.watchers[id];
      s.(key := Stored(s.key, w.phase.seen, Itoa(w.lastChecked), ok), watchers := s.watchers[id := w.(phase := Idle)])
  }

  /** The number the watchers start from: what the key holds, or 0. */
  ghost function Watermark(key: Key): int {
    if key.Value? && Atoi(key.text).Number? then Atoi(key.text).value else 0
  }

  ghost predicate Starting(s: State) {
    && (forall c | c in s.submitted :: 1 <= c && InRange(c))
    && (forall id :: 0 <= id < |s.watchers| ==> s.watchers[id].phase.Idle? && s.watchers[id].lastChecked == 0)
  }

  /** A run: every state but the first follows from the one before it. */
  ghost predicate IsRun(run: seq<State>, steps: seq<Step>) {
    && |run| == |steps| + 1
    && if steps == [] then Starting(run[0])
       else
         var n := |steps| - 1;
         IsRun(run[..n + 1], steps[..n]) && Enabled(run[n], steps[n]) && run[n + 1] == Next(run[n], steps[n])
  }

  // ----- At-least-once delivery -----

  /** Every submitted change above base and up to mark has been dispatched; and mark is not
      ahead of what has been submitted, so that no later change can fall below it. */
  ghost predicate Delivered(submitted: set<int>, dispatched: set<int>, base: int, mark: int) {
    && (forall c | c in submitted && base < c <= mark :: c in dispatched)
    && (mark <= base || mark <= 0 || mark in submitted)
  }

  /** The rest of a page has no gap: no submitted change is skipped between the last one
      checked and any change of the page. */
  ghost predicate NoGap(submitted: set<int>, lastChecked: int, todo: seq<int>) {
    && (forall i :: 0 <= i < |todo| ==> lastChecked < todo[i] && todo[i] in submitted)
    && (forall i, j :: 0 <= i < j < |todo| ==> todo[i] < todo[j])
    && (forall c, i :: c in submitted && 0 <= i < |todo| && lastChecked < c <= todo[i] ==> c in todo)
  }

  ghost predicate WatchOk(submitted: set<int>, dispatched: set<int>, base: int, w: Watch) {
    && InRange(w.lastChecked)
    && Delivered(submitted, dispatched, base, w.lastChecked)
    && (w.phase.Looping? ==> NoGap(submitted, w.lastChecked, w.phase.todo))
    && (!w.phase.Idle? && Atoi(w.phase.seen).Number? && !w.dev ==> Atoi(w.phase.seen).value <= w.lastChecked)
  }

  ghost predicate KeyOk(submitted: set<int>, dispatched: set<int>, base: int, key: Key) {
    key.Value? && Atoi(key.text).Number? ==> Delivered(submitted, dispatched, base, Atoi(key.text).value)
  }

  ghost predicate Safe(s: State, base: int) {
    && (forall c | c in s.submitted :: 1 <= c && InRange(c))
    && KeyOk(s.submitted, s.dispatched, base, s.key)
    && (forall id :: 0 <= id < |s.watchers| ==> WatchOk(s.submitted, s.dispatched, base, s.watchers[id]))
  }

  lemma StartSafe(s: State)
    requires Starting(s)
    ensures Safe(s, Watermark(s.key))
  {
  }

  lemma SubmitSafe(s: State, base: int, cl: int)
    requires Safe(s, base) && Enabled(s, Submit(cl))
    ensures Safe(Next(s, Submit(cl)), base)
  {
    hide Atoi;
  }

  lemma ReadSafe(s: State, base: int, id: nat, ok: bool)
    requires Safe(s, base) && Enabled(s, Read(id, ok))
    ensures Safe(Next(s, Read(id, ok)), base)
  {
    assert Atoi("0") == Number(0) by {
      assert Itoa(0) == "0";
      ItoaRoundTrip(0);
    }
    AtoiInRange(KeyGet(s.key, ok));
    hide Atoi, NoGap;
    assert WatchOk(s.submitted, s.dispatched, base, s.watchers[id]);
  }

  lemma AtoiInRange(text: string)
    ensures Atoi(text).Number? ==> InRange(Atoi(text).value)
  {
  }

  lemma QuerySafe(s: State, base: int, id: nat, ok: bool, page: seq<int>)
    requires Safe(s, base) && Enabled(s, Query(id, ok, page))
    ensures Safe(Next(s, Query(id, ok, page)), base)
  {
    hide Atoi, Delivered;
    var w := s.watchers[id];
    assert WatchOk(s.submitted, s.dispatched, base, w);
    if ok {
      assert NoGap(s.submitted, w.lastChecked, page);
    }
  }

  lemma DispatchSafe(s: State, base: int, id: nat)
    requires Safe(s, base) && Enabled(s, Dispatch(id))
    ensures Safe(Next(s, Dispatch(id)), base)
  {
    hide Atoi;
    var w := s.watchers[id];
    assert WatchOk(s.submitted, s.dispatched, base, w);
    var todo := w.phase.todo;
    if todo != [] {
      forall c | c in s.submitted && base < c <= todo[0]
        ensures c in s.dispatched + {todo[0]}
      {
        if c > w.lastChecked {
          assert c in todo;
        }
      }
    }
  }

  lemma StoreSafe(s: State, base: int, id: nat, ok: bool)
    requires Safe(s, base) && Enabled(s, Store(id, ok))
    ensures Safe(Next(s, Store(id, ok)), base)
  {
    assert WatchOk(s.submitted, s.dispatched, base, s.watchers[id]);
    ItoaRoundTrip(s.watchers[id].lastChecked);
    hide Atoi, Itoa, Delivered;
  }

  lemma NextSafe(s: State, base: int, step: Step)
    requires Safe(s, base) && Enabled(s, step)
    ensures Safe(Next(s, step), base)
  {
    hide Safe, Enabled;
    match step
    case Submit(cl) => SubmitSafe(s, base, cl);
    case Read(id, ok) => ReadSafe(s, base, id, ok);
    case Query(id, ok, page) => QuerySafe(s, base, id, ok, page);
    case Dispatch(id) => DispatchSafe(s, base, id);
    case Store(id, ok) => StoreSafe(s, base, id, ok);
  }

  lemma {:induction false} RunSafe(run: seq<State>, steps: seq<Step>)
    requires IsRun(run, steps)
    ensures Safe(run[|run| - 1], Watermark(run[0].key))
  {
    hide Safe, Next, Enabled, Starting;
    var n := |steps|;
    if n == 0 {
      StartSafe(run[0]);
    } else {
      RunSafe(run[..n], steps[..n - 1]);
      NextSafe(run[n - 1], Watermark(run[0].key), steps[n - 1]);
    }
  }

  /** In every state of every run, whatever reads fail and whoever wins a write: every
      submitted change above the starting watermark, and at or below the key or what any
      watcher has checked, has been dispatched. */
  lemma AtLeastOnce(run: seq<State>, steps: seq<Step>, c: int)
    requires IsRun(run, steps)
    requires var s := run[|run| - 1];
      c in s.submitted && Watermark(run[0].key) < c
    ensures var s := run[|run| - 1];
      && (s.key.Value? && Atoi(s.key.text).Number? && c <= Atoi(s.key.text).value ==> c in s.dispatched)
      && (forall id :: 0 <= id < |s.watchers| && c <= s.watchers[id].lastChecked ==> c in s.dispatched)
  {
    hide Atoi;
    RunSafe(run, steps);
    var s := run[|run| - 1];
    forall id | 0 <= id < |s.watchers| && c <= s.watchers[id].lastChecked
      ensures c in s.dispatched
    {
      assert WatchOk(s.submitted, s.dispatched, Watermark(run[0].key), s.watchers[id]);
    }
  }

  // ----- The key -----

  /** When a write takes effect on an integer-valued key, it lowers the key exactly if it is
      a plain set, made because "0" was read, and the watcher has checked less than the key
      says. A check-and-set never lowers it. */
  lemma StoreLowersIff(run: seq<State>, steps: seq<Step>, id: nat)
    requires IsRun(run, steps)
    requires var s := run[|run| - 1];
      Enabled(s, Store(id, true)) && !s.watchers[id].dev && s.key.Value? && Atoi(s.key.text).Number?
    ensures var s := run[|run| - 1];
      var w, was, key := s.watchers[id], Atoi(s.key.text).value, Next(s, Store(id, true)).key;
      && key.Value? && Atoi(key.text).Number?
      && (Atoi(key.text).value < was <==> w.phase.seen == "0" && w.lastChecked < was)
  {
    RunSafe(run, steps);
    var s := run[|run| - 1];
    var w := s.watchers[id];
    assert WatchOk(s.submitted, s.dispatched, Watermark(run[0].key), w);
    ItoaRoundTrip(w.lastChecked);
    hide Atoi, Itoa;
  }

  /** One watcher, no changes, and a key at 5; the first read fails. */
  function Example(phase: Phase, key: string): State {
    State({}, {}, Value(key), [Watch(false, 0, phase)])
  }

  lemma ExampleRead(s0: State, s1: State)
    requires s0 == Example(Idle, "5") && s1 == Example(Got("0"), "5")
    ensures Starting(s0) && Enabled(s0, Read(0, false)) && Next(s0, Read(0, false)) == s1
  {
    assert Itoa(0) == "0";
    ItoaRoundTrip(0);
    hide Atoi;
  }

  lemma ExampleRest(s1: State, s2: State, s3: State, s4: State)
    requires s1 == Example(Got("0"), "5") && s2 == Example(Looping("0", []), "5")
    requires s3 == Example(Storing("0"), "5") && s4 == Example(Idle, "0")
    ensures Enabled(s1, Query(0, true, [])) && Next(s1, Query(0, true, [])) == s2
    ensures Enabled(s2, Dispatch(0)) && Next(s2, Dispatch(0)) == s3
    ensures Enabled(s3, Store(0, true)) && Next(s3, Store(0, true)) == s4
  {
    assert Itoa(0) == "0";
    hide Itoa;
  }

  /** It does happen: one failed read is enough to set the key back to 0. */
  lemma FailedReadLowersKey() returns (run: seq<State>, steps: seq<Step>)
    ensures IsRun(run, steps) && run[0].key == Value("5") && run[|run| - 1].key == Value("0")
  {
    var s0, s1, s4 := Example(Idle, "5"), Example(Got("0"), "5"), Example(Idle, "0");
    var s2, s3 := Example(Looping("0", []), "5"), Example(Storing("0"), "5");
    ExampleRead(s0, s1);
    ExampleRest(s1, s2, s3, s4);
    StartRun(s0);
    assert s0.key == Value("5") && s4.key == Value("0");
    hide Next, Enabled, IsRun, Example;
    run, steps := [s0], [];
    ExtendRun(run, steps, Read(0, false));
    run, steps := run + [s1], steps + [Read(0, false)];
    ExtendRun(run, steps, Query(0, true, []));
    run, steps := run + [s2], steps + [Query(0, true, [])];
    ExtendRun(run, steps, Dispatch(0));
    run, steps := run + [s3], steps + [Dispatch(0)];
    ExtendRun(run, steps, Store(0, true));
    run, steps := run + [s4], steps + [Store(0, true)];
  }

  lemma StartRun(s: State)
    requires Starting(s)
    ensures IsRun([s], [])
  {
  }

  lemma ExtendRun(run: seq<State>, steps: seq<Step>, step: Step)
    requires IsRun(run, steps) && Enabled(run[|run| - 1], step)
    ensures IsRun(run + [Next(run[|run| - 1], step)], steps + [step])
  {
    hide Next, Enabled, Starting;
    var n := |steps|;
    var longer := run + [Next(run[n], step)];
    assert longer[..n + 1] == run && (steps + [step])[..n] == steps;
  }

  // ----- A whole round of one watcher -----

  /** The steps lead from s to t. */
  ghost predicate Leads(s: State, steps: seq<Step>, t: State)
    decreases |steps|
  {
    if steps == [] then s == t
    else Enabled(s, steps[0]) && Leads(Next(s, steps[0]), steps[1..], t)
  }

  function Dispatches(id: nat, n: nat): seq<Step> {
    if n == 0 then [] else [Dispatch(id)] + Dispatches(id, n - 1)
  }

  function Last(page: seq<int>, none: int): int {
    if page == [] then none else page[|page| - 1]
  }

  ghost function SetOf(page: seq<int>): set<int> {
    set c | c in page
  }

  lemma {:induction false} LeadsOn(s: State, steps: seq<Step>, t: State, more: seq<Step>, u: State)
    requires Leads(s, steps, t) && Leads(t, more, u)
    ensures Leads(s, steps + more, u)
    decreases |steps|
  {
    hide Next, Enabled;
    if steps == [] {
      assert steps + more == more;
    } else {
      LeadsOn(Next(s, steps[0]), steps[1..], t, more, u);
      assert (steps + more)[0] == steps[0] && (steps + more)[1..] == steps[1..] + more;
    }
  }

  lemma LeadsOne(s: State, step: Step)
    requires Enabled(s, step)
    ensures Leads(s, [step], Next(s, step))
  {
    hide Next, Enabled;
    assert [step][1..] == [];
  }

  /** Working through a page dispatches all of it and ends at its last change. */
  lemma {:induction false} PageDispatched(s: State, id: nat)
    requires id < |s.watchers| && s.watchers[id].phase.Looping?
    ensures var w := s.watchers[id];
      var todo := w.phase.todo;
      Leads(s, Dispatches(id, |todo| + 1), s.(dispatched := s.dispatched + SetOf(todo),
        watchers := s.watchers[id :=
          Watch(w.dev, Last(todo, w.lastChecked), if w.dev then Idle else Storing(w.phase.seen))]))
    decreases |s.watchers[id].phase.todo|
  {
    var w := s.watchers[id];
    var todo := w.phase.todo;
    var next := Next(s, Dispatch(id));
    var steps := Dispatches(id, |todo| + 1);
    assert steps[0] == Dispatch(id) && steps[1..] == Dispatches(id, |todo|);
    hide IsPage;
    if todo == [] {
      assert s.dispatched + SetOf(todo) == s.dispatched;
      assert steps[1..] == [] && Enabled(s, Dispatch(id));
      assert Leads(next, [], next);
    } else {
      PageDispatched(next, id);
      assert s.dispatched + SetOf(todo) == s.dispatched + {todo[0]} + SetOf(todo[1..]);
      assert next.watchers[id].phase.todo == todo[1..] && Last(todo[1..], todo[0]) == Last(todo, w.lastChecked);
      var end := Watch(w.dev, Last(todo, w.lastChecked), if w.dev then Idle else Storing(w.phase.seen));
      assert next.watchers[id := end] == s.watchers[id := end];
    }
  }

  /** The number a watcher counts on from after reading the key. */
  ghost predicate CountsFrom(key: Key, w: Watch, v: int) {
    if key.Value? && Atoi(key.text).NotANumber? then v == w.lastChecked
    else if w.dev then v >= Watermark(key) && v >= w.lastChecked && (v == Watermark(key) || v == w.lastChecked)
    else v == Watermark(key)
  }

  ghost function RoundSteps(id: nat, dev: bool, page: seq<int>): seq<Step> {
    [Read(id, true)] + [Query(id, true, page)] + Dispatches(id, |page| + 1) + if dev then [] else [Store(id, true)]
  }

  /** A round with nothing in between and no errors: the page after the number in the key is
      dispatched, and the key ends at the last change of the page. In development mode a
      watcher counts on from the greater of the key and its own number, and leaves the key. */
  lemma QuietRound(s: State, id: nat, page: seq<int>, v: int)
    requires id < |s.watchers| && s.watchers[id].phase.Idle? && CountsFrom(s.key, s.watchers[id], v)
    requires IsPage(s.submitted, v + 1, page)
    ensures var dev := s.watchers[id].dev;
      Leads(s, RoundSteps(id, dev, page), State(s.submitted, s.dispatched + SetOf(page),
        if dev then s.key else Value(Itoa(Last(page, v))), s.watchers[id := Watch(dev, Last(page, v), Idle)]))
  {
    var w, seen := s.watchers[id], KeyGet(s.key, true);
    var s2 := s.(watchers := s.watchers[id := Watch(w.dev, v, Looping(seen, page))]);
    ReadAndQuery(s, id, page, v);
    PageDispatched(s2, id);
    var end := Watch(w.dev, Last(page, v), if w.dev then Idle else Storing(seen));
    assert s2.watchers[id := end] == s.watchers[id := end];
    var s3 := State(s.submitted, s.dispatched + SetOf(page), s.key, s.watchers[id := end]);
    hide Leads, Dispatches, IsPage, SetOf, Last, CountsFrom;
    LeadsOn(s, [Read(id, true)] + [Query(id, true, page)], s2, Dispatches(id, |page| + 1), s3);
    var before := [Read(id, true)] + [Query(id, true, page)] + Dispatches(id, |page| + 1);
    if w.dev {
      assert before + [] == before;
    } else {
      StoreWorks(s3, id);
      var idle := Watch(w.dev, Last(page, v), Idle);
      assert s3.watchers[id := idle] == s.watchers[id := idle];
      LeadsOne(s3, Store(id, true));
      LeadsOn(s, before, s3, [Store(id, true)], Next(s3, Store(id, true)));
    }
  }

  lemma StoreWorks(s: State, id: nat)
    requires id < |s.watchers| && s.watchers[id].phase == Storing(KeyGet(s.key, true))
    ensures Enabled(s, Store(id, true)) && Next(s, Store(id, true)) == State(s.submitted, s.dispatched,
      Value(Itoa(s.watchers[id].lastChecked)),
      s.watchers[id := Watch(s.watchers[id].dev, s.watchers[id].lastChecked, Idle)])
  {
  }

  lemma ReadAndQuery(s: State, id: nat, page: seq<int>, v: int)
    requires id < |s.watchers| && s.watchers[id].phase.Idle? && CountsFrom(s.key, s.watchers[id], v)
    requires IsPage(s.submitted, v + 1, page)
    ensures Leads(s, [Read(id, true)] + [Query(id, true, page)],
      s.(watchers := s.watchers[id := Watch(s.watchers[id].dev, v, Looping(KeyGet(s.key, true), page))]))
  {
    AfterRead(s, id, v);
    hide IsPage, CountsFrom;
    var s1 := Next(s, Read(id, true));
    LeadsOne(s, Read(id, true));
    LeadsOne(s1, Query(id, true, page));
    LeadsOn(s, [Read(id, true)], s1, [Query(id, true, page)], Next(s1, Query(id, true, page)));
    var end := Watch(s.watchers[id].dev, v, Looping(KeyGet(s.key, true), page));
    assert s1.watchers[id := end] == s.watchers[id := end];
  }

  lemma AfterRead(s: State, id: nat, v: int)
    requires id < |s.watchers| && s.watchers[id].phase.Idle? && CountsFrom(s.key, s.watchers[id], v)
    ensures Next(s, Read(id, true)) ==
      s.(watchers := s.watchers[id := Watch(s.watchers[id].dev, v, Got(KeyGet(s.key, true)))])
  {
    assert Atoi("0") == Number(0) by {
      assert Itoa(0) == "0";
      ItoaRoundTrip(0);
    }
    hide Atoi;
    var w := s.watchers[id];
    assert Checked(w, KeyGet(s.key, true)) == v;
  }
}

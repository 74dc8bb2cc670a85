/** libs/go/builddist/make_package.go: publishing a package.

    One thread walks over the files, and for each it can open starts an upload, never more
    than ten at once; an upload is tried twice, then hands its entry over a buffered channel
    to a recorder that writes entries in batches. When every upload has reported, the walker
    closes the channel, waits for the recorder and marks the package complete. An upload
    that fails twice never reports. */
module Publication {
  const MAX_UPLOADS := 10
  const CHANNEL_SIZE := 1024
  const BATCH_SIZE := 250

  /** How far an upload is: in its first or second try, in the bucket, entry handed over,
      reported to the wait group, token given back; or given up. */
  datatype Phase = First | Second | Uploaded | Sent | Reported | Over | Failed

  datatype Upload = Upload(path: string, phase: Phase)

  datatype Walker = Walking | Opened | Acquired | Waited | Closed | Recorded | Completed | Unsaved

  datatype Recorder = Receiving | Flushed | Ended

  /** An entry in the channel or in a batch is the number of its upload; stored are the entries
      that reached the database. crashed stands for a send on the closed channel or a wait
      group below zero. */
  datatype State = State(
    todo: seq<string>, walker: Walker, uploads: seq<Upload>, waiting: nat, tokens: nat,
    channel: seq<nat>, closed: bool, recorder: Recorder, batch: seq<nat>, batches: seq<seq<nat>>,
    stored: seq<nat>, crashed: bool)

  datatype Step =
    | Open(works: bool)
    | Acquire
    | Launch
    | Wait
    | Close
    | Attempt(upload: nat, works: bool)
    | Send(upload: nat)
    | Report(upload: nat)
    | Release(upload: nat)
    | Receive(works: bool)
    | Flush(works: bool)
    | Meet
    | Finish(works: bool)

  predicate At(s: State, i: nat, phase: Phase) {
    i < |s.uploads| && s.uploads[i].phase == phase
  }

  predicate Enabled(s: State, step: Step) {
    !s.crashed &&
    match step
    case Open(_) => s.walker == Walking && s.todo != []
    case Acquire => s.walker == Opened && s.tokens < MAX_UPLOADS
    case Launch => s.walker == Acquired && s.todo != []
    case Wait => s.walker == Walking && s.todo == [] && s.waiting == 0
    case Close => s.walker == Waited
    case Attempt(i, _) => At(s, i, First) || At(s, i, Second)
    case Send(i) => At(s, i, Uploaded) && (s.closed || |s.channel| < CHANNEL_SIZE)
    case Report(i) => At(s, i, Sent)
    case Release(i) => At(s, i, Reported) && s.tokens > 0
    case Receive(_) => s.recorder == Receiving && s.channel != []
    case Flush(_) => s.recorder == Receiving && s.channel == [] && s.closed
    case Meet => s.recorder == Flushed && s.walker == Closed
    case Finish(_) => s.walker == Recorded
  }

  function Put(s: State, i: nat, phase: Phase): State
    requires i < |s.uploads|
  {
    s.(uploads := s.uploads[i := s.uploads[i].(phase := phase)])
  }

  /** A batch is given to the database. Whether that works makes no difference to the recorder. */
  function Written(s: State, batch: seq<nat>, works: bool): State {
    s.(batch := [], batches := s.batches + [batch], stored := if works then s.stored + batch else s.stored)
  }

  function Next(s: State, step: Step): State
    requires Enabled(s, step)
  {
    match step
    case Open(works) => if works then s.(walker := Opened) else s.(todo := s.todo[1..])
    case Acquire => s.(walker := Acquired, tokens := s.tokens + 1)
    case Launch =>
      s.(walker := Walking, todo := s.todo[1..], uploads := s.uploads + [Upload(s.todo[0], First)],
        waiting := s.waiting + 1)
    case Wait => s.(walker := Waited)
    case Close => s.(walker := Closed, closed := true)
    case Attempt(i, works) =>
      Put(s, i, if works then Uploaded else if s.uploads[i].phase == First then Second else Failed)
    case Send(i) => if s.closed then s.(crashed := true) else Put(s, i, Sent).(channel := s.channel + [i])
    case Report(i) => if s.waiting == 0 then s.(crashed := true) else Put(s, i, Reported).(waiting := s.waiting - 1)
    case Release(i) => Put(s, i, Over).(tokens := s.tokens - 1)
    case Receive(works) =>
      var batch := s.batch + [s.channel[0]];
      if |batch| == BATCH_SIZE then Written(s, batch, works).(channel := s.channel[1..])
      else s.(channel := s.channel[1..], batch := batch)
    case Flush(works) => Written(s, s.batch, works).(recorder := Flushed)
    case Meet => s.(recorder := Ended, walker := Recorded)
    case Finish(works) => s.(walker := if works then Completed else Unsaved)
  }

  function Start(files: seq<string>): State {
    State(files, Walking, [], 0, 0, [], false, Receiving, [], [], [], false)
  }

  // ----- Counting uploads -----

  function Total(uploads: seq<Upload>, weight: Phase -> nat): nat {
    if uploads == [] then 0 else Total(uploads[..|uploads| - 1], weight) + weight(uploads[|uploads| - 1].phase)
  }

  /** Holds one of the ten tokens. */
  function Token(p: Phase): nat {
    if p == Over then 0 else 1
  }

  /** Not yet reported to the wait group. */
  function Pending(p: Phase): nat {
    if p == Reported || p == Over then 0 else 1
  }

  /** How many steps an upload has left, its entry's way to the recorder included. */
  function Left(p: Phase): nat {
    match p
    case First => 6
    case Second => 5
    case Uploaded => 4
    case Sent => 2
    case Reported => 1
    case Over => 0
    case Failed => 0
  }

  lemma {:induction false} TotalAfter(uploads: seq<Upload>, i: nat, u: Upload, weight: Phase -> nat)
    requires i < |uploads|
    ensures Total(uploads[i := u], weight) == Total(uploads, weight) - weight(uploads[i].phase) + weight(u.phase)
  {
    var last := |uploads| - 1;
    if i == last {
      assert uploads[i := u][..last] == uploads[..last];
    } else {
      TotalAfter(uploads[..last], i, u, weight);
      assert uploads[i := u][..last] == uploads[..last][i := u];
    }
  }

  lemma TotalMore(uploads: seq<Upload>, u: Upload, weight: Phase -> nat)
    ensures Total(uploads + [u], weight) == Total(uploads, weight) + weight(u.phase)
  {
    assert (uploads + [u])[..|uploads|] == uploads;
  }

  lemma {:induction false} TotalZero(uploads: seq<Upload>, weight: Phase -> nat)
    ensures Total(uploads, weight) == 0 <==> forall i :: 0 <= i < |uploads| ==> weight(uploads[i].phase) == 0
  {
    if uploads != [] { TotalZero(uploads[..|uploads| - 1], weight); }
  }

  // ----- Entries -----

  function Flat(batches: seq<seq<nat>>): seq<nat> {
    if batches == [] then [] else Flat(batches[..|batches| - 1]) + batches[|batches| - 1]
  }

  /** Every entry handed over so far, oldest first: recorded, gathered, still in the channel. */
  function HandedOver(s: State): seq<nat> {
    Flat(s.batches) + s.batch + s.channel
  }

  ghost predicate Distinct(xs: seq<nat>) {
    forall i, j :: 0 <= i < j < |xs| ==> xs[i] != xs[j]
  }

  predicate Given(p: Phase) {
    p == Sent || p == Reported || p == Over
  }

  /** An upload's entry is handed over once, when it has gone through and not before. */
  ghost predicate OnceEach(s: State) {
    Distinct(HandedOver(s)) && forall i: nat :: i in HandedOver(s) <==> i < |s.uploads| && Given(s.uploads[i].phase)
  }

  predicate Bounds(s: State) {
    && |s.channel| <= CHANNEL_SIZE && |s.batch| < BATCH_SIZE
    && forall b | b in s.batches :: |b| <= BATCH_SIZE
  }

  /** The wait group and the semaphore count what they should. */
  ghost predicate Counts(s: State) {
    && s.waiting == Total(s.uploads, Pending) && s.tokens <= MAX_UPLOADS
    && s.tokens == Total(s.uploads, Token) + if s.walker == Acquired then 1 else 0
  }

  /** How the walker, the channel and the recorder stand to one another. */
  predicate Ordered(s: State) {
    && !s.crashed
    && (s.walker in {Opened, Acquired} ==> s.todo != [])
    && (s.walker !in {Walking, Opened, Acquired} ==> s.todo == [] && s.waiting == 0)
    && (s.closed <==> s.walker in {Closed, Recorded, Completed, Unsaved})
    && (s.recorder != Receiving ==> s.closed && s.channel == [] && s.batch == [])
    && (s.recorder == Ended <==> s.walker in {Recorded, Completed, Unsaved})
  }

  ghost predicate Safe(s: State) {
    Ordered(s) && Bounds(s) && Counts(s) && OnceEach(s)
  }

  lemma FlatMore(batches: seq<seq<nat>>, batch: seq<nat>)
    ensures Flat(batches + [batch]) == Flat(batches) + batch
  {
    assert (batches + [batch])[..|batches|] == batches;
  }

  // ----- Each step keeps each part -----

  lemma NextCounts(s: State, step: Step)
    requires Enabled(s, step) && Counts(s)
    ensures Counts(Next(s, step))
  {
    hide Total;
    match step
    case Launch =>
      TotalMore(s.uploads, Upload(s.todo[0], First), Pending);
      TotalMore(s.uploads, Upload(s.todo[0], First), Token);
    case Attempt(i, works) =>
      PutCounts(s, i, if works then Uploaded else if s.uploads[i].phase == First then Second else Failed);
    case Send(i) => PutCounts(s, i, Sent);
    case Report(i) => PutCounts(s, i, Reported);
    case Release(i) => PutCounts(s, i, Over);
    case _ =>
  }

  lemma PutCounts(s: State, i: nat, phase: Phase)
    requires i < |s.uploads|
    ensures Total(Put(s, i, phase).uploads, Pending) ==
      Total(s.uploads, Pending) - Pending(s.uploads[i].phase) + Pending(phase)
    ensures Total(Put(s, i, phase).uploads, Token) == Total(s.uploads, Token) - Token(s.uploads[i].phase) + Token(phase)
  {
    TotalAfter(s.uploads, i, s.uploads[i].(phase := phase), Pending);
    TotalAfter(s.uploads, i, s.uploads[i].(phase := phase), Token);
  }

  lemma NextBounds(s: State, step: Step)
    requires Enabled(s, step) && Bounds(s)
    ensures Bounds(Next(s, step))
  {
  }

  /** Nothing waits only if nothing is pending. */
  lemma NonePending(s: State)
    requires Counts(s) && s.waiting == 0
    ensures forall i :: 0 <= i < |s.uploads| ==> Pending(s.uploads[i].phase) == 0
  {
    TotalZero(s.uploads, Pending);
  }

  lemma SomePending(s: State, i: nat)
    requires Counts(s) && i < |s.uploads| && Pending(s.uploads[i].phase) == 1
    ensures s.waiting > 0
  {
    TotalZero(s.uploads, Pending);
  }

  lemma NextOrdered(s: State, step: Step)
    requires Enabled(s, step) && Ordered(s) && Counts(s)
    ensures Ordered(Next(s, step))
  {
    match step
    case Attempt(i, _) => SomePending(s, i);
    case Send(i) => SomePending(s, i);
    case Report(i) => SomePending(s, i);
    case _ =>
  }

  lemma NextOnceEach(s: State, step: Step)
    requires Enabled(s, step) && OnceEach(s) && !Next(s, step).crashed
    ensures OnceEach(Next(s, step))
  {
    match step
    case Send(i) => SendOnce(s, i);
    case Receive(works) => ReceiveOnce(s, works);
    case Flush(works) => FlushOnce(s, works);
    case _ => assert HandedOver(Next(s, step)) == HandedOver(s);
  }

  lemma SendOnce(s: State, i: nat)
    requires At(s, i, Uploaded) && OnceEach(s)
    ensures OnceEach(Put(s, i, Sent).(channel := s.channel + [i]))
  {
    var t := Put(s, i, Sent).(channel := s.channel + [i]);
    assert HandedOver(t) == HandedOver(s) + [i];
    hide HandedOver;
    assert i !in HandedOver(s);
  }

  /** Moving the oldest entry of the channel to the batch changes no order. */
  lemma OldestMoves(flat: seq<nat>, batch: seq<nat>, channel: seq<nat>)
    requires channel != []
    ensures flat + (batch + [channel[0]]) + channel[1..] == flat + batch + channel
    ensures flat + (batch + [channel[0]]) + [] + channel[1..] == flat + batch + channel
  {
    assert channel == [channel[0]] + channel[1..];
  }

  lemma ReceiveOnce(s: State, works: bool)
    requires Enabled(s, Receive(works)) && OnceEach(s)
    ensures HandedOver(Next(s, Receive(works))) == HandedOver(s) && OnceEach(Next(s, Receive(works)))
  {
    hide Flat, Distinct;
    FlatMore(s.batches, s.batch + [s.channel[0]]);
    OldestMoves(Flat(s.batches), s.batch, s.channel);
    assert HandedOver(Next(s, Receive(works))) == HandedOver(s);
  }

  lemma FlushOnce(s: State, works: bool)
    requires Enabled(s, Flush(works)) && OnceEach(s)
    ensures HandedOver(Next(s, Flush(works))) == HandedOver(s) && OnceEach(Next(s, Flush(works)))
  {
    FlatMore(s.batches, s.batch);
    assert HandedOver(Next(s, Flush(works))) == HandedOver(s) by { hide Flat; }
    hide Flat, HandedOver;
  }

  lemma NextSafe(s: State, step: Step)
    requires Safe(s) && Enabled(s, step)
    ensures Safe(Next(s, step))
  {
    NextOrdered(s, step);
    NextBounds(s, step);
    NextCounts(s, step);
    assert !Next(s, step).crashed by { hide OnceEach, Counts, Bounds; }
    hide Enabled, Next, Bounds, Counts, Ordered;
    NextOnceEach(s, step);
  }

  // ----- Every run -----

  /** Every step of the run can be taken where it stands. */
  predicate IsRun(files: seq<string>, steps: seq<Step>)
    decreases |steps|, 0
  {
    steps == [] ||
    (IsRun(files, steps[..|steps| - 1]) && Enabled(After(files, steps[..|steps| - 1]), steps[|steps| - 1]))
  }

  function After(files: seq<string>, steps: seq<Step>): State
    requires IsRun(files, steps)
    decreases |steps|, 1
  {
    if steps == [] then Start(files)
    else Next(After(files, steps[..|steps| - 1]), steps[|steps| - 1])
  }

  lemma {:induction false} AllRunsSafe(files: seq<string>, steps: seq<Step>)
    requires IsRun(files, steps)
    ensures Safe(After(files, steps))
    decreases |steps|
  {
    if steps != [] {
      hide Safe, Next, Enabled;
      AllRunsSafe(files, steps[..|steps| - 1]);
      NextSafe(After(files, steps[..|steps| - 1]), steps[|steps| - 1]);
    }
  }

  /** At most ten files are between taking a token and giving it back, a failed one included. */
  lemma AtMostTen(files: seq<string>, steps: seq<Step>)
    requires IsRun(files, steps)
    ensures Total(After(files, steps).uploads, Token) <= 10
    ensures !After(files, steps).crashed
  {
    AllRunsSafe(files, steps);
  }

  /** When the package is marked complete every upload has gone through and its entry has been
      handed over in exactly one batch, none of them above the size the recorder accepts. */
  lemma CompleteMeansHandedOver(files: seq<string>, steps: seq<Step>)
    requires IsRun(files, steps) && After(files, steps).walker in {Recorded, Completed, Unsaved}
    ensures var s := After(files, steps);
      && (forall i :: 0 <= i < |s.uploads| ==> s.uploads[i].phase in {Reported, Over})
      && Distinct(Flat(s.batches)) && (forall i: nat :: i in Flat(s.batches) <==> i < |s.uploads|)
      && forall b | b in s.batches :: |b| <= BATCH_SIZE
  {
    AllRunsSafe(files, steps);
    var s := After(files, steps);
    hide After, IsRun;
    NonePending(s);
    assert HandedOver(s) == Flat(s.batches) by { hide OnceEach, Counts, Bounds, Flat; }
    hide Flat, HandedOver, Total;
  }

  // ----- Entries that are stored -----

  /** The step loses entries: it writes a batch that is not empty, and that does not work. */
  predicate LosesBatch(s: State, step: Step) {
    || (step == Receive(false) && |s.batch| + 1 == BATCH_SIZE)
    || (step == Flush(false) && s.batch != [])
  }

  predicate AnyBatchLost(files: seq<string>, steps: seq<Step>)
    requires IsRun(files, steps)
  {
    steps != [] &&
    var before := steps[..|steps| - 1];
    AnyBatchLost(files, before) || LosesBatch(After(files, before), steps[|steps| - 1])
  }

  /** What is stored has been handed over; if a batch was lost something of it never gets
      stored, else all that has been handed over is. */
  ghost predicate StoredWell(s: State, lost: bool) {
    && (forall e | e in s.stored :: e in Flat(s.batches))
    && if lost then exists e :: e in Flat(s.batches) && e !in s.stored else s.stored == Flat(s.batches)
  }

  lemma FlatIn(s: State, e: nat)
    requires OnceEach(s) && e in Flat(s.batches)
    ensures e !in s.batch && e !in s.channel
  {
    hide Flat;
    var flat := Flat(s.batches);
    var i :| 0 <= i < |flat| && flat[i] == e;
    assert HandedOver(s)[i] == e;
    forall j | 0 <= j < |s.batch|
      ensures s.batch[j] != e
    {
      assert HandedOver(s)[|flat| + j] == s.batch[j];
    }
    forall j | 0 <= j < |s.channel|
      ensures s.channel[j] != e
    {
      assert HandedOver(s)[|flat| + |s.batch| + j] == s.channel[j];
    }
  }

  lemma WrittenStored(s: State, batch: seq<nat>, works: bool, lost: bool)
    requires StoredWell(s, lost) && forall e | e in batch :: e !in Flat(s.batches)
    ensures StoredWell(Written(s, batch, works), lost || (!works && batch != []))
  {
    FlatMore(s.batches, batch);
    hide Flat;
    if lost {
      var e :| e in Flat(s.batches) && e !in s.stored;
      assert e in Flat(Written(s, batch, works).batches) && e !in Written(s, batch, works).stored;
    } else if !works && batch != [] {
      assert batch[0] in batch && batch[0] in Flat(Written(s, batch, works).batches);
    }
  }

  lemma NextStored(s: State, step: Step, lost: bool)
    requires Enabled(s, step) && OnceEach(s) && StoredWell(s, lost)
    ensures StoredWell(Next(s, step), lost || LosesBatch(s, step))
  {
    hide Flat, OnceEach, StoredWell;
    forall e | e in Flat(s.batches)
      ensures e !in s.batch && e !in s.channel
    {
      FlatIn(s, e);
    }
    match step
    case Receive(works) =>
      ReceiveStored(s, works, lost);
    case Flush(works) =>
      WrittenStored(s, s.batch, works, lost);
      SameStored(Written(s, s.batch, works), Next(s, step), lost || LosesBatch(s, step));
    case _ =>
      SameStored(s, Next(s, step), lost);
  }

  lemma ReceiveStored(s: State, works: bool, lost: bool)
    requires Enabled(s, Receive(works)) && StoredWell(s, lost)
    requires forall e | e in Flat(s.batches) :: e !in s.batch && e !in s.channel
    ensures StoredWell(Next(s, Receive(works)), lost || LosesBatch(s, Receive(works)))
  {
    hide Flat, StoredWell;
    var batch := s.batch + [s.channel[0]];
    assert s.channel[0] in s.channel;
    if |batch| == BATCH_SIZE {
      WrittenStored(s, batch, works, lost);
      SameStored(Written(s, batch, works), Next(s, Receive(works)), lost || LosesBatch(s, Receive(works)));
    } else {
      SameStored(s, Next(s, Receive(works)), lost);
    }
  }

  lemma SameStored(s: State, t: State, lost: bool)
    requires StoredWell(s, lost) && t.batches == s.batches && t.stored == s.stored
    ensures StoredWell(t, lost)
  {
    hide Flat;
  }

  lemma {:induction false} AllRunsStored(files: seq<string>, steps: seq<Step>)
    requires IsRun(files, steps)
    ensures StoredWell(After(files, steps), AnyBatchLost(files, steps))
    decreases |steps|
  {
    if steps != [] {
      hide Next, Enabled, StoredWell, LosesBatch, OnceEach;
      var before := steps[..|steps| - 1];
      AllRunsStored(files, before);
      AllRunsSafe(files, before);
      NextStored(After(files, before), steps[|steps| - 1], AnyBatchLost(files, before));
    }
  }

  /** When the package is marked complete, the entries of all uploads are stored exactly if
      every batch that was not empty could be written. */
  lemma CompleteMeansStoredIff(files: seq<string>, steps: seq<Step>)
    requires IsRun(files, steps) && After(files, steps).walker in {Recorded, Completed, Unsaved}
    ensures var s := After(files, steps);
      (forall i: nat :: i in s.stored <==> i < |s.uploads|) <==> !AnyBatchLost(files, steps)
  {
    CompleteMeansHandedOver(files, steps);
    AllRunsStored(files, steps);
    hide After, IsRun, AnyBatchLost, Flat, Distinct;
  }

  // ----- Files that are left out -----

  /** The files that were opened, in order. */
  function Paths(uploads: seq<Upload>): (paths: seq<string>)
    ensures |paths| == |uploads|
  {
    seq(|uploads|, i requires 0 <= i < |uploads| => uploads[i].path)
  }

  /** How many files could not be opened. */
  function LeftOut(steps: seq<Step>): (n: nat)
    ensures n == 0 <==> Open(false) !in steps
  {
    if steps == [] then 0
    else
      var before, last := steps[..|steps| - 1], steps[|steps| - 1];
      assert steps == before + [last];
      LeftOut(before) + if last == Open(false) then 1 else 0
  }

  lemma {:induction false} FilesCounted(files: seq<string>, steps: seq<Step>)
    requires IsRun(files, steps)
    ensures |After(files, steps).uploads| + |After(files, steps).todo| + LeftOut(steps) == |files|
    decreases |steps|
  {
    if steps != [] {
      FilesCounted(files, steps[..|steps| - 1]);
      NextCounted(After(files, steps[..|steps| - 1]), steps[|steps| - 1]);
      hide Next, Enabled;
    }
  }

  lemma NextCounted(s: State, step: Step)
    requires Enabled(s, step)
    ensures var t := Next(s, step);
      |t.uploads| + |t.todo| + (if step == Open(false) then 1 else 0) == |s.uploads| + |s.todo|
  {
  }

  lemma {:induction false} AllLaunched(files: seq<string>, steps: seq<Step>)
    requires IsRun(files, steps) && Open(false) !in steps
    ensures Paths(After(files, steps).uploads) + After(files, steps).todo == files
    decreases |steps|
  {
    if steps != [] {
      AllLaunched(files, steps[..|steps| - 1]);
      assert steps[|steps| - 1] in steps;
      KeptFiles(files, After(files, steps[..|steps| - 1]), steps[|steps| - 1]);
    }
  }

  lemma KeptFiles(files: seq<string>, s: State, step: Step)
    requires Enabled(s, step) && step != Open(false) && Paths(s.uploads) + s.todo == files
    ensures Paths(Next(s, step).uploads) + Next(s, step).todo == files
  {
    var t := Next(s, step);
    if step.Launch? {
      assert Paths(t.uploads) == Paths(s.uploads) + [s.todo[0]];
      assert s.todo == [s.todo[0]] + t.todo;
    } else {
      assert Paths(t.uploads) == Paths(s.uploads);
    }
  }

  /** When the package is marked complete, its files are all the files exactly if every one of
      them could be opened. */
  lemma CompleteMeansAllFilesIff(files: seq<string>, steps: seq<Step>)
    requires IsRun(files, steps) && After(files, steps).walker in {Recorded, Completed, Unsaved}
    ensures Paths(After(files, steps).uploads) == files <==> Open(false) !in steps
  {
    AllRunsSafe(files, steps);
    FilesCounted(files, steps);
    if Open(false) !in steps { AllLaunched(files, steps); }
    hide After, IsRun, Paths, OnceEach, Counts, Bounds;
  }

  lemma {:induction false} FinishedIff(files: seq<string>, steps: seq<Step>)
    requires IsRun(files, steps)
    ensures After(files, steps).walker == Completed <==> Finish(true) in steps
    ensures After(files, steps).walker == Unsaved <==> Finish(false) in steps
    decreases |steps|
  {
    if steps != [] {
      var before, last := steps[..|steps| - 1], steps[|steps| - 1];
      assert steps == before + [last];
      NextFinished(After(files, before), last);
      hide Next, Enabled;
      FinishedIff(files, before);
    }
  }

  lemma NextFinished(s: State, step: Step)
    requires Enabled(s, step)
    ensures Next(s, step).walker == Completed <==> s.walker == Completed || step == Finish(true)
    ensures Next(s, step).walker == Unsaved <==> s.walker == Unsaved || step == Finish(false)
  {
  }

  // ----- Two runs that end well, and yet -----

  lemma Extended(files: seq<string>, steps: seq<Step>, step: Step)
    requires IsRun(files, steps) && Enabled(After(files, steps), step)
    ensures IsRun(files, steps + [step]) && After(files, steps + [step]) == Next(After(files, steps), step)
    ensures AnyBatchLost(files, steps + [step]) <==> AnyBatchLost(files, steps) || LosesBatch(After(files, steps), step)
  {
    assert (steps + [step])[..|steps|] == steps;
  }

  /** The only file cannot be opened: a complete package without it. */
  lemma CompleteWithoutFile() returns (steps: seq<Step>)
    ensures IsRun(["a"], steps) && After(["a"], steps).walker == Completed && After(["a"], steps).uploads == []
  {
    var files := ["a"];
    steps := [];
    assert IsRun(files, steps) && After(files, steps) == Start(files);
    hide After, IsRun, AnyBatchLost;
    Extended(files, steps, Open(false));
    steps := steps + [Open(false)];
    Extended(files, steps, Wait);
    steps := steps + [Wait];
    Extended(files, steps, Close);
    steps := steps + [Close];
    Extended(files, steps, Flush(true));
    steps := steps + [Flush(true)];
    Extended(files, steps, Meet);
    steps := steps + [Meet];
    Extended(files, steps, Finish(true));
    steps := steps + [Finish(true)];
  }

  /** The only batch cannot be stored: a complete package with no entry for its file. */
  lemma CompleteWithoutEntry() returns (steps: seq<Step>)
    ensures IsRun(["a"], steps) && After(["a"], steps).walker == Completed
    ensures After(["a"], steps).uploads == [Upload("a", Over)] && After(["a"], steps).stored == []
  {
    var files := ["a"];
    steps := OneUploaded();
    hide After, IsRun, AnyBatchLost;
    Extended(files, steps, Wait);
    steps := steps + [Wait];
    Extended(files, steps, Close);
    steps := steps + [Close];
    Extended(files, steps, Receive(true));
    steps := steps + [Receive(true)];
    Extended(files, steps, Flush(false));
    steps := steps + [Flush(false)];
    Extended(files, steps, Meet);
    steps := steps + [Meet];
    Extended(files, steps, Finish(true));
    steps := steps + [Finish(true)];
  }

  lemma OneLaunched() returns (steps: seq<Step>)
    ensures IsRun(["a"], steps)
    ensures After(["a"], steps) ==
      State([], Walking, [Upload("a", First)], 1, 1, [], false, Receiving, [], [], [], false)
  {
    var files := ["a"];
    steps := [];
    assert IsRun(files, steps) && After(files, steps) == Start(files);
    hide After, IsRun, AnyBatchLost;
    Extended(files, steps, Open(true));
    steps := steps + [Open(true)];
    Extended(files, steps, Acquire);
    steps := steps + [Acquire];
    Extended(files, steps, Launch);
    steps := steps + [Launch];
  }

  lemma OneUploaded() returns (steps: seq<Step>)
    ensures IsRun(["a"], steps)
    ensures After(["a"], steps) ==
      State([], Walking, [Upload("a", Over)], 0, 0, [0], false, Receiving, [], [], [], false)
  {
    var files := ["a"];
    hide After, IsRun, AnyBatchLost;
    steps := OneLaunched();
    Extended(files, steps, Attempt(0, true));
    steps := steps + [Attempt(0, true)];
    Extended(files, steps, Send(0));
    steps := steps + [Send(0)];
    Extended(files, steps, Report(0));
    steps := steps + [Report(0)];
    Extended(files, steps, Release(0));
    steps := steps + [Release(0)];
  }

  // ----- Runs end, and how -----

  function WalkerLeft(w: Walker): nat {
    match w
    case Walking => 10
    case Opened => 9
    case Acquired => 8
    case Waited => 7
    case Closed => 6
    case Recorded => 5
    case Completed => 0
    case Unsaved => 0
  }

  function RecorderLeft(r: Recorder): nat {
    match r
    case Receiving => 2
    case Flushed => 1
    case Ended => 0
  }

  function Rank(s: State): nat {
    10 * |s.todo| + WalkerLeft(s.walker) + Total(s.uploads, Left) + |s.channel| + RecorderLeft(s.recorder)
  }

  lemma PutRank(s: State, i: nat, phase: Phase)
    requires i < |s.uploads|
    ensures Total(Put(s, i, phase).uploads, Left) == Total(s.uploads, Left) - Left(s.uploads[i].phase) + Left(phase)
  {
    TotalAfter(s.uploads, i, s.uploads[i].(phase := phase), Left);
  }

  lemma UploadRank(s: State, step: Step)
    requires Enabled(s, step) && (step.Attempt? || step.Send? || step.Report? || step.Release?)
    requires !Next(s, step).crashed
    ensures Rank(Next(s, step)) < Rank(s)
  {
    hide Total, WalkerLeft, RecorderLeft;
    match step
    case Attempt(i, works) =>
      PutRank(s, i, if works then Uploaded else if s.uploads[i].phase == First then Second else Failed);
    case Send(i) => PutRank(s, i, Sent);
    case Report(i) => PutRank(s, i, Reported);
    case Release(i) => PutRank(s, i, Over);
    case _ =>
  }

  lemma OtherRank(s: State, step: Step)
    requires Enabled(s, step) && !(step.Attempt? || step.Send? || step.Report? || step.Release?)
    ensures Rank(Next(s, step)) < Rank(s)
  {
    if step.Launch? { TotalMore(s.uploads, Upload(s.todo[0], First), Left); }
    hide Total;
  }

  lemma NextRank(s: State, step: Step)
    requires Safe(s) && Enabled(s, step)
    ensures Rank(Next(s, step)) < Rank(s)
  {
    NextSafe(s, step);
    hide Rank, Next, Enabled, Counts, Bounds, OnceEach;
    if step.Attempt? || step.Send? || step.Report? || step.Release? {
      UploadRank(s, step);
    } else {
      OtherRank(s, step);
    }
  }

  /** No run goes on for ever. */
  lemma {:induction false} RunsAreBounded(files: seq<string>, steps: seq<Step>)
    requires IsRun(files, steps)
    ensures |steps| + Rank(After(files, steps)) <= 10 * |files| + 12
    decreases |steps|
  {
    if steps != [] {
      hide Next, Enabled, Rank;
      RunsAreBounded(files, steps[..|steps| - 1]);
      AllRunsSafe(files, steps[..|steps| - 1]);
      NextRank(After(files, steps[..|steps| - 1]), steps[|steps| - 1]);
    }
  }

  ghost predicate AnyFailed(s: State) {
    exists i: nat :: At(s, i, Failed)
  }

  ghost predicate Stuck(s: State) {
    forall step :: !Enabled(s, step)
  }

  /** An upload that still has something to do can do it, or the recorder can make room. */
  lemma UploadMoves(s: State, i: nat) returns (step: Step)
    requires Safe(s) && i < |s.uploads| && s.uploads[i].phase !in {Over, Failed}
    ensures Enabled(s, step)
  {
    hide OnceEach;
    match s.uploads[i].phase
    case First => step := Attempt(i, true);
    case Second => step := Attempt(i, true);
    case Uploaded => step := if |s.channel| < CHANNEL_SIZE then Send(i) else Receive(true);
    case Sent => step := Report(i);
    case _ =>
      TotalZero(s.uploads, Token);
      step := Release(i);
  }

  /** Without a failed upload, as long as the package is not marked something can move. */
  lemma Progress(s: State) returns (step: Step)
    requires Safe(s) && !AnyFailed(s) && s.walker !in {Completed, Unsaved}
    ensures Enabled(s, step)
  {
    hide OnceEach, Total, Bounds;
    match s.walker
    case Walking =>
      if s.todo != [] { step := Open(true); }
      else if s.waiting == 0 { step := Wait; }
      else {
        TotalZero(s.uploads, Pending);
        var i :| 0 <= i < |s.uploads| && Pending(s.uploads[i].phase) != 0;
        assert !At(s, i, Failed);
        step := UploadMoves(s, i);
      }
    case Opened =>
      if s.tokens < MAX_UPLOADS { step := Acquire; }
      else {
        TotalZero(s.uploads, Token);
        var i :| 0 <= i < |s.uploads| && Token(s.uploads[i].phase) != 0;
        assert !At(s, i, Failed);
        step := UploadMoves(s, i);
      }
    case Acquired => step := Launch;
    case Waited => step := Close;
    case Closed =>
      step := if s.recorder == Flushed then Meet else if s.channel != [] then Receive(true) else Flush(true);
    case _ => step := Finish(true);
  }

  /** When nothing can move any more, the package is marked complete exactly if no upload
      failed twice and the attempt to mark it did not fail. */
  lemma AtRestIff(files: seq<string>, steps: seq<Step>)
    requires IsRun(files, steps) && Stuck(After(files, steps))
    ensures After(files, steps).walker == Completed <==> !AnyFailed(After(files, steps)) && Finish(false) !in steps
  {
    AllRunsSafe(files, steps);
    FinishedIff(files, steps);
    var s := After(files, steps);
    hide After, IsRun;
    if s.walker in {Completed, Unsaved} {
      NonePending(s);
    } else if !AnyFailed(s) {
      var step := Progress(s);
    }
  }

  // ----- Attempts and batches -----

  /** How often attempts at upload i came out this way. */
  function Tries(steps: seq<Step>, i: nat, works: bool): nat {
    if steps == [] then 0
    else Tries(steps[..|steps| - 1], i, works) + if steps[|steps| - 1] == Attempt(i, works) then 1 else 0
  }

  /** An upload is given up exactly after its second failed attempt, and it is never tried
      again once it has worked or has failed twice. */
  lemma TriedTwice(files: seq<string>, steps: seq<Step>, i: nat)
    requires IsRun(files, steps)
    ensures At(After(files, steps), i, Failed) <==> Tries(steps, i, false) == 2
    ensures Tries(steps, i, false) <= 2 && Tries(steps, i, true) <= 1
    ensures Tries(steps, i, false) == 2 ==> Tries(steps, i, true) == 0
    ensures i < |After(files, steps).uploads| && After(files, steps).uploads[i].phase !in {First, Second, Failed} <==>
      Tries(steps, i, true) == 1
  {
    TriesCounted(files, steps, i);
  }

  /** The phase says how many attempts have failed and whether one has worked. */
  ghost predicate Tried(s: State, i: nat, failed: nat, worked: nat) {
    if i >= |s.uploads| || s.uploads[i].phase == First then failed == worked == 0
    else match s.uploads[i].phase
      case Second => failed == 1 && worked == 0
      case Failed => failed == 2 && worked == 0
      case _ => failed <= 1 && worked == 1
  }

  lemma {:induction false} TriesCounted(files: seq<string>, steps: seq<Step>, i: nat)
    requires IsRun(files, steps)
    ensures Tried(After(files, steps), i, Tries(steps, i, false), Tries(steps, i, true))
    decreases |steps|
  {
    if steps != [] {
      var before, last := steps[..|steps| - 1], steps[|steps| - 1];
      TriesCounted(files, before, i);
      NextTried(After(files, before), last, i, Tries(before, i, false), Tries(before, i, true));
      hide Next, Enabled;
    }
  }

  lemma NextTried(s: State, step: Step, i: nat, failed: nat, worked: nat)
    requires Enabled(s, step) && Tried(s, i, failed, worked)
    ensures Tried(Next(s, step), i, failed + (if step == Attempt(i, false) then 1 else 0),
      worked + (if step == Attempt(i, true) then 1 else 0))
  {
  }

  /** Every batch but the last has 250 entries, and the last, written when the channel is
      closed and empty, has the rest. */
  ghost predicate Full(s: State) {
    && (s.recorder != Receiving ==> s.batches != [] && |s.batches[|s.batches| - 1]| < 250)
    && forall k :: 0 <= k < |s.batches| - (if s.recorder == Receiving then 0 else 1) ==> |s.batches[k]| == 250
  }

  lemma NextFull(s: State, step: Step)
    requires Full(s) && Enabled(s, step) && |s.batch| < 250
    ensures Full(Next(s, step))
  {
  }

  lemma {:induction false} BatchesFull(files: seq<string>, steps: seq<Step>)
    requires IsRun(files, steps)
    ensures Full(After(files, steps))
    decreases |steps|
  {
    hide Next, Enabled, Full;
    if steps != [] {
      var before := steps[..|steps| - 1];
      AllRunsSafe(files, before);
      BatchesFull(files, before);
      var s := After(files, before);
      assert |s.batch| < 250 by { hide OnceEach, Counts, Ordered, IsRun, After; }
      hide Safe;
      NextFull(s, steps[|steps| - 1]);
    } else {
      assert Full(Start(files)) by { StartFull(files); }
    }
  }

  lemma StartFull(files: seq<string>)
    ensures Full(Start(files))
  {
  }

  lemma FailedStays(s: State, step: Step, i: nat)
    requires At(s, i, Failed) && Enabled(s, step)
    ensures At(Next(s, step), i, Failed)
  {
  }

  /** Once an upload has failed twice the package is never marked complete, however the run
      goes on. */
  lemma {:induction false} NeverCompleteAfterFailure(files: seq<string>, steps: seq<Step>, k: nat, i: nat)
    requires IsRun(files, steps) && k <= |steps|
    requires IsRun(files, steps[..k]) && At(After(files, steps[..k]), i, Failed)
    ensures At(After(files, steps), i, Failed) && After(files, steps).walker in {Walking, Opened, Acquired}
    decreases |steps|
  {
    if k == |steps| {
      assert steps[..k] == steps;
    } else {
      var before := steps[..|steps| - 1];
      assert before[..k] == steps[..k];
      NeverCompleteAfterFailure(files, before, k, i);
      FailedStays(After(files, before), steps[|steps| - 1], i);
    }
    AllRunsSafe(files, steps);
    var s := After(files, steps);
    hide After, IsRun;
    SomePending(s, i);
  }
}

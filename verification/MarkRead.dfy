/** tools/ebert/handlers/comments/comments.go: MarkRead, a read-modify-check-and-set loop run
    by any number of readers on one comment, against outside writers. */
module MarkRead {

  /** A comment as far as MarkRead sees it: its readers, and its other fields. */
  datatype Comment = Comment(readBy: seq<string>, fields: map<string, string>)

  datatype Parsed = Malformed | Parsed(comment: Comment)

  /** The JSON library: what a stored text means, and the text of a comment. */
  datatype Json = Json(parse: string -> Parsed, encode: Comment -> string)

  /** Adding a reader to a comment that was parsed, printing it and parsing it again gives
      the comment with the reader. */
  ghost predicate Faithful(json: Json) {
    forall raw, user :: json.parse(raw).Parsed? ==>
      json.parse(json.encode(WithReader(json.parse(raw).comment, user))) ==
        Parsed(WithReader(json.parse(raw).comment, user))
  }

  function WithReader(c: Comment, user: string): Comment {
    c.(readBy := c.readBy + [user])
  }

  datatype Outcome = AlreadyRead | Marked | Failed

  /** A reader about to get the comment; having got raw when version writes had been made;
      or done. */
  datatype Phase = Getting | Checking(raw: string, version: nat) | Finished(outcome: Outcome)

  datatype Reader = Reader(user: string, phase: Phase)

  datatype Stored = Missing | Value(raw: string)

  /** version counts the writes. For the statements below, outside is what the last outside
      writer (or the beginning) left, and marks who was added since. */
  datatype State = State(store: Stored, version: nat, readers: seq<Reader>, outside: Stored, marks: seq<string>)

  /** What can happen next; ok is whether the server answers without an error. */
  datatype Step = Get(id: nat, ok: bool) | Cas(id: nat, ok: bool) | Write(raw: string) | Remove

  function AfterGet(json: Json, s: State, user: string, ok: bool): Phase {
    if !ok || s.store.Missing? || json.parse(s.store.raw).Malformed? then Finished(Failed)
    else if user in json.parse(s.store.raw).comment.readBy then Finished(AlreadyRead)
    else Checking(s.store.raw, s.version)
  }

  /** The text a reader tries to store. */
  function Updated(json: Json, raw: string, user: string): string {
    match json.parse(raw)
    case Malformed => ""
    case Parsed(comment) => json.encode(WithReader(comment, user))
  }

  function Next(json: Json, s: State, step: Step): State {
    match step
    case Get(id, ok) =>
      if id < |s.readers| && s.readers[id].phase.Getting?
      then s.(readers := s.readers[id := Reader(s.readers[id].user, AfterGet(json, s, s.readers[id].user, ok))])
      else s
    case Cas(id, ok) =>
      if id < |s.readers| && s.readers[id].phase.Checking? then
        var user, raw := s.readers[id].user, s.readers[id].phase.raw;
        if !ok then s.(readers := s.readers[id := Reader(user, Finished(Failed))])
        else if s.store == Value(raw) then
          State(Value(Updated(json, raw, user)), s.version + 1, s.readers[id := Reader(user, Finished(Marked))],
            s.outside, s.marks + [user])
        else s.(readers := s.readers[id := Reader(user, Getting)])
      else s
    case Write(raw) => State(Value(raw), s.version + 1, s.readers, Value(raw), [])
    case Remove => State(Missing, s.version + 1, s.readers, Missing, [])
  }

  function Start(store: Stored, users: seq<string>): State {
    State(store, 0, seq(|users|, i requires 0 <= i < |users| => Reader(users[i], Getting)), store, [])
  }

  function Run(json: Json, store: Stored, users: seq<string>, steps: seq<Step>): State {
    if steps == [] then Start(store, users)
    else Next(json, Run(json, store, users, steps[..|steps| - 1]), steps[|steps| - 1])
  }

  // ----- What holds in every reachable state -----

  ghost predicate Distinct(users: seq<string>) {
    forall i, j :: 0 <= i < j < |users| ==> users[i] != users[j]
  }

  /** The stored comment is what the last outside writer left, plus exactly the readers
      marked since, each of them once. */
  ghost predicate NothingLost(json: Json, s: State) {
    if s.outside.Missing? || json.parse(s.outside.raw).Malformed? then s.marks == [] && s.store == s.outside
    else
      var left := json.parse(s.outside.raw).comment;
      && s.store.Value?
      && json.parse(s.store.raw) == Parsed(Comment(left.readBy + s.marks, left.fields))
      && (s.marks == [] ==> s.store == s.outside)
      && Distinct(s.marks) && forall user | user in s.marks :: user !in left.readBy
  }

  /** If nothing was written since a reader got the comment, it is still what was got. */
  ghost predicate Current(json: Json, s: State, r: Reader) {
    r.phase.Checking? ==>
      && r.phase.version <= s.version
      && (r.phase.version == s.version ==> s.store == Value(r.phase.raw))
      && json.parse(r.phase.raw).Parsed? && r.user !in json.parse(r.phase.raw).comment.readBy
  }

  ghost predicate Safe(json: Json, s: State) {
    && NothingLost(json, s)
    && forall id :: 0 <= id < |s.readers| ==> Current(json, s, s.readers[id])
  }

  lemma MarkLosesNothing(json: Json, s: State, user: string)
    requires Faithful(json) && NothingLost(json, s) && s.store.Value?
    requires json.parse(s.store.raw).Parsed? && user !in json.parse(s.store.raw).comment.readBy
    ensures NothingLost(json, State(Value(Updated(json, s.store.raw, user)), s.version + 1, s.readers, s.outside,
      s.marks + [user]))
  {
    var left := json.parse(s.outside.raw).comment;
    assert left.readBy + (s.marks + [user]) == left.readBy + s.marks + [user];
    assert forall u :: u in s.marks ==> u in left.readBy + s.marks;
    assert forall i :: 0 <= i < |s.marks| ==> s.marks[i] in left.readBy + s.marks;
  }

  lemma NextSafe(json: Json, s: State, step: Step)
    requires Faithful(json) && Safe(json, s)
    ensures Safe(json, Next(json, s, step))
  {
    if step.Cas? && step.id < |s.readers| && s.readers[step.id].phase.Checking? {
      assert Current(json, s, s.readers[step.id]);
      if s.store == Value(s.readers[step.id].phase.raw) {
        MarkLosesNothing(json, s, s.readers[step.id].user);
      }
    }
    hide NothingLost, Faithful, Updated;
    if step.Write? || step.Remove? {
      OutsideLosesNothing(json, s, step);
    }
  }

  lemma OutsideLosesNothing(json: Json, s: State, step: Step)
    requires step.Write? || step.Remove?
    ensures NothingLost(json, Next(json, s, step))
  {
    if step.Write? && json.parse(step.raw).Parsed? {
      var left := json.parse(step.raw).comment;
      assert left.readBy + [] == left.readBy;
    }
  }

  /** Over all interleavings: no update is lost, and what a reader got is current as long as
      nothing was written. */
  lemma {:induction false} AllRunsSafe(json: Json, store: Stored, users: seq<string>, steps: seq<Step>)
    requires Faithful(json)
    ensures Safe(json, Run(json, store, users, steps))
  {
    if steps == [] {
      hide NothingLost;
      assert NothingLost(json, Start(store, users)) by {
        if store.Value? {
          OutsideLosesNothing(json, Start(store, users), Write(store.raw));
        } else {
          OutsideLosesNothing(json, Start(store, users), Remove);
        }
      }
    } else {
      AllRunsSafe(json, store, users, steps[..|steps| - 1]);
      NextSafe(json, Run(json, store, users, steps[..|steps| - 1]), steps[|steps| - 1]);
    }
  }

  /** The readers of the stored comment, if there is one. */
  ghost function ReadersOf(json: Json, store: Stored): seq<string> {
    if store.Missing? || json.parse(store.raw).Malformed? then [] else json.parse(store.raw).comment.readBy
  }

  /** As long as outside writers name nobody twice, neither does the comment. */
  lemma NoDuplicates(json: Json, store: Stored, users: seq<string>, steps: seq<Step>)
    requires Faithful(json)
    requires var s := Run(json, store, users, steps); Distinct(ReadersOf(json, s.outside))
    ensures var s := Run(json, store, users, steps); Distinct(ReadersOf(json, s.store))
  {
    AllRunsSafe(json, store, users, steps);
    var s := Run(json, store, users, steps);
    DistinctConcat(ReadersOf(json, s.outside), s.marks);
  }

  lemma DistinctConcat(xs: seq<string>, ys: seq<string>)
    requires Distinct(xs) && Distinct(ys) && forall y | y in ys :: y !in xs
    ensures Distinct(xs + ys)
  {
    forall i, j | 0 <= i < j < |xs + ys|
      ensures (xs + ys)[i] != (xs + ys)[j]
    {
      if i < |xs| <= j {
        assert ys[j - |xs|] in ys && xs[i] in xs;
      }
    }
  }

  /** A successful check-and-set appends one absent user to the comment as it is at that
      moment, and changes nothing else in it. */
  lemma CasAppendsReader(json: Json, store: Stored, users: seq<string>, steps: seq<Step>, id: nat)
    requires Faithful(json)
    requires var s := Run(json, store, users, steps);
      id < |s.readers| && s.readers[id].phase.Checking?
        && Next(json, s, Cas(id, true)).readers[id].phase == Finished(Marked)
    ensures var s := Run(json, store, users, steps);
      var now, user := Next(json, s, Cas(id, true)), s.readers[id].user;
      && s.store.Value? && json.parse(s.store.raw).Parsed? && now.store.Value?
      && user !in json.parse(s.store.raw).comment.readBy
      && json.parse(now.store.raw) == Parsed(WithReader(json.parse(s.store.raw).comment, user))
  {
    AllRunsSafe(json, store, users, steps);
    var s := Run(json, store, users, steps);
    assert Current(json, s, s.readers[id]);
  }

  /** A mismatch means that something was written after the reader got the comment. */
  lemma MismatchMeansWrite(json: Json, store: Stored, users: seq<string>, steps: seq<Step>, id: nat)
    requires Faithful(json)
    requires var s := Run(json, store, users, steps);
      id < |s.readers| && s.readers[id].phase.Checking? && Next(json, s, Cas(id, true)).readers[id].phase == Getting
    ensures var s := Run(json, store, users, steps); s.readers[id].phase.version < s.version
  {
    AllRunsSafe(json, store, users, steps);
    var s := Run(json, store, users, steps);
    assert Current(json, s, s.readers[id]);
  }

  /** Whoever is a reader stays one, in the same place, and every other field keeps its
      value, until an outside writer writes. */
  lemma {:induction false} ReadersStay(json: Json, store: Stored, users: seq<string>, steps: seq<Step>, more: seq<Step>)
    requires Faithful(json)
    requires forall i :: 0 <= i < |more| ==> more[i].Get? || more[i].Cas?
    requires var s := Run(json, store, users, steps); s.store.Value? && json.parse(s.store.raw).Parsed?
    ensures var was, now := Run(json, store, users, steps).store, Run(json, store, users, steps + more).store;
      && now.Value? && json.parse(now.raw).Parsed?
      && json.parse(was.raw).comment.readBy <= json.parse(now.raw).comment.readBy
      && json.parse(was.raw).comment.fields == json.parse(now.raw).comment.fields
  {
    if more == [] {
      assert steps + more == steps;
    } else {
      var n := |more| - 1;
      ReadersStay(json, store, users, steps, more[..n]);
      var all := steps + more;
      assert all[..|all| - 1] == steps + more[..n] && all[|all| - 1] == more[n];
      AllRunsSafe(json, store, users, steps + more[..n]);
      StepKeepsReaders(json, Run(json, store, users, steps + more[..n]), more[n]);
    }
  }

  lemma StepKeepsReaders(json: Json, s: State, step: Step)
    requires Faithful(json) && Safe(json, s) && (step.Get? || step.Cas?)
    requires s.store.Value? && json.parse(s.store.raw).Parsed?
    ensures var now := Next(json, s, step).store;
      && now.Value? && json.parse(now.raw).Parsed?
      && json.parse(s.store.raw).comment.readBy <= json.parse(now.raw).comment.readBy
      && json.parse(s.store.raw).comment.fields == json.parse(now.raw).comment.fields
  {
  }

  // ----- What a mark does when nothing comes in between -----

  /** Another reader's step, or an outside writer's. */
  predicate NotBy(step: Step, id: nat) {
    (step.Get? || step.Cas?) ==> step.id != id
  }

  lemma {:induction false} OthersLeave(json: Json, store: Stored, users: seq<string>, steps: seq<Step>, more: seq<Step>,
    id: nat)
    requires id < |Run(json, store, users, steps).readers| && forall step | step in more :: NotBy(step, id)
    ensures var was, now := Run(json, store, users, steps), Run(json, store, users, steps + more);
      id < |now.readers| && now.readers[id] == was.readers[id]
  {
    if more == [] {
      assert steps + more == steps;
    } else {
      var n := |more| - 1;
      OthersLeave(json, store, users, steps, more[..n], id);
      LastStep(json, store, users, steps + more[..n], more[n]);
      assert steps + more[..n] + [more[n]] == steps + more && more[n] in more;
    }
  }

  lemma LastStep(json: Json, store: Stored, users: seq<string>, steps: seq<Step>, step: Step)
    ensures Run(json, store, users, steps + [step]) == Next(json, Run(json, store, users, steps), step)
  {
    assert (steps + [step])[..|steps|] == steps;
  }

  /** A reader gets a comment and then checks and sets it, while others take any steps but
      write nothing: a reader who was absent is added at the end and nothing else changes, and
      one who was there is found to be. */
  lemma MarkedIfQuiet(json: Json, store: Stored, users: seq<string>, steps: seq<Step>, id: nat, between: seq<Step>)
    requires Faithful(json) && forall step | step in between :: NotBy(step, id)
    requires var s := Run(json, store, users, steps);
      && id < |s.readers| && s.readers[id].phase.Getting? && s.store.Value? && json.parse(s.store.raw).Parsed?
      && Run(json, store, users, steps + [Get(id, true)] + between).version == s.version
    ensures var s := Run(json, store, users, steps);
      var end := Run(json, store, users, steps + [Get(id, true)] + between + [Cas(id, true)]);
      var comment, user := json.parse(s.store.raw).comment, s.readers[id].user;
      && id < |end.readers|
      && (user in comment.readBy ==> end.readers[id].phase == Finished(AlreadyRead) && end.version == s.version)
      && (user !in comment.readBy ==>
        && end.readers[id].phase == Finished(Marked) && end.store.Value?
        && json.parse(end.store.raw) == Parsed(Comment(comment.readBy + [user], comment.fields)))
  {
    var got := steps + [Get(id, true)];
    LastStep(json, store, users, steps, Get(id, true));
    OthersLeave(json, store, users, got, between, id);
    LastStep(json, store, users, got + between, Cas(id, true));
    AllRunsSafe(json, store, users, got + between);
    var s := Run(json, store, users, got + between);
    hide Run;
    assert Current(json, s, s.readers[id]);
  }
}

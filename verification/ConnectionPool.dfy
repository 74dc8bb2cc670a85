/** libs/go/p4lib/p4_cgo_bridge.cc: two pools of connections shared by concurrent calls.

    A call takes a client from the front of its pool or makes one, lends it its own
    credentials, runs, gives the original credentials back, and lets the client go; letting
    it go puts it back unless it has been dropped or the pool is full. If the connection was
    dropped the call starts over. Taking and letting go hold the pool's lock. */
module ConnectionPool {
  const MAX_CLIENTS := 16

  datatype Credentials = Credentials(user: string, password: string)

  datatype Client = Client(tagged: bool, original: Credentials, current: Credentials, dropped: bool)

  /** Where a call is: about to take a client; holding one as taken; holding one with
      credentials lent, or not; having run; about to let it go, and then start over or end. */
  datatype Phase =
    | Taking
    | Taken(id: nat)
    | Lent(id: nat, saved: Credentials)
    | Ran(id: nat, saved: Credentials)
    | LettingGo(id: nat, again: bool)
    | Ended

  datatype Call = Call(tagged: bool, credentials: Credentials, phase: Phase)

  /** clients are the live connections; next is the first number never used for one. */
  datatype State = State(clients: map<nat, Client>, next: nat, pool: seq<nat>, tagPool: seq<nat>, calls: seq<Call>)

  /** made is what a new connection looks like if one has to be made; drops is whether the
      connection breaks while running. A connection can also break at any other time. */
  datatype Step =
    | Take(call: nat, works: bool, made: Credentials)
    | Lend(call: nat)
    | RunCommand(call: nat, drops: bool)
    | Check(call: nat)
    | LetGo(call: nat)
    | Break(id: nat)

  predicate Overrides(c: Credentials) {
    c.user != "" && c.password != ""
  }

  predicate Enabled(s: State, step: Step) {
    match step
    case Take(i, _, _) => i < |s.calls| && s.calls[i].phase.Taking?
    case Lend(i) => i < |s.calls| && s.calls[i].phase.Taken? && s.calls[i].phase.id in s.clients
    case RunCommand(i, _) => i < |s.calls| && s.calls[i].phase.Lent? && s.calls[i].phase.id in s.clients
    case Check(i) => i < |s.calls| && s.calls[i].phase.Ran? && s.calls[i].phase.id in s.clients
    case LetGo(i) => i < |s.calls| && s.calls[i].phase.LettingGo? && s.calls[i].phase.id in s.clients
    case Break(id) => id in s.clients
  }

  function Moved(s: State, i: nat, phase: Phase): State
    requires i < |s.calls|
  {
    s.(calls := s.calls[i := s.calls[i].(phase := phase)])
  }

  function QueueOf(s: State, tagged: bool): seq<nat> {
    if tagged then s.tagPool else s.pool
  }

  function WithQueue(s: State, tagged: bool, queue: seq<nat>): State {
    if tagged then s.(tagPool := queue) else s.(pool := queue)
  }

  function Next(s: State, step: Step): State
    requires Enabled(s, step)
  {
    match step
    case Take(i, works, made) =>
      var tagged := s.calls[i].tagged;
      var queue := QueueOf(s, tagged);
      if queue != [] then Moved(WithQueue(s, tagged, queue[1..]), i, Taken(queue[0]))
      else if works then
        Moved(s.(clients := s.clients[s.next := Client(tagged, made, made, false)], next := s.next + 1), i,
          Taken(s.next))
      else Moved(s, i, Ended)
    case Lend(i) =>
      var id, own := s.calls[i].phase.id, s.calls[i].credentials;
      var client := s.clients[id];
      Moved(s.(clients := s.clients[id := if Overrides(own) then client.(current := own) else client]), i,
        Lent(id, client.current))
    case RunCommand(i, drops) =>
      var id := s.calls[i].phase.id;
      var client := s.clients[id];
      Moved(s.(clients := s.clients[id := client.(dropped := client.dropped || drops)]), i,
        Ran(id, s.calls[i].phase.saved))
    case Check(i) =>
      var id, saved := s.calls[i].phase.id, s.calls[i].phase.saved;
      var client := s.clients[id];
      if client.dropped then Moved(s, i, LettingGo(id, true))
      else
        var restored := if Overrides(s.calls[i].credentials) then client.(current := saved) else client;
        Moved(s.(clients := s.clients[id := restored]),
              i, LettingGo(id, false))
    case LetGo(i) =>
      var id, tagged := s.calls[i].phase.id, s.calls[i].tagged;
      var after := if s.calls[i].phase.again then Taking else Ended;
      var queue := QueueOf(s, tagged);
      if !s.clients[id].dropped && |queue| < MAX_CLIENTS then Moved(WithQueue(s, tagged, queue + [id]), i, after)
      else Moved(s.(clients := s.clients - {id}), i, after)
    case Break(id) => s.(clients := s.clients[id := s.clients[id].(dropped := true)])
  }

  // ----- What holds in every reachable state -----

  /** The call has the client in its hands. */
  predicate Holds(call: Call, id: nat) {
    match call.phase
    case Taking => false
    case Ended => false
    case Taken(h) => h == id
    case Lent(h, _) => h == id
    case Ran(h, _) => h == id
    case LettingGo(h, _) => h == id
  }

  ghost predicate Distinct(queue: seq<nat>) {
    forall i, j :: 0 <= i < j < |queue| ==> queue[i] != queue[j]
  }

  /** A pool holds live clients of its own kind, once each, with their own credentials. */
  ghost predicate PoolOk(clients: map<nat, Client>, queue: seq<nat>, tagged: bool) {
    && |queue| <= MAX_CLIENTS && Distinct(queue)
    && forall id | id in queue ::
         id in clients && clients[id].tagged == tagged && clients[id].current == clients[id].original
  }

  /** Whose credentials the command of a call must run with. */
  function RunsAs(call: Call, connection: Credentials): Credentials {
    if Overrides(call.credentials) then call.credentials else connection
  }

  /** A call holds a live client of its own kind, and what it must give back is known. */
  ghost predicate CallOk(clients: map<nat, Client>, call: Call) {
    forall id :: Holds(call, id) ==>
      && id in clients && clients[id].tagged == call.tagged
      && match call.phase
         case Taken(_) => clients[id].current == clients[id].original
         case LettingGo(_, _) => clients[id].current == clients[id].original || clients[id].dropped
         case Lent(_, saved) => saved == clients[id].original && clients[id].current == RunsAs(call, saved)
         case Ran(_, saved) => saved == clients[id].original && clients[id].current == RunsAs(call, saved)
         case _ => true
  }

  /** What a call holds is not in the pool. */
  ghost predicate Apart(queue: seq<nat>, calls: seq<Call>) {
    forall i, id :: 0 <= i < |calls| && Holds(calls[i], id) ==> id !in queue
  }

  /** No client is held by two calls. */
  ghost predicate HeldOnce(calls: seq<Call>) {
    forall i, j, id :: 0 <= i < |calls| && 0 <= j < |calls| && Holds(calls[i], id) && Holds(calls[j], id) ==> i == j
  }

  ghost predicate Held(calls: seq<Call>, id: nat) {
    exists i :: 0 <= i < |calls| && Holds(calls[i], id)
  }

  /** Every client is somewhere. */
  ghost predicate Placed(s: State) {
    forall id | id in s.clients :: id in s.pool || id in s.tagPool || Held(s.calls, id)
  }

  ghost predicate CallsOk(s: State) {
    forall i :: 0 <= i < |s.calls| ==> CallOk(s.clients, s.calls[i])
  }

  ghost predicate Pools(s: State) {
    PoolOk(s.clients, s.pool, false) && PoolOk(s.clients, s.tagPool, true)
  }

  ghost predicate AllApart(s: State) {
    Apart(s.pool, s.calls) && Apart(s.tagPool, s.calls) && HeldOnce(s.calls)
  }

  ghost predicate Numbered(s: State) {
    forall id | id in s.clients :: id < s.next
  }

  ghost predicate Safe(s: State) {
    Pools(s) && CallsOk(s) && AllApart(s) && Placed(s) && Numbered(s)
  }

  function Start(calls: seq<Call>): State {
    State(map[], 0, [], [], calls)
  }

  lemma StartSafe(calls: seq<Call>)
    requires forall c | c in calls :: c.phase.Taking?
    ensures Safe(Start(calls))
  {
  }

  // ----- A call that moves on with the client it holds -----

  /** The same clients, the same pools, the same holders; only client id and call i differ. */
  ghost predicate Carries(s: State, t: State, i: nat, id: nat) {
    && i < |s.calls| == |t.calls| && t.pool == s.pool && t.tagPool == s.tagPool && t.next == s.next
    && id in s.clients && Holds(s.calls[i], id) && Holds(t.calls[i], id)
    && t.clients.Keys == s.clients.Keys
    && (forall j | j in s.clients && j != id :: t.clients[j] == s.clients[j])
    && (forall j :: 0 <= j < |s.calls| && j != i ==> t.calls[j] == s.calls[j])
  }

  lemma HoldsOne(call: Call, a: nat, b: nat)
    requires Holds(call, a) && Holds(call, b)
    ensures a == b
  {
  }

  lemma CarryPlaces(s: State, t: State, i: nat, id: nat)
    requires Carries(s, t, i, id) && AllApart(s) && Placed(s) && Numbered(s)
    ensures AllApart(t) && Placed(t) && Numbered(t)
  {
    hide Holds;
    forall j, h | 0 <= j < |t.calls| && Holds(t.calls[j], h) ensures Holds(s.calls[j], h) {
      if j == i { HoldsOne(t.calls[i], h, id); }
    }
    forall h | h in t.clients ensures h in t.pool || h in t.tagPool || Held(t.calls, h) {
      if h !in s.pool && h !in s.tagPool {
        var j :| 0 <= j < |s.calls| && Holds(s.calls[j], h);
        if j == i { HoldsOne(s.calls[i], h, id); }
        assert Holds(t.calls[j], h);
      }
    }
  }

  lemma CarryPools(s: State, t: State, i: nat, id: nat)
    requires Carries(s, t, i, id) && AllApart(s) && Pools(s)
    ensures Pools(t)
  {
    hide Holds, HeldOnce, Distinct;
  }

  lemma CarryCalls(s: State, t: State, i: nat, id: nat)
    requires Carries(s, t, i, id) && AllApart(s) && CallsOk(s) && CallOk(t.clients, t.calls[i])
    ensures CallsOk(t)
  {
    forall j | 0 <= j < |t.calls| ensures CallOk(t.clients, t.calls[j]) {
      if j != i { CallElsewhere(s, t, i, id, j); }
    }
  }

  lemma CallElsewhere(s: State, t: State, i: nat, id: nat, j: nat)
    requires Carries(s, t, i, id) && AllApart(s) && j < |s.calls| && j != i && CallOk(s.clients, s.calls[j])
    ensures CallOk(t.clients, t.calls[j])
  {
    hide Apart;
    assert !Holds(s.calls[j], id);
  }

  lemma CarrySafe(s: State, t: State, i: nat, id: nat)
    requires Safe(s) && Carries(s, t, i, id) && CallOk(t.clients, t.calls[i])
    ensures Safe(t)
  {
    hide Carries, Pools, CallsOk, AllApart, Placed, Numbered, CallOk;
    CarryPlaces(s, t, i, id);
    CarryPools(s, t, i, id);
    CarryCalls(s, t, i, id);
  }

  lemma LendSafe(s: State, i: nat)
    requires Safe(s) && Enabled(s, Lend(i))
    ensures Safe(Next(s, Lend(i)))
  {
    hide Pools, AllApart, Placed, Numbered;
    assert CallOk(s.clients, s.calls[i]);
    CarrySafe(s, Next(s, Lend(i)), i, s.calls[i].phase.id);
  }

  lemma RunCommandSafe(s: State, i: nat, drops: bool)
    requires Safe(s) && Enabled(s, RunCommand(i, drops))
    ensures Safe(Next(s, RunCommand(i, drops)))
  {
    hide Pools, AllApart, Placed, Numbered;
    assert CallOk(s.clients, s.calls[i]);
    CarrySafe(s, Next(s, RunCommand(i, drops)), i, s.calls[i].phase.id);
  }

  lemma CheckSafe(s: State, i: nat)
    requires Safe(s) && Enabled(s, Check(i))
    ensures Safe(Next(s, Check(i)))
  {
    hide Pools, AllApart, Placed, Numbered;
    assert CallOk(s.clients, s.calls[i]);
    CarrySafe(s, Next(s, Check(i)), i, s.calls[i].phase.id);
  }

  lemma BreakSafe(s: State, id: nat)
    requires Safe(s) && Enabled(s, Break(id))
    ensures Safe(Next(s, Break(id)))
  {
    var t := Next(s, Break(id));
    assert Pools(t) by { hide CallsOk, AllApart, Placed, Numbered; }
    assert CallsOk(t) by { hide Pools, AllApart, Placed, Numbered; }
    assert AllApart(t) by { hide CallsOk, Pools, Placed, Numbered, Apart, HeldOnce; }
    assert Placed(t) && Numbered(t) by { hide CallsOk, Pools, AllApart, Held; }
  }

  // ----- Taking from a pool -----

  /** The rest of a pool, and its head out of it. */
  lemma PoolRest(clients: map<nat, Client>, queue: seq<nat>, tagged: bool)
    requires PoolOk(clients, queue, tagged) && queue != []
    ensures PoolOk(clients, queue[1..], tagged) && queue[0] !in queue[1..]
    ensures queue[0] in clients && clients[queue[0]].tagged == tagged
      && clients[queue[0]].current == clients[queue[0]].original
    ensures forall id :: id in queue <==> id == queue[0] || id in queue[1..]
  {
    assert queue[0] in queue;
  }

  predicate FrontOf(queue: seq<nat>, id: nat) {
    queue != [] && queue[0] == id
  }

  /** t is s with the front client of the pool in the hands of call i. */
  ghost predicate TookFront(s: State, t: State, i: nat, id: nat) {
    && i < |s.calls| == |t.calls| && s.calls[i].phase.Taking? && t.calls[i] == s.calls[i].(phase := Taken(id))
    && t.clients == s.clients && t.next == s.next
    && (forall j :: 0 <= j < |s.calls| && j != i ==> t.calls[j] == s.calls[j])
    && FrontOf(QueueOf(s, s.calls[i].tagged), id)
    && t.pool == (if s.calls[i].tagged then s.pool else s.pool[1..])
    && t.tagPool == (if s.calls[i].tagged then s.tagPool[1..] else s.tagPool)
  }

  lemma FrontPools(s: State, t: State, i: nat, id: nat)
    requires TookFront(s, t, i, id) && Pools(s)
    ensures Pools(t) && id in s.clients && id !in t.pool && id !in t.tagPool && (id in s.pool || id in s.tagPool)
    ensures forall h :: h in s.pool || h in s.tagPool <==> h in t.pool || h in t.tagPool || h == id
    ensures CallOk(t.clients, t.calls[i])
    ensures forall h :: (h in t.pool ==> h in s.pool) && (h in t.tagPool ==> h in s.tagPool)
  {
    PoolRest(s.clients, QueueOf(s, s.calls[i].tagged), s.calls[i].tagged);
    hide Distinct;
  }

  lemma FrontApart(s: State, t: State, i: nat, id: nat)
    requires TookFront(s, t, i, id) && AllApart(s) && Pools(s)
    ensures AllApart(t)
  {
    FrontPools(s, t, i, id);
    hide PoolOk, QueueOf, WithQueue, Pools, CallOk;
    assert forall j :: 0 <= j < |s.calls| ==> !Holds(s.calls[j], id);
    assert forall h :: Holds(t.calls[i], h) ==> h == id;
    assert forall j, h :: 0 <= j < |s.calls| && j != i && Holds(t.calls[j], h) ==> Holds(s.calls[j], h);
  }

  lemma FrontPlaced(s: State, t: State, i: nat, id: nat)
    requires TookFront(s, t, i, id) && Placed(s) && Pools(s)
    ensures Placed(t)
  {
    FrontPools(s, t, i, id);
    hide PoolOk, QueueOf, WithQueue, Pools, CallOk;
    assert Holds(t.calls[i], id);
    forall h | h in t.clients ensures h in t.pool || h in t.tagPool || Held(t.calls, h) {
      if h !in s.pool && h !in s.tagPool {
        var j :| 0 <= j < |s.calls| && Holds(s.calls[j], h);
        assert Holds(t.calls[j], h);
      }
    }
  }

  lemma FrontSafe(s: State, t: State, i: nat, id: nat)
    requires TookFront(s, t, i, id) && Safe(s)
    ensures Safe(t)
  {
    FrontPools(s, t, i, id);
    FrontApart(s, t, i, id);
    FrontPlaced(s, t, i, id);
    hide PoolOk, QueueOf, WithQueue, Pools, CallOk, Holds, AllApart, Placed;
  }

  // ----- A new connection -----

  lemma MadeSafe(s: State, i: nat, client: Client)
    requires Safe(s) && i < |s.calls| && s.calls[i].phase.Taking?
    requires client.current == client.original && client.tagged == s.calls[i].tagged
    ensures Safe(Moved(s.(clients := s.clients[s.next := client], next := s.next + 1), i, Taken(s.next)))
  {
    var id := s.next;
    var t := Moved(s.(clients := s.clients[s.next := client], next := s.next + 1), i, Taken(s.next));
    assert id !in s.clients by { hide Pools, CallsOk, AllApart, Placed; }
    assert id !in s.pool && id !in s.tagPool by { hide CallsOk, AllApart, Placed, Numbered, Distinct; }
    assert forall j :: 0 <= j < |s.calls| ==> !Holds(s.calls[j], id) by { hide Pools, AllApart, Placed, Numbered; }
    assert Pools(t) by { hide CallsOk, AllApart, Placed, Numbered, Distinct; }
    assert CallsOk(t) by { MadeCalls(s, i, client); }
    assert AllApart(t) by { hide Pools, CallsOk, Placed, Numbered; }
    assert Placed(t) by { MadePlaced(s, t, i, id); }
    assert Numbered(t) by { hide Pools, CallsOk, AllApart, Placed; }
  }

  lemma MadeCalls(s: State, i: nat, client: Client)
    requires CallsOk(s) && i < |s.calls| && s.calls[i].phase.Taking? && s.next !in s.clients
    requires client.current == client.original && client.tagged == s.calls[i].tagged
    ensures CallsOk(Moved(s.(clients := s.clients[s.next := client], next := s.next + 1), i, Taken(s.next)))
  {
    var t := Moved(s.(clients := s.clients[s.next := client], next := s.next + 1), i, Taken(s.next));
    forall j | 0 <= j < |t.calls| ensures CallOk(t.clients, t.calls[j]) {
      if j != i { assert CallOk(s.clients, s.calls[j]); }
    }
  }

  lemma MadePlaced(s: State, t: State, i: nat, id: nat)
    requires Placed(s) && i < |s.calls| == |t.calls| && Holds(t.calls[i], id) && s.calls[i].phase.Taking?
    requires t.clients.Keys == s.clients.Keys + {id} && t.pool == s.pool && t.tagPool == s.tagPool
    requires forall j :: 0 <= j < |s.calls| && j != i ==> t.calls[j] == s.calls[j]
    ensures Placed(t)
  {
    forall h | h in t.clients ensures h in t.pool || h in t.tagPool || Held(t.calls, h) {
      if h in s.clients && h !in s.pool && h !in s.tagPool {
        var j :| 0 <= j < |s.calls| && Holds(s.calls[j], h);
        assert Holds(t.calls[j], h);
      }
    }
  }

  lemma FailedSafe(s: State, i: nat)
    requires Safe(s) && i < |s.calls| && s.calls[i].phase.Taking?
    ensures Safe(Moved(s, i, Ended))
  {
    var t := Moved(s, i, Ended);
    assert Pools(t) && Numbered(t) by { hide CallsOk, AllApart, Placed, PoolOk; }
    assert CallsOk(t) by { hide Pools, AllApart, Placed, Numbered; }
    assert AllApart(t) by { hide Pools, CallsOk, Placed, Numbered; }
    assert Placed(t) by {
      hide Pools, CallsOk, AllApart, Numbered;
      forall h | h in t.clients ensures h in t.pool || h in t.tagPool || Held(t.calls, h) {
        if h !in s.pool && h !in s.tagPool {
          var j :| 0 <= j < |s.calls| && Holds(s.calls[j], h);
          assert Holds(t.calls[j], h);
        }
      }
    }
  }

  lemma TakeSafe(s: State, i: nat, works: bool, made: Credentials)
    requires Safe(s) && Enabled(s, Take(i, works, made))
    ensures Safe(Next(s, Take(i, works, made)))
  {
    hide Safe, Pools, CallsOk, AllApart, Placed, Numbered;
    var tagged := s.calls[i].tagged;
    var queue := QueueOf(s, tagged);
    if queue != [] {
      FrontSafe(s, Next(s, Take(i, works, made)), i, queue[0]);
    } else if works {
      MadeSafe(s, i, Client(tagged, made, made, false));
    } else {
      FailedSafe(s, i);
    }
  }

  // ----- Letting go -----

  /** t is s with call i no longer holding id, which is in no other hands. */
  ghost predicate LetsGo(s: State, t: State, i: nat, id: nat) {
    && i < |s.calls| == |t.calls| && Holds(s.calls[i], id) && t.next == s.next && id in s.clients
    && (forall h :: !Holds(t.calls[i], h))
    && (forall j :: 0 <= j < |s.calls| && j != i ==> t.calls[j] == s.calls[j])
  }

  lemma OnlyHolder(s: State, t: State, i: nat, id: nat)
    requires LetsGo(s, t, i, id) && AllApart(s)
    ensures forall j, h :: 0 <= j < |s.calls| && Holds(t.calls[j], h) ==> Holds(s.calls[j], h) && h != id
    ensures id !in s.pool && id !in s.tagPool && HeldOnce(t.calls)
    ensures forall h :: Held(s.calls, h) && h != id ==> Held(t.calls, h)
  {
    forall h | Held(s.calls, h) && h != id ensures Held(t.calls, h) {
      var j :| 0 <= j < |s.calls| && Holds(s.calls[j], h);
      assert Holds(t.calls[j], h);
    }
  }

  lemma LetGoCalls(s: State, t: State, i: nat, id: nat)
    requires LetsGo(s, t, i, id) && AllApart(s) && CallsOk(s)
    requires t.clients == s.clients || t.clients == s.clients - {id}
    ensures CallsOk(t)
  {
    OnlyHolder(s, t, i, id);
    hide AllApart;
    forall j | 0 <= j < |t.calls| ensures CallOk(t.clients, t.calls[j]) {
      if j != i { assert CallOk(s.clients, s.calls[j]); }
    }
  }

  lemma DeletedSafe(s: State, t: State, i: nat, id: nat)
    requires Safe(s) && LetsGo(s, t, i, id) && t.clients == s.clients - {id} && t.pool == s.pool
      && t.tagPool == s.tagPool
    ensures Safe(t)
  {
    OnlyHolder(s, t, i, id);
    LetGoCalls(s, t, i, id);
    hide CallsOk, Holds, Held, HeldOnce, Distinct;
    assert Apart(t.pool, t.calls) && Apart(t.tagPool, t.calls);
  }

  lemma PoolMore(clients: map<nat, Client>, queue: seq<nat>, tagged: bool, id: nat)
    requires PoolOk(clients, queue, tagged) && |queue| < MAX_CLIENTS && id !in queue
    requires id in clients && clients[id].tagged == tagged && clients[id].current == clients[id].original
    ensures PoolOk(clients, queue + [id], tagged)
  {
  }

  lemma PutBackSafe(s: State, t: State, i: nat, id: nat)
    requires Safe(s) && LetsGo(s, t, i, id) && t.clients == s.clients && s.clients[id].tagged == s.calls[i].tagged
    requires s.clients[id].current == s.clients[id].original && |QueueOf(s, s.calls[i].tagged)| < MAX_CLIENTS
    requires t.pool == WithQueue(s, s.calls[i].tagged, QueueOf(s, s.calls[i].tagged) + [id]).pool
    requires t.tagPool == WithQueue(s, s.calls[i].tagged, QueueOf(s, s.calls[i].tagged) + [id]).tagPool
    ensures Safe(t)
  {
    OnlyHolder(s, t, i, id);
    LetGoCalls(s, t, i, id);
    PoolMore(s.clients, QueueOf(s, s.calls[i].tagged), s.calls[i].tagged, id);
    hide CallsOk, Holds, Held, HeldOnce, PoolOk;
    assert forall h :: h in t.pool || h in t.tagPool <==> h in s.pool || h in s.tagPool || h == id;
    assert Apart(t.pool, t.calls) && Apart(t.tagPool, t.calls);
  }

  lemma LetGoSafe(s: State, i: nat)
    requires Safe(s) && Enabled(s, LetGo(i))
    ensures Safe(Next(s, LetGo(i)))
  {
    hide Pools, AllApart, Placed, Numbered;
    var id := s.calls[i].phase.id;
    assert CallOk(s.clients, s.calls[i]) && Holds(s.calls[i], id);
    var t := Next(s, LetGo(i));
    assert LetsGo(s, t, i, id);
    hide Safe, CallsOk, LetsGo;
    if !s.clients[id].dropped && |QueueOf(s, s.calls[i].tagged)| < MAX_CLIENTS {
      PutBackSafe(s, t, i, id);
    } else {
      DeletedSafe(s, t, i, id);
    }
  }

  // ----- Every run -----

  /** The state after the steps; a step that cannot be taken where it stands changes nothing. */
  function Run(s: State, steps: seq<Step>): State
    decreases |steps|
  {
    if steps == [] then s
    else
      var before := Run(s, steps[..|steps| - 1]);
      if Enabled(before, steps[|steps| - 1]) then Next(before, steps[|steps| - 1]) else before
  }

  lemma NextSafe(s: State, step: Step)
    requires Safe(s) && Enabled(s, step)
    ensures Safe(Next(s, step))
  {
    hide Safe, Next, Enabled;
    match step
    case Take(i, works, made) => TakeSafe(s, i, works, made);
    case Lend(i) => LendSafe(s, i);
    case RunCommand(i, drops) => RunCommandSafe(s, i, drops);
    case Check(i) => CheckSafe(s, i);
    case LetGo(i) => LetGoSafe(s, i);
    case Break(id) => BreakSafe(s, id);
  }

  /** Whatever the calls do and in whatever order, starting with two empty pools. */
  lemma {:induction false} AllRunsSafe(calls: seq<Call>, steps: seq<Step>)
    requires forall c | c in calls :: c.phase.Taking?
    ensures Safe(Run(Start(calls), steps))
    decreases |steps|
  {
    if steps == [] {
      StartSafe(calls);
    } else {
      hide Safe, Next, Enabled;
      AllRunsSafe(calls, steps[..|steps| - 1]);
      var before := Run(Start(calls), steps[..|steps| - 1]);
      if Enabled(before, steps[|steps| - 1]) { NextSafe(before, steps[|steps| - 1]); }
    }
  }

  /** A live client keeps its kind and its original credentials, and once dropped stays so. */
  lemma IdentityKept(s: State, step: Step, id: nat)
    requires Safe(s) && Enabled(s, step) && id in s.clients && id in Next(s, step).clients
    ensures Next(s, step).clients[id].tagged == s.clients[id].tagged
    ensures Next(s, step).clients[id].original == s.clients[id].original
    ensures s.clients[id].dropped ==> Next(s, step).clients[id].dropped
  {
    assert id < s.next by { hide Pools, CallsOk, AllApart, Placed; }
    hide Safe;
  }

  /** What safety says of one client: it is in one place only, a pool of its kind with its
      own credentials, or the hands of a single call. */
  lemma OnePlace(s: State, id: nat)
    requires Safe(s) && id in s.clients
    ensures id in s.pool ==> id !in s.tagPool && !Held(s.calls, id) && !s.clients[id].tagged
    ensures id in s.tagPool ==> !Held(s.calls, id) && s.clients[id].tagged
    ensures id in s.pool || id in s.tagPool || Held(s.calls, id)
    ensures id in s.pool || id in s.tagPool ==> s.clients[id].current == s.clients[id].original
    ensures forall i, j | 0 <= i < |s.calls| && 0 <= j < |s.calls| ::
      Holds(s.calls[i], id) && Holds(s.calls[j], id) ==> i == j
    ensures |s.pool| <= 16 && |s.tagPool| <= 16
  {
    hide CallsOk, Numbered, Distinct;
  }

  /** A command always runs with the credentials its own call asked for, or the connection's
      own when it asked for none, however many calls share the pool. */
  lemma RunsWithOwnCredentials(calls: seq<Call>, steps: seq<Step>, i: nat, drops: bool)
    requires forall c | c in calls :: c.phase.Taking?
    requires var s := Run(Start(calls), steps); Enabled(s, RunCommand(i, drops))
    ensures var s := Run(Start(calls), steps); var client := s.clients[s.calls[i].phase.id];
      client.current == RunsAs(s.calls[i], client.original)
  {
    AllRunsSafe(calls, steps);
    hide Run, Start, Pools, AllApart, Placed, Numbered;
    var s := Run(Start(calls), steps);
    assert CallOk(s.clients, s.calls[i]) && Holds(s.calls[i], s.calls[i].phase.id);
  }

  /** A client is destroyed only by a call that lets it go, and only if it was dropped or its
      pool was full. */
  lemma DestroyedOnlyWhenLetGo(s: State, step: Step, id: nat)
    requires Safe(s) && Enabled(s, step) && id in s.clients && id !in Next(s, step).clients
    ensures step.LetGo? && Holds(s.calls[step.call], id)
    ensures s.clients[id].dropped || |QueueOf(s, s.clients[id].tagged)| == 16
  {
    hide AllApart, Placed, Numbered;
    if step.LetGo? {
      assert CallOk(s.clients, s.calls[step.call]);
    }
  }

  // ----- A call that runs alone -----

  /** A connection is made only for a call that finds its pool empty. */
  lemma MadeOnlyWhenEmpty(s: State, step: Step)
    requires Enabled(s, step)
    ensures Next(s, step).next != s.next ==>
      step.Take? && step.works && QueueOf(s, s.calls[step.call].tagged) == [] && Next(s, step).next == s.next + 1
    ensures forall id | id in Next(s, step).clients ::
      id in s.clients || (id == s.next && Next(s, step).next == s.next + 1)
  {
  }

  /** The steps of a call that has its client and whose connection holds. */
  ghost predicate UsesAndReturns(s: State, i: nat, t: State) {
    && Enabled(s, Lend(i)) && var b := Next(s, Lend(i));
    && Enabled(b, RunCommand(i, false)) && var c := Next(b, RunCommand(i, false));
    && Enabled(c, Check(i)) && var d := Next(c, Check(i));
    && Enabled(d, LetGo(i)) && t == Next(d, LetGo(i))
  }

  ghost predicate RunsThrough(s: State, i: nat, made: Credentials, t: State) {
    Enabled(s, Take(i, true, made)) && UsesAndReturns(Next(s, Take(i, true, made)), i, t)
  }

  /** The client comes back as it was taken. */
  lemma Borrowed(s: State, i: nat, id: nat)
    requires i < |s.calls| && s.calls[i].phase == Taken(id) && id in s.clients && !s.clients[id].dropped
    requires |QueueOf(s, s.calls[i].tagged)| < MAX_CLIENTS
    ensures var tagged := s.calls[i].tagged;
      UsesAndReturns(s, i, Moved(WithQueue(s, tagged, QueueOf(s, tagged) + [id]), i, Ended))
  {
    var client, own := s.clients[id], s.calls[i].credentials;
    var lent := if Overrides(own) then client.(current := own) else client;
    var b := Moved(s.(clients := s.clients[id := lent]), i, Lent(id, client.current));
    assert Next(s, Lend(i)) == b;
    var c := Moved(b, i, Ran(id, client.current));
    assert b.clients[id := lent] == b.clients && Next(b, RunCommand(i, false)) == c;
    var d := Moved(s, i, LettingGo(id, false));
    assert s.clients[id := lent][id := client] == s.clients;
    assert c.calls[i := c.calls[i].(phase := LettingGo(id, false))] == d.calls;
    assert Next(c, Check(i)) == d;
    var e := Moved(WithQueue(s, s.calls[i].tagged, QueueOf(s, s.calls[i].tagged) + [id]), i, Ended);
    assert d.calls[i := d.calls[i].(phase := Ended)] == e.calls;
  }

  /** A call takes the client that has waited longest in its own pool, and puts it back as it
      was, behind the others; from an empty pool it makes one and leaves that behind. */
  lemma QuietCall(s: State, i: nat, made: Credentials)
    requires Pools(s) && i < |s.calls| && s.calls[i].phase.Taking?
    requires forall id | id in QueueOf(s, s.calls[i].tagged) && id in s.clients :: !s.clients[id].dropped
    ensures var tagged := s.calls[i].tagged;
      var queue, calls := QueueOf(s, tagged), s.calls[i := s.calls[i].(phase := Ended)];
      if queue != [] then
        RunsThrough(s, i, made, WithQueue(s, tagged, queue[1..] + [queue[0]]).(calls := calls))
      else
        RunsThrough(s, i, made, WithQueue(s, tagged, [s.next]).(calls := calls, next := s.next + 1,
          clients := s.clients[s.next := Client(tagged, made, made, false)]))
  {
    var tagged := s.calls[i].tagged;
    var queue := QueueOf(s, tagged);
    assert queue != [] ==> queue[0] in queue;
    var id := if queue != [] then queue[0] else s.next;
    var a := Next(s, Take(i, true, made));
    assert a.calls[i].phase == Taken(id) && id in a.clients;
    assert QueueOf(a, tagged) == if queue != [] then queue[1..] else [];
    hide Pools, UsesAndReturns;
    Borrowed(a, i, id);
    assert a.calls[i := a.calls[i].(phase := Ended)] == s.calls[i := s.calls[i].(phase := Ended)];
    if queue == [] { assert queue + [id] == [id]; }
  }
}

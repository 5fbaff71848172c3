/** The SSH connection pool as an interleaved protocol.

    Every step below is what one task (or the timer, or the peer) does between two
    suspension points of the event loop, so any sequence of enabled steps is a possible
    interleaving of `get_client`, `prune_connection_pool` and the health checks.
    Connections, locks and tasks are identified by the order in which they were made. */
module SshPoolProtocol {
  import opened Prelude

  type User = string
  type ConnId = nat
  type LockId = nat
  type TaskId = nat

  /** `close()` only starts a shutdown: a closing connection is not yet `is_closed()`. */
  datatype Status = Live | Closing | Closed

  datatype Conn = Conn(user: User, idleTimeout: real, executeTimeout: real, lastUsed: real, status: Status) {
    predicate IsIdle(now: real) { now - lastUsed > idleTimeout }
  }

  /** Where a `get_client` task stands. `Opening` and `Reporting` are the two places where it
      is suspended inside `async with user_lock`. `unused` marks a checkout not yet used. */
  datatype Stage =
    | Waiting
    | Opening
    | Reporting
    | Holding(conn: ConnId, unused: bool)
    | Executing(conn: ConnId, started: real)
    | Done
  {
    predicate InsideLock() { Opening? || Reporting? }
  }

  datatype Task = Task(user: User, lock: LockId, stage: Stage)

  datatype State = State(
    maxClients: int,
    idleTimeout: real,
    executeTimeout: real,
    clients: map<User, ConnId>,
    userLocks: map<User, LockId>,
    locks: seq<Option<TaskId>>,
    conns: seq<Conn>,
    tasks: seq<Task>,
    now: real)

  datatype Step =
    | Arrive(user: User)
    | Enter(task: TaskId)
    | Connected(task: TaskId)
    | OpenFailed(task: TaskId, report: bool)
    | ReportDone(task: TaskId)
    | Abandon(task: TaskId)
    | Execute(task: TaskId)
    | ExecuteEnd(task: TaskId)
    | Leave(task: TaskId)
    | Prune
    | CloseDone(conn: ConnId)
    | RemoteClose(conn: ConnId)
    | SetExecuteTimeout(timeout: real)
    | Tick(elapsed: real)

  function Init(maxClients: int, idleTimeout: real, executeTimeout: real): State {
    State(maxClients, idleTimeout, executeTimeout, map[], map[], [], [], [], 0.0)
  }

  // ---------------------------------------------------------------- steps

  predicate At(s: State, t: TaskId) { t < |s.tasks| }

  predicate Enabled(s: State, e: Step) {
    match e
    case Arrive(_) => true
    case Enter(t) => At(s, t) && s.tasks[t].stage.Waiting?
                     && s.tasks[t].lock < |s.locks| && s.locks[s.tasks[t].lock].None?
    case Connected(t) => At(s, t) && s.tasks[t].stage.Opening? && s.tasks[t].lock < |s.locks|
    case OpenFailed(t, _) => At(s, t) && s.tasks[t].stage.Opening? && s.tasks[t].lock < |s.locks|
    case ReportDone(t) => At(s, t) && s.tasks[t].stage.Reporting? && s.tasks[t].lock < |s.locks|
    case Abandon(t) => At(s, t) && s.tasks[t].stage.Waiting?
    case Execute(t) => At(s, t) && s.tasks[t].stage.Holding?
    case ExecuteEnd(t) => At(s, t) && s.tasks[t].stage.Executing?
    case Leave(t) => At(s, t) && s.tasks[t].stage.Holding?
    case Prune => true
    case CloseDone(c) => c < |s.conns| && s.conns[c].status.Closing?
    case RemoteClose(c) => c < |s.conns| && !s.conns[c].status.Closed?
    case SetExecuteTimeout(_) => true
    case Tick(_) => true
  }

  function WithStage(s: State, t: TaskId, stage: Stage): State
    requires At(s, t)
  {
    s.(tasks := s.tasks[t := s.tasks[t].(stage := stage)])
  }

  function WithStatus(s: State, c: ConnId, status: Status): State
    requires c < |s.conns|
  {
    s.(conns := s.conns[c := s.conns[c].(status := status)])
  }

  function WithHolder(s: State, l: LockId, holder: Option<TaskId>): State
    requires l < |s.locks|
  {
    s.(locks := s.locks[l := holder])
  }

  /** `reset_idle` followed by `yield client`. */
  function CheckOut(s: State, t: TaskId, c: ConnId): State
    requires At(s, t) && c < |s.conns|
  {
    WithStage(s.(conns := s.conns[c := s.conns[c].(lastUsed := s.now)]), t, Holding(c, true))
  }

  /** A cached client counts as a hit unless its connection is already closed. */
  predicate Hit(s: State, u: User) {
    u in s.clients && s.clients[u] < |s.conns| && !s.conns[s.clients[u]].status.Closed?
  }

  function Lookup(s: State, t: TaskId): State
    requires Enabled(s, Enter(t))
  {
    var u := s.tasks[t].user;
    if Hit(s, u) then
      CheckOut(s, t, s.clients[u])
    else
      var forgotten := s.(clients := s.clients - {u});
      if |forgotten.clients| >= s.maxClients then WithStage(forgotten, t, Done)
      else WithHolder(WithStage(forgotten, t, Opening), s.tasks[t].lock, Some(t))
  }

  function Commit(s: State, t: TaskId): State
    requires Enabled(s, Connected(t))
  {
    var u := s.tasks[t].user;
    var c := |s.conns|;
    var s1 := s.(
      conns := s.conns + [Conn(u, s.idleTimeout, s.executeTimeout, s.now, Live)],
      clients := s.clients[u := c]);
    CheckOut(WithHolder(s1, s.tasks[t].lock, None), t, c)
  }

  /** The connections after prune's closing loop. */
  function CloseIdle(clients: map<User, ConnId>, conns: seq<Conn>, now: real): (r: seq<Conn>)
    ensures |r| == |conns|
  {
    seq(|conns|, c requires 0 <= c < |conns| =>
      if c in clients.Values && conns[c].IsIdle(now) && conns[c].status.Live?
      then conns[c].(status := Closing) else conns[c])
  }

  /** The dictionary prune rebuilds. */
  function KeepOpen(clients: map<User, ConnId>, conns: seq<Conn>): map<User, ConnId> {
    map u | u in clients && !(clients[u] < |conns| && conns[clients[u]].status.Closed?) :: clients[u]
  }

  function Apply(s: State, e: Step): State
    requires Enabled(s, e)
  {
    match e
    case Arrive(u) =>
      if u in s.userLocks then s.(tasks := s.tasks + [Task(u, s.userLocks[u], Waiting)])
      else s.(userLocks := s.userLocks[u := |s.locks|], locks := s.locks + [None],
              tasks := s.tasks + [Task(u, |s.locks|, Waiting)])
    case Enter(t) => Lookup(s, t)
    case Connected(t) => Commit(s, t)
    case OpenFailed(t, report) =>
      if report then WithStage(s, t, Reporting)
      else WithHolder(WithStage(s, t, Done), s.tasks[t].lock, None)
    case ReportDone(t) => WithHolder(WithStage(s, t, Done), s.tasks[t].lock, None)
    case Abandon(t) => WithStage(s, t, Done)
    case Execute(t) => WithStage(s, t, Executing(s.tasks[t].stage.conn, s.now))
    case ExecuteEnd(t) => WithStage(s, t, Holding(s.tasks[t].stage.conn, false))
    case Leave(t) => WithStage(s, t, Done)
    case Prune =>
      var closing := CloseIdle(s.clients, s.conns, s.now);
      s.(conns := closing, clients := KeepOpen(s.clients, closing))
    case CloseDone(c) => WithStatus(s, c, Closed)
    case RemoteClose(c) => WithStatus(s, c, Closed)
    case SetExecuteTimeout(v) => s.(executeTimeout := v)
    case Tick(d) => s.(now := s.now + d)
  }

  // ---------------------------------------------------------------- runs

  predicate Runs(s: State, es: seq<Step>)
    decreases |es|
  {
    es == [] || (Enabled(s, es[0]) && Runs(Apply(s, es[0]), es[1..]))
  }

  function Exec(s: State, es: seq<Step>): State
    requires Runs(s, es)
    decreases |es|
  {
    if es == [] then s else Exec(Apply(s, es[0]), es[1..])
  }

  lemma Prepend(s: State, e: Step, es: seq<Step>)
    requires Enabled(s, e) && Runs(Apply(s, e), es)
    ensures Runs(s, [e] + es) && Exec(s, [e] + es) == Exec(Apply(s, e), es)
  {
    assert ([e] + es)[1..] == es;
  }

  lemma {:induction false} RunsConcat(s: State, xs: seq<Step>, ys: seq<Step>)
    requires Runs(s, xs) && Runs(Exec(s, xs), ys)
    ensures Runs(s, xs + ys) && Exec(s, xs + ys) == Exec(Exec(s, xs), ys)
    decreases |xs|
  {
    if xs == [] {
      assert xs + ys == ys;
    } else {
      assert (xs + ys)[1..] == xs[1..] + ys;
      RunsConcat(Apply(s, xs[0]), xs[1..], ys);
    }
  }

  // ---------------------------------------------------------------- safety

  /** One lock per user, never shared between users, and every task of a user has that lock. */
  ghost predicate LocksAgree(s: State) {
    && (forall u <- s.userLocks :: s.userLocks[u] < |s.locks|)
    && (forall u <- s.userLocks, v <- s.userLocks :: s.userLocks[u] == s.userLocks[v] ==> u == v)
    && (forall t: TaskId | t < |s.tasks| ::
          s.tasks[t].user in s.userLocks && s.tasks[t].lock == s.userLocks[s.tasks[t].user])
  }

  /** A lock is held exactly by the one task that stands inside it. */
  ghost predicate LocksHeld(s: State) {
    && (forall t: TaskId | t < |s.tasks| && s.tasks[t].stage.InsideLock() ::
          s.tasks[t].lock < |s.locks| && s.locks[s.tasks[t].lock] == Some(t))
    && (forall l: LockId | l < |s.locks| && s.locks[l].Some? ::
          var t := s.locks[l].value;
          t < |s.tasks| && s.tasks[t].lock == l && s.tasks[t].stage.InsideLock())
  }

  ghost predicate OpenersAbsent(s: State) {
    forall t: TaskId | t < |s.tasks| && s.tasks[t].stage.Opening? :: s.tasks[t].user !in s.clients
  }

  ghost predicate ClientsKnown(s: State) {
    && (forall u <- s.clients :: s.clients[u] < |s.conns| && s.conns[s.clients[u]].user == u)
    && (forall t: TaskId | t < |s.tasks| && (s.tasks[t].stage.Holding? || s.tasks[t].stage.Executing?) ::
          s.tasks[t].stage.conn < |s.conns| && s.conns[s.tasks[t].stage.conn].user == s.tasks[t].user)
  }

  /** Every connection that is not closed is the cached client of its user. */
  ghost predicate NoLeak(s: State) {
    forall c: ConnId | c < |s.conns| && !s.conns[c].status.Closed? ::
      s.conns[c].user in s.clients && s.clients[s.conns[c].user] == c
  }

  ghost predicate Safe(s: State) {
    LocksAgree(s) && LocksHeld(s) && OpenersAbsent(s) && ClientsKnown(s) && NoLeak(s)
  }

  lemma ArriveKeepsLocks(s: State, u: User)
    requires LocksAgree(s) && Enabled(s, Arrive(u))
    ensures LocksAgree(Apply(s, Arrive(u)))
  {
    var r := Apply(s, Arrive(u));
    forall t: TaskId | t < |r.tasks|
      ensures r.tasks[t].user in r.userLocks && r.tasks[t].lock == r.userLocks[r.tasks[t].user]
    {
      if t < |s.tasks| { assert r.tasks[t] == s.tasks[t]; }
    }
  }

  lemma ArriveKeepsHolders(s: State, u: User)
    requires LocksHeld(s) && Enabled(s, Arrive(u))
    ensures LocksHeld(Apply(s, Arrive(u)))
  {
    var r := Apply(s, Arrive(u));
    forall l: LockId | l < |r.locks| && r.locks[l].Some?
      ensures r.locks[l].value < |r.tasks| && r.tasks[r.locks[l].value] == s.tasks[r.locks[l].value]
    {
      assert l < |s.locks| && r.locks[l] == s.locks[l];
    }
  }

  lemma ArriveKeepsClients(s: State, u: User)
    requires OpenersAbsent(s) && ClientsKnown(s) && NoLeak(s) && Enabled(s, Arrive(u))
    ensures var r := Apply(s, Arrive(u)); OpenersAbsent(r) && ClientsKnown(r) && NoLeak(r)
  {
  }

  lemma ArriveKeepsSafe(s: State, u: User)
    requires Safe(s) && Enabled(s, Arrive(u))
    ensures Safe(Apply(s, Arrive(u)))
  {
    ArriveKeepsLocks(s, u);
    ArriveKeepsHolders(s, u);
    ArriveKeepsClients(s, u);
  }

  lemma CheckOutKeepsSafe(s: State, t: TaskId, c: ConnId)
    requires Safe(s) && At(s, t) && c < |s.conns|
    requires !s.tasks[t].stage.InsideLock() && s.conns[c].user == s.tasks[t].user
    ensures Safe(CheckOut(s, t, c))
  {
  }

  /** Dropping the entry of a user whose cached connection is closed (or absent) leaks nothing. */
  lemma ForgetKeepsSafe(s: State, u: User)
    requires Safe(s) && !Hit(s, u)
    ensures Safe(s.(clients := s.clients - {u}))
  {
  }

  lemma OpeningKeepsSafe(s: State, t: TaskId)
    requires Safe(s) && Enabled(s, Enter(t)) && s.tasks[t].user !in s.clients
    ensures Safe(WithHolder(WithStage(s, t, Opening), s.tasks[t].lock, Some(t)))
  {
  }

  lemma EnterKeepsSafe(s: State, t: TaskId)
    requires Safe(s) && Enabled(s, Enter(t))
    ensures Safe(Apply(s, Enter(t)))
  {
    if Hit(s, s.tasks[t].user) {
      CheckOutKeepsSafe(s, t, s.clients[s.tasks[t].user]);
      assert Apply(s, Enter(t)) == CheckOut(s, t, s.clients[s.tasks[t].user]);
    } else {
      var u := s.tasks[t].user;
      ForgetKeepsSafe(s, u);
      var forgotten := s.(clients := s.clients - {u});
      if |forgotten.clients| >= s.maxClients {
        AbandonKeepsSafe(forgotten, t);
        assert Apply(s, Enter(t)) == Apply(forgotten, Abandon(t));
      } else {
        OpeningKeepsSafe(forgotten, t);
        assert Apply(s, Enter(t)) == WithHolder(WithStage(forgotten, t, Opening), s.tasks[t].lock, Some(t));
      }
    }
  }

  /** Leaving the lock for any stage outside it. */
  lemma ReleaseKeepsLocks(s: State, r: State, t: TaskId)
    requires LocksAgree(s) && LocksHeld(s) && At(s, t) && s.tasks[t].stage.InsideLock()
    requires r.userLocks == s.userLocks && r.locks == s.locks[s.tasks[t].lock := None]
    requires |r.tasks| == |s.tasks| && r.tasks == s.tasks[t := s.tasks[t].(stage := r.tasks[t].stage)]
    requires !r.tasks[t].stage.InsideLock()
    ensures LocksAgree(r) && LocksHeld(r)
  {
  }

  /** The opened connection is the only one of its user that is not closed. */
  lemma ConnectedKeepsClients(s: State, t: TaskId)
    requires LocksAgree(s) && LocksHeld(s) && OpenersAbsent(s) && ClientsKnown(s) && Enabled(s, Connected(t))
    ensures var r := Apply(s, Connected(t)); OpenersAbsent(r) && ClientsKnown(r)
  {
    forall k: TaskId | k < |s.tasks| && s.tasks[k].stage.Opening? && s.tasks[k].user == s.tasks[t].user ensures k == t {
      assert s.tasks[k].lock == s.tasks[t].lock;
    }
  }

  lemma ConnectedLeaksNothing(s: State, t: TaskId)
    requires OpenersAbsent(s) && NoLeak(s) && Enabled(s, Connected(t))
    ensures NoLeak(Apply(s, Connected(t)))
  {
    var r := Apply(s, Connected(t));
    forall c: ConnId | c < |r.conns| && !r.conns[c].status.Closed?
      ensures r.conns[c].user in r.clients && r.clients[r.conns[c].user] == c
    {
      if c < |s.conns| { assert r.conns[c] == s.conns[c]; }
    }
  }

  lemma ConnectedKeepsSafe(s: State, t: TaskId)
    requires Safe(s) && Enabled(s, Connected(t))
    ensures Safe(Apply(s, Connected(t)))
  {
    ReleaseKeepsLocks(s, Apply(s, Connected(t)), t);
    ConnectedKeepsClients(s, t);
    ConnectedLeaksNothing(s, t);
  }

  /** Only the stage of a task that holds no connection changes, to one that holds none and opens none. */
  lemma IdleStageKeepsClients(s: State, r: State, t: TaskId)
    requires OpenersAbsent(s) && ClientsKnown(s) && NoLeak(s) && At(s, t)
    requires r.clients == s.clients && r.conns == s.conns
    requires |r.tasks| == |s.tasks| && r.tasks == s.tasks[t := s.tasks[t].(stage := r.tasks[t].stage)]
    requires r.tasks[t].stage.Done? || r.tasks[t].stage.Reporting?
    ensures OpenersAbsent(r) && ClientsKnown(r) && NoLeak(r)
  {
  }

  lemma ReportingKeepsLocks(s: State, t: TaskId)
    requires LocksAgree(s) && LocksHeld(s) && Enabled(s, OpenFailed(t, true))
    ensures var r := Apply(s, OpenFailed(t, true)); LocksAgree(r) && LocksHeld(r)
  {
  }

  lemma OpenFailedKeepsSafe(s: State, t: TaskId, report: bool)
    requires Safe(s) && Enabled(s, OpenFailed(t, report))
    ensures Safe(Apply(s, OpenFailed(t, report)))
  {
    var r := Apply(s, OpenFailed(t, report));
    IdleStageKeepsClients(s, r, t);
    if report {
      ReportingKeepsLocks(s, t);
    } else {
      ReleaseKeepsLocks(s, r, t);
    }
  }

  lemma ReportDoneKeepsSafe(s: State, t: TaskId)
    requires Safe(s) && Enabled(s, ReportDone(t))
    ensures Safe(Apply(s, ReportDone(t)))
  {
    IdleStageKeepsClients(s, Apply(s, ReportDone(t)), t);
    ReleaseKeepsLocks(s, Apply(s, ReportDone(t)), t);
  }

  lemma AbandonKeepsSafe(s: State, t: TaskId)
    requires Safe(s) && Enabled(s, Abandon(t))
    ensures Safe(Apply(s, Abandon(t)))
  {
  }

  lemma ExecuteKeepsSafe(s: State, t: TaskId)
    requires Safe(s) && Enabled(s, Execute(t))
    ensures Safe(Apply(s, Execute(t)))
  {
  }

  lemma ExecuteEndKeepsSafe(s: State, t: TaskId)
    requires Safe(s) && Enabled(s, ExecuteEnd(t))
    ensures Safe(Apply(s, ExecuteEnd(t)))
  {
  }

  lemma LeaveKeepsSafe(s: State, t: TaskId)
    requires Safe(s) && Enabled(s, Leave(t))
    ensures Safe(Apply(s, Leave(t)))
  {
  }

  lemma PruneKeepsSafe(s: State)
    requires Safe(s) && Enabled(s, Prune)
    ensures Safe(Apply(s, Prune))
  {
  }

  lemma CloseDoneKeepsSafe(s: State, c: ConnId)
    requires Safe(s) && Enabled(s, CloseDone(c))
    ensures Safe(Apply(s, CloseDone(c)))
  {
  }

  lemma RemoteCloseKeepsSafe(s: State, c: ConnId)
    requires Safe(s) && Enabled(s, RemoteClose(c))
    ensures Safe(Apply(s, RemoteClose(c)))
  {
  }

  lemma StepKeepsSafe(s: State, e: Step)
    requires Safe(s) && Enabled(s, e)
    ensures Safe(Apply(s, e))
  {
    match e
    case Arrive(u) => ArriveKeepsSafe(s, u);
    case Enter(t) => EnterKeepsSafe(s, t);
    case Connected(t) => ConnectedKeepsSafe(s, t);
    case OpenFailed(t, report) => OpenFailedKeepsSafe(s, t, report);
    case ReportDone(t) => ReportDoneKeepsSafe(s, t);
    case Abandon(t) => AbandonKeepsSafe(s, t);
    case Execute(t) => ExecuteKeepsSafe(s, t);
    case ExecuteEnd(t) => ExecuteEndKeepsSafe(s, t);
    case Leave(t) => LeaveKeepsSafe(s, t);
    case Prune => PruneKeepsSafe(s);
    case CloseDone(c) => CloseDoneKeepsSafe(s, c);
    case RemoteClose(c) => RemoteCloseKeepsSafe(s, c);
    case SetExecuteTimeout(_) =>
    case Tick(_) =>
  }

  lemma {:induction false} RunKeepsSafe(s: State, es: seq<Step>)
    requires Safe(s) && Runs(s, es)
    ensures Safe(Exec(s, es))
    decreases |es|
  {
    if es != [] {
      StepKeepsSafe(s, es[0]);
      RunKeepsSafe(Apply(s, es[0]), es[1..]);
    }
  }

  /** What the comment on `user_locks` promises, for every interleaving. */
  lemma PoolIsSafeInEveryRun(maxClients: int, idle: real, execute: real, es: seq<Step>)
    requires Runs(Init(maxClients, idle, execute), es)
    ensures var s := Exec(Init(maxClients, idle, execute), es);
      && (forall t: TaskId, k: TaskId | t < |s.tasks| && k < |s.tasks| ::
            s.tasks[t].user == s.tasks[k].user <==> s.tasks[t].lock == s.tasks[k].lock)
      && (forall t: TaskId, k: TaskId | t < |s.tasks| && k < |s.tasks| && s.tasks[t].user == s.tasks[k].user
            && s.tasks[t].stage.InsideLock() && s.tasks[k].stage.InsideLock() :: t == k)
      && (forall t: TaskId | t < |s.tasks| && s.tasks[t].stage.Opening? :: s.tasks[t].user !in s.clients)
      && (forall c: ConnId | c < |s.conns| && !s.conns[c].status.Closed? ::
            s.conns[c].user in s.clients && s.clients[s.conns[c].user] == c)
  {
    RunKeepsSafe(Init(maxClients, idle, execute), es);
  }

  /** The insert at the end of a checkout never overwrites an entry. */
  lemma InsertNeverOverwrites(s: State, t: TaskId)
    requires Safe(s) && Enabled(s, Connected(t))
    ensures var r := Apply(s, Connected(t));
      && r.clients.Keys == s.clients.Keys + {s.tasks[t].user}
      && |r.clients| == |s.clients| + 1
      && forall u <- s.clients :: r.clients[u] == s.clients[u]
  {
    var r := Apply(s, Connected(t));
    assert r.clients.Keys == s.clients.Keys + {s.tasks[t].user};
    assert |r.clients.Keys| == |s.clients.Keys| + 1;
  }

  lemma StepKeepsLocks(s: State, e: Step)
    requires Enabled(s, e)
    ensures forall u <- s.userLocks :: u in Apply(s, e).userLocks && Apply(s, e).userLocks[u] == s.userLocks[u]
  {
  }

  /** A user's lock, once made, is that user's lock for the rest of the run. */
  lemma {:induction false} LocksAreNeverReplaced(s: State, es: seq<Step>)
    requires Runs(s, es)
    ensures forall u <- s.userLocks ::
      u in Exec(s, es).userLocks && Exec(s, es).userLocks[u] == s.userLocks[u]
    decreases |es|
  {
    if es != [] {
      var r := Apply(s, es[0]);
      StepKeepsLocks(s, es[0]);
      LocksAreNeverReplaced(r, es[1..]);
      assert Exec(s, es) == Exec(r, es[1..]);
    }
  }
}

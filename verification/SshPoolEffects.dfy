/** What the steps of the pool do, said of the fields of its state alone, and what that means for the
    users of a pool: an open connection is reused, over any run. */
module SshPoolEffects {
  import opened Prelude
  import opened SshPoolProtocol

  // ---------------------------------------------------------------- one step

  /** Only one task's stage differs. */
  predicate OnlyStage(s: State, r: State, t: TaskId) {
    && t < |s.tasks| && |r.tasks| == |s.tasks|
    && r.tasks[t].user == s.tasks[t].user && r.tasks[t].lock == s.tasks[t].lock
    && forall k: TaskId | k < |s.tasks| && k != t :: r.tasks[k] == s.tasks[k]
  }

  predicate SameSettings(s: State, r: State) {
    r.maxClients == s.maxClients && r.idleTimeout == s.idleTimeout && r.executeTimeout == s.executeTimeout
  }

  /** The user has a connection that is not closed. */
  predicate HasOpen(s: State, u: User, c: ConnId) {
    u in s.clients && s.clients[u] == c && c < |s.conns| && s.conns[c].status != Closed
  }

  /** A task whose user has an open connection gets that one, freshly marked as used, and nothing is
      opened, inserted, dropped or locked for it. */
  lemma EnterReuses(s: State, t: TaskId, c: ConnId)
    requires Enabled(s, Enter(t)) && HasOpen(s, s.tasks[t].user, c)
    ensures var r := Apply(s, Enter(t));
      && OnlyStage(s, r, t) && r.tasks[t].stage == Holding(c, true)
      && |r.conns| == |s.conns| && r.conns[c].lastUsed == s.now && r.conns[c].status == s.conns[c].status
      && r.conns[c].user == s.conns[c].user && r.conns[c].idleTimeout == s.conns[c].idleTimeout
      && r.conns[c].executeTimeout == s.conns[c].executeTimeout
      && (forall k: ConnId | k < |s.conns| && k != c :: r.conns[k] == s.conns[k])
      && r.clients == s.clients && r.locks == s.locks && r.userLocks == s.userLocks && r.now == s.now
      && SameSettings(s, r)
  {
  }

  /** The user has no connection, or only a closed one. */
  predicate HasNoneOpen(s: State, u: User)
    requires ClientsInRange(s)
  {
    u in s.clients ==> s.conns[s.clients[u]].status == Closed
  }

  predicate ClientsInRange(s: State) { forall u <- s.clients :: s.clients[u] < |s.conns| }

  /** A closed connection of the user is forgotten, and nothing else about connections changes. */
  lemma EnterForgetsClosed(s: State, t: TaskId)
    requires ClientsInRange(s) && Enabled(s, Enter(t)) && HasNoneOpen(s, s.tasks[t].user)
    ensures var r := Apply(s, Enter(t));
      r == s.(clients := s.clients - {s.tasks[t].user}, tasks := r.tasks, locks := r.locks)
  {
  }

  /** In any case the step concerns one task only. */
  lemma EnterMovesOneTask(s: State, t: TaskId)
    requires Enabled(s, Enter(t))
    ensures OnlyStage(s, Apply(s, Enter(t)), t)
  {
  }

  /** If there is room the task opens a new connection with its user's lock held. */
  lemma EnterOpens(s: State, t: TaskId)
    requires ClientsInRange(s) && Enabled(s, Enter(t)) && HasNoneOpen(s, s.tasks[t].user)
    requires |s.clients - {s.tasks[t].user}| < s.maxClients
    ensures var r := Apply(s, Enter(t)); r.tasks[t].stage == Opening && r.locks == s.locks[s.tasks[t].lock := Some(t)]
  {
  }

  /** If there is none it is refused, and the lock is left free. */
  lemma EnterRefuses(s: State, t: TaskId)
    requires ClientsInRange(s) && Enabled(s, Enter(t)) && HasNoneOpen(s, s.tasks[t].user)
    requires |s.clients - {s.tasks[t].user}| >= s.maxClients
    ensures var r := Apply(s, Enter(t));
      r.tasks[t].stage == Done && r.locks == s.locks && r.locks[s.tasks[t].lock] == None
  {
  }

  /** A finished open: a new live connection under the settings of the pool, cached for its user and
      held by the task, whose lock is free again. */
  lemma ConnectedChecksOut(s: State, t: TaskId)
    requires Enabled(s, Connected(t))
    ensures var r := Apply(s, Connected(t)); var u, c := s.tasks[t].user, |s.conns|;
      && OnlyStage(s, r, t) && r.tasks[t].stage == Holding(c, true)
      && |r.conns| == c + 1 && r.conns[..c] == s.conns
      && r.conns[c] == Conn(u, s.idleTimeout, s.executeTimeout, s.now, Live)
      && r.clients == s.clients[u := c] && r.locks == s.locks[s.tasks[t].lock := None]
      && r.userLocks == s.userLocks && r.now == s.now && SameSettings(s, r)
  {
  }

  /** Only one task's stage differs, and it is now this. */
  predicate OnlyStageIs(s: State, r: State, t: TaskId, stage: Stage) {
    OnlyStage(s, r, t) && r.tasks[t].stage == stage && r == s.(tasks := r.tasks)
  }

  predicate Released(s: State, r: State, t: TaskId)
    requires At(s, t) && s.tasks[t].lock < |s.locks|
  {
    OnlyStage(s, r, t) && r.tasks[t].stage == Done
    && r == s.(tasks := r.tasks, locks := s.locks[s.tasks[t].lock := None])
  }

  /** A failed open gives the lock back, at once or after the report, and leaves the pool as it was. */
  lemma FailureReleasesTheLock(s: State, t: TaskId)
    requires At(s, t) && s.tasks[t].lock < |s.locks|
    ensures Enabled(s, OpenFailed(t, true)) ==> OnlyStageIs(s, Apply(s, OpenFailed(t, true)), t, Reporting)
    ensures Enabled(s, OpenFailed(t, false)) ==> Released(s, Apply(s, OpenFailed(t, false)), t)
    ensures Enabled(s, ReportDone(t)) ==> Released(s, Apply(s, ReportDone(t)), t)
  {
  }

  /** An arrival waits for its user's lock, which is made if there is none. */
  lemma ArrivalsWait(s: State, u: User)
    ensures var r := Apply(s, Arrive(u));
      && |r.tasks| == |s.tasks| + 1 && r.tasks[..|s.tasks|] == s.tasks
      && u in r.userLocks && r.tasks[|s.tasks|] == Task(u, r.userLocks[u], Waiting)
      && (u in s.userLocks ==> r == s.(tasks := r.tasks))
      && (u !in s.userLocks ==>
            r == s.(tasks := r.tasks, userLocks := s.userLocks[u := |s.locks|], locks := s.locks + [None]))
  {
  }

  /** Prune starts to close exactly the cached live connections unused for longer than their timeout,
      and forgets exactly the users whose connection is closed. */
  lemma PruneClosesIdle(s: State)
    requires ClientsKnown(s)
    ensures var r := Apply(s, Prune);
      && |r.conns| == |s.conns|
      && (forall u <- s.clients :: var c := s.conns[s.clients[u]];
            r.conns[s.clients[u]] == if c.status == Live && s.now - c.lastUsed > c.idleTimeout
                                     then c.(status := Closing) else c)
      && (forall c: ConnId | c < |s.conns| && c !in s.clients.Values :: r.conns[c] == s.conns[c])
      && (forall u <- r.clients :: u in s.clients && r.clients[u] == s.clients[u])
      && (forall u <- s.clients :: u in r.clients <==> s.conns[s.clients[u]].status != Closed)
      && r == s.(conns := r.conns, clients := r.clients)
  {
    var r := Apply(s, Prune);
    forall u <- s.clients ensures u in r.clients <==> s.conns[s.clients[u]].status != Closed {
      assert s.clients[u] in s.clients.Values;
    }
  }

  /** Using a connection changes the stage of the task and nothing else. */
  lemma UseChangesTheStage(s: State, t: TaskId)
    requires At(s, t)
    ensures Enabled(s, Execute(t)) ==>
      OnlyStageIs(s, Apply(s, Execute(t)), t, Executing(s.tasks[t].stage.conn, s.now))
    ensures Enabled(s, ExecuteEnd(t)) ==>
      OnlyStageIs(s, Apply(s, ExecuteEnd(t)), t, Holding(s.tasks[t].stage.conn, false))
    ensures Enabled(s, Leave(t)) ==> OnlyStageIs(s, Apply(s, Leave(t)), t, Done)
    ensures Enabled(s, Abandon(t)) ==> OnlyStageIs(s, Apply(s, Abandon(t)), t, Done)
  {
  }

  /** A connection that ends is closed, and the pool learns of it only later; a health check changes the
      setting for new connections only; and time passes for nobody in particular. */
  lemma OutsideStepsChangeOneThing(s: State, c: ConnId, v: real)
    requires c < |s.conns|
    ensures var closed := s.conns[c := s.conns[c].(status := Closed)];
      && (Enabled(s, CloseDone(c)) ==> Apply(s, CloseDone(c)) == s.(conns := closed))
      && (Enabled(s, RemoteClose(c)) ==> Apply(s, RemoteClose(c)) == s.(conns := closed))
    ensures Apply(s, SetExecuteTimeout(v)) == s.(executeTimeout := v) && Apply(s, Tick(v)) == s.(now := s.now + v)
  {
  }

  // ---------------------------------------------------------------- reuse over runs

  /** A connection keeps its user, and once closed it stays so. */
  predicate ConnStays(s: State, r: State, c: ConnId)
    requires c < |s.conns|
  {
    c < |r.conns| && r.conns[c].user == s.conns[c].user && (s.conns[c].status == Closed ==> r.conns[c].status == Closed)
  }

  lemma EnterKeepsConn(s: State, t: TaskId, c: ConnId)
    requires Enabled(s, Enter(t)) && c < |s.conns|
    ensures ConnStays(s, Apply(s, Enter(t)), c)
  {
  }

  lemma PruneKeepsConn(s: State, c: ConnId)
    requires c < |s.conns|
    ensures ConnStays(s, Apply(s, Prune), c)
  {
  }

  lemma ConnectedKeepsConn(s: State, t: TaskId, c: ConnId)
    requires Enabled(s, Connected(t)) && c < |s.conns|
    ensures ConnStays(s, Apply(s, Connected(t)), c)
  {
  }

  lemma StepKeepsConn(s: State, e: Step, c: ConnId)
    requires Enabled(s, e) && c < |s.conns|
    ensures ConnStays(s, Apply(s, e), c)
  {
    match e
    case Enter(t) => EnterKeepsConn(s, t, c);
    case Connected(t) => ConnectedKeepsConn(s, t, c);
    case Prune => PruneKeepsConn(s, c);
    case _ =>
  }

  lemma {:induction false} RunKeepsConn(s: State, es: seq<Step>, c: ConnId)
    requires Runs(s, es) && c < |s.conns|
    ensures ConnStays(s, Exec(s, es), c)
    decreases |es|
  {
    if es != [] {
      StepKeepsConn(s, es[0], c);
      RunKeepsConn(Apply(s, es[0]), es[1..], c);
    }
  }

  /** Whatever connection the task has got, it is this one, and it opens no other. */
  predicate UsesOnly(stage: Stage, c: ConnId) {
    match stage
    case Holding(k, _) => k == c
    case Executing(k, _) => k == c
    case Opening => false
    case Reporting => false
    case _ => true
  }

  /** All tasks of the user but the `before` ones use the one connection, and from `first` on no
      connection is another of that user. */
  ghost predicate Shared(s: State, u: User, c: ConnId, before: set<TaskId>, first: ConnId) {
    && (forall t: TaskId | t < |s.tasks| && t !in before && s.tasks[t].user == u :: UsesOnly(s.tasks[t].stage, c))
    && (forall k: ConnId | first <= k < |s.conns| :: s.conns[k].user != u)
  }

  lemma EnterShares(s: State, t: TaskId, u: User, c: ConnId, before: set<TaskId>, first: ConnId)
    requires Enabled(s, Enter(t)) && HasOpen(s, u, c) && Shared(s, u, c, before, first)
    ensures Shared(Apply(s, Enter(t)), u, c, before, first)
  {
    if s.tasks[t].user == u {
      EnterReuses(s, t, c);
    }
  }

  lemma ConnectedShares(s: State, t: TaskId, u: User, c: ConnId, before: set<TaskId>, first: ConnId)
    requires OpenersAbsent(s) && Enabled(s, Connected(t)) && HasOpen(s, u, c) && Shared(s, u, c, before, first)
    ensures Shared(Apply(s, Connected(t)), u, c, before, first)
  {
    ConnectedChecksOut(s, t);
    assert s.tasks[t].user != u;
  }

  lemma PruneShares(s: State, u: User, c: ConnId, before: set<TaskId>, first: ConnId)
    requires Shared(s, u, c, before, first)
    ensures Shared(Apply(s, Prune), u, c, before, first)
  {
  }

  lemma StepShares(s: State, e: Step, u: User, c: ConnId, before: set<TaskId>, first: ConnId)
    requires OpenersAbsent(s) && Enabled(s, e) && HasOpen(s, u, c) && Shared(s, u, c, before, first)
    requires forall t <- before :: t < |s.tasks|
    ensures Shared(Apply(s, e), u, c, before, first) && |s.tasks| <= |Apply(s, e).tasks|
  {
    match e
    case Enter(t) => EnterShares(s, t, u, c, before, first);
    case Connected(t) => ConnectedShares(s, t, u, c, before, first);
    case Prune => PruneShares(s, u, c, before, first);
    case Arrive(v) => ArrivalsWait(s, v);
    case _ => OtherShares(s, e, u, c, before, first);
  }

  lemma OtherShares(s: State, e: Step, u: User, c: ConnId, before: set<TaskId>, first: ConnId)
    requires !e.Enter? && !e.Connected? && !e.Prune? && !e.Arrive?
    requires OpenersAbsent(s) && Enabled(s, e) && HasOpen(s, u, c) && Shared(s, u, c, before, first)
    ensures Shared(Apply(s, e), u, c, before, first) && |s.tasks| == |Apply(s, e).tasks|
  {
  }

  lemma StillCached(s: State, u: User, c: ConnId)
    requires Safe(s) && c < |s.conns| && s.conns[c].user == u && s.conns[c].status != Closed
    ensures HasOpen(s, u, c)
  {
  }

  lemma {:induction false} RunShares(s: State, es: seq<Step>, u: User, c: ConnId, before: set<TaskId>, first: ConnId)
    requires Safe(s) && Runs(s, es) && HasOpen(s, u, c) && Shared(s, u, c, before, first)
    requires forall t <- before :: t < |s.tasks|
    requires c < |Exec(s, es).conns| && Exec(s, es).conns[c].status != Closed
    ensures HasOpen(Exec(s, es), u, c) && Shared(Exec(s, es), u, c, before, first)
    decreases |es|
  {
    if es != [] {
      var r := Apply(s, es[0]);
      assert s.conns[c].user == u;
      StepKeepsSafe(s, es[0]);
      StepShares(s, es[0], u, c, before, first);
      StepKeepsConn(s, es[0], c);
      RunKeepsConn(r, es[1..], c);
      StillCached(r, u, c);
      RunShares(r, es[1..], u, c, before, first);
    }
  }

  /** The tasks that already have passed the lookup. */
  function PastLookup(s: State): set<TaskId> { set t: TaskId | t < |s.tasks| && s.tasks[t].stage != Waiting }

  /** While a user's connection stays open it is the one that every waiting and every later task of that
      user gets, and no other is made for the user: over any run of all users, prune and health checks. */
  lemma OpenConnectionsAreReused(s: State, es: seq<Step>, u: User, c: ConnId)
    requires Safe(s) && Runs(s, es) && HasOpen(s, u, c)
    requires c < |Exec(s, es).conns| && Exec(s, es).conns[c].status != Closed
    ensures var r := Exec(s, es);
      && HasOpen(r, u, c)
      && (forall t: TaskId | t < |r.tasks| && r.tasks[t].user == u && (t < |s.tasks| ==> s.tasks[t].stage == Waiting) ::
            UsesOnly(r.tasks[t].stage, c))
      && (forall k: ConnId | |s.conns| <= k < |r.conns| :: r.conns[k].user != u)
  {
    RunShares(s, es, u, c, PastLookup(s), |s.conns|);
  }
}

/** Two designs the pool avoids, and what each would cost. */
module SshPoolAlternatives {
  import opened Prelude
  import opened SshPoolProtocol

  /** If prune could be suspended between reading `clients` and rebinding it, a connection made
      in between would be dropped from the pool while still open. */
  lemma SplitPruneLosesAnInsert(s: State, t: TaskId)
    requires Safe(s) && Enabled(s, Connected(t))
    ensures var closing := CloseIdle(s.clients, s.conns, s.now);
      var snapshot := KeepOpen(s.clients, closing);
      var between := s.(conns := closing);
      Enabled(between, Connected(t)) && !NoLeak(Apply(between, Connected(t)).(clients := snapshot))
  {
    var closing := CloseIdle(s.clients, s.conns, s.now);
    var r := Apply(s.(conns := closing), Connected(t)).(clients := KeepOpen(s.clients, closing));
    assert r.conns[|s.conns|].user == s.tasks[t].user && r.conns[|s.conns|].status.Live?;
    assert s.tasks[t].user !in r.clients;
  }

  /** Forgetting the lock of a user while nobody holds it. */
  function DropLock(s: State, u: User): State {
    s.(userLocks := s.userLocks - {u})
  }

  /** If an unheld lock could be pruned while a task has fetched it but not yet acquired it, the
      next arrival of the same user gets a different lock; both tasks then open a connection and
      the first one leaks. */
  lemma PrunedLockLeaksAConnection(s: State, t: TaskId)
    requires Enabled(s, Enter(t))
    requires s.tasks[t].user !in s.clients && |s.clients| < s.maxClients
    ensures var es := [Arrive(s.tasks[t].user), Enter(t), Enter(|s.tasks|), Connected(t), Connected(|s.tasks|)];
      Runs(DropLock(s, s.tasks[t].user), es) && !NoLeak(Exec(DropLock(s, s.tasks[t].user), es))
  {
    var u, k := s.tasks[t].user, |s.tasks|;
    var s0 := DropLock(s, u);
    var opening, connecting := [Arrive(u), Enter(t), Enter(k)], [Connected(t), Connected(k)];
    BothOpen(s, t);
    BothConnect(Exec(s0, opening), t, k, u);
    RunsConcat(s0, opening, connecting);
    assert opening + connecting == [Arrive(u), Enter(t), Enter(k), Connected(t), Connected(k)];
  }

  ghost predicate IsOpening(s: State, t: TaskId, u: User) {
    Enabled(s, Connected(t)) && s.tasks[t].user == u
  }

  lemma BothOpen(s: State, t: TaskId)
    requires Enabled(s, Enter(t))
    requires s.tasks[t].user !in s.clients && |s.clients| < s.maxClients
    ensures var u := s.tasks[t].user; var s0 := DropLock(s, u); var es := [Arrive(u), Enter(t), Enter(|s.tasks|)];
      Runs(s0, es) && IsOpening(Exec(s0, es), t, u) && IsOpening(Exec(s0, es), |s.tasks|, u)
  {
    var u, k := s.tasks[t].user, |s.tasks|;
    var s0 := DropLock(s, u);
    ArriveGetsNewLock(s0, u);
    var s1 := Apply(s0, Arrive(u));
    EnterOpens(s1, t);
    var s2 := Apply(s1, Enter(t));
    EnterOpens(s2, k);
    Prepend(s2, Enter(k), []);
    Prepend(s1, Enter(t), [Enter(k)]);
    Prepend(s0, Arrive(u), [Enter(t), Enter(k)]);
  }

  lemma ArriveGetsNewLock(s: State, u: User)
    requires u !in s.userLocks
    ensures Apply(s, Arrive(u)) ==
      s.(userLocks := s.userLocks[u := |s.locks|], locks := s.locks + [None],
         tasks := s.tasks + [Task(u, |s.locks|, Waiting)])
  {
  }

  lemma BothConnect(s: State, t: TaskId, k: TaskId, u: User)
    requires t != k && IsOpening(s, t, u) && IsOpening(s, k, u)
    ensures Runs(s, [Connected(t), Connected(k)]) && !NoLeak(Exec(s, [Connected(t), Connected(k)]))
  {
    var r := Apply(s, Connected(t));
    ConnectedInserts(s, t);
    ConnectedInserts(r, k);
    Prepend(r, Connected(k), []);
    Prepend(s, Connected(t), [Connected(k)]);
    Orphaned(Apply(r, Connected(k)), |s.conns|);
  }

  lemma EnterOpens(s: State, t: TaskId)
    requires Enabled(s, Enter(t)) && s.tasks[t].user !in s.clients && |s.clients| < s.maxClients
    ensures Apply(s, Enter(t)) ==
      s.(tasks := s.tasks[t := s.tasks[t].(stage := Opening)], locks := s.locks[s.tasks[t].lock := Some(t)])
  {
    assert s.clients - {s.tasks[t].user} == s.clients;
  }

  lemma ConnectedInserts(s: State, t: TaskId)
    requires Enabled(s, Connected(t))
    ensures var r := Apply(s, Connected(t)); var c := |s.conns|; var u := s.tasks[t].user;
      && r.clients == s.clients[u := c] && |r.tasks| == |s.tasks| && |r.locks| == |s.locks|
      && |r.conns| == c + 1 && r.conns[..c] == s.conns && r.conns[c].user == u && r.conns[c].status.Live?
      && forall k: TaskId | k < |s.tasks| && k != t :: r.tasks[k] == s.tasks[k]
  {
  }

  lemma Orphaned(s: State, c: ConnId)
    requires c < |s.conns| && s.conns[c].status.Live?
    requires s.conns[c].user in s.clients && s.clients[s.conns[c].user] != c
    ensures !NoLeak(s)
  {
  }
}

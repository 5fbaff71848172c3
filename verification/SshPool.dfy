/** The pool object itself. Each method is the code `get_client` or the pruner runs between two
    suspension points, written on the fields it updates, and is proved to be the matching
    protocol step. `locks`, `conns`, `tasks` and `now` belong to the event loop and to the SSH
    library; they are kept here so that one object carries the whole state. */
module SshPool {
  import opened Prelude
  import opened SshPoolProtocol

  /** Prune's closing loop when the users in `todo` are still to be visited. */
  ghost function CloseIdleExcept(clients: map<User, ConnId>, conns: seq<Conn>, now: real, todo: set<User>)
    : (r: seq<Conn>)
    ensures |r| == |conns|
    ensures todo == {} ==> r == CloseIdle(clients, conns, now)
    ensures todo == clients.Keys && (forall u <- clients :: clients[u] < |conns| && conns[clients[u]].user == u) ==>
      r == conns
  {
    seq(|conns|, c requires 0 <= c < |conns| =>
      if c in clients.Values && conns[c].user !in todo && conns[c].IsIdle(now) && conns[c].status.Live?
      then conns[c].(status := Closing) else conns[c])
  }

  lemma CloseIdleOneMore(clients: map<User, ConnId>, conns: seq<Conn>, now: real, todo: set<User>, u: User)
    requires forall v <- clients :: clients[v] < |conns| && conns[clients[v]].user == v
    requires u in todo && u in clients
    ensures var before := CloseIdleExcept(clients, conns, now, todo);
      var c := clients[u];
      CloseIdleExcept(clients, conns, now, todo - {u})
        == if before[c].IsIdle(now) && before[c].status.Live? then before[c := before[c].(status := Closing)]
            else before
  {
    assert clients[u] in clients.Values;
  }

  class SSHClientPool {
    const maxClients: int
    const idleTimeout: real
    var executeTimeout: real
    var clients: map<User, ConnId>
    var userLocks: map<User, LockId>

    var locks: seq<Option<TaskId>>
    var conns: seq<Conn>
    var tasks: seq<Task>
    var now: real

    ghost function View(): State
      reads this
    {
      State(maxClients, idleTimeout, executeTimeout, clients, userLocks, locks, conns, tasks, now)
    }

    constructor (maxClients: int, idleTimeout: real, executeTimeout: real)
      ensures View() == Init(maxClients, idleTimeout, executeTimeout)
    {
      this.maxClients, this.idleTimeout, this.executeTimeout := maxClients, idleTimeout, executeTimeout;
      clients, userLocks := map[], map[];
      locks, conns, tasks, now := [], [], [], 0.0;
    }

    /** The constructor's `ValueError` guard. */
    static method Create(maxClients: int, idleTimeout: real, executeTimeout: real)
      returns (r: Result<SSHClientPool, string>)
      ensures r.Ok? <==> executeTimeout < idleTimeout
      ensures r.Ok? ==> fresh(r.value) && r.value.View() == Init(maxClients, idleTimeout, executeTimeout)
      ensures r.Ok? ==> Safe(r.value.View())
    {
      if idleTimeout <= executeTimeout {
        return Err("idle_timeout must be greater than execute_timeout");
      }
      var pool := new SSHClientPool(maxClients, idleTimeout, executeTimeout);
      r := Ok(pool);
    }

    /** `_get_user_lock`: `setdefault` makes a lock only for a user who has none. */
    method GetUserLock(username: User) returns (lock: LockId)
      modifies this`userLocks, this`locks
      ensures username in old(userLocks) ==> userLocks == old(userLocks) && locks == old(locks)
      ensures username !in old(userLocks) ==>
        userLocks == old(userLocks)[username := |old(locks)|] && locks == old(locks) + [None]
      ensures username in userLocks && lock == userLocks[username]
    {
      if username !in userLocks {
        userLocks := userLocks[username := |locks|];
        locks := locks + [None];
      }
      lock := userLocks[username];
    }

    /** The start of `get_client`, up to the wait for the lock. */
    method GetClient(username: User) returns (t: TaskId)
      requires Safe(View())
      modifies this`userLocks, this`locks, this`tasks
      ensures View() == Apply(old(View()), Arrive(username)) && Safe(View())
      ensures t == |old(tasks)| && tasks[t].stage.Waiting?
    {
      StepKeepsSafe(View(), Arrive(username));
      var lock := GetUserLock(username);
      t := |tasks|;
      tasks := tasks + [Task(username, lock, Waiting)];
    }

    method SetStage(t: TaskId, stage: Stage)
      requires t < |tasks|
      modifies this`tasks
      ensures View() == WithStage(old(View()), t, stage)
    {
      tasks := tasks[t := tasks[t].(stage := stage)];
    }

    method SetHolder(l: LockId, holder: Option<TaskId>)
      requires l < |locks|
      modifies this`locks
      ensures View() == WithHolder(old(View()), l, holder)
    {
      locks := locks[l := holder];
    }

    /** `reset_idle`. */
    method ResetIdle(c: ConnId)
      requires c < |conns|
      modifies this`conns
      ensures conns == old(conns)[c := old(conns)[c].(lastUsed := now)]
    {
      conns := conns[c := conns[c].(lastUsed := now)];
    }

    /** Hand the connection to the caller, which resets its idle timer. */
    method CheckOutTo(t: TaskId, c: ConnId)
      requires t < |tasks| && c < |conns|
      modifies this`conns, this`tasks
      ensures View() == CheckOut(old(View()), t, c)
    {
      ResetIdle(c);
      SetStage(t, Holding(c, true));
    }

    /** `close`: starts a shutdown of a live connection, and does nothing to any other. */
    method Close(c: ConnId)
      requires c < |conns|
      modifies this`conns
      ensures conns == if old(conns)[c].status.Live? then old(conns)[c := old(conns)[c].(status := Closing)]
                       else old(conns)
    {
      if conns[c].status.Live? {
        conns := conns[c := conns[c].(status := Closing)];
      }
    }

    /** The user's open client, if any; a closed one is forgotten. */
    method LookUp(username: User) returns (client: Option<ConnId>)
      requires username in clients ==> clients[username] < |conns|
      modifies this`clients
      ensures client.Some? <==> username in old(clients) && !conns[old(clients)[username]].status.Closed?
      ensures client.Some? ==> clients == old(clients) && client.value == clients[username]
      ensures client.None? ==> clients == old(clients) - {username}
    {
      if username !in clients {
        assert clients == clients - {username};
        return None;
      }
      client := Some(clients[username]);
      if conns[client.value].status.Closed? {
        clients := clients - {username};
        client := None;
      }
    }

    /** The lock is acquired; look the user up, drop a closed client, and either check the
        client out, refuse for capacity, or start opening. */
    method EnterLock(t: TaskId)
      requires Safe(View()) && Enabled(View(), Step.Enter(t))
      modifies this`clients, this`locks, this`conns, this`tasks
      ensures View() == Apply(old(View()), Step.Enter(t)) && Safe(View())
    {
      StepKeepsSafe(View(), Step.Enter(t));
      LookUpAndCheckOut(t);
    }

    method LookUpAndCheckOut(t: TaskId)
      requires Enabled(View(), Step.Enter(t))
      requires tasks[t].user in clients ==> clients[tasks[t].user] < |conns|
      modifies this`clients, this`locks, this`conns, this`tasks
      ensures View() == Lookup(old(View()), t)
    {
      var client := LookUp(tasks[t].user);
      if client.None? {
        if |clients| >= maxClients {
          SetStage(t, Done);
        } else {
          SetStage(t, Opening);
          SetHolder(tasks[t].lock, Some(t));
        }
      } else {
        CheckOutTo(t, client.value);
      }
    }

    /** `asyncssh.connect` has returned: insert, release the lock, check out. */
    method CompleteOpen(t: TaskId)
      requires Safe(View()) && Enabled(View(), Step.Connected(t))
      modifies this`clients, this`locks, this`conns, this`tasks
      ensures View() == Apply(old(View()), Step.Connected(t)) && Safe(View())
    {
      StepKeepsSafe(View(), Step.Connected(t));
      var username, c := tasks[t].user, |conns|;
      conns := conns + [Conn(username, idleTimeout, executeTimeout, now, Live)];
      clients := clients[username := c];
      SetHolder(tasks[t].lock, None);
      CheckOutTo(t, c);
    }

    method CloseIdleClients()
      requires ClientsKnown(View())
      modifies this`conns
      ensures conns == CloseIdle(clients, old(conns), now)
    {
      var todo := clients.Keys;
      while todo != {}
        invariant todo <= clients.Keys
        invariant conns == CloseIdleExcept(clients, old(conns), now, todo)
        decreases todo
      {
        var username :| username in todo;
        var client := clients[username];
        CloseIdleOneMore(clients, old(conns), now, todo, username);
        if conns[client].IsIdle(now) {
          Close(client);
        }
        todo := todo - {username};
      }
    }

    /** `prune_connection_pool`: close every idle client, then rebind the dictionary to the
        clients whose connection is not closed. */
    method PruneConnectionPool()
      requires Safe(View())
      modifies this`clients, this`conns
      ensures View() == Apply(old(View()), Step.Prune) && Safe(View())
    {
      assert Safe(Apply(View(), Step.Prune)) by { PruneKeepsSafe(View()); }
      CloseIdleClients();
      KeepOpenClients();
    }

    method KeepOpenClients()
      requires ClientsKnown(View())
      modifies this`clients
      ensures clients == KeepOpen(old(clients), conns)
    {
      clients := map u | u in clients && !conns[clients[u]].status.Closed? :: clients[u];
    }
  }
}

/** How far `max_clients`, which is only checked before an open starts, bounds the pool. */
module SshPoolCapacity {
  import opened Prelude
  import opened SshPoolProtocol

  function Openers(s: State): set<TaskId> {
    set t: TaskId | t < |s.tasks| && s.tasks[t].stage.Opening?
  }

  function OpeningUsers(s: State): set<User> {
    set t: TaskId | t < |s.tasks| && s.tasks[t].stage.Opening? :: s.tasks[t].user
  }

  /** The largest number of simultaneous opens anywhere in the run. */
  function Peak(s: State, es: seq<Step>): int
    requires Runs(s, es)
    decreases |es|
  {
    if es == [] then |Openers(s)| else Max(|Openers(s)|, Peak(Apply(s, es[0]), es[1..]))
  }

  predicate Within(s: State, peak: int) {
    |Openers(s)| <= peak && |s.clients| + |Openers(s)| <= s.maxClients - 1 + peak
  }

  lemma KeepOpenIsSmaller(clients: map<User, ConnId>, conns: seq<Conn>)
    ensures |KeepOpen(clients, conns)| <= |clients|
  {
    var kept := KeepOpen(clients, conns);
    CardinalityMonotone(kept.Keys, clients.Keys);
  }

  lemma {:induction false} CardinalityMonotone<T>(a: set<T>, b: set<T>)
    requires a <= b
    ensures |a| <= |b|
    decreases a
  {
    if a != {} {
      var x :| x in a;
      CardinalityMonotone(a - {x}, b - {x});
    }
  }

  lemma OpenersAfter(s: State, r: State, t: TaskId)
    requires At(s, t) && |r.tasks| == |s.tasks|
    requires forall k: TaskId | k < |s.tasks| && k != t :: r.tasks[k] == s.tasks[k]
    ensures Openers(r) == if r.tasks[t].stage.Opening? then Openers(s) + {t} else Openers(s) - {t}
  {
  }

  lemma EnterCounts(s: State, t: TaskId)
    requires Enabled(s, Enter(t))
    ensures Shrinks(s, Apply(s, Enter(t))) || Opens(s, Apply(s, Enter(t)))
  {
    var r := Apply(s, Enter(t));
    OpenersAfter(s, r, t);
    EnterKeepsSize(s, t);
    assert t !in Openers(s);
  }

  lemma EnterKeepsSize(s: State, t: TaskId)
    requires Enabled(s, Enter(t))
    ensures var r := Apply(s, Enter(t));
      |r.clients| <= |s.clients| && (r.tasks[t].stage.Opening? ==> |r.clients| <= s.maxClients - 1)
  {
    CardinalityMonotone((s.clients - {s.tasks[t].user}).Keys, s.clients.Keys);
  }

  lemma ConnectedCounts(s: State, t: TaskId)
    requires Safe(s) && Enabled(s, Connected(t))
    ensures Shrinks(s, Apply(s, Connected(t)))
  {
    InsertNeverOverwrites(s, t);
    OpenersAfter(s, Apply(s, Connected(t)), t);
    assert t in Openers(s);
  }

  predicate Shrinks(s: State, r: State) {
    |Openers(r)| <= |Openers(s)| && |r.clients| + |Openers(r)| <= |s.clients| + |Openers(s)|
  }

  predicate Opens(s: State, r: State) {
    |Openers(r)| == |Openers(s)| + 1 && |r.clients| <= s.maxClients - 1
  }

  /** How one step moves the two counts: only `Enter` adds an opener, and only below capacity;
      `Connected` turns an opener into an entry; nothing else makes either count grow. */
  lemma StepCounts(s: State, e: Step)
    requires Safe(s) && Enabled(s, e)
    ensures Shrinks(s, Apply(s, e)) || (e.Enter? && Opens(s, Apply(s, e)))
  {
    var r := Apply(s, e);
    match e
    case Enter(t) => EnterCounts(s, t);
    case Connected(t) => ConnectedCounts(s, t);
    case Arrive(_) => assert Openers(r) == Openers(s);
    case OpenFailed(t, _) => OpenersAfter(s, r, t);
    case ReportDone(t) => OpenersAfter(s, r, t);
    case Abandon(t) => OpenersAfter(s, r, t);
    case Execute(t) => OpenersAfter(s, r, t);
    case ExecuteEnd(t) => OpenersAfter(s, r, t);
    case Leave(t) => OpenersAfter(s, r, t);
    case Prune => KeepOpenIsSmaller(s.clients, r.conns);
    case _ =>
  }

  lemma {:induction false} CapacityFrom(s: State, es: seq<Step>, peak: int)
    requires Safe(s) && Runs(s, es) && Within(s, peak)
    ensures Within(Exec(s, es), Max(peak, Peak(s, es)))
    decreases |es|
  {
    if es != [] {
      var r := Apply(s, es[0]);
      assert Within(r, Max(peak, |Openers(r)|)) by { WithinAfter(s, es[0], peak); }
      StepKeepsSafe(s, es[0]);
      CapacityFrom(r, es[1..], Max(peak, |Openers(r)|));
      assert Peak(r, es[1..]) >= |Openers(r)| by { PeakAtLeastFirst(r, es[1..]); }
    }
  }

  lemma WithinAfter(s: State, e: Step, peak: int)
    requires Safe(s) && Enabled(s, e) && Within(s, peak)
    ensures var r := Apply(s, e); Within(r, Max(peak, |Openers(r)|))
  {
    StepCounts(s, e);
  }

  lemma PeakAtLeastFirst(s: State, es: seq<Step>)
    requires Runs(s, es)
    ensures Peak(s, es) >= |Openers(s)|
  {
  }

  /** Simultaneous opens are opens for distinct users. */
  lemma OpenersHaveDistinctUsers(s: State)
    requires Safe(s)
    ensures |Openers(s)| == |OpeningUsers(s)|
  {
    InjectiveImage(s, Openers(s));
    assert OpeningUsers(s) == set t <- Openers(s) :: s.tasks[t].user;
  }

  lemma {:induction false} InjectiveImage(s: State, ts: set<TaskId>)
    requires Safe(s) && ts <= Openers(s)
    ensures |set t <- ts :: s.tasks[t].user| == |ts|
    decreases ts
  {
    if ts != {} {
      var x :| x in ts;
      var rest := ts - {x};
      InjectiveImage(s, rest);
      UserIsNew(s, ts, x);
      assert (set t <- ts :: s.tasks[t].user) == (set t <- rest :: s.tasks[t].user) + {s.tasks[x].user};
    }
  }

  /** Two openers of one user would hold one lock. */
  lemma UserIsNew(s: State, ts: set<TaskId>, x: TaskId)
    requires Safe(s) && ts <= Openers(s) && x in ts
    ensures s.tasks[x].user !in set t <- ts - {x} :: s.tasks[t].user
  {
    assert forall t <- ts - {x} :: s.tasks[t].lock == s.tasks[x].lock ==> t == x;
  }

  lemma InitIsSafe(maxClients: int, idle: real, execute: real)
    ensures Safe(Init(maxClients, idle, execute))
    ensures Openers(Init(maxClients, idle, execute)) == {}
  {
  }

  /** The soft limit: entries plus opens in flight never exceed `max_clients - 1` plus the peak
      number of simultaneous opens, so one opener at a time makes the limit hard. */
  lemma CapacityBound(s0: State, es: seq<Step>)
    requires s0.maxClients >= 1 && s0 == Init(s0.maxClients, s0.idleTimeout, s0.executeTimeout)
    requires Runs(s0, es)
    ensures var s := Exec(s0, es);
      && |s.clients| + |Openers(s)| <= s0.maxClients - 1 + Peak(s0, es)
      && (Peak(s0, es) <= 1 ==> |s.clients| <= s0.maxClients)
      && |Openers(s)| == |OpeningUsers(s)|
  {
    InitIsSafe(s0.maxClients, s0.idleTimeout, s0.executeTimeout);
    CapacityFrom(s0, es, 0);
    PeakAtLeastFirst(s0, es);
    SameCapacity(s0, es);
    RunKeepsSafe(s0, es);
    OpenersHaveDistinctUsers(Exec(s0, es));
  }

  lemma {:induction false} SameCapacity(s: State, es: seq<Step>)
    requires Runs(s, es)
    ensures Exec(s, es).maxClients == s.maxClients && Exec(s, es).idleTimeout == s.idleTimeout
    decreases |es|
  {
    if es != [] {
      SameCapacity(Apply(s, es[0]), es[1..]);
    }
  }

  // ---------------------------------------------------------------- the bound is attained

  function Name(n: nat): User { seq(n, _ => 'u') }

  /** No name as long as `n` has been seen yet. */
  predicate Unseen(s: State, n: nat) {
    && (forall u <- s.userLocks :: |u| < n)
    && (forall u <- s.clients :: |u| < n)
  }

  lemma {:induction false} PeakConcat(s: State, xs: seq<Step>, ys: seq<Step>)
    requires Runs(s, xs) && Runs(Exec(s, xs), ys)
    ensures Runs(s, xs + ys) && Exec(s, xs + ys) == Exec(Exec(s, xs), ys)
    ensures Peak(s, xs + ys) == Max(Peak(s, xs), Peak(Exec(s, xs), ys))
    decreases |xs|
  {
    RunsConcat(s, xs, ys);
    if xs == [] {
      assert xs + ys == ys;
      PeakAtLeastFirst(s, ys);
    } else {
      assert (xs + ys)[1..] == xs[1..] + ys;
      PeakConcat(Apply(s, xs[0]), xs[1..], ys);
    }
  }

  lemma OneStep(s: State, e: Step)
    requires Enabled(s, e)
    ensures Runs(s, [e]) && Exec(s, [e]) == Apply(s, e)
    ensures Peak(s, [e]) == Max(|Openers(s)|, |Openers(Apply(s, e))|)
  {
    assert [e][1..] == [];
    assert Runs(Apply(s, e), []);
  }

  lemma ArriveNew(s: State, n: nat)
    requires Unseen(s, n)
    ensures var r := Apply(s, Arrive(Name(n)));
      && r.clients == s.clients && r.maxClients == s.maxClients && Unseen(r, n + 1)
      && |r.tasks| == |s.tasks| + 1 && Openers(r) == Openers(s)
      && r.tasks[|s.tasks|].user == Name(n) && Enabled(r, Enter(|s.tasks|))
  {
    var r := Apply(s, Arrive(Name(n)));
    assert |Name(n)| == n;
    assert r.tasks[..|s.tasks|] == s.tasks;
    assert forall t: TaskId | t < |s.tasks| :: r.tasks[t] == s.tasks[t];
  }

  lemma EnterNew(s: State, t: TaskId)
    requires Enabled(s, Enter(t)) && s.tasks[t].user !in s.clients && |s.clients| < s.maxClients
    ensures var r := Apply(s, Enter(t));
      && r.clients == s.clients && r.maxClients == s.maxClients && r.userLocks == s.userLocks
      && Openers(r) == Openers(s) + {t}
  {
    assert s.clients - {s.tasks[t].user} == s.clients;
    OpenersAfter(s, Apply(s, Enter(t)), t);
  }

  /** A new user below capacity starts an open. */
  lemma OpenOne(s: State, n: nat) returns (es: seq<Step>)
    requires Unseen(s, n) && |s.clients| < s.maxClients
    ensures Runs(s, es)
    ensures var r := Exec(s, es);
      && r.clients == s.clients && r.maxClients == s.maxClients && Unseen(r, n + 1)
      && Openers(r) == Openers(s) + {|s.tasks|} && |Openers(r)| == |Openers(s)| + 1
      && Peak(s, es) == |Openers(r)|
  {
    var t := |s.tasks|;
    var arrive, enter := Arrive(Name(n)), Enter(t);
    var s1 := Apply(s, arrive);
    ArriveNew(s, n);
    assert |Name(n)| == n;
    EnterNew(s1, t);
    OneStep(s, arrive);
    OneStep(s1, enter);
    PeakConcat(s, [arrive], [enter]);
    es := [arrive] + [enter];
  }

  lemma {:induction false} OpenMany(s: State, n: nat, k: nat) returns (es: seq<Step>)
    requires Unseen(s, n) && |s.clients| < s.maxClients
    ensures Runs(s, es)
    ensures var r := Exec(s, es);
      && r.clients == s.clients && r.maxClients == s.maxClients
      && |Openers(r)| == |Openers(s)| + k && Peak(s, es) == |Openers(r)|
    decreases k
  {
    if k == 0 {
      es := [];
    } else {
      var first := OpenOne(s, n);
      var rest := OpenMany(Exec(s, first), n + 1, k - 1);
      PeakConcat(s, first, rest);
      es := first + rest;
    }
  }

  lemma {:induction false} ConnectAll(s: State) returns (es: seq<Step>)
    requires Safe(s)
    ensures Runs(s, es)
    ensures var r := Exec(s, es);
      Openers(r) == {} && |r.clients| == |s.clients| + |Openers(s)| && Peak(s, es) == |Openers(s)|
    decreases |Openers(s)|
  {
    if Openers(s) == {} {
      es := [];
    } else {
      var t :| t in Openers(s);
      var r := Apply(s, Connected(t));
      InsertNeverOverwrites(s, t);
      OpenersAfter(s, r, t);
      StepKeepsSafe(s, Connected(t));
      var rest := ConnectAll(r);
      es := [Connected(t)] + rest;
      assert es[1..] == rest;
    }
  }

  lemma ServeOne(s: State, n: nat) returns (es: seq<Step>)
    requires Safe(s) && Unseen(s, n) && |s.clients| < s.maxClients && Openers(s) == {}
    ensures Runs(s, es) && Peak(s, es) == 1
    ensures var r := Exec(s, es);
      && Safe(r) && Unseen(r, n + 1) && |r.clients| == |s.clients| + 1 && Openers(r) == {}
      && r.maxClients == s.maxClients
  {
    var t := |s.tasks|;
    var opening := OpenOne(s, n);
    RunKeepsSafe(s, opening);
    var s1 := Exec(s, opening);
    assert t in Openers(s1);
    var connect := Connected(t);
    InsertNeverOverwrites(s1, t);
    OpenersAfter(s1, Apply(s1, connect), t);
    StepKeepsSafe(s1, connect);
    OneStep(s1, connect);
    PeakConcat(s, opening, [connect]);
    es := opening + [connect];
  }

  /** Users served one at a time fill the pool up to any size within `max_clients`. */
  lemma {:induction false} FillUp(s0: State, n: nat) returns (es: seq<Step>)
    requires s0 == Init(s0.maxClients, s0.idleTimeout, s0.executeTimeout) && n <= s0.maxClients
    ensures Runs(s0, es) && Peak(s0, es) <= 1
    ensures var s := Exec(s0, es);
      && Safe(s) && Unseen(s, n) && |s.clients| == n && Openers(s) == {} && s.maxClients == s0.maxClients
    decreases n
  {
    InitIsSafe(s0.maxClients, s0.idleTimeout, s0.executeTimeout);
    if n == 0 {
      es := [];
    } else {
      var before := FillUp(s0, n - 1);
      var serving := ServeOne(Exec(s0, before), n - 1);
      PeakConcat(s0, before, serving);
      es := before + serving;
    }
  }

  /** For every capacity and every number of simultaneous opens there is a run that ends with
      exactly `max_clients - 1 + peak` entries: the bound above cannot be improved. */
  lemma CapacityBoundIsAttained(s0: State, k: nat) returns (es: seq<Step>)
    requires s0.maxClients >= 1 && s0 == Init(s0.maxClients, s0.idleTimeout, s0.executeTimeout)
    requires k >= 1
    ensures Runs(s0, es) && Peak(s0, es) == k
    ensures |Exec(s0, es).clients| == s0.maxClients - 1 + k
  {
    var filling := FillUp(s0, s0.maxClients - 1);
    var s := Exec(s0, filling);
    var opening := OpenMany(s, s0.maxClients - 1, k);
    RunKeepsSafe(s, opening);
    var connecting := ConnectAll(Exec(s, opening));
    PeakConcat(s0, filling, opening);
    PeakConcat(s0, filling + opening, connecting);
    es := filling + opening + connecting;
  }
}

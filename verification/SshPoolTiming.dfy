/** When prune can close a connection that a command is using.

    Assumptions on a run, each a guard on its steps: the clock never goes back, a checkout is
    used at once and only once, a command ends no later than its `execute_timeout`, and every
    `execute_timeout` assigned to the pool later on is at most `bound`. */
module SshPoolTiming {
  import opened Prelude
  import opened SshPoolProtocol

  predicate Busy(s: State, c: ConnId) {
    exists t: TaskId :: t < |s.tasks| && s.tasks[t].stage.Executing? && s.tasks[t].stage.conn == c
  }

  /** Time may reach `later` while a task is at this stage. */
  predicate MayWait(s: State, stage: Stage, later: real) {
    && (stage.Holding? ==> !stage.unused)
    && (stage.Executing? ==>
          stage.conn < |s.conns| && later <= stage.started + s.conns[stage.conn].executeTimeout)
  }

  predicate Prompt(s: State, e: Step, bound: real) {
    match e
    case Tick(d) =>
      && d >= 0.0
      && forall t: TaskId | t < |s.tasks| ::
           MayWait(s, s.tasks[t].stage, s.now + d)
    case Execute(t) => At(s, t) && s.tasks[t].stage.Holding? && s.tasks[t].stage.unused
    case SetExecuteTimeout(v) => 0.0 <= v <= bound
    case _ => true
  }

  predicate PromptRuns(s: State, es: seq<Step>, bound: real): (r: bool)
    ensures r ==> Runs(s, es)
    decreases |es|
  {
    es == [] || (Enabled(s, es[0]) && Prompt(s, es[0], bound) && PromptRuns(Apply(s, es[0]), es[1..], bound))
  }

  ghost predicate Timely(s: State) {
    && 0.0 <= s.executeTimeout <= s.idleTimeout
    && (forall c: ConnId | c < |s.conns| ::
          && s.conns[c].idleTimeout == s.idleTimeout
          && 0.0 <= s.conns[c].executeTimeout <= s.idleTimeout
          && s.conns[c].lastUsed <= s.now)
    && (forall t: TaskId | t < |s.tasks| ::
          match s.tasks[t].stage
          case Holding(c, unused) => c < |s.conns| && (unused ==> s.conns[c].lastUsed == s.now)
          case Executing(c, started) =>
            c < |s.conns| && started <= s.conns[c].lastUsed && s.now <= started + s.conns[c].executeTimeout
          case _ => true)
  }

  lemma CheckOutKeepsTimely(s: State, t: TaskId, c: ConnId)
    requires Timely(s) && At(s, t) && c < |s.conns|
    ensures Timely(CheckOut(s, t, c))
  {
  }

  lemma EnterKeepsTimely(s: State, t: TaskId)
    requires Timely(s) && Enabled(s, Enter(t))
    ensures Timely(Apply(s, Enter(t)))
  {
    if Hit(s, s.tasks[t].user) {
      CheckOutKeepsTimely(s, t, s.clients[s.tasks[t].user]);
    }
  }

  lemma ConnectedKeepsTimely(s: State, t: TaskId)
    requires Timely(s) && Enabled(s, Connected(t))
    ensures Timely(Apply(s, Connected(t)))
  {
    var c := Conn(s.tasks[t].user, s.idleTimeout, s.executeTimeout, s.now, Live);
    var s1 := s.(conns := s.conns + [c], clients := s.clients[s.tasks[t].user := |s.conns|]);
    CheckOutKeepsTimely(WithHolder(s1, s.tasks[t].lock, None), t, |s.conns|);
  }

  lemma PruneKeepsTimely(s: State)
    requires Timely(s)
    ensures Timely(Apply(s, Prune))
  {
  }

  lemma TickKeepsTimely(s: State, d: real, bound: real)
    requires Timely(s) && Prompt(s, Tick(d), bound)
    ensures Timely(Apply(s, Tick(d)))
  {
    assert forall t: TaskId | t < |s.tasks| :: MayWait(s, s.tasks[t].stage, s.now + d);
  }

  lemma StatusKeepsTimely(s: State, c: ConnId, status: Status)
    requires Timely(s) && c < |s.conns|
    ensures Timely(WithStatus(s, c, status))
  {
  }

  lemma StageKeepsTimely(s: State, e: Step, bound: real)
    requires Timely(s) && Enabled(s, e) && Prompt(s, e, bound)
    requires e.Arrive? || e.OpenFailed? || e.ReportDone? || e.Abandon? || e.Execute? || e.ExecuteEnd? || e.Leave?
    ensures Timely(Apply(s, e))
  {
  }

  lemma StepKeepsTimely(s: State, e: Step, bound: real)
    requires Timely(s) && Enabled(s, e) && Prompt(s, e, bound) && bound <= s.idleTimeout
    ensures Timely(Apply(s, e))
  {
    match e
    case Enter(t) => EnterKeepsTimely(s, t);
    case Connected(t) => ConnectedKeepsTimely(s, t);
    case Prune => PruneKeepsTimely(s);
    case CloseDone(c) => StatusKeepsTimely(s, c, Closed);
    case RemoteClose(c) => StatusKeepsTimely(s, c, Closed);
    case SetExecuteTimeout(_) =>
    case Tick(d) => TickKeepsTimely(s, d, bound);
    case _ => StageKeepsTimely(s, e, bound);
  }

  lemma {:induction false} RunKeepsTimely(s: State, es: seq<Step>, bound: real)
    requires Timely(s) && PromptRuns(s, es, bound) && bound <= s.idleTimeout
    ensures Timely(Exec(s, es))
    decreases |es|
  {
    if es != [] {
      StepKeepsTimely(s, es[0], bound);
      assert Apply(s, es[0]).idleTimeout == s.idleTimeout;
      RunKeepsTimely(Apply(s, es[0]), es[1..], bound);
    }
  }

  /** Prune leaves every connection with a command in flight exactly as it is. */
  predicate PruneSparesBusy(s: State) {
    forall c: ConnId | c < |s.conns| && Busy(s, c) :: Apply(s, Prune).conns[c] == s.conns[c]
  }

  lemma TimelyPruneSparesBusy(s: State)
    requires Timely(s)
    ensures PruneSparesBusy(s)
  {
  }

  ghost predicate AlwaysSpares(s0: State, bound: real) {
    forall es: seq<Step> | PromptRuns(s0, es, bound) :: PruneSparesBusy(Exec(s0, es))
  }

  /** A pool the constructor accepts. */
  predicate Accepted(s0: State) {
    && s0 == Init(s0.maxClients, s0.idleTimeout, s0.executeTimeout)
    && 0.0 <= s0.executeTimeout < s0.idleTimeout
  }

  lemma SparesWithinIdle(s0: State, bound: real)
    requires Accepted(s0) && bound <= s0.idleTimeout
    ensures AlwaysSpares(s0, bound)
  {
    forall es: seq<Step> | PromptRuns(s0, es, bound)
      ensures PruneSparesBusy(Exec(s0, es))
    {
      RunKeepsTimely(s0, es, bound);
      TimelyPruneSparesBusy(Exec(s0, es));
    }
  }

  lemma PrependPrompt(s: State, e: Step, es: seq<Step>, bound: real)
    requires Enabled(s, e) && Prompt(s, e, bound) && PromptRuns(Apply(s, e), es, bound)
    ensures PromptRuns(s, [e] + es, bound) && Exec(s, [e] + es) == Exec(Apply(s, e), es)
  {
    Prepend(s, e, es);
    assert ([e] + es)[1..] == es;
  }

  lemma PruneCloses(s: State)
    requires |s.conns| == 1 && s.conns[0].status.Live? && s.conns[0].IsIdle(s.now)
    requires |s.tasks| == 1 && s.tasks[0].stage.Executing? && s.tasks[0].stage.conn == 0
    requires "u" in s.clients && s.clients["u"] == 0
    ensures !PruneSparesBusy(s)
  {
    assert Busy(s, 0);
    assert 0 in s.clients.Values;
    assert Apply(s, Prune).conns[0].status.Closing?;
  }

  /** Holding the only connection, run a command for longer than the idle timeout. */
  lemma LongCommandIsCut(s: State, v: real) returns (es: seq<Step>)
    requires v > s.idleTimeout >= 0.0 && s.now == 0.0 && s.clients == map["u" := 0]
    requires s.conns == [Conn("u", s.idleTimeout, v, 0.0, Live)] && s.tasks == [Task("u", 0, Holding(0, true))]
    ensures PromptRuns(s, es, v) && !PruneSparesBusy(Exec(s, es))
  {
    var s1 := Apply(s, Execute(0));
    var s2 := Apply(s1, Tick(v));
    assert s2.tasks == [Task("u", 0, Executing(0, 0.0))];
    PruneCloses(s2);
    es := [];
    PrependPrompt(s1, Tick(v), es, v); es := [Tick(v)] + es;
    PrependPrompt(s, Execute(0), es, v); es := [Execute(0)] + es;
  }

  /** A health check that assigns an `execute_timeout` above `idle_timeout` lets prune close the
      connection under a running command. */
  lemma BreaksAboveIdle(s0: State, v: real) returns (es: seq<Step>)
    requires Accepted(s0) && s0.maxClients >= 1 && v > s0.idleTimeout
    ensures PromptRuns(s0, es, v) && !PruneSparesBusy(Exec(s0, es))
  {
    var s1 := Apply(s0, SetExecuteTimeout(v));
    var s2 := Apply(s1, Arrive("u"));
    var s3 := Apply(s2, Enter(0));
    var s4 := Apply(s3, Connected(0));
    assert s3.clients == map[] && s3.tasks == [Task("u", 0, Opening)] && s3.locks == [Some(0)];
    assert s4.conns == [Conn("u", s0.idleTimeout, v, 0.0, Live)] && s4.tasks == [Task("u", 0, Holding(0, true))];
    es := LongCommandIsCut(s4, v);
    PrependPrompt(s3, Connected(0), es, v); es := [Connected(0)] + es;
    PrependPrompt(s2, Enter(0), es, v); es := [Enter(0)] + es;
    PrependPrompt(s1, Arrive("u"), es, v); es := [Arrive("u")] + es;
    PrependPrompt(s0, SetExecuteTimeout(v), es, v); es := [SetExecuteTimeout(v)] + es;
  }

  /** The exact condition: whatever the pool, prune spares busy connections in every prompt run
      if and only if no later assignment may exceed `idle_timeout`. */
  lemma PruneSparesBusyIff(s0: State, bound: real)
    requires Accepted(s0) && s0.maxClients >= 1
    ensures AlwaysSpares(s0, bound) <==> bound <= s0.idleTimeout
  {
    if bound <= s0.idleTimeout {
      SparesWithinIdle(s0, bound);
    } else {
      var es := BreaksAboveIdle(s0, bound);
    }
  }
}

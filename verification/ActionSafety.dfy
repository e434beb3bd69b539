/** Safety of the action protocol over every run: results, conservation of
    executions, cancel flags, and what the destructor covers. */
module ActionSafety {
  import opened ActionProtocol

  // ---- Every step keeps the invariant ----

  lemma AcceptKeepsActive(sv: Server, msg: GoalMsg)
    requires ActiveInv(sv)
    ensures ActiveInv(Accept(sv, msg))
  {
    var sv' := Accept(sv, msg);
    var k := ToHex(msg.id);
    if k !in sv.active {
      forall n | 0 <= n < |sv'.runs| && !sv'.runs[n].phase.Erased?
        ensures Key(sv'.runs[n]) in sv'.active && sv'.active[Key(sv'.runs[n])] == n
      {
        assert n < |sv.runs| ==> sv'.runs[n] == sv.runs[n];
      }
      assert ActiveInv(sv');
    }
  }

  lemma PhaseKeepsActive(sv: Server, n: nat, p: Phase)
    requires ActiveInv(sv) && n < |sv.runs| && !sv.runs[n].phase.Erased? && !p.Erased?
    ensures ActiveInv(SetPhase(sv, n, p))
  {
  }

  lemma EraseKeepsActive(sv: Server, n: nat)
    requires ActiveInv(sv) && n < |sv.runs| && sv.runs[n].phase.Published?
    ensures ActiveInv(Erase(sv, n))
  {
    var sv' := Erase(sv, n);
    forall k | k in sv'.active
      ensures sv'.active[k] < |sv'.runs| && !sv'.runs[sv'.active[k]].phase.Erased? && Key(sv'.runs[sv'.active[k]]) == k
    {
      assert sv.active[k] != n;
    }
  }

  lemma CancelKeepsActive(sv: Server, id: GoalId)
    requires ActiveInv(sv)
    ensures ActiveInv(HandleCancel(sv, id))
  {
  }

  lemma LockKeepsActive(sv: Server)
    requires ActiveInv(sv)
    ensures ActiveInv(LockDown(sv))
  {
    var sv' := LockDown(sv);
    assert |sv'.runs| == |sv.runs|;
    assert forall n | 0 <= n < |sv.runs| ::
        Key(sv'.runs[n]) == Key(sv.runs[n]) && sv'.runs[n].phase == sv.runs[n].phase;
  }

  lemma ActiveKept(s: State, e: Step)
    requires Enabled(s, e) && ActiveInv(s.server)
    ensures ActiveInv(Next(s, e).server)
  {
    var sv := s.server;
    match e
    case AcceptGoal(msg) => AcceptKeepsActive(sv, msg);
    case SpawnWorker(n) => PhaseKeepsActive(sv, n, if sv.finalized then Running else Lost);
    case DeliverCancel(id) => CancelKeepsActive(sv, id);
    case Finish(n, o) => PhaseKeepsActive(sv, n, Computed(o));
    case PublishResult(n) => PhaseKeepsActive(sv, n, Published(sv.runs[n].phase.outcome));
    case EraseRun(n) => EraseKeepsActive(sv, n);
    case LockedShutdown => LockKeepsActive(sv);
    case _ =>
  }

  /** Steps only append runs; a run keeps its id and goal, its flag never reverts,
      what it published stands, and once erased it is frozen. */
  ghost predicate RunsGrow(sv: Server, sv': Server) {
    && |sv.runs| <= |sv'.runs|
    && forall n | 0 <= n < |sv.runs| :: RunGrows(sv.runs[n], sv'.runs[n])
  }

  ghost predicate RunGrows(r: Run, r': Run) {
    && r'.id == r.id && r'.goal == r.goal
    && (r.cancel ==> r'.cancel)
    && (r.phase.Erased? ==> r' == r)
    && (r.phase.Lost? ==> r'.phase.Lost?)
    && (HasPublished(r) ==> HasPublished(r') && r'.phase.outcome == r.phase.outcome)
  }

  /** One step changes a flag only by a cancel for that very id, or the destructor,
      while the run is not yet erased. */
  predicate AsksToStop(r: Run, e: Step) {
    !r.phase.Erased? && (e == DeliverCancel(r.id) || e.LockedShutdown?)
  }

  lemma CancelOnRun(sv: Server, id: GoalId, n: nat)
    requires ActiveInv(sv) && n < |sv.runs|
    ensures var r := sv.runs[n];
            HandleCancel(sv, id).runs[n] == if !r.phase.Erased? && id == r.id then r.(cancel := true) else r
  {
    var r := sv.runs[n];
    if ToHex(id) == Key(r) {
      ToHexInjective(id, r.id);
    }
  }

  lemma LockOnRun(sv: Server, n: nat)
    requires ActiveInv(sv) && n < |sv.runs|
    ensures var r := sv.runs[n];
            LockDown(sv).runs[n] == if r.phase.Erased? then r else r.(cancel := true)
  {
    if sv.runs[n].phase.Erased? {
      assert n !in sv.active.Values;
    } else {
      assert sv.active[Key(sv.runs[n])] == n && n in sv.active.Values;
    }
  }

  lemma PhaseOnRun(sv: Server, m: nat, p: Phase, n: nat)
    requires m < |sv.runs| && n < |sv.runs| && !sv.runs[m].phase.Erased? && !sv.runs[m].phase.Lost?
    requires HasPublished(sv.runs[m]) ==> (p.Published? || p.Erased?) && p.outcome == sv.runs[m].phase.outcome
    ensures RunGrows(sv.runs[n], SetPhase(sv, m, p).runs[n])
    ensures SetPhase(sv, m, p).runs[n].cancel == sv.runs[n].cancel
  {
  }

  /** What step e does to run n. */
  ghost predicate OnRun(s: State, e: Step, n: nat)
    requires Enabled(s, e) && n < |s.server.runs|
  {
    && n < |Next(s, e).server.runs| && RunGrows(s.server.runs[n], Next(s, e).server.runs[n])
    && (Next(s, e).server.runs[n].cancel <==> s.server.runs[n].cancel || AsksToStop(s.server.runs[n], e))
  }

  lemma CancelStepOnRun(s: State, e: Step, n: nat)
    requires Enabled(s, e) && ActiveInv(s.server) && n < |s.server.runs| && e.DeliverCancel?
    ensures OnRun(s, e, n)
  {
    CancelOnRun(s.server, e.cancel, n);
  }

  lemma LockStepOnRun(s: State, e: Step, n: nat)
    requires Enabled(s, e) && ActiveInv(s.server) && n < |s.server.runs| && e.LockedShutdown?
    ensures OnRun(s, e, n)
  {
    LockOnRun(s.server, n);
  }

  lemma WorkerStepOnRun(s: State, e: Step, n: nat)
    requires Enabled(s, e) && n < |s.server.runs| && (e.SpawnWorker? || e.Finish?)
    ensures OnRun(s, e, n)
  {
    var p := if e.Finish? then Computed(e.outcome) else if s.server.finalized then Running else Lost;
    PhaseOnRun(s.server, e.n, p, n);
  }

  lemma ResultStepOnRun(s: State, e: Step, n: nat)
    requires Enabled(s, e) && n < |s.server.runs| && (e.PublishResult? || e.EraseRun?)
    ensures OnRun(s, e, n)
  {
    var o := s.server.runs[e.n].phase.outcome;
    PhaseOnRun(s.server, e.n, if e.PublishResult? then Published(o) else Erased(o), n);
  }

  lemma AcceptStepOnRun(s: State, e: Step, n: nat)
    requires Enabled(s, e) && n < |s.server.runs| && e.AcceptGoal?
    ensures OnRun(s, e, n)
  {
  }

  lemma OtherStepOnRun(s: State, e: Step, n: nat)
    requires Enabled(s, e) && n < |s.server.runs| && Next(s, e).server.runs == s.server.runs
    requires !e.DeliverCancel? && !e.LockedShutdown?
    ensures OnRun(s, e, n)
  {
  }

  lemma StepOnRun(s: State, e: Step, n: nat)
    requires Enabled(s, e) && ActiveInv(s.server) && n < |s.server.runs|
    ensures OnRun(s, e, n)
  {
    match e
    case DeliverCancel(_) => CancelStepOnRun(s, e, n);
    case LockedShutdown => LockStepOnRun(s, e, n);
    case SpawnWorker(_) => WorkerStepOnRun(s, e, n);
    case Finish(_, _) => WorkerStepOnRun(s, e, n);
    case PublishResult(_) => ResultStepOnRun(s, e, n);
    case EraseRun(_) => ResultStepOnRun(s, e, n);
    case AcceptGoal(_) => AcceptStepOnRun(s, e, n);
    case _ => OtherStepOnRun(s, e, n);
  }

  lemma StepGrowsRuns(s: State, e: Step)
    requires Enabled(s, e) && ActiveInv(s.server)
    ensures RunsGrow(s.server, Next(s, e).server)
  {
    forall n | 0 <= n < |s.server.runs|
      ensures n < |Next(s, e).server.runs| && RunGrows(s.server.runs[n], Next(s, e).server.runs[n])
    {
      StepOnRun(s, e, n);
    }
    assert |s.server.runs| <= |Next(s, e).server.runs|;
  }

  lemma AcceptKeepsSerial(sv: Server, msg: GoalMsg)
    requires ActiveInv(sv) && SerialInv(sv)
    ensures SerialInv(Accept(sv, msg))
  {
    var sv' := Accept(sv, msg);
    forall m, n | 0 <= m < n < |sv'.runs| && sv'.runs[m].id == sv'.runs[n].id ensures sv'.runs[m].phase.Erased? {
      assert sv.runs[m].phase.Erased? || Key(sv.runs[m]) in sv.active;
    }
  }

  lemma SerialKept(s: State, e: Step)
    requires Enabled(s, e) && ActiveInv(s.server) && SerialInv(s.server)
    ensures SerialInv(Next(s, e).server)
  {
    if e.AcceptGoal? {
      AcceptKeepsSerial(s.server, e.goalMsg);
    } else {
      StepGrowsRuns(s, e);
    }
  }

  lemma LockKeepsWorkers(sv: Server)
    requires WorkerInv(sv) && !sv.lockedDown
    ensures WorkerInv(LockDown(sv))
  {
    var sv' := LockDown(sv);
    assert |sv'.runs| == |sv.runs| && forall n | 0 <= n < |sv.runs| :: sv'.runs[n].phase == sv.runs[n].phase;
  }

  lemma SpawnKeepsWorkers(sv: Server, n: nat)
    requires WorkerInv(sv) && n < |sv.runs| && sv.runs[n].phase.Admitted?
    ensures WorkerInv(Spawn(sv, n))
  {
  }

  lemma PhaseKeepsWorkers(sv: Server, n: nat, p: Phase)
    requires WorkerInv(sv) && n < |sv.runs| && !sv.runs[n].phase.Admitted? && !p.Admitted?
    ensures WorkerInv(SetPhase(sv, n, p))
  {
  }

  lemma AcceptKeepsWorkers(sv: Server, msg: GoalMsg)
    requires WorkerInv(sv)
    ensures WorkerInv(Accept(sv, msg))
  {
  }

  /** Steps that leave the runs' phases and the threads alone. */
  lemma OthersKeepWorkers(sv: Server, sv': Server)
    requires WorkerInv(sv) && |sv'.runs| == |sv.runs|
    requires forall n | 0 <= n < |sv.runs| :: sv'.runs[n].phase == sv.runs[n].phase
    requires sv'.spawned == sv.spawned && sv'.workers == sv.workers && sv'.joined == sv.joined
    requires sv'.lockedDown == sv.lockedDown
    ensures WorkerInv(sv')
  {
  }

  lemma WorkersKept(s: State, e: Step)
    requires Enabled(s, e) && WorkerInv(s.server)
    ensures WorkerInv(Next(s, e).server)
  {
    match e
    case LockedShutdown => LockKeepsWorkers(s.server);
    case SpawnWorker(n) => SpawnKeepsWorkers(s.server, n);
    case Finish(n, o) => PhaseKeepsWorkers(s.server, n, Computed(o));
    case PublishResult(n) => PhaseKeepsWorkers(s.server, n, Published(s.server.runs[n].phase.outcome));
    case EraseRun(n) =>
      var p := Erased(s.server.runs[n].phase.outcome);
      PhaseKeepsWorkers(s.server, n, p);
      OthersKeepWorkers(SetPhase(s.server, n, p), Erase(s.server, n));
    case AcceptGoal(msg) => AcceptKeepsWorkers(s.server, msg);
    case PushWorker(_) =>
    case _ => OthersKeepWorkers(s.server, Next(s, e).server);
  }

  lemma ProducedGrows(sv: Server, sv': Server, msg: ResultMsg)
    requires RunsGrow(sv, sv') && exists n :: 0 <= n < |sv.runs| && Produced(sv.runs[n], msg)
    ensures exists n :: 0 <= n < |sv'.runs| && Produced(sv'.runs[n], msg)
  {
    var n :| 0 <= n < |sv.runs| && Produced(sv.runs[n], msg);
    assert Produced(sv'.runs[n], msg);
  }

  lemma ResultsKept(s: State, e: Step)
    requires Enabled(s, e) && ActiveInv(s.server) && NetInv(s)
    ensures var s' := Next(s, e);
            forall msg | msg in s'.results :: exists n :: 0 <= n < |s'.server.runs| && Produced(s'.server.runs[n], msg)
  {
    var s' := Next(s, e);
    StepGrowsRuns(s, e);
    hide RunsGrow;
    forall msg | msg in s'.results
      ensures exists n :: 0 <= n < |s'.server.runs| && Produced(s'.server.runs[n], msg)
    {
      if msg in s.results {
        ProducedGrows(s.server, s'.server, msg);
      } else {
        assert Produced(s'.server.runs[e.n], msg);
      }
    }
  }

  lemma GoalsKept(s: State, e: Step)
    requires Enabled(s, e) && NetInv(s)
    ensures var s' := Next(s, e);
            forall m | m in s'.goals :: exists h :: 0 <= h < |s'.handles| && Sent(s'.handles[h], m)
  {
    var s' := Next(s, e);
    forall m | m in s'.goals ensures exists h :: 0 <= h < |s'.handles| && Sent(s'.handles[h], m) {
      if m in s.goals {
        var h :| 0 <= h < |s.handles| && Sent(s.handles[h], m);
        assert Sent(s'.handles[h], m);
      } else {
        assert Sent(s'.handles[e.h], m);
      }
    }
  }

  lemma NetKept(s: State, e: Step)
    requires Enabled(s, e) && ActiveInv(s.server) && NetInv(s)
    ensures NetInv(Next(s, e))
  {
    ResultsKept(s, e);
    GoalsKept(s, e);
    RunsSent(s, e);
    CallsSent(s, e);
    hide Next, Enabled;
  }

  lemma CallsSent(s: State, e: Step)
    requires Enabled(s, e) && NetInv(s)
    ensures forall m | m in Next(s, e).server.calls :: m in Next(s, e).goals
  {
  }

  lemma GoalsGrow(s: State, e: Step)
    requires Enabled(s, e)
    ensures s.goals <= Next(s, e).goals
  {
  }

  lemma RunsSent(s: State, e: Step)
    requires Enabled(s, e) && ActiveInv(s.server) && NetInv(s)
    ensures forall r | r in Next(s, e).server.runs :: GoalMsg(r.id, r.goal) in Next(s, e).goals
  {
    StepGrowsRuns(s, e);
    GoalsGrow(s, e);
    forall n: nat | |s.server.runs| <= n < |Next(s, e).server.runs|
      ensures GoalMsg(Next(s, e).server.runs[n].id, Next(s, e).server.runs[n].goal) in s.goals
    {
      NewRunSent(s, e, n);
    }
    hide Next, Enabled;
    var s' := Next(s, e);
    forall r | r in s'.server.runs ensures GoalMsg(r.id, r.goal) in s'.goals {
      var n: nat :| n < |s'.server.runs| && s'.server.runs[n] == r;
      if n < |s.server.runs| {
        assert s.server.runs[n] in s.server.runs && RunGrows(s.server.runs[n], r);
      }
    }
  }

  /** Only looking up a goal message adds an acceptance. */
  lemma NewStep(s: State, e: Step)
    requires Enabled(s, e) && |s.server.runs| < |Next(s, e).server.runs|
    ensures e.AcceptGoal? && e.goalMsg in s.server.calls
    ensures Next(s, e).server.runs == s.server.runs + [Run(e.goalMsg.id, e.goalMsg.goal, false, Admitted)]
  {
    match e
    case AcceptGoal(_) =>
    case _ =>
  }

  lemma NewRunSent(s: State, e: Step, n: nat)
    requires Enabled(s, e) && NetInv(s) && |s.server.runs| <= n < |Next(s, e).server.runs|
    ensures GoalMsg(Next(s, e).server.runs[n].id, Next(s, e).server.runs[n].goal) in s.goals
  {
    NewStep(s, e);
    hide Next, Enabled;
  }

  lemma RegisterKeepsClient(s: State, e: Step)
    requires e.RegisterGoal? && Enabled(s, e) && ClientInv(s)
    ensures ClientInv(Next(s, e))
  {
    var s' := Next(s, e);
    assert UniqueIds(s'.handles) by {
      assert forall h | 0 <= h < |s.handles| :: s.handles[h] in s.handles;
    }
  }

  lemma TakeKeepsClient(s: State, e: Step)
    requires e.TakeResult? && Enabled(s, e) && ClientInv(s)
    ensures ClientInv(Next(s, e))
  {
    var s' := Next(s, e);
    var k := (e.client, ToHex(e.msg.id));
    var h := s.pending[k];
    ToHexInjective(e.msg.id, s.handles[h].id);
    forall j | j in s'.pending ensures s'.pending[j] != h {
    }
  }

  lemma SendKeepsClient(s: State, e: Step)
    requires e.SendGoal? && Enabled(s, e) && ClientInv(s)
    ensures ClientInv(Next(s, e))
  {
  }

  lemma StoreKeepsClient(s: State, e: Step)
    requires e.StoreResult? && Enabled(s, e) && ClientInv(s)
    ensures ClientInv(Next(s, e))
  {
  }

  lemma ResultsKeepClient(s: State, s': State)
    requires ClientInv(s) && s'.handles == s.handles && s'.pending == s.pending && s'.taken == s.taken
    requires s.results <= s'.results
    ensures ClientInv(s')
  {
  }

  lemma ClientKept(s: State, e: Step)
    requires Enabled(s, e) && ClientInv(s)
    ensures ClientInv(Next(s, e))
  {
    hide ClientInv;
    match e
    case RegisterGoal(_, _, _) => RegisterKeepsClient(s, e);
    case TakeResult(_, _) => TakeKeepsClient(s, e);
    case SendGoal(_) => SendKeepsClient(s, e);
    case StoreResult(_) => StoreKeepsClient(s, e);
    case _ =>
      ResultsKeepClient(s, Next(s, e));
  }

  lemma EarlyOnRun(s: State, e: Step, n: nat)
    requires Enabled(s, e) && ActiveInv(s.server) && EarlyInv(s.server) && !s.server.finalized
    requires n < |s.server.runs| <= |Next(s, e).server.runs|
    ensures Next(s, e).server.runs[n].phase.Admitted? || Next(s, e).server.runs[n].phase.Lost?
  {
    match e
    case AcceptGoal(_) =>
    case SpawnWorker(_) =>
    case DeliverCancel(id) => CancelOnRun(s.server, id, n);
    case LockedShutdown => LockOnRun(s.server, n);
    case _ =>
  }

  lemma EarlyKept(s: State, e: Step)
    requires Enabled(s, e) && ActiveInv(s.server) && EarlyInv(s.server)
    ensures EarlyInv(Next(s, e).server)
  {
    StepGrowsRuns(s, e);
    if !Next(s, e).server.finalized {
      StaysUnfinalized(s, e);
      forall n | 0 <= n < |Next(s, e).server.runs|
        ensures Next(s, e).server.runs[n].phase.Admitted? || Next(s, e).server.runs[n].phase.Lost?
      {
        if n < |s.server.runs| {
          EarlyOnRun(s, e, n);
        } else {
          NewStep(s, e);
        }
      }
    }
    hide Next, Enabled;
  }

  lemma StaysUnfinalized(s: State, e: Step)
    requires Enabled(s, e) && !Next(s, e).server.finalized
    ensures !s.server.finalized
  {
  }

  lemma InvKept(s: State, e: Step)
    requires Enabled(s, e) && Inv(s)
    ensures Inv(Next(s, e))
  {
    hide Next, Enabled, ActiveInv, SerialInv, WorkerInv, NetInv, ClientInv;
    ActiveKept(s, e);
    SerialKept(s, e);
    WorkersKept(s, e);
    NetKept(s, e);
    ClientKept(s, e);
  }

  // ---- Runs of the system ----

  ghost predicate StepAt(ss: seq<State>, es: seq<Step>, i: nat)
    requires i < |es| < |ss|
  {
    Enabled(ss[i], es[i]) && ss[i + 1] == Next(ss[i], es[i])
  }

  /** ss is the run of the steps es from the initial state. */
  ghost predicate Trace(ss: seq<State>, es: seq<Step>) {
    |ss| == |es| + 1 && ss[0] == INIT && forall i: nat | i < |es| :: StepAt(ss, es, i)
  }

  lemma InitInv()
    ensures Inv(INIT)
  {
  }

  lemma {:induction false} AlwaysInv(ss: seq<State>, es: seq<Step>, i: nat)
    requires Trace(ss, es) && i < |ss|
    ensures Inv(ss[i])
  {
    hide Next, Enabled, ActiveInv, SerialInv, WorkerInv, NetInv, ClientInv;
    if i == 0 {
      InitInv();
    } else {
      AlwaysInv(ss, es, i - 1);
      assert StepAt(ss, es, i - 1);
      InvKept(ss[i - 1], es[i - 1]);
    }
  }

  lemma {:induction false} AlwaysEarly(ss: seq<State>, es: seq<Step>, i: nat)
    requires Trace(ss, es) && i < |ss|
    ensures EarlyInv(ss[i].server)
  {
    hide Next, Enabled, SerialInv, WorkerInv, NetInv, ClientInv;
    if i > 0 {
      AlwaysInv(ss, es, i - 1);
      AlwaysEarly(ss, es, i - 1);
      assert StepAt(ss, es, i - 1);
      EarlyKept(ss[i - 1], es[i - 1]);
    }
  }

  /** Handles are never dropped and a stored result is final. */
  ghost predicate HandlesGrow(s: State, s': State) {
    && |s.handles| <= |s'.handles|
    && forall h | 0 <= h < |s.handles| ::
         && s'.handles[h].client == s.handles[h].client
         && s'.handles[h].id == s.handles[h].id && s'.handles[h].goal == s.handles[h].goal
         && (s.handles[h].result.Some? ==> s'.handles[h].result == s.handles[h].result)
  }

  lemma StepGrowsHandles(s: State, e: Step)
    requires Enabled(s, e) && ClientInv(s)
    ensures HandlesGrow(s, Next(s, e))
  {
  }

  lemma {:induction false} Grows(ss: seq<State>, es: seq<Step>, i: nat, j: nat)
    requires Trace(ss, es) && i <= j < |ss|
    ensures HandlesGrow(ss[i], ss[j]) && RunsGrow(ss[i].server, ss[j].server)
  {
    hide Next, Enabled, ActiveInv, SerialInv, WorkerInv, NetInv, ClientInv;
    if i < j {
      Grows(ss, es, i, j - 1);
      AlwaysInv(ss, es, j - 1);
      assert StepAt(ss, es, j - 1);
      StepGrowsHandles(ss[j - 1], es[j - 1]);
      StepGrowsRuns(ss[j - 1], es[j - 1]);
    }
  }

  /** The message reports the outcome: what execute returned, or Aborted and the
      initialized result when it threw. */
  predicate Reports(msg: ResultMsg, id: GoalId, o: Outcome) {
    && msg.id == id
    && match o
       case Returned(st, r) => msg.status == st && msg.result == r
       case Threw => msg.status == Aborted && msg.result == Default
  }

  /** An execution of the goal behind a handle that published the handle's result. */
  ghost predicate Answered(u: Handle, r: Run) {
    && u.result.Some? && HasPublished(r) && r.id == u.id && r.goal == u.goal
    && Reports(u.result.value, u.id, r.phase.outcome)
  }

  lemma MessageReports(id: GoalId, o: Outcome, msg: ResultMsg)
    ensures msg == Message(id, o) <==> Reports(msg, id, o)
  {
  }

  lemma ProducedReports(r: Run, msg: ResultMsg)
    requires Produced(r, msg)
    ensures r.id == msg.id && HasPublished(r) && Reports(msg, r.id, r.phase.outcome)
  {
  }

  lemma ResultOrigin(s: State, h: nat)
    requires NetInv(s) && ClientInv(s) && h < |s.handles| && s.handles[h].result.Some?
    ensures exists n :: 0 <= n < |s.server.runs| && Answered(s.handles[h], s.server.runs[n])
  {
    var u := s.handles[h];
    assert HandleOk(u, s.results);
    var n :| 0 <= n < |s.server.runs| && Produced(s.server.runs[n], u.result.value);
    var r := s.server.runs[n];
    assert r in s.server.runs;
    hide Produced, HandleOk, Reports;
    ProducedReports(r, u.result.value);
    assert r.id == u.id;
    var g :| 0 <= g < |s.handles| && Sent(s.handles[g], GoalMsg(r.id, r.goal));
    assert g == h;
    assert Answered(s.handles[h], r);
  }

  /** Over every run: a handle's result is stored at most once and never changes
      afterwards, and its status and value are what some execution of the very goal
      sent under that id returned, or Aborted and the initialized result when it threw. */
  lemma ResultSafety(ss: seq<State>, es: seq<Step>, i: nat, j: nat, h: nat)
    requires Trace(ss, es) && i <= j < |ss| && h < |ss[i].handles|
    ensures h < |ss[j].handles| && ss[j].handles[h].stores <= 1
    ensures ss[i].handles[h].result.Some? ==> ss[j].handles[h].result == ss[i].handles[h].result
    ensures ss[i].handles[h].result.Some? ==>
              exists n :: 0 <= n < |ss[i].server.runs| && Answered(ss[i].handles[h], ss[i].server.runs[n])
  {
    Grows(ss, es, i, j);
    AlwaysInv(ss, es, j);
    if ss[i].handles[h].result.Some? {
      AlwaysInv(ss, es, i);
      ResultOrigin(ss[i], h);
    }
  }

  lemma LostStep(s: State, e: Step, n: nat)
    requires Enabled(s, e) && n < |s.server.runs| <= |Next(s, e).server.runs|
    ensures Next(s, e).server.runs[n].phase.Lost? <==>
            s.server.runs[n].phase.Lost? || (e == SpawnWorker(n) && !s.server.finalized)
  {
    hide ToHex, Message;
    match e
    case SpawnWorker(_) =>
    case AcceptGoal(_) =>
    case DeliverCancel(_) =>
    case Finish(_, _) =>
    case PublishResult(_) =>
    case EraseRun(_) =>
    case LockedShutdown =>
    case _ =>
  }

  lemma NewRunNotLost(s: State, e: Step, n: nat)
    requires Enabled(s, e) && |s.server.runs| <= n < |Next(s, e).server.runs|
    ensures !Next(s, e).server.runs[n].phase.Lost?
  {
    NewStep(s, e);
    hide Next, Enabled;
  }

  /** Some step before the j-th read shared_self for acceptance n while Finalize had
      not set it. */
  ghost predicate SpawnedEarly(ss: seq<State>, es: seq<Step>, j: nat, n: nat)
    requires j <= |es| < |ss|
  {
    exists t: nat :: t < j && es[t] == SpawnWorker(n) && !ss[t].server.finalized
  }

  /** Over every run of the system: an accepted goal is lost, its thread returning
      without executing it, if and only if its HandleGoal read shared_self before
      Finalize. */
  lemma {:induction false} LostExactly(ss: seq<State>, es: seq<Step>, j: nat, n: nat)
    requires Trace(ss, es) && j < |ss| && n < |ss[j].server.runs|
    ensures ss[j].server.runs[n].phase.Lost? <==> SpawnedEarly(ss, es, j, n)
  {
    hide Next, ActiveInv, SerialInv, WorkerInv, NetInv, ClientInv;
    if j > 0 {
      AlwaysInv(ss, es, j - 1);
      assert StepAt(ss, es, j - 1);
      if n < |ss[j - 1].server.runs| {
        LostExactly(ss, es, j - 1, n);
        StepGrowsRuns(ss[j - 1], es[j - 1]);
        LostStep(ss[j - 1], es[j - 1], n);
        assert SpawnedEarly(ss, es, j, n) <==>
               SpawnedEarly(ss, es, j - 1, n) || (es[j - 1] == SpawnWorker(n) && !ss[j - 1].server.finalized);
      } else {
        forall t: nat | t < j ensures es[t] != SpawnWorker(n) {
          Grows(ss, es, t, j - 1);
          assert StepAt(ss, es, t);
        }
        NewRunNotLost(ss[j - 1], es[j - 1], n);
      }
    }
  }

  /** A lost goal stays lost and blocks its id for good: every later delivery finds it
      active. */
  lemma LostForever(ss: seq<State>, es: seq<Step>, i: nat, j: nat, n: nat)
    requires Trace(ss, es) && i <= j < |ss| && n < |ss[i].server.runs| && ss[i].server.runs[n].phase.Lost?
    ensures n < |ss[j].server.runs| && ss[j].server.runs[n].phase.Lost?
    ensures Key(ss[i].server.runs[n]) in ss[j].server.active
    ensures forall m | 0 <= m < |ss[j].server.runs| && m != n && ss[j].server.runs[m].id == ss[i].server.runs[n].id ::
              m < n && ss[j].server.runs[m].phase.Erased?
  {
    Grows(ss, es, i, j);
    AlwaysInv(ss, es, j);
  }

  /** Some step before the j-th asked run n to stop. */
  ghost predicate Asked(ss: seq<State>, es: seq<Step>, j: nat, n: nat)
    requires j <= |es| < |ss|
  {
    exists t: nat :: t < j && n < |ss[t].server.runs| && AsksToStop(ss[t].server.runs[n], es[t])
  }

  lemma AskedStep(ss: seq<State>, es: seq<Step>, j: nat, n: nat)
    requires j < |es| < |ss| && n < |ss[j].server.runs|
    ensures Asked(ss, es, j + 1, n) <==> Asked(ss, es, j, n) || AsksToStop(ss[j].server.runs[n], es[j])
  {
  }

  /** Over every run: a flag is set exactly when a cancel for that very id, or the
      destructor's locked block, was handled between the run's acceptance and its
      erasure.  It never leaks to another id nor to a later acceptance. */
  lemma {:induction false} FlagExactly(ss: seq<State>, es: seq<Step>, j: nat, n: nat)
    requires Trace(ss, es) && j < |ss| && n < |ss[j].server.runs|
    ensures ss[j].server.runs[n].cancel <==> Asked(ss, es, j, n)
  {
    hide Next, Enabled, SerialInv, WorkerInv, NetInv, ClientInv, AsksToStop;
    if j > 0 {
      AlwaysInv(ss, es, j - 1);
      assert StepAt(ss, es, j - 1);
      if n < |ss[j - 1].server.runs| {
        FlagExactly(ss, es, j - 1, n);
        StepOnRun(ss[j - 1], es[j - 1], n);
        AskedStep(ss, es, j - 1, n);
      } else {
        forall t: nat | t < j ensures n >= |ss[t].server.runs| {
          Grows(ss, es, t, j - 1);
        }
        NewRunUnflagged(ss[j - 1], es[j - 1], n);
      }
    }
  }

  lemma NewRunUnflagged(s: State, e: Step, n: nat)
    requires Enabled(s, e) && |s.server.runs| <= n < |Next(s, e).server.runs|
    ensures e.AcceptGoal? && !Next(s, e).server.runs[n].cancel
  {
  }

  // ---- Conservation ----

  function Count(runs: seq<Run>, k: string, p: Run -> bool): nat {
    if runs == [] then 0
    else Count(runs[..|runs| - 1], k, p) + (if Key(runs[|runs| - 1]) == k && p(runs[|runs| - 1]) then 1 else 0)
  }

  predicate Any(r: Run) { true }
  predicate IsErased(r: Run) { r.phase.Erased? }

  lemma LastLive(sv: Server, n: nat, k: string)
    requires ActiveInv(sv) && n < |sv.runs|
    ensures k in sv.active && sv.active[k] == n <==> Key(sv.runs[n]) == k && !sv.runs[n].phase.Erased?
  {
  }

  lemma {:induction false} CountLive(sv: Server, m: nat, k: string)
    requires ActiveInv(sv) && m <= |sv.runs|
    ensures Count(sv.runs[..m], k, Any)
         == Count(sv.runs[..m], k, IsErased) + (if k in sv.active && sv.active[k] < m then 1 else 0)
    ensures Count(sv.runs[..m], k, IsErased) <= Count(sv.runs[..m], k, HasPublished) <= Count(sv.runs[..m], k, Any)
  {
    if m > 0 {
      CountLive(sv, m - 1, k);
      LastLive(sv, m - 1, k);
      hide ActiveInv, Key;
      assert sv.runs[..m][..m - 1] == sv.runs[..m - 1] && sv.runs[..m][m - 1] == sv.runs[m - 1];
    }
  }

  /** Conservation per id: acceptances are erasures plus one if the goal is active,
      published results lie in between, and of two acceptances of one id the earlier
      is over. */
  lemma Conservation(ss: seq<State>, es: seq<Step>, j: nat, id: GoalId)
    requires Trace(ss, es) && j < |ss|
    ensures var sv := ss[j].server; var k := ToHex(id);
            && Count(sv.runs, k, Any) == Count(sv.runs, k, IsErased) + (if k in sv.active then 1 else 0)
            && Count(sv.runs, k, IsErased) <= Count(sv.runs, k, HasPublished) <= Count(sv.runs, k, Any)
            && forall m, n | 0 <= m < n < |sv.runs| && sv.runs[m].id == sv.runs[n].id == id ::
                 sv.runs[m].phase.Erased?
  {
    AlwaysInv(ss, es, j);
    var sv := ss[j].server;
    CountLive(sv, |sv.runs|, ToHex(id));
    assert sv.runs[..|sv.runs|] == sv.runs;
  }

  // ---- Runs that do happen ----

  /** s' can follow s. */
  ghost predicate Leads(s: State, es: seq<Step>, s': State)
    decreases |es|
  {
    if es == [] then s == s'
    else Enabled(s, es[0]) && Leads(Next(s, es[0]), es[1..], s')
  }

  lemma LeadsStep(s: State, e: Step, es: seq<Step>, s': State)
    requires Enabled(s, e) && Leads(Next(s, e), es, s')
    ensures Leads(s, [e] + es, s')
  {
    assert ([e] + es)[1..] == es;
  }

  lemma {:induction false} LeadsJoin(s: State, es: seq<Step>, s1: State, fs: seq<Step>, s2: State)
    requires Leads(s, es, s1) && Leads(s1, fs, s2)
    ensures Leads(s, es + fs, s2)
    decreases |es|
  {
    hide Next, Enabled;
    if es == [] {
      assert es + fs == fs;
    } else {
      LeadsJoin(Next(s, es[0]), es[1..], s1, fs, s2);
      assert (es + fs)[1..] == es[1..] + fs;
    }
  }

  lemma LeadsThen(s: State, es: seq<Step>, s1: State, e: Step)
    requires Leads(s, es, s1) && Enabled(s1, e)
    ensures Leads(s, es + [e], Next(s1, e))
  {
    assert Leads(s1, [e], Next(s1, e));
    LeadsJoin(s, es, s1, [e], Next(s1, e));
  }

  /** A client sends a goal before the server is finalized ... */
  lemma SendsOnly(m: GoalMsg) returns (es: seq<Step>, s: State)
    ensures Leads(INIT, es, s) && s.server == SERVER0 && m in s.goals
  {
    var s1 := Next(INIT, RegisterGoal(0, m.id, m.goal));
    s := Next(s1, SendGoal(0));
    assert m == GoalMsg(s1.handles[0].id, s1.handles[0].goal);
    LeadsStep(s1, SendGoal(0), [], s);
    LeadsStep(INIT, RegisterGoal(0, m.id, m.goal), [SendGoal(0)], s);
    es := [RegisterGoal(0, m.id, m.goal)] + [SendGoal(0)];
  }

  /** ... and then it is. */
  lemma Sends(m: GoalMsg) returns (es: seq<Step>, s: State)
    ensures Leads(INIT, es, s) && s.server == SERVER0.(finalized := true) && m in s.goals
  {
    var es1, s1 := SendsOnly(m);
    s := Next(s1, Finalize);
    LeadsStep(s1, Finalize, [], s);
    LeadsJoin(INIT, es1, s1, [Finalize], s);
    es := es1 + [Finalize];
  }

  /** A goal message that finds its id not active is accepted. */
  lemma Accepts(s: State, m: GoalMsg) returns (es: seq<Step>, s': State)
    requires !s.server.shuttingDown && m in s.goals && ToHex(m.id) !in s.server.active
    ensures Leads(s, es, s') && s'.goals == s.goals
    ensures s'.server == s.server.(active := s.server.active[ToHex(m.id) := |s.server.runs|],
                                   runs := s.server.runs + [Run(m.id, m.goal, false, Admitted)])
  {
    var s1 := Next(s, BeginGoal(m));
    s' := Next(s1, AcceptGoal(m));
    assert s1.server.calls - multiset{m} == s.server.calls;
    LeadsStep(s1, AcceptGoal(m), [], s');
    LeadsStep(s, BeginGoal(m), [AcceptGoal(m)], s');
    es := [BeginGoal(m)] + [AcceptGoal(m)];
  }

  /** A goal can be lost: shared_self is read before Finalize. */
  lemma LostReachable(m: GoalMsg)
    ensures exists es, s :: Leads(INIT, es, s) && s.server.runs == [Run(m.id, m.goal, false, Lost)]
  {
    var es, s1 := SendsOnly(m);
    var es1, s2 := Accepts(s1, m);
    var s := Next(s2, SpawnWorker(0));
    LeadsStep(s2, SpawnWorker(0), [], s);
    LeadsJoin(s1, es1, s2, [SpawnWorker(0)], s);
    LeadsJoin(INIT, es, s1, es1 + [SpawnWorker(0)], s);
  }

  /** A worker started on a finalized server can run and publish any outcome. */
  lemma Executes(s: State, n: nat, o: Outcome) returns (s': State, es: seq<Step>)
    requires s.server.finalized && n < |s.server.runs| && s.server.runs[n].phase.Admitted?
    ensures Leads(s, es, s') && |s'.server.runs| == |s.server.runs|
    ensures s'.server == s.server.(runs := s'.server.runs, spawned := s.server.spawned + {n}) && s'.goals == s.goals
    ensures forall i | 0 <= i < n :: s'.server.runs[i] == s.server.runs[i]
    ensures s'.server.runs[n] == s.server.runs[n].(phase := Published(o))
    ensures Message(s.server.runs[n].id, o) in s'.results
  {
    var s1 := Next(s, SpawnWorker(n));
    var s2 := Next(s1, Finish(n, o));
    s' := Next(s2, PublishResult(n));
    LeadsStep(s2, PublishResult(n), [], s');
    LeadsStep(s1, Finish(n, o), [PublishResult(n)], s');
    LeadsStep(s, SpawnWorker(n), [Finish(n, o)] + [PublishResult(n)], s');
    es := [SpawnWorker(n)] + ([Finish(n, o)] + [PublishResult(n)]);
  }
}

/** Destroying an action server of include/talosos/action.h: what the destructor's
    locked block covers, and exactly when it covers everything. */
module ActionShutdown {
  import opened ActionProtocol
  import opened ActionSafety

  // ---- With no HandleGoal under way ----

  /** No HandleGoal is between the shutting_down check and the registration of its
      thread: the window the destructor does not guard. */
  ghost predicate Quiet(sv: Server) {
    sv.calls == multiset{} && sv.spawned == {} && forall r | r in sv.runs :: !r.phase.Admitted?
  }

  /** Nothing can start any more, and everything not yet over has been asked to stop
      and is among the threads the destructor joins. */
  ghost predicate Covered(sv: Server) {
    && sv.shuttingDown && sv.lockedDown && Quiet(sv)
    && forall n | 0 <= n < |sv.runs| && !sv.runs[n].phase.Erased? :: sv.runs[n].cancel && n in sv.joined
  }

  lemma LockCovers(sv: Server)
    requires ActiveInv(sv) && WorkerInv(sv) && Quiet(sv) && sv.shuttingDown && !sv.lockedDown
    ensures Covered(LockDown(sv))
  {
    var sv' := LockDown(sv);
    forall n | 0 <= n < |sv'.runs|
      ensures !sv'.runs[n].phase.Admitted?
      ensures !sv'.runs[n].phase.Erased? ==> sv'.runs[n].cancel && n in sv'.joined
    {
      LockOnRun(sv, n);
      assert sv.runs[n] in sv.runs;
    }
  }

  lemma CoveredKept(s: State, e: Step)
    requires Enabled(s, e) && ActiveInv(s.server) && Covered(s.server)
    ensures Covered(Next(s, e).server)
  {
    var sv, sv' := s.server, Next(s, e).server;
    assert |sv'.runs| == |sv.runs|;
    assert sv'.joined == sv.joined && sv'.spawned == {} && sv'.calls == sv.calls;
    forall n | 0 <= n < |sv.runs|
      ensures !sv'.runs[n].phase.Admitted?
      ensures !sv'.runs[n].phase.Erased? ==> sv'.runs[n].cancel && n in sv'.joined
    {
      assert sv.runs[n] in sv.runs;
      StepOnRun(s, e, n);
    }
  }

  /** Destroying a server with no HandleGoal under way: from the locked block on no
      goal is accepted, every execution not yet over has its flag set, and its thread
      is one the destructor joins. */
  lemma {:induction false} ShutdownCovers(ss: seq<State>, es: seq<Step>, t: nat, j: nat)
    requires Trace(ss, es) && t < j < |ss| && es[t].LockedShutdown? && Quiet(ss[t].server)
    ensures Covered(ss[j].server) && |ss[j].server.runs| == |ss[t].server.runs|
  {
    AlwaysInv(ss, es, j - 1);
    assert StepAt(ss, es, j - 1);
    if j == t + 1 {
      LockCovers(ss[t].server);
    } else {
      ShutdownCovers(ss, es, t, j - 1);
      CoveredKept(ss[j - 1], es[j - 1]);
      NoNewRuns(ss[j - 1], es[j - 1]);
    }
  }

  lemma NoNewRuns(s: State, e: Step)
    requires Enabled(s, e) && Covered(s.server)
    ensures |Next(s, e).server.runs| == |s.server.runs|
  {
  }

  // ---- Exactly when nothing is missed ----

  /** Started and not yet over. */
  predicate Live(r: Run) { r.phase.Running? || r.phase.Computed? || r.phase.Published? }

  /** Every execution under way has been asked to stop and is one of the threads the
      destructor joins. */
  ghost predicate Guarded(sv: Server) {
    forall n | 0 <= n < |sv.runs| && Live(sv.runs[n]) :: sv.runs[n].cancel && n in sv.joined
  }

  /** The goal is active for good: its thread was lost. */
  ghost predicate Blocked(sv: Server, m: GoalMsg) {
    var k := ToHex(m.id);
    k in sv.active && sv.active[k] < |sv.runs| && sv.runs[sv.active[k]].phase.Lost?
  }

  /** Whoever is past the shutting_down check can do no harm: no accepted goal waits
      for its thread, threads not yet registered are over, and the goals still to be
      looked up are blocked. */
  ghost predicate Sealed(sv: Server) {
    && (forall n | 0 <= n < |sv.runs| :: !sv.runs[n].phase.Admitted?)
    && (forall n | n in sv.spawned :: n < |sv.runs| && !Live(sv.runs[n]))
    && (forall m | m in sv.calls :: Blocked(sv, m))
  }

  ghost predicate Tight(sv: Server) {
    sv.shuttingDown && sv.lockedDown && Sealed(sv) && Guarded(sv)
  }

  lemma LockTightens(sv: Server)
    requires ActiveInv(sv) && WorkerInv(sv) && Sealed(sv) && sv.shuttingDown && !sv.lockedDown
    ensures Tight(LockDown(sv))
  {
    var sv' := LockDown(sv);
    forall n | 0 <= n < |sv.runs|
      ensures sv'.runs[n].phase == sv.runs[n].phase
      ensures Live(sv'.runs[n]) ==> sv'.runs[n].cancel && n in sv'.joined
    {
      LockOnRun(sv, n);
    }
    forall m | m in sv'.calls ensures Blocked(sv', m) {
      assert Blocked(sv, m);
    }
  }

  lemma BlockedKept(s: State, e: Step, m: GoalMsg)
    requires Enabled(s, e) && ActiveInv(s.server) && Blocked(s.server, m)
    ensures Blocked(Next(s, e).server, m)
  {
    var sv, sv' := s.server, Next(s, e).server;
    var n := sv.active[ToHex(m.id)];
    StepOnRun(s, e, n);
    ActiveKept(s, e);
    assert !sv'.runs[n].phase.Erased? && Key(sv'.runs[n]) == ToHex(m.id);
  }

  lemma CallsKept(s: State, e: Step)
    requires Enabled(s, e) && ActiveInv(s.server) && Tight(s.server)
    ensures |Next(s, e).server.runs| == |s.server.runs| && Next(s, e).server.spawned <= s.server.spawned
    ensures forall m | m in Next(s, e).server.calls :: m in s.server.calls
  {
    if e.AcceptGoal? {
      assert Blocked(s.server, e.goalMsg);
    }
  }

  lemma SealedKept(s: State, e: Step)
    requires Enabled(s, e) && ActiveInv(s.server) && Tight(s.server)
    ensures Sealed(Next(s, e).server)
  {
    var sv, sv' := s.server, Next(s, e).server;
    CallsKept(s, e);
    forall n | 0 <= n < |sv.runs|
      ensures !sv'.runs[n].phase.Admitted? && (!Live(sv.runs[n]) ==> !Live(sv'.runs[n]))
    {
      PhaseStep(s, e, n);
    }
    forall m | m in sv'.calls ensures Blocked(sv', m) {
      BlockedKept(s, e, m);
    }
  }

  /** Only creating its thread brings an acceptance to life. */
  lemma PhaseStep(s: State, e: Step, n: nat)
    requires Enabled(s, e) && ActiveInv(s.server) && n < |s.server.runs| && !s.server.runs[n].phase.Admitted?
    ensures n < |Next(s, e).server.runs| && !Next(s, e).server.runs[n].phase.Admitted?
    ensures !Live(s.server.runs[n]) ==> !Live(Next(s, e).server.runs[n])
  {
    StepOnRun(s, e, n);
  }

  lemma TightKept(s: State, e: Step)
    requires Enabled(s, e) && ActiveInv(s.server) && Tight(s.server)
    ensures Tight(Next(s, e).server)
  {
    SealedKept(s, e);
    CallsKept(s, e);
    var sv, sv' := s.server, Next(s, e).server;
    forall n | 0 <= n < |sv'.runs| && Live(sv'.runs[n]) ensures sv'.runs[n].cancel && n in sv'.joined {
      StepOnRun(s, e, n);
      PhaseStep(s, e, n);
    }
  }

  lemma {:induction false} TightForever(s: State, es: seq<Step>, s': State)
    requires Inv(s) && Tight(s.server) && Leads(s, es, s')
    ensures Tight(s'.server)
    decreases |es|
  {
    if es != [] {
      TightKept(s, es[0]);
      InvKept(s, es[0]);
      TightForever(Next(s, es[0]), es[1..], s');
    }
  }

  /** An accepted goal whose thread is not joined can start. */
  lemma StartsUnjoined(s: State, n: nat) returns (es: seq<Step>, s': State)
    requires s.server.finalized
    requires n < |s.server.runs| && s.server.runs[n].phase.Admitted? && n !in s.server.joined
    ensures Leads(s, es, s') && !Guarded(s'.server)
  {
    s' := Next(s, SpawnWorker(n));
    es := [SpawnWorker(n)];
    LeadsStep(s, SpawnWorker(n), [], s');
    assert Live(s'.server.runs[n]);
  }

  lemma AcceptsUnjoined(s: State, m: GoalMsg) returns (es: seq<Step>, s': State)
    requires s.server.finalized
    requires m in s.server.calls && ToHex(m.id) !in s.server.active && |s.server.runs| !in s.server.joined
    ensures Leads(s, es, s') && !Guarded(s'.server)
  {
    var s1 := Next(s, AcceptGoal(m));
    var rest;
    rest, s' := StartsUnjoined(s1, |s.server.runs|);
    LeadsStep(s, AcceptGoal(m), rest, s');
    es := [AcceptGoal(m)] + rest;
  }

  function Left(p: Phase): nat {
    match p
    case Running => 3
    case Computed(_) => 2
    case Published(_) => 1
    case _ => 0
  }

  /** The next step of a live execution. */
  function Onward(r: Run, n: nat): Step
    requires Live(r)
  {
    if r.phase.Running? then Finish(n, Threw) else if r.phase.Computed? then PublishResult(n) else EraseRun(n)
  }

  lemma OnwardMoves(s: State, n: nat)
    requires n < |s.server.runs| && Live(s.server.runs[n])
    requires Key(s.server.runs[n]) in s.server.active && s.server.active[Key(s.server.runs[n])] == n
    ensures var e, k := Onward(s.server.runs[n], n), Key(s.server.runs[n]);
            && Enabled(s, e)
            && Next(s, e).server.finalized == s.server.finalized
            && Next(s, e).server.calls == s.server.calls && Left(s.server.runs[n].phase) > 0
            && (k in Next(s, e).server.active ==>
                  && Next(s, e).server.active[k] == n && n < |Next(s, e).server.runs|
                  && Live(Next(s, e).server.runs[n])
                  && Left(Next(s, e).server.runs[n].phase) < Left(s.server.runs[n].phase))
  {
  }

  /** A duplicate that waits for an execution under way is accepted once that is over,
      and starts unjoined. */
  lemma {:induction false} OutlivesUnjoined(s: State, m: GoalMsg) returns (es: seq<Step>, s': State)
    requires ActiveInv(s.server) && WorkerInv(s.server) && s.server.finalized && m in s.server.calls
    requires ToHex(m.id) in s.server.active ==> Live(s.server.runs[s.server.active[ToHex(m.id)]])
    ensures Leads(s, es, s') && !Guarded(s'.server)
    decreases if ToHex(m.id) in s.server.active then Left(s.server.runs[s.server.active[ToHex(m.id)]].phase) else 0
  {
    hide Next, Enabled, Left, Onward, Live, Leads, Guarded;
    var k := ToHex(m.id);
    if k !in s.server.active {
      es, s' := AcceptsUnjoined(s, m);
    } else {
      var n := s.server.active[k];
      var e := Onward(s.server.runs[n], n);
      OnwardMoves(s, n);
      ActiveKept(s, e);
      WorkersKept(s, e);
      var rest;
      rest, s' := OutlivesUnjoined(Next(s, e), m);
      LeadsStep(s, e, rest, s');
      es := [e] + rest;
    }
  }

  lemma LockLeaves(sv: Server)
    requires ActiveInv(sv)
    ensures var sv' := LockDown(sv);
            && |sv'.runs| == |sv.runs| && sv'.active == sv.active && sv'.calls == sv.calls
            && sv'.finalized == sv.finalized && sv'.joined == sv.workers
            && forall n | 0 <= n < |sv.runs| :: sv'.runs[n].phase == sv.runs[n].phase
  {
    forall n | 0 <= n < |sv.runs| ensures LockDown(sv).runs[n].phase == sv.runs[n].phase {
      LockOnRun(sv, n);
    }
  }

  /** The state after the destructor's locked block. */
  function Locked(s: State): State
    requires s.server.shuttingDown && !s.server.lockedDown
  {
    Next(s, LockedShutdown)
  }

  lemma NotGuarded(s: State, n: nat)
    requires n < |s.server.runs| && Live(s.server.runs[n]) && n !in s.server.joined
    ensures Leads(s, [], s) && !Guarded(s.server)
  {
  }

  /** The three ways of not being sealed, once the destructor has locked. */
  lemma AdmittedBreaks(s: State, n: nat) returns (es: seq<Step>, s': State)
    requires Inv(s) && s.server.finalized && !s.server.lockedDown
    requires s.server.shuttingDown && n < |s.server.runs| && s.server.runs[n].phase.Admitted?
    ensures Leads(Locked(s), es, s') && !Guarded(s'.server)
  {
    hide ActiveInv, SerialInv, NetInv, ClientInv;
    LockLeaves(s.server);
    hide LockDown, Leads, Guarded;
    es, s' := StartsUnjoined(Locked(s), n);
  }

  lemma UnregisteredBreaks(s: State, n: nat)
    requires Inv(s) && !s.server.lockedDown && s.server.shuttingDown
    requires n in s.server.spawned && Live(s.server.runs[n])
    ensures Leads(Locked(s), [], Locked(s)) && !Guarded(Locked(s).server)
  {
    hide ActiveInv, SerialInv, NetInv, ClientInv;
    LockLeaves(s.server);
    hide LockDown;
    NotGuarded(Locked(s), n);
  }

  lemma WaitingBreaks(s: State, m: GoalMsg) returns (es: seq<Step>, s': State)
    requires Inv(s) && s.server.finalized && !s.server.lockedDown && s.server.shuttingDown
    requires m in s.server.calls && !Blocked(s.server, m)
    requires forall n | 0 <= n < |s.server.runs| :: !s.server.runs[n].phase.Admitted?
    ensures Leads(Locked(s), es, s') && !Guarded(s'.server)
  {
    LockKeepsActive(s.server);
    LockKeepsWorkers(s.server);
    LockLeaves(s.server);
    hide LockDown, Leads, Guarded;
    es, s' := OutlivesUnjoined(Locked(s), m);
  }

  /** A finalized server that is not sealed when the destructor locks goes wrong
      afterwards. */
  lemma UnsealedBreaks(s: State) returns (es: seq<Step>, s': State)
    requires Inv(s) && s.server.finalized && s.server.shuttingDown && !s.server.lockedDown && !Sealed(s.server)
    ensures Leads(Locked(s), es, s') && !Guarded(s'.server)
  {
    hide Locked, Leads, Guarded, ActiveInv, SerialInv, NetInv, ClientInv;
    var sv := s.server;
    if n: nat :| n < |sv.runs| && sv.runs[n].phase.Admitted? {
      es, s' := AdmittedBreaks(s, n);
    } else if n: nat :| n in sv.spawned && Live(sv.runs[n]) {
      es, s' := [], Locked(s);
      UnregisteredBreaks(s, n);
    } else {
      var m :| m in sv.calls && !Blocked(sv, m);
      es, s' := WaitingBreaks(s, m);
    }
  }

  /** Whatever happens from s on, every execution under way has its flag set and is
      among the threads joined. */
  ghost predicate StaysGuarded(s: State) {
    forall es, s' :: Leads(s, es, s') ==> Guarded(s'.server)
  }

  lemma TightStays(s: State)
    requires Inv(s) && Tight(s.server)
    ensures StaysGuarded(s)
  {
    forall es, s' | Leads(s, es, s') ensures Guarded(s'.server) {
      TightForever(s, es, s');
    }
  }

  lemma Broken(s: State, es: seq<Step>, s': State)
    requires Leads(s, es, s') && !Guarded(s'.server)
    ensures !StaysGuarded(s)
  {
    hide Leads, Guarded;
  }

  lemma DestructionKept(s: State, e: Step)
    requires Enabled(s, e) && s.server.shuttingDown
    ensures Next(s, e).server.shuttingDown && Next(s, e).server.finalized == s.server.finalized
  {
  }

  /** A server destroyed without having been finalized never executes anything. */
  lemma {:induction false} NeverStarts(s: State, es: seq<Step>, s': State)
    requires Inv(s) && EarlyInv(s.server) && s.server.shuttingDown && !s.server.finalized && Leads(s, es, s')
    ensures Guarded(s'.server)
    decreases |es|
  {
    hide Next, SerialInv, NetInv, ClientInv, WorkerInv;
    if es != [] {
      InvKept(s, es[0]);
      EarlyKept(s, es[0]);
      DestructionKept(s, es[0]);
      NeverStarts(Next(s, es[0]), es[1..], s');
    }
  }

  lemma UnfinalizedStays(s: State)
    requires Inv(s) && EarlyInv(s.server) && s.server.shuttingDown && !s.server.finalized
    ensures StaysGuarded(s)
  {
    forall es, s' | Leads(s, es, s') ensures Guarded(s'.server) {
      NeverStarts(s, es, s');
    }
  }

  /** In every reachable state in which the destructor is about to lock: whatever
      happens afterwards, every execution under way has its flag set and is among the
      threads joined, if and only if the server was never finalized or the state is
      sealed. */
  lemma ShutdownExactly(ss: seq<State>, steps: seq<Step>, t: nat)
    requires Trace(ss, steps) && t < |ss| && ss[t].server.shuttingDown && !ss[t].server.lockedDown
    ensures !ss[t].server.finalized || Sealed(ss[t].server) <==> StaysGuarded(Locked(ss[t]))
  {
    AlwaysInv(ss, steps, t);
    if !ss[t].server.finalized {
      AlwaysEarly(ss, steps, t);
      InvKept(ss[t], LockedShutdown);
      EarlyKept(ss[t], LockedShutdown);
      UnfinalizedStays(Next(ss[t], LockedShutdown));
    } else if Sealed(ss[t].server) {
      LockTightens(ss[t].server);
      InvKept(ss[t], LockedShutdown);
      TightStays(Next(ss[t], LockedShutdown));
    } else {
      var es, s' := UnsealedBreaks(ss[t]);
      Broken(Next(ss[t], LockedShutdown), es, s');
    }
  }

  /** No HandleGoal under way is one way to be sealed. */
  lemma QuietIsSealed(sv: Server)
    requires Quiet(sv)
    ensures Sealed(sv)
  {
  }

  // ---- A race that is reachable ----

  /** A HandleGoal for a goal not active is past the shutting_down check when the
      destructor is about to lock. */
  ghost predicate Exposed(s: State, m: GoalMsg) {
    && s.server.finalized && s.server.shuttingDown && !s.server.lockedDown
    && m in s.server.calls && ToHex(m.id) !in s.server.active
  }

  lemma RaceReachable(m: GoalMsg)
    ensures exists es, s :: Leads(INIT, es, s) && Exposed(s, m)
  {
    var es, s3 := Sends(m);
    var s4 := Next(s3, BeginGoal(m));
    var s := Next(s4, BeginShutdown);
    assert m in s.server.calls;
    LeadsStep(s4, BeginShutdown, [], s);
    LeadsStep(s3, BeginGoal(m), [BeginShutdown], s);
    LeadsJoin(INIT, es, s3, [BeginGoal(m)] + [BeginShutdown], s);
  }

  /** Such a state breaks the destructor's promise: a HandleGoal past the check, for a
      goal not active, can register and start it after the locked block, unflagged and
      unjoined. */
  lemma ShutdownRace(s: State, m: GoalMsg)
    requires WorkerInv(s.server) && Exposed(s, m)
    ensures var n := |s.server.runs|;
            exists es, s' :: Leads(s, es, s') && s'.server.lockedDown && n < |s'.server.runs|
              && s'.server.runs[n] == Run(m.id, m.goal, false, Running) && n !in s'.server.joined
  {
    var n := |s.server.runs|;
    var s1 := Next(s, LockedShutdown);
    var s2 := Next(s1, AcceptGoal(m));
    assert s2.server.runs[n] == Run(m.id, m.goal, false, Admitted);
    var s3 := Next(s2, SpawnWorker(n));
    LeadsStep(s2, SpawnWorker(n), [], s3);
    LeadsStep(s1, AcceptGoal(m), [SpawnWorker(n)], s3);
    LeadsStep(s, LockedShutdown, [AcceptGoal(m)] + [SpawnWorker(n)], s3);
  }

  /** A thread created and not yet registered is missed at once. */
  lemma UnregisteredReachable(m: GoalMsg)
    ensures exists es, s :: Leads(INIT, es, s) && s.server.lockedDown && !Guarded(s.server)
                            && forall c | c in s.server.calls :: ToHex(c.id) in s.server.active
  {
    hide Leads;
    var es0, s0 := Sends(m);
    var es1, s1 := Accepts(s0, m);
    LeadsJoin(INIT, es0, s0, es1, s1);
    var es := es0 + es1;
    LeadsThen(INIT, es, s1, SpawnWorker(0));
    var s2 := Next(s1, SpawnWorker(0));
    LeadsThen(INIT, es + [SpawnWorker(0)], s2, BeginShutdown);
    var s3 := Next(s2, BeginShutdown);
    LeadsThen(INIT, es + [SpawnWorker(0)] + [BeginShutdown], s3, LockedShutdown);
    var s := Next(s3, LockedShutdown);
    assert Live(s.server.runs[0]) && s.server.joined == {};
  }
}

/** Duplicate goal messages at an action server: exactly when one is ignored, and
    exactly when a goal is accepted twice. */
module ActionDuplicates {
  import opened ActionProtocol
  import opened ActionSafety

  // ---- Over every run ----

  /** The run of the goal's id that is not over. */
  ghost predicate UnderWay(sv: Server, id: GoalId) {
    exists n :: 0 <= n < |sv.runs| && sv.runs[n].id == id && !sv.runs[n].phase.Erased?
  }

  lemma ActiveIsUnderWay(sv: Server, id: GoalId)
    requires ActiveInv(sv)
    ensures ToHex(id) in sv.active <==> UnderWay(sv, id)
  {
    var k := ToHex(id);
    if k in sv.active {
      var n := sv.active[k];
      ToHexInjective(sv.runs[n].id, id);
      assert sv.runs[n].id == id && !sv.runs[n].phase.Erased?;
    }
  }

  /** A goal message that HandleGoal looks up is ignored if and only if some acceptance
      of its id is not yet over; otherwise it is accepted. */
  lemma DuplicateExactly(ss: seq<State>, es: seq<Step>, t: nat, m: GoalMsg)
    requires Trace(ss, es) && t < |es| && es[t] == AcceptGoal(m)
    ensures UnderWay(ss[t].server, m.id) ==> ss[t + 1].server.runs == ss[t].server.runs
    ensures !UnderWay(ss[t].server, m.id) ==>
              ss[t + 1].server.runs == ss[t].server.runs + [Run(m.id, m.goal, false, Admitted)]
  {
    AlwaysInv(ss, es, t);
    assert StepAt(ss, es, t);
    ActiveIsUnderWay(ss[t].server, m.id);
  }

  lemma EraseStep(s: State, e: Step, n: nat)
    requires Enabled(s, e) && ActiveInv(s.server) && n < |s.server.runs|
    ensures n < |Next(s, e).server.runs|
    ensures Next(s, e).server.runs[n].phase.Erased? <==> s.server.runs[n].phase.Erased? || e == EraseRun(n)
  {
    StepOnRun(s, e, n);
  }

  ghost predicate ErasedBy(es: seq<Step>, j: nat, n: nat)
    requires j <= |es|
  {
    exists u: nat :: u < j && es[u] == EraseRun(n)
  }

  /** An execution is over if and only if its worker took its last locked step. */
  lemma {:induction false} ErasedExactly(ss: seq<State>, es: seq<Step>, j: nat, n: nat)
    requires Trace(ss, es) && j < |ss| && n < |ss[j].server.runs|
    ensures ss[j].server.runs[n].phase.Erased? <==> ErasedBy(es, j, n)
  {
    hide Next, Enabled, ActiveInv, SerialInv, WorkerInv, NetInv, ClientInv;
    if j > 0 {
      AlwaysInv(ss, es, j - 1);
      assert StepAt(ss, es, j - 1);
      assert ErasedBy(es, j, n) <==> ErasedBy(es, j - 1, n) || es[j - 1] == EraseRun(n);
      if n < |ss[j - 1].server.runs| {
        ErasedExactly(ss, es, j - 1, n);
        EraseStep(ss[j - 1], es[j - 1], n);
      } else {
        NewStep(ss[j - 1], es[j - 1]);
        forall u: nat | u < j ensures es[u] != EraseRun(n) {
          Grows(ss, es, u, j - 1);
          ErasesOld(ss, es, u, n);
        }
      }
    }
  }

  lemma ErasesOld(ss: seq<State>, es: seq<Step>, u: nat, n: nat)
    requires Trace(ss, es) && u < |es| && n >= |ss[u].server.runs|
    ensures es[u] != EraseRun(n)
  {
    assert StepAt(ss, es, u);
  }

  /** Every acceptance came from a goal message of its id, looked up when the runs
      before it existed. */
  lemma {:induction false} AcceptedAt(ss: seq<State>, es: seq<Step>, j: nat, n: nat) returns (t: nat)
    requires Trace(ss, es) && j < |ss| && n < |ss[j].server.runs|
    ensures t < j && es[t].AcceptGoal? && es[t].goalMsg.id == ss[j].server.runs[n].id
    ensures |ss[t].server.runs| == n < |ss[t + 1].server.runs|
  {
    hide Next, Enabled, ActiveInv, SerialInv, WorkerInv, NetInv, ClientInv;
    assert j > 0;
    assert StepAt(ss, es, j - 1);
    if n < |ss[j - 1].server.runs| {
      t := AcceptedAt(ss, es, j - 1, n);
      Grows(ss, es, j - 1, j);
    } else {
      NewStep(ss[j - 1], es[j - 1]);
      t := j - 1;
    }
  }

  ghost predicate AcceptedTwice(ss: seq<State>, j: nat, id: GoalId)
    requires j < |ss|
  {
    exists m, n :: 0 <= m < n < |ss[j].server.runs| && ss[j].server.runs[m].id == id == ss[j].server.runs[n].id
  }

  /** A goal message of the id was looked up after an execution of the id was over. */
  ghost predicate LookedUpLate(ss: seq<State>, es: seq<Step>, j: nat, id: GoalId)
    requires j <= |es| < |ss|
  {
    exists u: nat, t: nat, n: nat :: u < t < j && es[u] == EraseRun(n) && n < |ss[u].server.runs|
      && ss[u].server.runs[n].id == id && es[t].AcceptGoal? && es[t].goalMsg.id == id
  }

  /** Over every run: an id is accepted twice if and only if one of its goal messages is
      looked up after an execution of it was over. */
  lemma TwiceExactly(ss: seq<State>, es: seq<Step>, j: nat, id: GoalId)
    requires Trace(ss, es) && j < |ss|
    ensures AcceptedTwice(ss, j, id) <==> LookedUpLate(ss, es, j, id)
  {
    if AcceptedTwice(ss, j, id) {
      var m: nat, n: nat :| m < n < |ss[j].server.runs| && ss[j].server.runs[m].id == id == ss[j].server.runs[n].id;
      TwiceIsLate(ss, es, j, m, n);
    }
    if LookedUpLate(ss, es, j, id) {
      var u: nat, t: nat, n: nat :|
        u < t < j && es[u] == EraseRun(n) && n < |ss[u].server.runs|
        && ss[u].server.runs[n].id == id && es[t].AcceptGoal? && es[t].goalMsg.id == id;
      LateIsTwice(ss, es, j, u, t, n);
    }
  }

  lemma TwiceIsLate(ss: seq<State>, es: seq<Step>, j: nat, m: nat, n: nat)
    requires Trace(ss, es) && j < |ss| && m < n < |ss[j].server.runs|
    requires ss[j].server.runs[m].id == ss[j].server.runs[n].id
    ensures LookedUpLate(ss, es, j, ss[j].server.runs[n].id)
  {
    var id := ss[j].server.runs[n].id;
    var t := AcceptedAt(ss, es, j, n);
    Grows(ss, es, t, j);
    assert ss[t].server.runs[m].id == id;
    DuplicateExactly(ss, es, t, es[t].goalMsg);
    assert ss[t].server.runs[m].phase.Erased?;
    ErasedExactly(ss, es, t, m);
    var u: nat :| u < t && es[u] == EraseRun(m);
    if m >= |ss[u].server.runs| {
      ErasesOld(ss, es, u, m);
    }
    Grows(ss, es, u, t);
    assert ss[u].server.runs[m].id == id;
  }

  lemma LateIsTwice(ss: seq<State>, es: seq<Step>, j: nat, u: nat, t: nat, n: nat)
    requires Trace(ss, es) && u < t < j < |ss| && es[u] == EraseRun(n) && n < |ss[u].server.runs|
    requires es[t].AcceptGoal? && es[t].goalMsg.id == ss[u].server.runs[n].id
    ensures AcceptedTwice(ss, j, ss[u].server.runs[n].id)
  {
    var id := ss[u].server.runs[n].id;
    Grows(ss, es, u, t);
    ErasedExactly(ss, es, t, n);
    DuplicateExactly(ss, es, t, es[t].goalMsg);
    Grows(ss, es, t, t + 1);
    Grows(ss, es, t + 1, j);
    var k: nat := |ss[t].server.runs|;
    if UnderWay(ss[t].server, id) {
      k :| k < |ss[t].server.runs| && ss[t].server.runs[k].id == id && !ss[t].server.runs[k].phase.Erased?;
    }
    assert k != n && ss[j].server.runs[k].id == id && ss[j].server.runs[n].id == id;
  }

  // ---- Runs that do happen ----

  /** Duplicates are suppressed only while their goal is active: one delivered after
      the execution is over is executed again, and once more publishes a result. */
  lemma LateDuplicate(s: State, m: GoalMsg, o: Outcome)
    requires s.server.finalized && !s.server.shuttingDown
    requires m in s.goals && ToHex(m.id) !in s.server.active
    ensures var n := |s.server.runs|;
            exists es, s' :: Leads(s, es, s') && n < |s'.server.runs|
              && s'.server.runs[n] == Run(m.id, m.goal, false, Published(o))
              && match o
                 case Returned(st, r) => ResultMsg(m.id, st, r) in s'.results
                 case Threw => ResultMsg(m.id, Aborted, Default) in s'.results
  {
    var es1, s1 := Accepts(s, m);
    var s', es := Executes(s1, |s.server.runs|, o);
    LeadsJoin(s, es1, s1, es, s');
  }

  /** A goal message that finds its id not active can be executed from beginning to
      end, after which it finds it not active again. */
  lemma Completes(s: State, m: GoalMsg, o: Outcome) returns (es: seq<Step>, s': State)
    requires s.server.finalized && !s.server.shuttingDown && m in s.goals && ToHex(m.id) !in s.server.active
    ensures Leads(s, es, s') && s'.server.runs == s.server.runs + [Run(m.id, m.goal, false, Erased(o))]
    ensures s'.server.finalized && !s'.server.shuttingDown && m in s'.goals && ToHex(m.id) !in s'.server.active
  {
    var n := |s.server.runs|;
    var es1, s1 := Accepts(s, m);
    var s2, es2 := Executes(s1, n, o);
    s' := Next(s2, EraseRun(n));
    LeadsStep(s2, EraseRun(n), [], s');
    LeadsJoin(s1, es2, s2, [EraseRun(n)], s');
    LeadsJoin(s, es1, s1, es2 + [EraseRun(n)], s');
    es := es1 + (es2 + [EraseRun(n)]);
  }

  /** From the initial state, one goal message can be executed twice, with different
      outcomes. */
  lemma ExecutedTwice(m: GoalMsg, o: Outcome, p: Outcome)
    ensures exists es, s :: Leads(INIT, es, s)
              && s.server.runs == [Run(m.id, m.goal, false, Erased(o)), Run(m.id, m.goal, false, Erased(p))]
  {
    var es, s := Sends(m);
    var es1, s1 := Completes(s, m, o);
    var es2, s2 := Completes(s1, m, p);
    LeadsJoin(INIT, es, s, es1, s1);
    LeadsJoin(INIT, es + es1, s1, es2, s2);
  }

  /** One looked up while the goal is active is dropped. */
  lemma EarlyDuplicate(sv: Server, m: GoalMsg)
    ensures Accept(sv, m).runs == sv.runs <==> ToHex(m.id) in sv.active
  {
    assert |sv.runs + [Run(m.id, m.goal, false, Admitted)]| == |sv.runs| + 1;
  }
}

/** What the messages of the action protocol carry: over every run exactly what was
    sent, published and stored, and a run in which one goal goes all the way. */
module ActionDelivery {
  import opened ActionProtocol
  import opened ActionSafety

  // ---- On the wire, exactly ----

  ghost predicate CancelSent(ss: seq<State>, es: seq<Step>, j: nat, id: GoalId)
    requires j <= |es| < |ss|
  {
    exists t: nat :: t < j && SendsCancel(ss[t], es[t], id)
  }

  predicate SendsCancel(s: State, e: Step, id: GoalId) {
    e.SendCancel? && e.h < |s.handles| && s.handles[e.h].id == id
  }

  lemma CancelStep(s: State, e: Step, id: GoalId)
    requires Enabled(s, e)
    ensures id in Next(s, e).cancels <==> id in s.cancels || SendsCancel(s, e, id)
  {
  }

  /** A cancel message is on its way if and only if a client asked for it through a
      handle of that id. */
  lemma {:induction false} CancelsExactly(ss: seq<State>, es: seq<Step>, j: nat, id: GoalId)
    requires Trace(ss, es) && j < |ss|
    ensures id in ss[j].cancels <==> CancelSent(ss, es, j, id)
  {
    hide Next, Enabled, SendsCancel;
    if j > 0 {
      CancelsExactly(ss, es, j - 1, id);
      assert StepAt(ss, es, j - 1);
      CancelStep(ss[j - 1], es[j - 1], id);
      assert CancelSent(ss, es, j, id) <==> CancelSent(ss, es, j - 1, id) || SendsCancel(ss[j - 1], es[j - 1], id);
    }
  }

  ghost predicate GoalSent(ss: seq<State>, es: seq<Step>, j: nat, m: GoalMsg)
    requires j <= |es| < |ss|
  {
    exists t: nat :: t < j && SendsGoal(ss[t], es[t], m)
  }

  predicate SendsGoal(s: State, e: Step, m: GoalMsg) {
    e.SendGoal? && e.h < |s.handles| && s.handles[e.h].id == m.id && s.handles[e.h].goal == m.goal
  }

  lemma GoalStep(s: State, e: Step, m: GoalMsg)
    requires Enabled(s, e)
    ensures m in Next(s, e).goals <==> m in s.goals || SendsGoal(s, e, m)
  {
  }

  /** A goal message is on its way if and only if a client sent it: the id and the goal
      of one of its handles. */
  lemma {:induction false} GoalsExactly(ss: seq<State>, es: seq<Step>, j: nat, m: GoalMsg)
    requires Trace(ss, es) && j < |ss|
    ensures m in ss[j].goals <==> GoalSent(ss, es, j, m)
  {
    hide Next, Enabled, SendsGoal;
    if j > 0 {
      GoalsExactly(ss, es, j - 1, m);
      assert StepAt(ss, es, j - 1);
      GoalStep(ss[j - 1], es[j - 1], m);
      assert GoalSent(ss, es, j, m) <==> GoalSent(ss, es, j - 1, m) || SendsGoal(ss[j - 1], es[j - 1], m);
    }
  }

  ghost predicate ResultSent(ss: seq<State>, es: seq<Step>, j: nat, msg: ResultMsg)
    requires j <= |es| < |ss|
  {
    exists t: nat :: t < j && Publishes(ss[t], es[t], msg)
  }

  /** The worker publishes what the execution it ran came to. */
  predicate Publishes(s: State, e: Step, msg: ResultMsg) {
    && e.PublishResult? && e.n < |s.server.runs| && s.server.runs[e.n].phase.Computed?
    && Reports(msg, s.server.runs[e.n].id, s.server.runs[e.n].phase.outcome)
  }

  lemma ResultStep(s: State, e: Step, msg: ResultMsg)
    requires Enabled(s, e)
    ensures msg in Next(s, e).results <==> msg in s.results || Publishes(s, e, msg)
  {
    if e.PublishResult? {
      var r := s.server.runs[e.n];
      MessageReports(r.id, r.phase.outcome, msg);
    }
  }

  /** A result message is on its way if and only if a worker published it, with the
      status and the value its execution returned, or Aborted and the initialized
      result when it threw. */
  lemma {:induction false} ResultsExactly(ss: seq<State>, es: seq<Step>, j: nat, msg: ResultMsg)
    requires Trace(ss, es) && j < |ss|
    ensures msg in ss[j].results <==> ResultSent(ss, es, j, msg)
  {
    hide Next, Enabled, Publishes;
    if j > 0 {
      ResultsExactly(ss, es, j - 1, msg);
      assert StepAt(ss, es, j - 1);
      ResultStep(ss[j - 1], es[j - 1], msg);
      assert ResultSent(ss, es, j, msg) <==> ResultSent(ss, es, j - 1, msg) || Publishes(ss[j - 1], es[j - 1], msg);
    }
  }

  // ---- In the handle, exactly ----

  ghost predicate Stored(ss: seq<State>, es: seq<Step>, j: nat, h: nat, msg: ResultMsg)
    requires j <= |es| < |ss|
  {
    exists t: nat :: t < j && Stores(ss[t], es[t], h, msg)
  }

  predicate Stores(s: State, e: Step, h: nat, msg: ResultMsg) {
    e == StoreResult(h) && h in s.taken && s.taken[h] == msg
  }

  lemma StoreStep(s: State, e: Step, h: nat, msg: ResultMsg)
    requires Enabled(s, e) && ClientInv(s) && h < |s.handles|
    ensures h < |Next(s, e).handles|
    ensures Next(s, e).handles[h].result == Some(msg) <==> s.handles[h].result == Some(msg) || Stores(s, e, h, msg)
  {
  }

  lemma NewHandle(s: State, e: Step, h: nat)
    requires Enabled(s, e) && |s.handles| <= h < |Next(s, e).handles|
    ensures Next(s, e).handles[h].result.None?
  {
  }

  lemma StoresOld(s: State, e: Step, h: nat, msg: ResultMsg)
    requires Enabled(s, e) && h >= |s.handles|
    ensures !Stores(s, e, h, msg)
  {
  }

  /** A handle holds a result if and only if the client's callback stored it there. */
  lemma {:induction false} StoredExactly(ss: seq<State>, es: seq<Step>, j: nat, h: nat, msg: ResultMsg)
    requires Trace(ss, es) && j < |ss| && h < |ss[j].handles|
    ensures ss[j].handles[h].result == Some(msg) <==> Stored(ss, es, j, h, msg)
  {
    hide Next, Enabled, Stores, ActiveInv, SerialInv, WorkerInv, NetInv, ClientInv;
    if j > 0 {
      AlwaysInv(ss, es, j - 1);
      assert StepAt(ss, es, j - 1);
      assert Stored(ss, es, j, h, msg) <==> Stored(ss, es, j - 1, h, msg) || Stores(ss[j - 1], es[j - 1], h, msg);
      if h < |ss[j - 1].handles| {
        StoredExactly(ss, es, j - 1, h, msg);
        StoreStep(ss[j - 1], es[j - 1], h, msg);
      } else {
        NewHandle(ss[j - 1], es[j - 1], h);
        forall t: nat | t < j ensures !Stores(ss[t], es[t], h, msg) {
          Grows(ss, es, t, j - 1);
          assert StepAt(ss, es, t);
          StoresOld(ss[t], es[t], h, msg);
        }
      }
    }
  }

  // ---- One goal all the way ----

  /** A client has registered a goal, sent it and asked to cancel it, and the server is
      up. */
  function Asked0(m: GoalMsg): State {
    State(SERVER0.(finalized := true), [Handle(0, m.id, m.goal, true, None, 0)], map[(0, ToHex(m.id)) := 0], map[],
          {m}, {m.id}, {})
  }

  lemma Asks(m: GoalMsg) returns (es: seq<Step>)
    ensures Leads(INIT, es, Asked0(m))
  {
    var e0, e1, e2, e3 := RegisterGoal(0, m.id, m.goal), SendGoal(0), SendCancel(0), Finalize;
    var s1 := Next(INIT, e0);
    var s2 := Next(s1, e1);
    var s3 := Next(s2, e2);
    assert Next(s3, e3) == Asked0(m);
    LeadsStep(s3, e3, [], Asked0(m));
    LeadsStep(s2, e2, [e3], Asked0(m));
    LeadsStep(s1, e1, [e2] + [e3], Asked0(m));
    LeadsStep(INIT, e0, [e1] + ([e2] + [e3]), Asked0(m));
    es := [e0] + ([e1] + ([e2] + [e3]));
  }

  /** The goal was accepted and its flag set; its thread is at phase p. */
  function Started(m: GoalMsg, p: Phase, spawned: set<nat>): State {
    Asked0(m).(server := Server(true, false, false, multiset{}, map[ToHex(m.id) := 0],
                                [Run(m.id, m.goal, true, p)], spawned, {}, {}))
  }

  lemma Starts(m: GoalMsg) returns (es: seq<Step>)
    ensures Leads(Asked0(m), es, Started(m, Admitted, {}))
  {
    var e0, e1, e2 := BeginGoal(m), AcceptGoal(m), DeliverCancel(m.id);
    var s1 := Next(Asked0(m), e0);
    var s2 := Next(s1, e1);
    assert Next(s2, e2) == Started(m, Admitted, {});
    LeadsStep(s2, e2, [], Started(m, Admitted, {}));
    LeadsStep(s1, e1, [e2], Started(m, Admitted, {}));
    LeadsStep(Asked0(m), e0, [e1] + [e2], Started(m, Admitted, {}));
    es := [e0] + ([e1] + [e2]);
  }

  lemma Runs(m: GoalMsg, o: Outcome) returns (es: seq<Step>)
    ensures Leads(Started(m, Admitted, {}), es, Started(m, Computed(o), {0}))
  {
    var e0, e1 := SpawnWorker(0), Finish(0, o);
    var s0 := Started(m, Admitted, {});
    var s1 := Next(s0, e0);
    assert s1 == Started(m, Running, {0});
    assert Next(s1, e1) == Started(m, Computed(o), {0});
    LeadsStep(s1, e1, [], Started(m, Computed(o), {0}));
    LeadsStep(s0, e0, [e1], Started(m, Computed(o), {0}));
    es := [e0] + [e1];
  }

  /** The result came back to the client, whose handle holds it. */
  lemma Returns(m: GoalMsg, o: Outcome, msg: ResultMsg) returns (es: seq<Step>, s: State)
    requires Reports(msg, m.id, o)
    ensures Leads(Started(m, Computed(o), {0}), es, s)
    ensures s.handles == [Handle(0, m.id, m.goal, true, Some(msg), 1)]
    ensures s.server.runs == [Run(m.id, m.goal, true, Published(o))]
  {
    MessageReports(m.id, o, msg);
    var e0, e1, e2 := PublishResult(0), TakeResult(0, msg), StoreResult(0);
    var s0 := Started(m, Computed(o), {0});
    var s1 := Next(s0, e0);
    assert s1 == Started(m, Published(o), {0}).(results := {msg});
    var s2 := Next(s1, e1);
    assert s2.taken == map[0 := msg];
    s := Next(s2, e2);
    LeadsStep(s2, e2, [], s);
    LeadsStep(s1, e1, [e2], s);
    LeadsStep(s0, e0, [e1] + [e2], s);
    es := [e0] + ([e1] + [e2]);
  }

  /** Nothing stands in the way of an exchange: for every goal and every outcome there
      is a run in which the server executes the goal with its cancel flag set as the
      client asked, and the client's handle ends up with what the execution came to. */
  lemma Exchange(m: GoalMsg, o: Outcome, msg: ResultMsg)
    requires Reports(msg, m.id, o)
    ensures exists es, s :: Leads(INIT, es, s) && s.handles == [Handle(0, m.id, m.goal, true, Some(msg), 1)]
                            && s.server.runs == [Run(m.id, m.goal, true, Published(o))]
  {
    hide Leads, Next, Enabled, Asked0, Started;
    var es0 := Asks(m);
    var es1 := Starts(m);
    LeadsJoin(INIT, es0, Asked0(m), es1, Started(m, Admitted, {}));
    var es2 := Runs(m, o);
    LeadsJoin(INIT, es0 + es1, Started(m, Admitted, {}), es2, Started(m, Computed(o), {0}));
    var es3, s := Returns(m, o, msg);
    LeadsJoin(INIT, es0 + es1 + es2, Started(m, Computed(o), {0}), es3, s);
  }
}

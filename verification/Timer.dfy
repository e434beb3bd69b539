/** Timer::Impl of include/talosos/timer.h: the background thread and the callers of
    Cancel as interleaved steps under one mutex, over integer nanoseconds. */
module Timer {

  datatype Config = Config(period: int, hasCallback: bool, oneshot: bool) {
    predicate Valid() { period > 0 && hasCallback }
  }

  /** Where the timer thread is.  Armed: wait_until timed out with cancelled_ false
      and the lock is released, but the callback has not begun. */
  datatype Pc = Starting | Waiting | Armed | InCallback | Done

  /** The caller whose Cancel set the flag off the timer thread. */
  datatype Joiner = Nobody | Joining | Returned

  datatype State = State(
    now: int,
    pc: Pc,
    cancelled: bool,
    begin: int,         // steady_clock::now() at the top of Run
    next: int,
    starts: seq<int>,   // when each callback began
    ends: seq<int>,     // when each callback finished
    late: nat,          // callbacks begun after cancelled_ was set
    joiner: Joiner)

  /** The thread exists only for a positive period and a callback. */
  function Init(c: Config, now: int): State {
    State(now, if c.Valid() then Starting else Done, false, now, now, [], [], 0, Nobody)
  }

  datatype Step =
    | Tick(dt: nat)
    | Begin
    | WakeCancelled
    | WakeTimeout
    | StartCallback
    | EndCallback
    | Cancel            // off the timer thread, sets the flag and goes on to join
    | SelfCancel        // from the callback: sets the flag and does not join
    | CancelAgain       // the flag is set already: returns at once
    | JoinReturns

  predicate Enabled(s: State, e: Step) {
    match e
    case Tick(_) => true
    case Begin => s.pc == Starting
    case WakeCancelled => s.pc == Waiting && s.cancelled
    case WakeTimeout => s.pc == Waiting && !s.cancelled && s.now >= s.next
    case StartCallback => s.pc == Armed
    case EndCallback => s.pc == InCallback
    case Cancel => !s.cancelled
    case SelfCancel => !s.cancelled && s.pc == InCallback
    case CancelAgain => s.cancelled
    case JoinReturns => s.joiner == Joining && s.pc == Done
  }

  function Next(c: Config, s: State, e: Step): State
    requires Enabled(s, e)
  {
    match e
    case Tick(dt) => s.(now := s.now + dt)
    case Begin => s.(pc := Waiting, begin := s.now, next := s.now + c.period)
    case WakeCancelled => s.(pc := Done)
    case WakeTimeout => s.(pc := Armed)
    case StartCallback =>
      s.(pc := InCallback, starts := s.starts + [s.now], late := if s.cancelled then s.late + 1 else s.late)
    case EndCallback =>
      var s := s.(ends := s.ends + [s.now]);
      if c.oneshot then s.(pc := Done) else s.(pc := Waiting, next := s.next + c.period)
    case Cancel => s.(cancelled := true, joiner := Joining)
    case SelfCancel => s.(cancelled := true)
    case CancelAgain => s
    case JoinReturns => s.(joiner := Returned)
  }

  /** The n-th deadline, counted from 0. */
  function Due(c: Config, begin: int, n: nat): int {
    if n == 0 then begin + c.period else Due(c, begin, n - 1) + c.period
  }

  /** Without drift from the first. */
  lemma {:induction false} DueIs(c: Config, begin: int, n: nat)
    ensures Due(c, begin, n) == begin + (n + 1) * c.period
  {
    if n > 0 {
      DueIs(c, begin, n - 1);
      assert (n + 1) * c.period == n * c.period + c.period;
    }
  }

  /** Callback i begins no earlier than its deadline and after callback i-1 ended. */
  predicate History(c: Config, begin: int, now: int, starts: seq<int>, ends: seq<int>) {
    && |ends| <= |starts| <= |ends| + 1
    && (forall i :: 0 <= i < |ends| ==> starts[i] <= ends[i] <= now)
    && (forall i, j :: 0 <= i < j < |starts| ==> ends[i] <= starts[j])
    && (forall i :: 0 <= i < |starts| ==> Due(c, begin, i) <= starts[i] <= now)
  }

  /** Callbacks neither overlap nor begin early. */
  predicate Timely(c: Config, s: State) {
    && History(c, s.begin, s.now, s.starts, s.ends)
    && |s.starts| == |s.ends| + (if s.pc == InCallback then 1 else 0)
    && (s.pc == Starting ==> s.starts == [])
    && (s.pc == Waiting || s.pc == Armed || s.pc == InCallback ==> s.next == Due(c, s.begin, |s.ends|))
    && (s.pc == Armed ==> s.next <= s.now)
  }

  /** Cancellation is prompt and final, and a one-shot fires once. */
  predicate Prompt(c: Config, s: State) {
    && s.late <= 1 && (s.late == 1 ==> s.cancelled && s.pc != Armed && s.pc != Starting)
    && (s.joiner == Returned ==> s.pc == Done)
    && (s.joiner != Nobody ==> s.cancelled)
    && (c.oneshot ==> |s.starts| <= 1 && (s.pc != InCallback && s.pc != Done ==> s.starts == []))
    && (!c.Valid() ==> s.pc == Done && s.starts == [])
  }

  predicate Inv(c: Config, s: State) { Timely(c, s) && Prompt(c, s) }

  lemma InitInv(c: Config, now: int)
    ensures Inv(c, Init(c, now))
  {
  }

  lemma HistoryLater(c: Config, begin: int, now: int, dt: nat, starts: seq<int>, ends: seq<int>)
    requires History(c, begin, now, starts, ends)
    ensures History(c, begin, now + dt, starts, ends)
  {
  }

  lemma HistoryStart(c: Config, begin: int, now: int, starts: seq<int>, ends: seq<int>)
    requires History(c, begin, now, starts, ends) && |starts| == |ends| && Due(c, begin, |ends|) <= now
    ensures History(c, begin, now, starts + [now], ends)
  {
  }

  lemma HistoryEnd(c: Config, begin: int, now: int, starts: seq<int>, ends: seq<int>)
    requires History(c, begin, now, starts, ends) && |starts| == |ends| + 1
    ensures History(c, begin, now, starts, ends + [now])
  {
  }

  lemma DueNext(c: Config, begin: int, n: nat)
    ensures Due(c, begin, n + 1) == Due(c, begin, n) + c.period
  {
  }

  lemma TickKept(c: Config, s: State, dt: nat)
    requires Timely(c, s)
    ensures Timely(c, Next(c, s, Tick(dt)))
  {
    HistoryLater(c, s.begin, s.now, dt, s.starts, s.ends);
  }

  lemma StartKept(c: Config, s: State)
    requires Timely(c, s) && s.pc == Armed
    ensures Timely(c, Next(c, s, StartCallback))
  {
    HistoryStart(c, s.begin, s.now, s.starts, s.ends);
  }

  lemma EndKept(c: Config, s: State)
    requires Timely(c, s) && s.pc == InCallback
    ensures Timely(c, Next(c, s, EndCallback))
  {
    HistoryEnd(c, s.begin, s.now, s.starts, s.ends);
    DueNext(c, s.begin, |s.ends|);
  }

  lemma BeginKept(c: Config, s: State)
    requires Timely(c, s) && s.pc == Starting
    ensures Timely(c, Next(c, s, Begin))
  {
  }

  lemma TimelyKept(c: Config, s: State, e: Step)
    requires Timely(c, s) && Enabled(s, e)
    ensures Timely(c, Next(c, s, e))
  {
    match e
    case Tick(dt) => TickKept(c, s, dt);
    case Begin => BeginKept(c, s);
    case StartCallback => StartKept(c, s);
    case EndCallback => EndKept(c, s);
    case _ =>
  }

  lemma PromptKept(c: Config, s: State, e: Step)
    requires Prompt(c, s) && Enabled(s, e)
    ensures Prompt(c, Next(c, s, e))
  {
  }

  lemma InvKept(c: Config, s: State, e: Step)
    requires Inv(c, s) && Enabled(s, e)
    ensures Inv(c, Next(c, s, e))
  {
    TimelyKept(c, s, e);
    PromptKept(c, s, e);
  }

  ghost predicate StepAt(c: Config, ss: seq<State>, es: seq<Step>, i: nat)
    requires i < |es| < |ss|
  {
    Enabled(ss[i], es[i]) && ss[i + 1] == Next(c, ss[i], es[i])
  }

  ghost predicate Trace(c: Config, ss: seq<State>, es: seq<Step>) {
    |ss| == |es| + 1 && ss[0] == Init(c, ss[0].now) && forall i: nat | i < |es| :: StepAt(c, ss, es, i)
  }

  lemma {:induction false} AlwaysInv(c: Config, ss: seq<State>, es: seq<Step>, i: nat)
    requires Trace(c, ss, es) && i < |ss|
    ensures Inv(c, ss[i])
  {
    if i == 0 {
      InitInv(c, ss[0].now);
    } else {
      AlwaysInv(c, ss, es, i - 1);
      assert StepAt(c, ss, es, i - 1);
      InvKept(c, ss[i - 1], es[i - 1]);
    }
  }

  /** Under all interleavings: callback n begins no earlier than begin + (n+1)*period
      and never before callback n-1 has finished; at most one begins after the flag
      is set; a one-shot timer fires at most once. */
  lemma CallbackTimes(c: Config, ss: seq<State>, es: seq<Step>, i: nat, n: nat)
    requires Trace(c, ss, es) && i < |ss| && n < |ss[i].starts|
    ensures ss[i].starts[n] >= ss[i].begin + (n + 1) * c.period
    ensures n > 0 ==> n - 1 < |ss[i].ends| && ss[i].ends[n - 1] <= ss[i].starts[n]
    ensures ss[i].late <= 1 && (c.oneshot ==> n == 0)
  {
    AlwaysInv(c, ss, es, i);
    assert Due(c, ss[i].begin, n) <= ss[i].starts[n];
    DueIs(c, ss[i].begin, n);
  }

  /** Past callbacks are history, and a finished thread stays finished. */
  predicate Grows(s: State, t: State) {
    && s.starts <= t.starts && s.now <= t.now && (s.cancelled ==> t.cancelled)
    && (s.pc == Done ==> t.pc == Done && t.starts == s.starts)
    && (s.cancelled ==> |t.starts| - |s.starts| == t.late - s.late)
  }

  lemma {:induction false} TraceGrows(c: Config, ss: seq<State>, es: seq<Step>, i: nat, j: nat)
    requires Trace(c, ss, es) && i <= j < |ss|
    ensures Grows(ss[i], ss[j])
  {
    if i < j {
      TraceGrows(c, ss, es, i, j - 1);
      assert StepAt(c, ss, es, j - 1);
      assert Grows(ss[j - 1], ss[j]);
    }
  }

  /** Once the Cancel that set the flag off the timer thread has returned, no callback
      is running and none ever begins. */
  lemma CancelIsFinal(c: Config, ss: seq<State>, es: seq<Step>, i: nat, j: nat)
    requires Trace(c, ss, es) && i <= j < |ss| && ss[i].joiner == Returned
    ensures ss[j].pc == Done && ss[j].starts == ss[i].starts && |ss[j].ends| == |ss[j].starts|
  {
    AlwaysInv(c, ss, es, i);
    AlwaysInv(c, ss, es, j);
    TraceGrows(c, ss, es, i, j);
  }

  /** From the step that sets the flag on, at most one more callback begins, and only
      if the thread had already left its wait. */
  lemma AtMostOneLate(c: Config, ss: seq<State>, es: seq<Step>, i: nat, j: nat)
    requires Trace(c, ss, es) && i < j < |ss| && (es[i].Cancel? || es[i].SelfCancel?)
    ensures |ss[j].starts| <= |ss[i].starts| + (if ss[i].pc == Armed then 1 else 0)
  {
    AlwaysInv(c, ss, es, i);
    assert StepAt(c, ss, es, i);
    LateOnlyIfArmed(c, ss, es, i + 1, j);
    AlwaysInv(c, ss, es, i + 1);
  }

  lemma {:induction false} LateOnlyIfArmed(c: Config, ss: seq<State>, es: seq<Step>, i: nat, j: nat)
    requires Trace(c, ss, es) && i <= j < |ss| && ss[i].cancelled
    ensures ss[j].cancelled
    ensures |ss[j].starts| + (if ss[j].pc == Armed then 1 else 0)
         <= |ss[i].starts| + (if ss[i].pc == Armed then 1 else 0)
  {
    if i < j {
      LateOnlyIfArmed(c, ss, es, i, j - 1);
      assert StepAt(c, ss, es, j - 1);
    }
  }

  /** How many thread steps are left once the flag is set. */
  function Rank(pc: Pc): nat {
    match pc
    case Armed => 3
    case InCallback => 2
    case Starting => 2
    case Waiting => 1
    case Done => 0
  }

  function ThreadStep(pc: Pc): Step {
    match pc
    case Starting => Begin
    case Waiting => WakeCancelled
    case Armed => StartCallback
    case InCallback => EndCallback
    case Done => CancelAgain
  }

  /** A joining Cancel is never stuck: while the thread is not finished one of its own
      steps is enabled, and every thread step brings it closer to the end. */
  lemma CancelMakesProgress(c: Config, s: State, e: Step)
    requires s.cancelled && Enabled(s, e)
    ensures s.pc != Done ==> Enabled(s, ThreadStep(s.pc))
    ensures Rank(Next(c, s, e).pc) <= Rank(s.pc)
    ensures e.Begin? || e.WakeCancelled? || e.WakeTimeout? || e.StartCallback? || e.EndCallback? ==>
              Rank(Next(c, s, e).pc) < Rank(s.pc)
  {
  }

  /** t can follow s. */
  ghost predicate Leads(c: Config, s: State, es: seq<Step>, t: State)
    decreases |es|
  {
    if es == [] then s == t
    else Enabled(s, es[0]) && Leads(c, Next(c, s, es[0]), es[1..], t)
  }

  /** A callback is running or will still begin. */
  ghost predicate CallsLater(c: Config, s: State) {
    exists es, t :: Leads(c, s, es, t) && t.pc == InCallback
  }

  lemma {:induction false} StaysOut(c: Config, s: State, es: seq<Step>, t: State)
    requires s.cancelled && s.pc != Armed && s.pc != InCallback && Leads(c, s, es, t)
    ensures t.pc != InCallback
    decreases |es|
  {
    if es != [] {
      StaysOut(c, Next(c, s, es[0]), es[1..], t);
    }
  }

  /** A Cancel that finds the flag already set returns without joining and leaves the
      state as it is: a callback is then running, or will still begin, if and only if
      the thread has left its wait and not yet finished its callback. */
  lemma SecondCancelExactly(c: Config, s: State)
    requires Enabled(s, CancelAgain)
    ensures Next(c, s, CancelAgain) == s
    ensures CallsLater(c, s) <==> s.pc == Armed || s.pc == InCallback
  {
    if s.pc == InCallback {
      assert Leads(c, s, [], s);
    } else if s.pc == Armed {
      var t := Next(c, s, StartCallback);
      assert [StartCallback][1..] == [] && Leads(c, t, [], t);
      assert Leads(c, s, [StartCallback], t);
    } else if CallsLater(c, s) {
      var es, t :| Leads(c, s, es, t) && t.pc == InCallback;
      StaysOut(c, s, es, t);
    }
  }

  lemma TraceSnoc(c: Config, ss: seq<State>, es: seq<Step>, e: Step)
    requires Trace(c, ss, es) && Enabled(ss[|es|], e)
    ensures Trace(c, ss + [Next(c, ss[|es|], e)], es + [e])
  {
    var ss', es' := ss + [Next(c, ss[|es|], e)], es + [e];
    forall i: nat | i < |es'| ensures StepAt(c, ss', es', i) {
      assert i < |es| ==> StepAt(c, ss, es, i);
    }
  }

  /** Such states are reached: a callback may be running when the second Cancel
      returns; only the first one off the thread waits. */
  lemma SecondCancelDoesNotWait(c: Config, now: int)
    requires c.Valid()
    ensures exists ss: seq<State>, es: seq<Step> :: Trace(c, ss, es) && ss[|es|].cancelled
              && ss[|es|].pc == InCallback && Enabled(ss[|es|], CancelAgain)
  {
    var ss0, es0 := [Init(c, now)], [];
    assert Trace(c, ss0, es0);
    hide Trace;
    var s1 := Next(c, Init(c, now), Begin);
    var s2 := Next(c, s1, Tick(c.period));
    var s3 := Next(c, s2, WakeTimeout);
    var s4 := Next(c, s3, StartCallback);
    var s5 := Next(c, s4, Cancel);
    TraceSnoc(c, ss0, es0, Begin);
    TraceSnoc(c, ss0 + [s1], es0 + [Begin], Tick(c.period));
    TraceSnoc(c, ss0 + [s1] + [s2], es0 + [Begin] + [Tick(c.period)], WakeTimeout);
    var ss, es := ss0 + [s1] + [s2] + [s3], es0 + [Begin] + [Tick(c.period)] + [WakeTimeout];
    TraceSnoc(c, ss, es, StartCallback);
    TraceSnoc(c, ss + [s4], es + [StartCallback], Cancel);
    assert (ss + [s4] + [s5])[|es| + 2] == s5;
  }

  // ---- The object ----

  /** What Cancel goes on to do after its locked block. */
  datatype AfterCancel = ReturnAtOnce | Notify | NotifyAndJoin

  /** The fields of Timer::Impl, and the deadline that Run keeps in a local variable;
      one method per critical section, each shown to take its step. */
  class Impl {
    const config: Config
    var cancelled: bool
    var next: int

    ghost predicate Shows(s: State)
      reads this
    {
      cancelled == s.cancelled && next == s.next
    }

    constructor (config: Config, now: int)
      ensures this.config == config && Shows(Init(config, now))
    {
      this.config := config;
      cancelled, next := false, now;
    }

    method Cancel(onTimerThread: bool, ghost s: State) returns (after: AfterCancel)
      requires Shows(s) && (onTimerThread ==> s.pc == InCallback)
      modifies this`cancelled
      ensures after == ReturnAtOnce <==> s.cancelled
      ensures after == NotifyAndJoin <==> !s.cancelled && !onTimerThread
      ensures cancelled && (after == ReturnAtOnce ==> old(cancelled))
      ensures var e := if s.cancelled then CancelAgain else if onTimerThread then SelfCancel else Step.Cancel;
              Enabled(s, e) && Shows(Next(config, s, e))
    {
      if cancelled {
        return ReturnAtOnce;
      }
      cancelled := true;
      return if onTimerThread then Notify else NotifyAndJoin;
    }

    /** The first line of Run. */
    method BeginRun(now: int, ghost s: State)
      requires Shows(s) && s.pc == Starting && now == s.now
      modifies this`next
      ensures Shows(Next(config, s, Begin)) && next == now + config.period
    {
      next := now + config.period;
    }

    /** cv_.wait_until woken at time now, by the clock, a notification or nothing:
        return from Run, call the callback, or wait on. */
    method Wake(now: int, ghost s: State) returns (stop: bool, call: bool)
      requires Shows(s) && s.pc == Waiting && now == s.now
      ensures stop <==> Enabled(s, WakeCancelled)
      ensures call <==> Enabled(s, WakeTimeout)
      ensures (stop <==> s.cancelled) && (call <==> !s.cancelled && now >= s.next)
    {
      stop := cancelled;
      call := !cancelled && now >= next;
    }

    /** The end of the loop body, once the callback is over. */
    method AfterCallback(ghost s: State) returns (again: bool)
      requires Shows(s) && s.pc == InCallback
      modifies this`next
      ensures Shows(Next(config, s, EndCallback))
      ensures again <==> Next(config, s, EndCallback).pc == Waiting
      ensures (again <==> !config.oneshot) && (again ==> next == old(next) + config.period)
    {
      if config.oneshot {
        return false;
      }
      next := next + config.period;
      return true;
    }
  }
}

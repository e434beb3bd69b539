/** The ActionServer and ActionClient objects of include/talosos/action.h, one method
    per critical section, shown to take the steps of the protocol.  Cancel flags and
    handle states are shared objects updated through aliases. */
module ActionObjects {
  import opened ActionProtocol
  import Safety = ActionSafety

  /** std::atomic<bool> behind a shared pointer: the server's entry and the worker's
      handle hold the same one. */
  class CancelFlag {
    var value: bool

    constructor ()
      ensures !value
    {
      value := false;
    }
  }

  class ActionServer {
    var active: map<string, CancelFlag>
    var workers: set<nat>
    var shuttingDown: bool
    var finalized: bool
    ghost var flags: seq<CancelFlag>  // the flag of every acceptance so far

    /** The object is in protocol state sv. */
    ghost predicate Shows(sv: Server)
      reads this, flags
    {
      && |flags| == |sv.runs|
      && (forall m, n :: 0 <= m < n < |flags| ==> flags[m] != flags[n])
      && (forall n :: 0 <= n < |flags| ==> flags[n].value == sv.runs[n].cancel)
      && (forall k :: k in active <==> k in sv.active)
      && (forall k :: k in active ==> sv.active[k] < |flags| && active[k] == flags[sv.active[k]])
      && workers == sv.workers && shuttingDown == sv.shuttingDown && finalized == sv.finalized
    }

    constructor ()
      ensures Shows(SERVER0) && fresh(flags)
    {
      active, workers, shuttingDown, finalized, flags := map[], {}, false, false, [];
    }

    method Finalize(ghost sv: Server)
      requires Shows(sv)
      modifies this`finalized
      ensures Shows(sv.(finalized := true))
    {
      finalized := true;
    }

    /** if (shutting_down.load()) return; */
    method BeginGoal(msg: GoalMsg, ghost sv: Server) returns (go: bool)
      requires Shows(sv)
      ensures go <==> !sv.shuttingDown
      ensures Shows(if go then sv.(calls := sv.calls + multiset{msg}) else sv)
    {
      go := !shuttingDown;
    }

    /** The locked block of HandleGoal; null when a duplicate is ignored. */
    method AcceptGoal(msg: GoalMsg, ghost sv: Server) returns (flag: CancelFlag?)
      requires Shows(sv)
      modifies this`active, this`flags
      ensures Shows(Accept(sv, msg)) && old(flags) <= flags
      ensures flag == null <==> ToHex(msg.id) in sv.active
      ensures flag != null ==> fresh(flag) && flags == old(flags) + [flag] && !flag.value
    {
      var cancelFlag := new CancelFlag();
      var key := ToString(msg.id);
      if key in active {
        return null;
      }
      active := active[key := cancelFlag];
      flags := flags + [cancelFlag];
      return cancelFlag;
    }

    method PushWorker(n: nat, ghost sv: Server)
      requires Shows(sv)
      modifies this`workers
      ensures Shows(sv.(spawned := sv.spawned - {n}, workers := sv.workers + {n}))
    {
      workers := workers + {n};
    }

    /** it->second.cancel_flag->store(true) reaches the worker through the alias. */
    method DeliverCancel(id: GoalId, ghost sv: Server)
      requires Shows(sv)
      modifies flags
      ensures Shows(HandleCancel(sv, id))
    {
      var key := ToString(id);
      if key in active {
        active[key].value := true;
      }
    }

    /** Handle::canceling() of the worker running acceptance n. */
    method Canceling(flag: CancelFlag, ghost n: nat, ghost sv: Server) returns (b: bool)
      requires Shows(sv) && n < |flags| && flag == flags[n]
      ensures b <==> sv.runs[n].cancel
    {
      b := flag.value;
    }

    /** The worker's last locked block. */
    method EraseRun(id: GoalId, ghost n: nat, ghost sv: Server)
      requires Shows(sv) && n < |sv.runs| && sv.runs[n].phase.Published? && sv.runs[n].id == id
      modifies this`active
      ensures Shows(Erase(sv, n))
    {
      var key := ToString(id);
      active := active - {key};
    }

    method BeginShutdown(ghost sv: Server)
      requires Shows(sv)
      modifies this`shuttingDown
      ensures Shows(sv.(shuttingDown := true))
    {
      shuttingDown := true;
    }

    /** The locked block of the destructor; the threads moved out are joined next. */
    method LockedShutdown(ghost sv: Server) returns (joining: set<nat>)
      requires Shows(sv) && ActiveInv(sv)
      modifies this`workers, flags
      ensures Shows(LockDown(sv)) && joining == LockDown(sv).joined
    {
      StoreAll(active, flags, sv);
      joining := workers;
      workers := {};
      forall n | 0 <= n < |flags| ensures flags[n].value == LockDown(sv).runs[n].cancel {
        Safety.LockOnRun(sv, n);
      }
    }
  }

  /** entry.cancel_flag->store(true) for every active entry. */
  method StoreAll(active: map<string, CancelFlag>, ghost flags: seq<CancelFlag>, ghost sv: Server)
    requires ActiveInv(sv) && |flags| == |sv.runs| && active.Keys == sv.active.Keys
    requires forall k :: k in active ==> active[k] == flags[sv.active[k]]
    requires forall m, n :: 0 <= m < n < |flags| ==> flags[m] != flags[n]
    requires forall n :: 0 <= n < |flags| ==> flags[n].value == sv.runs[n].cancel
    modifies flags
    ensures forall n :: 0 <= n < |flags| ==> flags[n].value == (sv.runs[n].cancel || !sv.runs[n].phase.Erased?)
  {
    var keys := active.Keys;
    while keys != {}
      invariant keys <= active.Keys
      invariant forall n :: 0 <= n < |flags| ==> flags[n].value == (sv.runs[n].cancel || Visited(sv, keys, n))
    {
      var key :| key in keys;
      VisitOne(sv, keys, key);
      active[key].value := true;
      keys := keys - {key};
    }
  }

  /** The entry of acceptance n has been visited by the destructor's loop. */
  ghost predicate Visited(sv: Server, keys: set<string>, n: nat)
    requires n < |sv.runs|
  {
    var k := Key(sv.runs[n]);
    k in sv.active && sv.active[k] == n && k !in keys
  }

  lemma VisitOne(sv: Server, keys: set<string>, key: string)
    requires ActiveInv(sv) && key in keys && key in sv.active
    ensures forall n: nat | n < |sv.runs| ::
              Visited(sv, keys - {key}, n) <==> Visited(sv, keys, n) || n == sv.active[key]
  {
  }

  // ---- Client ----

  /** GoalHandle::State */
  class HandleState {
    var hasResult: bool
    var result: Payload
    var status: GoalStatus

    constructor ()
      ensures !hasResult
    {
      hasResult, result, status := false, Default, Unknown;
    }

    /** The handle's own state shows what the protocol stored in u. */
    ghost predicate Shows(u: Handle)
      reads this
    {
      match u.result
      case None => !hasResult
      case Some(msg) => hasResult && result == msg.result && status == msg.status
    }

    /** WaitForResult once the condition variable lets it through. */
    method Poll(ghost u: Handle) returns (done: bool, out: Payload, st: GoalStatus)
      requires Shows(u)
      ensures done <==> u.result.Some?
      ensures done ==> out == u.result.value.result && st == u.result.value.status
    {
      done, out, st := hasResult, result, status;
    }
  }

  class ActionClient {
    const me: nat
    var handles: map<string, HandleState>
    ghost var states: map<nat, HandleState>  // the state behind every handle sent

    constructor (me: nat)
      ensures this.me == me && Shows(INIT)
    {
      this.me := me;
      handles, states := map[], map[];
    }

    /** The object is this client's part of system state s. */
    ghost predicate Shows(s: State)
      reads this, states.Values
    {
      ShowsParts(s.handles, s.pending)
    }

    ghost predicate ShowsParts(hs: seq<Handle>, pending: map<(nat, string), nat>)
      reads this, states.Values
    {
      && (forall h: nat :: h in states <==> h < |hs| && hs[h].client == me)
      && (forall g, h :: g in states && h in states && states[g] == states[h] ==> g == h)
      && (forall h :: h in states ==> states[h].Shows(hs[h]))
      && (forall k :: k in handles <==> (me, k) in pending)
      && (forall k :: k in handles ==> pending[(me, k)] in states && handles[k] == states[pending[(me, k)]])
    }

    /** SendGoal up to the end of its locked block; id is the fresh NewGoalID(). */
    method Register(id: GoalId, goal: Payload, ghost s: State) returns (state: HandleState)
      requires Shows(s) && Enabled(s, RegisterGoal(me, id, goal))
      modifies this
      ensures Shows(Next(s, RegisterGoal(me, id, goal)))
      ensures fresh(state) && states == old(states)[|s.handles| := state]
    {
      state := Enter(id, s.handles, s.pending, Handle(me, id, goal, false, None, 0));
    }

    /** A new state object under the id's text. */
    method Enter(id: GoalId, ghost hs: seq<Handle>, ghost pending: map<(nat, string), nat>, ghost u: Handle)
        returns (state: HandleState)
      requires ShowsParts(hs, pending) && u.client == me && u.result.None?
      modifies this
      ensures ShowsParts(hs + [u], pending[(me, ToHex(id)) := |hs|])
      ensures fresh(state) && states == old(states)[|hs| := state]
    {
      var key := ToString(id);
      state := new HandleState();
      handles := handles[key := state];
      states := states[|hs| := state];
      assert forall h :: h in states && h != |hs| ==> states[h] == old(states)[h] && states[h].Shows(hs[h]);
    }

    /** The first locked block of the result callback: find and erase. */
    method TakeResult(msg: ResultMsg, ghost s: State) returns (target: HandleState?)
      requires Shows(s) && msg in s.results
      modifies this`handles
      ensures target == null <==> (me, ToHex(msg.id)) !in s.pending
      ensures target == null ==> Shows(s)
      ensures target != null ==>
                && Enabled(s, Step.TakeResult(me, msg)) && Shows(Next(s, Step.TakeResult(me, msg)))
                && s.pending[(me, ToHex(msg.id))] in states && target == states[s.pending[(me, ToHex(msg.id))]]
    {
      var key := ToString(msg.id);
      if key !in handles {
        return null;
      }
      target := handles[key];
      handles := handles - {key};
    }

    /** The second locked block: store the result in the handle's state. */
    method StoreResult(target: HandleState, msg: ResultMsg, ghost h: nat, ghost s: State)
      requires Shows(s) && h in states && target == states[h] && h in s.taken && s.taken[h] == msg
      modifies target
      ensures Shows(Next(s, Step.StoreResult(h)))
    {
      target.result := msg.result;
      target.status := msg.status;
      target.hasResult := true;
    }

    /** Steps of the server and of other clients leave this client as it is. */
    lemma Undisturbed(s: State, e: Step)
      requires Shows(s) && Enabled(s, e)
      requires match e
               case RegisterGoal(c, _, _) => c != me
               case TakeResult(c, _) => c != me
               case StoreResult(h) => s.handles[h].client != me
               case _ => true
      ensures Shows(Next(s, e))
    {
    }
  }
}

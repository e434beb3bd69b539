/** The action protocol of include/talosos/action.h as a state machine.  A step is
    one critical section or one publication; the network is the set of everything
    ever sent, so a message may arrive never, late, many times and in any order. */
module ActionProtocol {
  import opened Bytes

  // ---- Goal ids ----

  type GoalId = u: seq<byte> | |u| == 16 witness Zeros(16)

  /** NewGoalID: two 64-bit draws, then the version and variant bits of a random id. */
  method NewGoalID(v1: nat, v2: nat) returns (id: GoalId)
    ensures id == Stamp(LittleEndian(v1, 8) + LittleEndian(v2, 8))
  {
    var uuid := LittleEndian(v1, 8) + LittleEndian(v2, 8);
    uuid := uuid[6 := uuid[6] % 0x10 + 0x40];
    uuid := uuid[8 := uuid[8] % 0x40 + 0x80];
    return uuid;
  }

  function Stamp(u: GoalId): GoalId {
    u[6 := u[6] % 0x10 + 0x40][8 := u[8] % 0x40 + 0x80]
  }

  /** Every id is of version 4 and of the variant with bits 10, and two draws give one
      id exactly when they agree on the other 122 bits. */
  lemma StampIs(u: GoalId, v: GoalId)
    ensures Stamp(u)[6] / 0x10 == 4 && Stamp(u)[8] / 0x40 == 2
    ensures Stamp(u) == Stamp(v) <==>
            u[6] % 0x10 == v[6] % 0x10 && u[8] % 0x40 == v[8] % 0x40
            && forall i | 0 <= i < 16 && i != 6 && i != 8 :: u[i] == v[i]
  {
    var a, b := Stamp(u), Stamp(v);
    assert a[6] == u[6] % 0x10 + 0x40 && b[6] == v[6] % 0x10 + 0x40;
    assert a[8] == u[8] % 0x40 + 0x80 && b[8] == v[8] % 0x40 + 0x80;
    assert forall i | 0 <= i < 16 && i != 6 && i != 8 :: a[i] == u[i] && b[i] == v[i];
  }

  const HEX: string := "0123456789abcdef"

  /** GoalID::ToString: high nibble first. */
  function ToHex(u: seq<byte>): (s: string)
    ensures |s| == 2 * |u|
  {
    if u == [] then "" else ToHex(u[..|u| - 1]) + [HEX[u[|u| - 1] / 16], HEX[u[|u| - 1] % 16]]
  }

  /** The digit of a nibble: 0 to 9, then a to f. */
  function HexDigit(d: nat): char
    requires d < 16
  {
    if d < 10 then ('0' as int + d) as char else ('a' as int + (d - 10)) as char
  }

  /** Character 2i is the high nibble of byte i, the next one its low nibble. */
  lemma {:induction false} ToHexAt(u: seq<byte>, i: nat)
    requires i < |u|
    ensures ToHex(u)[2 * i] == HexDigit(u[i] / 16) && ToHex(u)[2 * i + 1] == HexDigit(u[i] % 16)
    decreases |u|
  {
    var n := |u| - 1;
    ToHexParts(u);
    hide ToHex, HexDigit;
    if i < n {
      ToHexAt(u[..n], i);
      StartsAlike(ToHex(u), ToHex(u[..n]), 2 * i);
    } else {
      HexDigitIs(u[n] / 16);
      HexDigitIs(u[n] % 16);
    }
  }

  lemma StartsAlike(s: string, t: string, k: nat)
    requires k + 1 < |t| <= |s| && s[..|t|] == t
    ensures s[k] == t[k] && s[k + 1] == t[k + 1]
  {
  }

  lemma HexDigitIs(d: nat)
    requires d < 16
    ensures HEX[d] == HexDigit(d)
  {
  }

  method ToString(u: seq<byte>) returns (s: string)
    ensures s == ToHex(u) && |s| == 2 * |u|
    ensures forall i | 0 <= i < |u| :: s[2 * i] == HexDigit(u[i] / 16) && s[2 * i + 1] == HexDigit(u[i] % 16)
  {
    s := "";
    for i := 0 to |u|
      invariant s == ToHex(u[..i])
    {
      assert u[..i + 1][..i] == u[..i];
      s := s + [HEX[u[i] / 16]];
      s := s + [HEX[u[i] % 16]];
    }
    assert u[..|u|] == u;
    forall i | 0 <= i < |u| ensures s[2 * i] == HexDigit(u[i] / 16) && s[2 * i + 1] == HexDigit(u[i] % 16) {
      ToHexAt(u, i);
    }
  }

  lemma HexDigitInjective(i: nat, j: nat)
    requires i < 16 && j < 16 && HEX[i] == HEX[j]
    ensures i == j
  {
  }

  lemma HexByteInjective(a: byte, b: byte)
    requires HEX[a / 16] == HEX[b / 16] && HEX[a % 16] == HEX[b % 16]
    ensures a == b
  {
    HexDigitInjective(a / 16, b / 16);
    HexDigitInjective(a % 16, b % 16);
  }

  lemma ToHexParts(u: seq<byte>)
    requires u != []
    ensures var n := |u| - 1;
            && ToHex(u)[..2 * n] == ToHex(u[..n])
            && ToHex(u)[2 * n] == HEX[u[n] / 16] && ToHex(u)[2 * n + 1] == HEX[u[n] % 16]
  {
    var n := |u| - 1;
    TwoMore(ToHex(u[..n]), HEX[u[n] / 16], HEX[u[n] % 16]);
  }

  lemma TwoMore(s: string, x: char, y: char)
    ensures var t := s + [x, y]; t[..|s|] == s && t[|s|] == x && t[|s| + 1] == y
  {
  }

  /** Keying the maps by text is safe: different ids print differently. */
  lemma {:induction false} ToHexInjective(u: seq<byte>, v: seq<byte>)
    requires ToHex(u) == ToHex(v)
    ensures u == v
  {
    assert |u| == |v|;
    hide ToHex;
    if u != [] {
      var n := |u| - 1;
      ToHexParts(u);
      ToHexParts(v);
      ToHexInjective(u[..n], v[..n]);
      HexByteInjective(u[n], v[n]);
      assert u == u[..n] + [u[n]] && v == v[..n] + [v[n]];
    }
  }

  // ---- Messages ----

  /** A goal or a result: the value-initialized one of its type, or any other, told
      apart by its serialized bytes. */
  datatype Payload = Default | Value(bytes: seq<byte>)

  datatype GoalStatus = Unknown | Accepted | Executing | Canceling | Succeeded | Aborted | Canceled | Rejected

  datatype GoalMsg = GoalMsg(id: GoalId, goal: Payload)
  datatype ResultMsg = ResultMsg(id: GoalId, status: GoalStatus, result: Payload)

  /** When execute throws, what goes out is the result as it was initialized. */
  datatype Outcome = Returned(status: GoalStatus, result: Payload) | Threw

  function Message(id: GoalId, o: Outcome): ResultMsg {
    match o
    case Returned(st, r) => ResultMsg(id, st, r)
    case Threw => ResultMsg(id, Aborted, Default)
  }

  // ---- Server ----

  /** The life of one acceptance.  SpawnWorker is the moment its HandleGoal reads
      shared_self, from which the thread it then creates takes the server state.  Lost:
      there was none, and the thread returns at once. */
  datatype Phase =
    | Admitted
    | Running
    | Lost
    | Computed(outcome: Outcome)
    | Published(outcome: Outcome)
    | Erased(outcome: Outcome)

  /** One acceptance of a goal, with its own cancel flag. */
  datatype Run = Run(id: GoalId, goal: Payload, cancel: bool, phase: Phase)

  datatype Server = Server(
    finalized: bool,
    shuttingDown: bool,
    lockedDown: bool,
    calls: multiset<GoalMsg>,    // HandleGoal invocations past the shutting_down check
    active: map<string, nat>,
    runs: seq<Run>,
    spawned: set<nat>,           // acceptances past that moment, threads not yet in workers
    workers: set<nat>,
    joined: set<nat>)            // threads the destructor took over to join

  const SERVER0 := Server(false, false, false, multiset{}, map[], [], {}, {}, {})

  function Key(r: Run): string { ToHex(r.id) }

  /** The locked block at the start of HandleGoal: ignore a duplicate of an active
      goal, otherwise register a fresh flag. */
  function Accept(sv: Server, msg: GoalMsg): Server {
    var sv := sv.(calls := sv.calls - multiset{msg});
    var k := ToHex(msg.id);
    if k in sv.active then sv
    else sv.(active := sv.active[k := |sv.runs|],
             runs := sv.runs + [Run(msg.id, msg.goal, false, Admitted)])
  }

  function SetPhase(sv: Server, n: nat, p: Phase): Server
    requires n < |sv.runs|
  {
    sv.(runs := sv.runs[n := sv.runs[n].(phase := p)])
  }

  function Spawn(sv: Server, n: nat): Server
    requires n < |sv.runs|
  {
    SetPhase(sv, n, if sv.finalized then Running else Lost).(spawned := sv.spawned + {n})
  }

  function HandleCancel(sv: Server, id: GoalId): Server
    requires ToHex(id) in sv.active ==> sv.active[ToHex(id)] < |sv.runs|
  {
    var k := ToHex(id);
    if k in sv.active then
      var n := sv.active[k];
      sv.(runs := sv.runs[n := sv.runs[n].(cancel := true)])
    else sv
  }

  /** active.erase(id.ToString()), whatever is stored there. */
  function Erase(sv: Server, n: nat): Server
    requires n < |sv.runs| && sv.runs[n].phase.Published?
  {
    var r := sv.runs[n];
    SetPhase(sv, n, Erased(r.phase.outcome)).(active := sv.active - {Key(r)})
  }

  /** The flags of all active goals set. */
  function FlagAll(sv: Server): seq<Run> {
    seq(|sv.runs|, n requires 0 <= n < |sv.runs| =>
      if n in sv.active.Values then sv.runs[n].(cancel := true) else sv.runs[n])
  }

  /** The locked block of the destructor. */
  function LockDown(sv: Server): Server {
    sv.(lockedDown := true, runs := FlagAll(sv), joined := sv.workers, workers := {})
  }

  // ---- Clients, network and the whole system ----

  datatype Option<+T> = None | Some(value: T)

  /** A goal handle held by a client; stores counts how often a result was stored. */
  datatype Handle = Handle(client: nat, id: GoalId, goal: Payload, sent: bool, result: Option<ResultMsg>, stores: nat)

  datatype State = State(
    server: Server,
    handles: seq<Handle>,
    pending: map<(nat, string), nat>,  // each client's map of waiting handles
    taken: map<nat, ResultMsg>,        // results looked up but not yet stored
    goals: set<GoalMsg>,
    cancels: set<GoalId>,
    results: set<ResultMsg>)

  const INIT := State(SERVER0, [], map[], map[], {}, {}, {})

  datatype Step =
    | RegisterGoal(client: nat, id: GoalId, goal: Payload)
    | SendGoal(h: nat)
    | SendCancel(h: nat)
    | TakeResult(client: nat, msg: ResultMsg)
    | StoreResult(h: nat)
    | BeginGoal(goalMsg: GoalMsg)
    | AcceptGoal(goalMsg: GoalMsg)
    | SpawnWorker(n: nat)
    | PushWorker(n: nat)
    | DeliverCancel(cancel: GoalId)
    | Finish(n: nat, outcome: Outcome)
    | PublishResult(n: nat)
    | EraseRun(n: nat)
    | Finalize
    | BeginShutdown
    | LockedShutdown

  ghost predicate Enabled(s: State, e: Step) {
    var sv := s.server;
    match e
    case RegisterGoal(_, id, _) => forall h | h in s.handles :: h.id != id  // NewGoalID draws a fresh id
    case SendGoal(h) => h < |s.handles| && !s.handles[h].sent
    case SendCancel(h) => h < |s.handles|
    case TakeResult(c, msg) => msg in s.results && (c, ToHex(msg.id)) in s.pending
    case StoreResult(h) => h in s.taken && h < |s.handles|
    case BeginGoal(msg) => msg in s.goals && !sv.shuttingDown
    case AcceptGoal(msg) => msg in sv.calls
    case SpawnWorker(n) => n < |sv.runs| && sv.runs[n].phase.Admitted?
    case PushWorker(n) => n in sv.spawned
    case DeliverCancel(id) => id in s.cancels && (ToHex(id) in sv.active ==> sv.active[ToHex(id)] < |sv.runs|)
    case Finish(n, _) => n < |sv.runs| && sv.runs[n].phase.Running?
    case PublishResult(n) => n < |sv.runs| && sv.runs[n].phase.Computed?
    case EraseRun(n) => n < |sv.runs| && sv.runs[n].phase.Published?
    case Finalize => !sv.shuttingDown  // no call on an object under destruction
    case BeginShutdown => true
    case LockedShutdown => sv.shuttingDown && !sv.lockedDown
  }

  function Next(s: State, e: Step): State
    requires Enabled(s, e)
  {
    var sv := s.server;
    match e
    case RegisterGoal(c, id, goal) =>
      s.(handles := s.handles + [Handle(c, id, goal, false, None, 0)],
         pending := s.pending[(c, ToHex(id)) := |s.handles|])
    case SendGoal(h) =>
      s.(handles := s.handles[h := s.handles[h].(sent := true)],
         goals := s.goals + {GoalMsg(s.handles[h].id, s.handles[h].goal)})
    case SendCancel(h) => s.(cancels := s.cancels + {s.handles[h].id})
    case TakeResult(c, msg) =>
      var k := (c, ToHex(msg.id));
      s.(pending := s.pending - {k}, taken := s.taken[s.pending[k] := msg])
    case StoreResult(h) =>
      var u := s.handles[h];
      s.(handles := s.handles[h := u.(result := Some(s.taken[h]), stores := u.stores + 1)], taken := s.taken - {h})
    case BeginGoal(msg) => s.(server := sv.(calls := sv.calls + multiset{msg}))
    case AcceptGoal(msg) => s.(server := Accept(sv, msg))
    case SpawnWorker(n) => s.(server := Spawn(sv, n))
    case PushWorker(n) => s.(server := sv.(spawned := sv.spawned - {n}, workers := sv.workers + {n}))
    case DeliverCancel(id) => s.(server := HandleCancel(sv, id))
    case Finish(n, o) => s.(server := SetPhase(sv, n, Computed(o)))
    case PublishResult(n) =>
      var o := sv.runs[n].phase.outcome;
      s.(server := SetPhase(sv, n, Published(o)), results := s.results + {Message(sv.runs[n].id, o)})
    case EraseRun(n) => s.(server := Erase(sv, n))
    case Finalize => s.(server := sv.(finalized := true))
    case BeginShutdown => s.(server := sv.(shuttingDown := true))
    case LockedShutdown => s.(server := LockDown(sv))
  }

  // ---- Invariant ----

  /** active holds exactly the acceptances not yet erased, each under its own id. */
  ghost predicate ActiveInv(sv: Server) {
    && (forall k | k in sv.active :: sv.active[k] < |sv.runs| && !sv.runs[sv.active[k]].phase.Erased?
                                     && Key(sv.runs[sv.active[k]]) == k)
    && (forall n | 0 <= n < |sv.runs| && !sv.runs[n].phase.Erased? ::
          Key(sv.runs[n]) in sv.active && sv.active[Key(sv.runs[n])] == n)
  }

  /** Executions of one id never overlap: an earlier one is over. */
  ghost predicate SerialInv(sv: Server) {
    forall m, n | 0 <= m < n < |sv.runs| && sv.runs[m].id == sv.runs[n].id :: sv.runs[m].phase.Erased?
  }

  /** Before Finalize nothing is executed: a thread that finds no server state returns. */
  ghost predicate EarlyInv(sv: Server) {
    !sv.finalized ==> forall n | 0 <= n < |sv.runs| :: sv.runs[n].phase.Admitted? || sv.runs[n].phase.Lost?
  }

  /** Every worker thread is accounted for, and joined belongs to the destructor. */
  ghost predicate WorkerInv(sv: Server) {
    && (forall n | 0 <= n < |sv.runs| && !sv.runs[n].phase.Admitted? :: n in sv.spawned + sv.workers + sv.joined)
    && (forall n | n in sv.spawned :: n < |sv.runs| && !sv.runs[n].phase.Admitted? && n !in sv.workers)
    && (forall n | n in sv.workers :: n < |sv.runs| && !sv.runs[n].phase.Admitted?)
    && (forall n | n in sv.joined :: n < |sv.runs|)
    && (!sv.lockedDown ==> sv.joined == {})
  }

  predicate HasPublished(r: Run) { r.phase.Published? || r.phase.Erased? }

  predicate Produced(r: Run, msg: ResultMsg) {
    HasPublished(r) && msg == Message(r.id, r.phase.outcome)
  }

  predicate Sent(u: Handle, m: GoalMsg) { u.sent && u.id == m.id && u.goal == m.goal }

  ghost predicate NetInv(s: State) {
    && (forall m | m in s.server.calls :: m in s.goals)
    && (forall r | r in s.server.runs :: GoalMsg(r.id, r.goal) in s.goals)
    && (forall m | m in s.goals :: exists h :: 0 <= h < |s.handles| && Sent(s.handles[h], m))
    && (forall msg | msg in s.results :: exists n :: 0 <= n < |s.server.runs| && Produced(s.server.runs[n], msg))
  }

  ghost predicate UniqueIds(hs: seq<Handle>) {
    forall g, h | 0 <= g < |hs| && 0 <= h < |hs| && hs[g].id == hs[h].id :: g == h
  }

  /** A handle is waiting, or its result is being delivered, or it has its result. */
  ghost predicate ClientInv(s: State) {
    && UniqueIds(s.handles)
    && (forall k | k in s.pending ::
          && s.pending[k] < |s.handles| && s.handles[s.pending[k]].result.None? && s.pending[k] !in s.taken
          && k == (s.handles[s.pending[k]].client, ToHex(s.handles[s.pending[k]].id)))
    && (forall h | h in s.taken ::
          h < |s.handles| && s.handles[h].result.None? && s.taken[h] in s.results && s.taken[h].id == s.handles[h].id)
    && (forall h | 0 <= h < |s.handles| :: HandleOk(s.handles[h], s.results))
  }

  ghost predicate HandleOk(u: Handle, results: set<ResultMsg>) {
    && u.stores == (if u.result.Some? then 1 else 0)
    && (u.result.Some? ==> u.result.value in results && u.result.value.id == u.id)
  }

  ghost predicate Inv(s: State) {
    ActiveInv(s.server) && SerialInv(s.server) && WorkerInv(s.server) && NetInv(s) && ClientInv(s)
  }
}

/**
 * The VM table as an interleaved state machine. One label is one locked step of one thread: `StartApp`
 * is a lookup, an add and an update, followed by `cleanupService`; a cleaning call is one collect and
 * one removal per collected id. A run is any sequence of labels from the empty table.
 */
module TableRuns {
  import opened CLib
  import opened VmTable

  datatype Config = Config(build: Build, maxAge: int)

  /** `Spawning` is the window between `updateprocEntry`'s unlock and `cleanupService`'s return. */
  datatype Phase = LookingUp | Adding | Updating(child: int) | Spawning

  datatype Launch = Launch(procid: int, uuid: string, file: string, hash: string, instanceType: int,
                           update: Update, phase: Phase)

  /** `Exiting`: the last count was 0 and the flag is not yet reset. */
  datatype CleanerPhase = Checking | Sleeping | Removing(pending: set<int>) | Exiting

  datatype State = State(table: Table, clock: int, reqId: int, served: nat,
                         launches: map<nat, Launch>, flag: bool, cleaners: map<nat, CleanerPhase>)

  datatype Label =
    | Tick(delta: nat)
    | OtherRequest
    | Arrive(tid: nat, uuid: string, file: string, hash: string, instanceType: int, update: Update)
    | LookUp(tid: nat)
    | Add(tid: nat)
    | Apply(tid: nat)
    | CleanupService(tid: nat, cid: nat)
    | SetStatus(uuid: string, status: int)
    | HyperVRemove(uuid: string)
    | HyperVStop(uuid: string)
    | CleanerCheck(cid: nat)
    | CleanerCollect(cid: nat)
    | CleanerRemove(cid: nat, id: int)
    | CleanerAgain(cid: nat)
    | CleanerReset(cid: nat)

  ghost predicate InPhase(s: State, tid: nat, p: Phase) {
    tid in s.launches && s.launches[tid].phase == p
  }

  predicate InCleanerPhase(s: State, cid: nat, p: CleanerPhase) {
    cid in s.cleaners && s.cleaners[cid] == p
  }

  function WithPhase(s: State, tid: nat, p: Phase): State
    requires tid in s.launches
  {
    s.(launches := s.launches[tid := s.launches[tid].(phase := p)])
  }

  /** `generate_req_id`: every connection takes the next id modulo `INT32_MAX`. */
  function NewRequest(s: State): State {
    s.(reqId := (s.reqId + 1) % INT32_MAX, served := s.served + 1)
  }

  /** One step; a label that is not enabled changes nothing. */
  ghost function Step(c: Config, s: State, l: Label): State {
    match l
    case Tick(delta) => s.(clock := s.clock + delta)
    case OtherRequest => NewRequest(s)
    case Arrive(tid, uuid, file, hash, instanceType, update) =>
      if tid in s.launches then s
      else if uuid == "" || |uuid| >= UUID_SIZE || |hash| > RG_HASH_SIZE then NewRequest(s)
      else
        var s1 := NewRequest(s);
        s1.(launches := s1.launches[tid := Launch(s1.reqId, uuid, file, hash, instanceType, update, LookingUp)])
    case LookUp(tid) =>
      if !InPhase(s, tid, LookingUp) then s
      else
        var id := IdOf(s.table, s.launches[tid].uuid);
        WithPhase(s, tid, if id == 0 then Adding else Updating(id))
    case Add(tid) =>
      if !InPhase(s, tid, Adding) then s
      else
        var x := s.launches[tid];
        WithPhase(s, tid, Updating(x.procid))
          .(table := Inserted(s.table, x.procid, NewEntry(c.build, x.file, x.uuid, x.hash, x.instanceType, s.clock)))
    case Apply(tid) =>
      if tid !in s.launches || !s.launches[tid].phase.Updating? then s
      else
        var x := s.launches[tid];
        if x.phase.child in s.table
        then WithPhase(s, tid, Spawning).(table := AfterUpdate(c.build, s.table, x.phase.child, x.update))
        else s.(launches := s.launches - {tid})
    case CleanupService(tid, cid) =>
      if !InPhase(s, tid, Spawning) || cid in s.cleaners then s
      else
        var s1 := s.(launches := s.launches - {tid});
        if s.flag || Cancelled(s.table) == {} then s1
        else s1.(cleaners := s1.cleaners[cid := Checking], flag := true)
    case SetStatus(uuid, status) =>
      NewRequest(s).(table := AfterStatus(s.table, uuid, status, s.clock))
    case HyperVRemove(uuid) =>
      if c.build == Linux then s else s.(table := WithoutUuid(s.table, uuid))
    case HyperVStop(uuid) =>
      if c.build == Linux then s else s.(table := AfterStatus(s.table, uuid, VM_STATUS_STOPPED, s.clock))
    case CleanerCheck(cid) =>
      if !InCleanerPhase(s, cid, Checking) then s
      else s.(cleaners := s.cleaners[cid := if Cancelled(s.table) == {} then Exiting else Sleeping])
    case CleanerCollect(cid) =>
      if !InCleanerPhase(s, cid, Sleeping) then s
      else s.(cleaners := s.cleaners[cid := Removing(ExpiredIds(s.table, VM_STATUS_CANCELLED, c.maxAge, s.clock))])
    case CleanerRemove(cid, id) =>
      if cid !in s.cleaners || !s.cleaners[cid].Removing? || id !in s.cleaners[cid].pending then s
      else s.(table := s.table - {id}, cleaners := s.cleaners[cid := Removing(s.cleaners[cid].pending - {id})])
    case CleanerAgain(cid) =>
      if !InCleanerPhase(s, cid, Removing({})) then s
      else s.(cleaners := s.cleaners[cid := Checking])
    case CleanerReset(cid) =>
      if !InCleanerPhase(s, cid, Exiting) then s
      else s.(cleaners := s.cleaners - {cid}, flag := false)
  }

  const START: State := State(map[], 0, 0, 0, map[], false, map[])

  ghost function Run(c: Config, ls: seq<Label>): State {
    if ls == [] then START else Step(c, Run(c, ls[..|ls| - 1]), ls[|ls| - 1])
  }

  lemma RunAppend(c: Config, ls: seq<Label>, l: Label)
    ensures Run(c, ls + [l]) == Step(c, Run(c, ls), l)
  {
    assert (ls + [l])[..|ls|] == ls;
  }

  lemma RunTwo(c: Config, ls: seq<Label>, two: seq<Label>) returns (r: seq<Label>)
    requires |two| == 2
    ensures r == ls + two && Run(c, r) == Step(c, Step(c, Run(c, ls), two[0]), two[1])
  {
    RunAppend(c, ls, two[0]);
    RunAppend(c, ls + [two[0]], two[1]);
    r := ls + two;
    assert ls + [two[0]] + [two[1]] == r;
  }

  // ---- Enforcement ----------------------------------------------------------------------------------

  /** An entry that must not run is CANCELLED. */
  ghost predicate Enforced(t: Table) {
    forall id :: id in t && t[id].policy == ENFORCE && !t[id].verified ==> t[id].status == VM_STATUS_CANCELLED
  }

  lemma EnforcedStep(c: Config, s: State, l: Label)
    requires Enforced(s.table)
    ensures Enforced(Step(c, s, l).table)
  {
  }

  /**
   * In every reachable state, on either build, for either instance type and whatever status numbers
   * were requested, an entry with policy "Enforce" that failed verification is CANCELLED.
   */
  lemma {:induction false} EnforcementHolds(c: Config, ls: seq<Label>)
    ensures Enforced(Run(c, ls).table)
  {
    if ls != [] {
      EnforcementHolds(c, ls[..|ls| - 1]);
      EnforcedStep(c, Run(c, ls[..|ls| - 1]), ls[|ls| - 1]);
    }
  }

  // ---- What a step can do to the launches and the table ------------------------------------------

  predicate Unadded(x: Launch) { x.phase == LookingUp || x.phase == Adding }

  ghost predicate PhaseMoves(s: State, l: Label, before: Launch, after: Launch) {
    || after.phase == before.phase
    || (l.LookUp? && before.phase == LookingUp && after.phase == Adding
        && (0 !in s.table ==> forall id :: id in s.table ==> s.table[id].uuid != before.uuid))
    || (l.LookUp? && before.phase == LookingUp && after.phase.Updating?
        && after.phase.child in s.table && s.table[after.phase.child].uuid == before.uuid)
    || (l.Add? && before.phase == Adding && after.phase == Updating(before.procid))
    || (l.Apply? && before.phase.Updating? && after.phase == Spawning)
  }

  /** A launch appears with the id just issued, keeps its data, and moves forward through its phases. */
  ghost predicate LaunchMoves(s: State, l: Label, s': State, t: nat)
    requires t in s'.launches
  {
    if t in s.launches then
      && s'.launches[t] == s.launches[t].(phase := s'.launches[t].phase)
      && PhaseMoves(s, l, s.launches[t], s'.launches[t])
      && (s'.launches[t].phase != s.launches[t].phase ==> (l.LookUp? || l.Add? || l.Apply?) && l.tid == t)
    else
      && l.Arrive? && t == l.tid && s'.launches[t].uuid == l.uuid && s'.launches[t].instanceType == l.instanceType
      && s'.served == s.served + 1
      && s'.launches[t].procid == s'.reqId && s'.launches[t].phase == LookingUp
      && 0 < |s'.launches[t].uuid| < UUID_SIZE && |s'.launches[t].hash| <= RG_HASH_SIZE
  }

  ghost predicate LaunchesMove(s: State, l: Label, s': State) {
    && ((s'.served == s.served && s'.reqId == s.reqId)
        || (s'.served == s.served + 1 && s'.reqId == (s.reqId + 1) % INT32_MAX))
    && (forall t :: t in s'.launches ==> LaunchMoves(s, l, s', t))
  }

  /** Entries keep their uuid and type; the only new one is the adder's, under the adder's id. */
  ghost predicate TableMoves(s: State, l: Label, s': State) {
    forall id :: id in s'.table ==>
      if id in s.table then
        s'.table[id].uuid == s.table[id].uuid && s'.table[id].instanceType == s.table[id].instanceType
      else
        && l.Add? && InPhase(s, l.tid, Adding) && InPhase(s', l.tid, Updating(id))
        && id == s.launches[l.tid].procid && s'.table[id].uuid == StrCpyS(UUID_SIZE, s.launches[l.tid].uuid)
        && s'.table[id].instanceType == s.launches[l.tid].instanceType
  }

  /** A cleaner's pending ids were pending before, or are ids of the table. */
  ghost predicate PendingMoves(s: State, l: Label, s': State) {
    forall q, id :: q in s'.cleaners && s'.cleaners[q].Removing? && id in s'.cleaners[q].pending ==>
      id in s.table || (q in s.cleaners && s.cleaners[q].Removing? && id in s.cleaners[q].pending)
  }

  lemma LookUpMoves(c: Config, s: State, tid: nat)
    requires InPhase(s, tid, LookingUp)
    ensures LaunchMoves(s, LookUp(tid), Step(c, s, LookUp(tid)), tid)
  {
    var uuid := s.launches[tid].uuid;
    assert forall id :: id in s.table && s.table[id].uuid == uuid ==> id in WithUuid(s.table, uuid);
  }

  lemma OtherLaunchMoves(c: Config, s: State, l: Label, t: nat)
    requires t in Step(c, s, l).launches && !(l == LookUp(t) && InPhase(s, t, LookingUp))
    ensures LaunchMoves(s, l, Step(c, s, l), t)
  {
    hide IdOf, AfterStatus, Inserted, AfterUpdate, WithoutUuid, NewEntry, Cancelled, ExpiredIds;
  }

  lemma LaunchesMoveStep(c: Config, s: State, l: Label)
    ensures LaunchesMove(s, l, Step(c, s, l))
  {
    hide LaunchMoves, IdOf, AfterStatus, Inserted, AfterUpdate, WithoutUuid, NewEntry, Cancelled, ExpiredIds;
    forall t | t in Step(c, s, l).launches ensures LaunchMoves(s, l, Step(c, s, l), t) {
      if l == LookUp(t) && InPhase(s, t, LookingUp) {
        LookUpMoves(c, s, t);
      } else {
        OtherLaunchMoves(c, s, l, t);
      }
    }
  }

  lemma TableMovesStep(c: Config, s: State, l: Label)
    ensures TableMoves(s, l, Step(c, s, l))
  {
  }

  lemma PendingMovesStep(c: Config, s: State, l: Label)
    ensures PendingMoves(s, l, Step(c, s, l))
  {
  }

  // ---- Request ids ----------------------------------------------------------------------------------

  /** `id` was issued and no `StartApp` in flight can still add an entry under it. */
  ghost predicate Settled(s: State, id: int) {
    0 < id <= s.served && forall t :: t in s.launches && Unadded(s.launches[t]) ==> s.launches[t].procid != id
  }

  ghost predicate LaunchIdsFresh(s: State) {
    && s.reqId == s.served
    && (forall t :: t in s.launches ==> 0 < s.launches[t].procid <= s.served)
    && (forall t, u :: t in s.launches && u in s.launches && t != u ==> s.launches[t].procid != s.launches[u].procid)
  }

  ghost predicate TableIdsSettled(s: State) {
    forall id :: id in s.table ==> Settled(s, id)
  }

  ghost predicate ChildrenSettled(s: State) {
    forall t :: t in s.launches && s.launches[t].phase.Updating? ==> Settled(s, s.launches[t].phase.child)
  }

  ghost predicate PendingSettled(s: State) {
    forall q, id :: q in s.cleaners && s.cleaners[q].Removing? && id in s.cleaners[q].pending ==> Settled(s, id)
  }

  ghost predicate IdsFresh(s: State) {
    LaunchIdsFresh(s) && TableIdsSettled(s) && ChildrenSettled(s) && PendingSettled(s)
  }

  lemma LaunchIdsFreshMove(s: State, l: Label, s': State)
    requires LaunchIdsFresh(s) && LaunchesMove(s, l, s') && s'.served < INT32_MAX
    ensures LaunchIdsFresh(s')
  {
    hide PhaseMoves;
    forall t, u | t in s'.launches && u in s'.launches && t != u
      ensures s'.launches[t].procid != s'.launches[u].procid
    {
      assert LaunchMoves(s, l, s', t) && LaunchMoves(s, l, s', u);
    }
  }

  lemma SettledStays(s: State, l: Label, s': State, id: int)
    requires LaunchIdsFresh(s) && LaunchesMove(s, l, s') && s'.served < INT32_MAX
    requires Settled(s, id)
    ensures Settled(s', id)
  {
  }

  /** The id a `StartApp` adds under is settled from then on. */
  lemma AddSettles(s: State, l: Label, s': State)
    requires LaunchIdsFresh(s) && LaunchesMove(s, l, s') && s'.served < INT32_MAX
    requires l.Add? && InPhase(s, l.tid, Adding) && InPhase(s', l.tid, Updating(s.launches[l.tid].procid))
    ensures Settled(s', s.launches[l.tid].procid)
  {
  }

  lemma IdsFreshMove(s: State, l: Label, s': State)
    requires IdsFresh(s) && s'.served < INT32_MAX
    requires LaunchesMove(s, l, s') && TableMoves(s, l, s') && PendingMoves(s, l, s')
    ensures IdsFresh(s')
  {
    LaunchIdsFreshMove(s, l, s');
    forall id | id in s'.table ensures Settled(s', id) {
      if id in s.table {
        SettledStays(s, l, s', id);
      } else {
        AddSettles(s, l, s');
      }
    }
    forall t | t in s'.launches && s'.launches[t].phase.Updating? ensures Settled(s', s'.launches[t].phase.child) {
      var child := s'.launches[t].phase.child;
      if t in s.launches && s.launches[t].phase == Adding {
        AddSettles(s, l, s');
      } else {
        SettledStays(s, l, s', child);
      }
    }
    forall q, id | q in s'.cleaners && s'.cleaners[q].Removing? && id in s'.cleaners[q].pending
      ensures Settled(s', id)
    {
      SettledStays(s, l, s', id);
    }
  }

  lemma IdsFreshStep(c: Config, s: State, l: Label)
    requires IdsFresh(s) && Step(c, s, l).served < INT32_MAX
    ensures IdsFresh(Step(c, s, l))
  {
    hide Step;
    LaunchesMoveStep(c, s, l);
    TableMovesStep(c, s, l);
    PendingMovesStep(c, s, l);
    IdsFreshMove(s, l, Step(c, s, l));
  }

  lemma ServedGrows(c: Config, s: State, l: Label)
    ensures s.served <= Step(c, s, l).served
  {
  }

  /** At most `INT32_MAX - 1` requests, so that the id counter has not wrapped. */
  lemma {:induction false} IdsStayFresh(c: Config, ls: seq<Label>)
    requires Run(c, ls).served < INT32_MAX
    ensures IdsFresh(Run(c, ls))
  {
    hide Step;
    if ls != [] {
      ServedGrows(c, Run(c, ls[..|ls| - 1]), ls[|ls| - 1]);
      IdsStayFresh(c, ls[..|ls| - 1]);
      IdsFreshStep(c, Run(c, ls[..|ls| - 1]), ls[|ls| - 1]);
    }
  }
}

/** The status of a Linux VM's entry is the history of its own events, whatever other threads did. */
module StatusHistory {
  import opened CLib
  import opened VmTable
  import opened TableRuns
  import opened TableIdentity
  import opened CleanerSafety

  /** What happens to one VM: it is entered, measured, reported by libvirt, cleaned away. */
  datatype VmEvent = Registered | Measured(refused: bool) | Notified(status: int) | Cleaned

  /** One VM on its own: no entry, or an entry with a status. CANCELLED absorbs all but `Cleaned`. */
  function OnEvent(v: Option<int>, e: VmEvent): Option<int> {
    match e
    case Registered => if v.None? then Some(VM_STATUS_STOPPED) else v
    case Measured(refused) => if v.Some? && refused then Some(VM_STATUS_CANCELLED) else v
    case Notified(status) =>
      if v.None? || v.value == VM_STATUS_CANCELLED then v
      else if status == VM_STATUS_DELETED then None
      else Some(status)
    case Cleaned => if v == Some(VM_STATUS_CANCELLED) then None else v
  }

  function Replay(es: seq<VmEvent>): Option<int> {
    if es == [] then None else OnEvent(Replay(es[..|es| - 1]), es[|es| - 1])
  }

  /** Which events can happen: entering a VM that has no entry, measuring one that has, cleaning a CANCELLED one. */
  predicate Enabled(v: Option<int>, e: VmEvent) {
    match e
    case Registered => v.None?
    case Measured(_) => v.Some?
    case Notified(_) => true
    case Cleaned => v == Some(VM_STATUS_CANCELLED)
  }

  /** Every event was possible when it happened. */
  predicate IsHistory(es: seq<VmEvent>) {
    es == [] || (IsHistory(es[..|es| - 1]) && Enabled(Replay(es[..|es| - 1]), es[|es| - 1]))
  }

  /** What the table says of one VM. */
  ghost function View(t: Table, uuid: string): Option<int> {
    if IdOf(t, uuid) == 0 then None else Some(t[IdOf(t, uuid)].status)
  }

  /** The event, if any, that a step is for the VM `uuid`. */
  ghost function EventOf(s: State, l: Label, uuid: string): Option<VmEvent> {
    match l
    case Add(tid) => if InPhase(s, tid, Adding) && s.launches[tid].uuid == uuid then Some(Registered) else None
    case Apply(tid) =>
      if tid in s.launches && s.launches[tid].uuid == uuid && s.launches[tid].phase.Updating?
         && s.launches[tid].phase.child in s.table
      then Some(Measured(CancelsLaunch(s.launches[tid].update))) else None
    case SetStatus(u, status) => if u == uuid then Some(Notified(status)) else None
    case CleanerRemove(cid, id) =>
      if cid in s.cleaners && s.cleaners[cid].Removing? && id in s.cleaners[cid].pending
         && id in s.table && s.table[id].uuid == uuid
      then Some(Cleaned) else None
    case _ => None
  }

  ghost function Trace(c: Config, ls: seq<Label>, uuid: string): seq<VmEvent> {
    if ls == [] then []
    else
      var e := EventOf(Run(c, ls[..|ls| - 1]), ls[|ls| - 1], uuid);
      Trace(c, ls[..|ls| - 1], uuid) + (if e.None? then [] else [e.value])
  }

  /** The VM is only ever launched as a VM, not as a Docker instance. */
  predicate OnlyVmLaunches(ls: seq<Label>, uuid: string) {
    forall k :: 0 <= k < |ls| && ls[k].Arrive? && ls[k].uuid == uuid ==> ls[k].instanceType == INSTANCE_TYPE_VM
  }

  ghost predicate OnlyVm(s: State, uuid: string) {
    && (forall t :: t in s.launches && s.launches[t].uuid == uuid ==> s.launches[t].instanceType == INSTANCE_TYPE_VM)
    && (forall id :: id in s.table && s.table[id].uuid == uuid ==> s.table[id].instanceType == INSTANCE_TYPE_VM)
  }

  lemma OnlyVmStep(c: Config, s: State, l: Label, uuid: string)
    requires OnlyVm(s, uuid) && UuidsFit(s)
    requires l.Arrive? && l.uuid == uuid ==> l.instanceType == INSTANCE_TYPE_VM
    ensures OnlyVm(Step(c, s, l), uuid)
  {
    hide Step;
    LaunchesMoveStep(c, s, l);
    TableMovesStep(c, s, l);
    var s' := Step(c, s, l);
    forall t | t in s'.launches && s'.launches[t].uuid == uuid ensures s'.launches[t].instanceType == INSTANCE_TYPE_VM {
      assert LaunchMoves(s, l, s', t);
    }
  }

  // ---- The view of a table with one entry per VM -------------------------------------------------------

  ghost predicate OneEntryEach(t: Table) {
    UuidsUnique(t) && forall id :: id in t ==> 0 < id
  }

  lemma IdentityMeansOneEntryEach(s: State)
    requires Identity(s)
    ensures OneEntryEach(s.table)
  {
    forall id | id in s.table ensures 0 < id { assert Settled(s, id); }
  }

  lemma ViewOfEntry(t: Table, uuid: string, id: int)
    requires OneEntryEach(t) && id in t && t[id].uuid == uuid
    ensures IdOf(t, uuid) == id && View(t, uuid) == Some(t[id].status)
  {
    ScanIsExact(t, uuid, id);
  }

  lemma ViewOfNothing(t: Table, uuid: string)
    requires OneEntryEach(t) && forall id :: id in t ==> t[id].uuid != uuid
    ensures IdOf(t, uuid) == 0 && View(t, uuid) == None
  {
    ScanIsExact(t, uuid, 0);
  }

  /** A VM whose entry a step leaves alone keeps its view. */
  lemma ViewKept(t: Table, t': Table, uuid: string)
    requires OneEntryEach(t) && OneEntryEach(t')
    requires forall id :: id in t && t[id].uuid == uuid ==>
             id in t' && t'[id].uuid == uuid && t'[id].status == t[id].status
    requires forall id :: id in t' && t'[id].uuid == uuid ==> id in t && t[id].uuid == uuid
    ensures View(t', uuid) == View(t, uuid)
  {
    if id :| id in t && t[id].uuid == uuid {
      ViewOfEntry(t, uuid, id);
      ViewOfEntry(t', uuid, id);
    } else {
      ViewOfNothing(t, uuid);
      ViewOfNothing(t', uuid);
    }
  }

  ghost function Next(s: State, l: Label, uuid: string): Option<int> {
    var e := EventOf(s, l, uuid);
    if e.None? then View(s.table, uuid) else OnEvent(View(s.table, uuid), e.value)
  }

  lemma ViewAfterAdd(c: Config, s: State, tid: nat, uuid: string)
    requires c.build == Linux && Identity(s) && OneEntryEach(s.table) && OneEntryEach(Step(c, s, Add(tid)).table)
    requires OnlyVm(s, uuid)
    ensures View(Step(c, s, Add(tid)).table, uuid) == Next(s, Add(tid), uuid)
  {
    var t' := Step(c, s, Add(tid)).table;
    if InPhase(s, tid, Adding) {
      AddInserts(c, s, tid);
      if s.launches[tid].uuid == uuid {
        ViewOfNothing(s.table, uuid);
        ViewOfEntry(t', uuid, s.launches[tid].procid);
      } else {
        ViewKept(s.table, t', uuid);
      }
    }
  }

  lemma ViewAfterApply(c: Config, s: State, tid: nat, uuid: string)
    requires c.build == Linux && Identity(s) && OneEntryEach(s.table) && OneEntryEach(Step(c, s, Apply(tid)).table)
    requires OnlyVm(s, uuid)
    ensures View(Step(c, s, Apply(tid)).table, uuid) == Next(s, Apply(tid), uuid)
  {
    var t' := Step(c, s, Apply(tid)).table;
    if tid in s.launches && s.launches[tid].phase.Updating? && s.launches[tid].phase.child in s.table {
      var id := s.launches[tid].phase.child;
      if s.launches[tid].uuid == uuid {
        ViewOfEntry(s.table, uuid, id);
        ViewOfEntry(t', uuid, id);
      } else {
        ViewKept(s.table, t', uuid);
      }
    }
  }

  lemma ViewAfterStatus(t: Table, u: string, status: int, now: int, uuid: string)
    requires OneEntryEach(t) && OneEntryEach(AfterStatus(t, u, status, now))
    ensures View(AfterStatus(t, u, status, now), uuid)
         == if u == uuid then OnEvent(View(t, uuid), Notified(status)) else View(t, uuid)
  {
    var t' := AfterStatus(t, u, status, now);
    if u != uuid {
      ViewKept(t, t', uuid);
    } else if id :| id in t && t[id].uuid == uuid {
      ViewOfEntry(t, uuid, id);
      if id in t' {
        ViewOfEntry(t', uuid, id);
      } else {
        ViewOfNothing(t', uuid);
      }
    } else {
      ViewOfNothing(t, uuid);
    }
  }

  lemma ViewAfterRemove(c: Config, s: State, cid: nat, id: int, uuid: string)
    requires c.build == Linux && OneEntryEach(s.table) && OneEntryEach(Step(c, s, CleanerRemove(cid, id)).table)
    requires PendingVmSafe(c, s) && OnlyVm(s, uuid)
    ensures View(Step(c, s, CleanerRemove(cid, id)).table, uuid) == Next(s, CleanerRemove(cid, id), uuid)
  {
    var t' := Step(c, s, CleanerRemove(cid, id)).table;
    if EventOf(s, CleanerRemove(cid, id), uuid) == Some(Cleaned) {
      assert Pending(s, id);
      ViewOfEntry(s.table, uuid, id);
      ViewOfNothing(t', uuid);
    } else {
      ViewKept(s.table, t', uuid);
    }
  }

  lemma TableUntouched(c: Config, s: State, l: Label)
    requires c.build == Linux && !l.Add? && !l.Apply? && !l.SetStatus? && !l.CleanerRemove?
    ensures Step(c, s, l).table == s.table
  {
    hide IdOf, AfterStatus, Inserted, AfterUpdate, WithoutUuid, NewEntry, Cancelled, ExpiredIds;
  }

  lemma ViewStep(c: Config, s: State, l: Label, uuid: string)
    requires c.build == Linux && Identity(s) && Identity(Step(c, s, l))
    requires PendingVmSafe(c, s) && OnlyVm(s, uuid)
    ensures View(Step(c, s, l).table, uuid) == Next(s, l, uuid)
  {
    IdentityMeansOneEntryEach(s);
    IdentityMeansOneEntryEach(Step(c, s, l));
    hide Identity, OnlyVm, PendingVmSafe, OneEntryEach, View, AfterStatus, Inserted, AfterUpdate, NewEntry;
    match l
    case Add(tid) => ViewAfterAdd(c, s, tid, uuid);
    case Apply(tid) => ViewAfterApply(c, s, tid, uuid);
    case SetStatus(u, status) => ViewAfterStatus(s.table, u, status, s.clock, uuid);
    case CleanerRemove(cid, id) => ViewAfterRemove(c, s, cid, id, uuid);
    case _ => TableUntouched(c, s, l);
  }

  /** A step's event is possible in the table it happens to. */
  lemma EventEnabled(c: Config, s: State, l: Label, uuid: string)
    requires c.build == Linux && Identity(s) && OneEntryEach(s.table) && PendingVmSafe(c, s) && OnlyVm(s, uuid)
    ensures EventOf(s, l, uuid).Some? ==> Enabled(View(s.table, uuid), EventOf(s, l, uuid).value)
  {
    if EventOf(s, l, uuid).Some? {
      match l
      case Add(tid) => ViewOfNothing(s.table, uuid);
      case Apply(tid) => ViewOfEntry(s.table, uuid, s.launches[tid].phase.child);
      case CleanerRemove(cid, id) =>
        assert Pending(s, id);
        ViewOfEntry(s.table, uuid, id);
      case _ =>
    }
  }

  lemma HistoryAppend(es: seq<VmEvent>, e: VmEvent)
    requires IsHistory(es) && Enabled(Replay(es), e)
    ensures IsHistory(es + [e])
  {
    assert (es + [e])[..|es|] == es;
  }

  lemma TraceAppend(es: seq<VmEvent>, e: VmEvent)
    ensures Replay(es + [e]) == OnEvent(Replay(es), e)
  {
    assert (es + [e])[..|es|] == es;
  }

  /**
   * The table refines one small automaton per VM: in every reachable state, a Linux VM's entry is what
   * replaying that VM's own events gives, and each of them was possible when it happened.
   */
  lemma {:induction false} StatusIsHistory(c: Config, ls: seq<Label>, uuid: string)
    requires c.build == Linux && RaceFree(c, ls) && Run(c, ls).served < INT32_MAX && OnlyVmLaunches(ls, uuid)
    ensures View(Run(c, ls).table, uuid) == Replay(Trace(c, ls, uuid)) && IsHistory(Trace(c, ls, uuid))
    ensures OnlyVm(Run(c, ls), uuid)
  {
    if ls == [] {
      assert WithUuid(map[], uuid) == {};
    } else {
      hide Step, View, OnlyVm, Identity, PendingVmSafe, EventOf;
      var s, l := Run(c, ls[..|ls| - 1]), ls[|ls| - 1];
      ServedGrows(c, s, l);
      StatusIsHistory(c, ls[..|ls| - 1], uuid);
      IdentityHolds(c, ls[..|ls| - 1]);
      IdentityHolds(c, ls);
      PendingVmSafeHolds(c, ls[..|ls| - 1]);
      IdentityFits(s);
      OnlyVmStep(c, s, l, uuid);
      ViewStep(c, s, l, uuid);
      IdentityMeansOneEntryEach(s);
      EventEnabled(c, s, l, uuid);
      var e := EventOf(s, l, uuid);
      if e.Some? {
        TraceAppend(Trace(c, ls[..|ls| - 1], uuid), e.value);
        HistoryAppend(Trace(c, ls[..|ls| - 1], uuid), e.value);
      } else {
        assert Trace(c, ls, uuid) == Trace(c, ls[..|ls| - 1], uuid);
      }
    }
  }

  lemma IdentityFits(s: State)
    requires Identity(s)
    ensures UuidsFit(s)
  {
  }
}

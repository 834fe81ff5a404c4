/** The libvirt listener: which domain events it reports, and what a VM's entry makes of them. */
module Listener {
  import opened CLib
  import opened VmTable
  import opened TableRuns
  import opened TableIdentity
  import opened StatusHistory

  datatype StoppedDetail = Destroyed | Shutdown | Failed | Crashed | OtherDetail

  /** The event types the callback tells apart; `DomainCrashed` is the value it compares with `VIR_DOMAIN_CRASHED`. */
  datatype DomainEvent =
    | Undefined(removed: bool)
    | Stopped(detail: StoppedDetail)
    | DomainCrashed
    | Started
    | OtherEvent

  function MappedStatus(e: DomainEvent): Option<int> {
    match e
    case Undefined(removed) => if removed then Some(VM_STATUS_DELETED) else None
    case Stopped(detail) => if detail == OtherDetail then None else Some(VM_STATUS_STOPPED)
    case DomainCrashed => Some(VM_STATUS_STOPPED)
    case Started => Some(VM_STATUS_STARTED)
    case OtherEvent => None
  }

  /** The callback; `None` when it notifies nobody. */
  method DomainEventCallback(e: DomainEvent) returns (notified: Option<int>)
    ensures notified == MappedStatus(e)
    ensures e == Started ==> notified == Some(VM_STATUS_STARTED)
    ensures e == DomainCrashed ==> notified == Some(VM_STATUS_STOPPED)
    ensures e.Stopped? && e.detail in {Destroyed, Shutdown, Failed, Crashed} ==> notified == Some(VM_STATUS_STOPPED)
    ensures e == Undefined(true) ==> notified == Some(VM_STATUS_DELETED)
    ensures e == Undefined(false) || e == Stopped(OtherDetail) || e == OtherEvent ==> notified == None
  {
    var notifyRPCore := false;
    var vmStatus := VM_STATUS_UNKNOWN;
    if e.Undefined? {
      if e.removed {
        notifyRPCore := true;
        vmStatus := VM_STATUS_DELETED;
      }
    } else if e.Stopped? {
      match e.detail
      case Destroyed => notifyRPCore := true; vmStatus := VM_STATUS_STOPPED;
      case Shutdown => notifyRPCore := true; vmStatus := VM_STATUS_STOPPED;
      case Failed => notifyRPCore := true; vmStatus := VM_STATUS_STOPPED;
      case Crashed => notifyRPCore := true; vmStatus := VM_STATUS_STOPPED;
      case OtherDetail =>
    } else if e.DomainCrashed? {
      notifyRPCore := true;
      vmStatus := VM_STATUS_STOPPED;
    } else if e.Started? {
      notifyRPCore := true;
      vmStatus := VM_STATUS_STARTED;
    }
    return if notifyRPCore then Some(vmStatus) else None;
  }

  // ---- Histories, read without replaying them ----------------------------------------------------------

  /** The last time the VM was entered in the table. */
  ghost predicate LastRegistration(es: seq<VmEvent>, r: nat) {
    r < |es| && es[r] == Registered && forall k :: r < k < |es| ==> es[k] != Registered
  }

  /** A refused launch, a removal from libvirt and a status request for 0 end the life of an entry. */
  predicate Decides(e: VmEvent) {
    e == Measured(true) || e == Notified(VM_STATUS_DELETED) || e == Notified(VM_STATUS_CANCELLED)
  }

  ghost predicate FirstDecision(es: seq<VmEvent>, r: nat, d: nat) {
    r < d < |es| && Decides(es[d]) && forall k :: r < k < d ==> !Decides(es[k])
  }

  ghost predicate Undecided(es: seq<VmEvent>, r: nat) {
    forall k :: r < k < |es| ==> !Decides(es[k])
  }

  ghost predicate LastReport(es: seq<VmEvent>, r: nat, k: nat) {
    r < k < |es| && es[k].Notified? && forall j :: k < j < |es| ==> !es[j].Notified?
  }

  ghost predicate CleanedAfter(es: seq<VmEvent>, d: nat) {
    exists k :: d < k < |es| && es[k] == Cleaned
  }

  lemma AtRegistration(es: seq<VmEvent>, r: nat)
    requires IsHistory(es) && |es| == r + 1 && es[r] == Registered
    ensures Replay(es) == Some(VM_STATUS_STOPPED)
  {
  }

  /** Before any decision the status is the last reported one, STOPPED without a report. */
  lemma {:induction false} UndecidedHistory(es: seq<VmEvent>, r: nat)
    requires IsHistory(es) && LastRegistration(es, r) && Undecided(es, r)
    ensures Replay(es).Some? && Replay(es).value != VM_STATUS_CANCELLED
    ensures forall k: nat :: LastReport(es, r, k) ==> Replay(es) == Some(es[k].status)
    ensures (forall k :: r < k < |es| ==> !es[k].Notified?) ==> Replay(es) == Some(VM_STATUS_STOPPED)
  {
    var n := |es| - 1;
    if n == r {
      AtRegistration(es, r);
    } else {
      var before := es[..n];
      assert forall k :: 0 <= k < n ==> before[k] == es[k];
      UndecidedHistory(before, r);
      assert !Decides(es[n]) && es[n] != Registered;
      forall k: nat | LastReport(es, r, k) ensures Replay(es) == Some(es[k].status) {
        assert k < n ==> LastReport(before, r, k);
      }
    }
  }

  /**
   * The first decision after a registration stands until the next one: a removed VM has no entry, a
   * cancelled one is CANCELLED, whatever libvirt reports and however often it is launched, until the
   * cleaner removes it.
   */
  lemma {:induction false} DecidedHistory(es: seq<VmEvent>, r: nat, d: nat)
    requires IsHistory(es) && LastRegistration(es, r) && FirstDecision(es, r, d)
    ensures Replay(es)
         == if es[d] == Notified(VM_STATUS_DELETED) || CleanedAfter(es, d) then None else Some(VM_STATUS_CANCELLED)
  {
    var n := |es| - 1;
    var before := es[..n];
    assert forall k :: 0 <= k < n ==> before[k] == es[k];
    if n == d {
      UndecidedHistory(before, r);
    } else {
      DecidedHistory(before, r, d);
      assert es[n] != Registered;
      assert CleanedAfter(es, d) <==> CleanedAfter(before, d) || es[n] == Cleaned;
    }
  }

  lemma {:induction false} NeverRegistered(es: seq<VmEvent>)
    requires forall k :: 0 <= k < |es| ==> es[k] != Registered
    ensures Replay(es) == None
  {
    if es != [] {
      NeverRegistered(es[..|es| - 1]);
    }
  }

  // ---- The same for the table, in every run --------------------------------------------------------------

  /** Runs of the Linux build in which the VM is not launched twice at once, nor as a Docker instance. */
  ghost predicate IsPlainRun(c: Config, ls: seq<Label>, uuid: string) {
    c.build == Linux && RaceFree(c, ls) && Run(c, ls).served < INT32_MAX && OnlyVmLaunches(ls, uuid)
  }

  /**
   * In every run: once a VM was refused, cancelled or removed, its entry says so until the VM is entered
   * anew or the cleaner has been.
   */
  lemma FirstDecisionStands(c: Config, ls: seq<Label>, uuid: string, r: nat, d: nat)
    requires IsPlainRun(c, ls, uuid)
    requires LastRegistration(Trace(c, ls, uuid), r) && FirstDecision(Trace(c, ls, uuid), r, d)
    ensures View(Run(c, ls).table, uuid)
         == if Trace(c, ls, uuid)[d] == Notified(VM_STATUS_DELETED) || CleanedAfter(Trace(c, ls, uuid), d) then None
            else Some(VM_STATUS_CANCELLED)
  {
    StatusIsHistory(c, ls, uuid);
    DecidedHistory(Trace(c, ls, uuid), r, d);
  }

  /** In every run: undecided, the entry's status is the last one reported since it was entered, STOPPED before any. */
  lemma LastReportIsStatus(c: Config, ls: seq<Label>, uuid: string, r: nat)
    requires IsPlainRun(c, ls, uuid)
    requires LastRegistration(Trace(c, ls, uuid), r) && Undecided(Trace(c, ls, uuid), r)
    ensures var es, v := Trace(c, ls, uuid), View(Run(c, ls).table, uuid);
            && v.Some? && v.value != VM_STATUS_CANCELLED
            && (forall k: nat :: LastReport(es, r, k) ==> v == Some(es[k].status))
            && ((forall k :: r < k < |es| ==> !es[k].Notified?) ==> v == Some(VM_STATUS_STOPPED))
  {
    StatusIsHistory(c, ls, uuid);
    UndecidedHistory(Trace(c, ls, uuid), r);
  }

  /** In every run: a VM that was never entered has no entry, whatever was reported about it. */
  lemma UnregisteredIsAbsent(c: Config, ls: seq<Label>, uuid: string)
    requires IsPlainRun(c, ls, uuid)
    requires forall k :: 0 <= k < |Trace(c, ls, uuid)| ==> Trace(c, ls, uuid)[k] != Registered
    ensures View(Run(c, ls).table, uuid) == None
  {
    StatusIsHistory(c, ls, uuid);
    NeverRegistered(Trace(c, ls, uuid));
  }

  /** A libvirt event reaches the table as the request the callback sends for it, if it sends one. */
  function RequestFor(uuid: string, e: DomainEvent): seq<Label> {
    match MappedStatus(e)
    case None => []
    case Some(status) => [SetStatus(uuid, status)]
  }

  /** It is one event of the history of its VM, with the mapped status, and none of any other VM. */
  lemma EventIsInTrace(c: Config, ls: seq<Label>, uuid: string, e: DomainEvent, other: string)
    ensures Trace(c, ls + RequestFor(uuid, e), other)
         == Trace(c, ls, other)
           + if MappedStatus(e).Some? && other == uuid then [Notified(MappedStatus(e).value)] else []
    ensures var told := Trace(c, ls + RequestFor(uuid, e), uuid);
            && (e == Started ==> told == Trace(c, ls, uuid) + [Notified(VM_STATUS_STARTED)])
            && (e == DomainCrashed || (e.Stopped? && e.detail != OtherDetail) ==>
                  told == Trace(c, ls, uuid) + [Notified(VM_STATUS_STOPPED)])
            && (e == Undefined(true) ==> told == Trace(c, ls, uuid) + [Notified(VM_STATUS_DELETED)])
            && (e == Undefined(false) || e == Stopped(OtherDetail) || e == OtherEvent ==> told == Trace(c, ls, uuid))
  {
    match MappedStatus(e)
    case None =>
      assert ls + [] == ls;
    case Some(status) =>
      var more := ls + [SetStatus(uuid, status)];
      assert more[..|ls|] == ls;
  }

  // ---- A VM that comes back --------------------------------------------------------------------------------

  /** However an entry ended, a VM that is launched again is entered anew and starts over as STOPPED. */
  lemma RelaunchStartsOver(es: seq<VmEvent>, refused: bool)
    requires IsHistory(es) && Replay(es) == None
    ensures IsHistory(es + [Registered] + [Measured(refused)])
    ensures Replay(es + [Registered] + [Measured(refused)])
         == Some(if refused then VM_STATUS_CANCELLED else VM_STATUS_STOPPED)
  {
    HistoryAppend(es, Registered);
    TraceAppend(es, Registered);
    HistoryAppend(es + [Registered], Measured(refused));
    TraceAppend(es + [Registered], Measured(refused));
  }

  /** In the machine itself: with no entry there, the three steps of a launch leave a new one. */
  lemma LaunchedAnew(c: Config, s: State, tid: nat)
    requires c.build == Linux && Identity(s) && NoRacingAdds(s) && s.served < INT32_MAX && InPhase(s, tid, LookingUp)
    requires OnlyVm(s, s.launches[tid].uuid) && View(s.table, s.launches[tid].uuid) == None
    requires forall t :: InPhase(s, t, Adding) ==> s.launches[t].uuid != s.launches[tid].uuid
    ensures View(Step(c, Step(c, Step(c, s, LookUp(tid)), Add(tid)), Apply(tid)).table, s.launches[tid].uuid)
         == Some(if CancelsLaunch(s.launches[tid].update) then VM_STATUS_CANCELLED else VM_STATUS_STOPPED)
  {
    var s1 := Step(c, s, LookUp(tid));
    LookedUp(c, s, tid);
    AddedAndUpdated(c, s1, tid);
    hide Step;
  }

  lemma LookedUp(c: Config, s: State, tid: nat)
    requires c.build == Linux && Identity(s) && NoRacingAdds(s) && s.served < INT32_MAX && InPhase(s, tid, LookingUp)
    requires OnlyVm(s, s.launches[tid].uuid) && View(s.table, s.launches[tid].uuid) == None
    requires forall t :: InPhase(s, t, Adding) ==> s.launches[t].uuid != s.launches[tid].uuid
    ensures Step(c, s, LookUp(tid)) == WithPhase(s, tid, Adding)
    ensures var s1 := WithPhase(s, tid, Adding); Identity(s1) && NoRacingAdds(s1) && OnlyVm(s1, s.launches[tid].uuid)
  {
    IdentityMeansOneEntryEach(s);
    NothingFound(s, s.launches[tid].uuid);
    OneMoreAdder(s, tid);
    IdentityStep(c, s, LookUp(tid));
    OnlyVmStep(c, s, LookUp(tid), s.launches[tid].uuid);
    hide Identity, OnlyVm, NoRacingAdds, View;
  }

  lemma AddedAndUpdated(c: Config, s: State, tid: nat)
    requires c.build == Linux && Identity(s) && NoRacingAdds(s) && s.served < INT32_MAX && InPhase(s, tid, Adding)
    requires OnlyVm(s, s.launches[tid].uuid) && View(s.table, s.launches[tid].uuid) == None
    ensures View(Step(c, Step(c, s, Add(tid)), Apply(tid)).table, s.launches[tid].uuid)
         == Some(if CancelsLaunch(s.launches[tid].update) then VM_STATUS_CANCELLED else VM_STATUS_STOPPED)
  {
    var uuid, s1 := s.launches[tid].uuid, Step(c, s, Add(tid));
    AddInserts(c, s, tid);
    assert s1.launches == s.launches[tid := s.launches[tid].(phase := Updating(s.launches[tid].procid))];
    assert s.launches[tid].procid in s1.table && s1.served == s.served;
    assert Step(c, s1, Apply(tid)).served == s1.served;
    FewerAdders(s, s1, tid);
    hide Step, Identity, OnlyVm, OneEntryEach, View, NoRacingAdds;
    IdentityStep(c, s, Add(tid));
    IdentityFits(s);
    OnlyVmStep(c, s, Add(tid), uuid);
    IdentityStep(c, s1, Apply(tid));
    IdentityMeansOneEntryEach(s);
    IdentityMeansOneEntryEach(s1);
    IdentityMeansOneEntryEach(Step(c, s1, Apply(tid)));
    ViewAfterAdd(c, s, tid, uuid);
    ViewAfterApply(c, s1, tid, uuid);
  }

  lemma NothingFound(s: State, uuid: string)
    requires OneEntryEach(s.table) && View(s.table, uuid) == None
    ensures IdOf(s.table, uuid) == 0
  {
  }

  lemma OneMoreAdder(s: State, tid: nat)
    requires NoRacingAdds(s) && tid in s.launches
    requires forall t :: InPhase(s, t, Adding) ==> s.launches[t].uuid != s.launches[tid].uuid
    ensures NoRacingAdds(WithPhase(s, tid, Adding))
  {
    var s' := WithPhase(s, tid, Adding);
    forall t, u | InPhase(s', t, Adding) && InPhase(s', u, Adding) && t != u
      ensures s'.launches[t].uuid != s'.launches[u].uuid
    {
      assert t != tid ==> InPhase(s, t, Adding);
      assert u != tid ==> InPhase(s, u, Adding);
    }
  }

  lemma FewerAdders(s: State, s': State, tid: nat)
    requires NoRacingAdds(s) && tid in s.launches && tid in s'.launches
             && s'.launches == s.launches[tid := s'.launches[tid]]
    requires s'.launches[tid].phase != Adding
    ensures NoRacingAdds(s')
  {
    forall t, u | InPhase(s', t, Adding) && InPhase(s', u, Adding) && t != u
      ensures s'.launches[t].uuid != s'.launches[u].uuid
    {
      assert InPhase(s, t, Adding) && InPhase(s, u, Adding);
    }
  }
}

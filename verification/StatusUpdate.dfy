/** The listener's request to the server, `update_vm_status`, and what has happened when it reports success. */
module StatusUpdate {
  import opened CLib
  import opened XmlRpc
  import opened ArgOwnership
  import opened TcpChannel
  import opened VmTable
  import opened StatusHistory
  import opened Listener
  import opened Service
  import opened Exchange

  const STATUS_METHOD := "set_vm_uuid"

  function StatusArgs(uuid: string, vmStatus: int): seq<string> { [uuid, Decimal(vmStatus)] }

  lemma StatusArgsAreCStrings(uuid: string, vmStatus: int)
    requires IsCString(uuid)
    ensures AllCStrings(StatusArgs(uuid, vmStatus)) && IsMethodName(STATUS_METHOD)
  {
    DecimalIsCString(vmStatus);
    hide Decimal;
  }

  function StatusText(uuid: string, vmStatus: int): string
    requires IsCString(uuid)
  {
    StatusArgsAreCStrings(uuid, vmStatus);
    CallText(STATUS_METHOD, StatusArgs(uuid, vmStatus))
  }

  lemma StatusAskable(uuid: string, vmStatus: int)
    requires IsCString(uuid)
    ensures Askable(VM2RP_SETVM_STATUS, STATUS_METHOD, StatusArgs(uuid, vmStatus))
  {
    StatusArgsAreCStrings(uuid, vmStatus);
    CallTextLength(STATUS_METHOD, StatusArgs(uuid, vmStatus));
    hide CallText, Decimal, IsMethodName, AllCStrings, IsCString;
  }

  /** What the server does with the two strings is what the listener means by the uuid and the number. */
  lemma StatusAnswered(c: Context, t: Table, procid: int, uuid: string, vmStatus: int)
    ensures var args := StatusArgs(uuid, vmStatus);
            && ArgsReply(c, t, procid, VM2RP_SETVM_STATUS, args) == Some(if IdOf(t, uuid) != 0 then 0 else -1)
            && ArgsTable(c, t, procid, VM2RP_SETVM_STATUS, args) == AfterStatus(t, uuid, vmStatus, c.now)
  {
    AtoiOfDecimal(vmStatus);
    hide Decimal, Atoi, IdOf, AfterStatus;
  }

  /**
   * `update_vm_status`: 0 comes back only if the VM was registered and the request was applied to the
   * table. On a reliable connection it comes back exactly for a registered VM whose request has at most
   * 4095 bytes.
   */
  method UpdateVmStatus(core: VrtmCore, c: Context, uuid: string, vmStatus: int, reliable: bool) returns (retval: int)
    requires core.heap.Valid() && core.table.build == c.build && IdsAreInt32(core.table.procTable, NextId(core.reqId))
    requires IsCString(uuid)
    modifies core, core.table, core.heap
    ensures retval == 0 || retval == -1
    ensures retval == 0 ==> IdOf(old(core.table.procTable), uuid) != 0
    ensures reliable ==>
            (retval == 0 <==> IdOf(old(core.table.procTable), uuid) != 0 && |StatusText(uuid, vmStatus)| < MAX_LEN)
    ensures var after := AfterStatus(old(core.table.procTable), uuid, vmStatus, c.now);
            && (core.table.procTable == old(core.table.procTable) || core.table.procTable == after)
            && (retval == 0 || (reliable && |StatusText(uuid, vmStatus)| < MAX_LEN) ==> core.table.procTable == after)
    ensures core.heap.Valid() && core.heap.cells == old(core.heap.cells) && core.reqId == NextId(old(core.reqId))
  {
    hide CallText, ArgsReply, ArgsTable, Askable, AfterStatus, IdOf, StatusArgs, IsCString, AllCStrings, IdsAreInt32;
    StatusAskable(uuid, vmStatus);
    assert AllCStrings(StatusArgs(uuid, vmStatus)) by { StatusArgsAreCStrings(uuid, vmStatus); }
    ghost var t0 := core.table.procTable;
    var answer := Ask(core, c, VM2RP_SETVM_STATUS, STATUS_METHOD, StatusArgs(uuid, vmStatus), reliable);
    StatusAnswered(c, t0, core.reqId, uuid, vmStatus);
    if answer != Some(0) {
      return -1;
    }
    retval := 0;
  }

  // ---- One event of libvirt, all the way to the table ------------------------------------------------------

  const UUID_LENGTH: nat := 36

  /** The request for a libvirt uuid is far below the limit. */
  lemma StatusTextIsShort(uuid: string, vmStatus: int)
    requires IsCString(uuid) && |uuid| <= UUID_LENGTH && IsInt32(vmStatus)
    ensures |StatusText(uuid, vmStatus)| < MAX_LEN
  {
    StatusArgsAreCStrings(uuid, vmStatus);
    Int32Decimal(vmStatus);
    DecimalIsCString(vmStatus);
    ShortCallText(STATUS_METHOD, StatusArgs(uuid, vmStatus));
    hide Decimal, CallText, IsCString, AllCStrings, IsMethodName;
  }

  /** What a libvirt event is for the VM it is about. */
  function Reported(v: Option<int>, e: DomainEvent): Option<int> {
    match MappedStatus(e)
    case None => v
    case Some(status) => OnEvent(v, Notified(status))
  }

  /** The event removes the entry the scan finds, and behind it there is another one of the same VM. */
  ghost predicate LeavesTwin(t: Table, uuid: string, e: DomainEvent) {
    && MappedStatus(e) == Some(VM_STATUS_DELETED) && View(t, uuid).Some? && View(t, uuid).value != VM_STATUS_CANCELLED
    && IdOf(t - {IdOf(t, uuid)}, uuid) != 0
  }

  /** Two entries of one VM come from racing launches only. */
  lemma NoTwins(t: Table, uuid: string, e: DomainEvent)
    requires OneEntryEach(t)
    ensures !LeavesTwin(t, uuid, e)
  {
    if IdOf(t, uuid) != 0 {
      assert WithUuid(t - {IdOf(t, uuid)}, uuid) == {};
    }
  }

  lemma SameScan(t: Table, t': Table, uuid: string)
    requires WithUuid(t, uuid) == WithUuid(t', uuid)
    ensures IdOf(t, uuid) == IdOf(t', uuid)
  {
  }

  lemma OthersKeepView(t: Table, uuid: string, status: int, now: int, other: string)
    requires other != uuid
    ensures View(AfterStatus(t, uuid, status, now), other) == View(t, other)
  {
    var t' := AfterStatus(t, uuid, status, now);
    forall id ensures id in WithUuid(t, other) <==> id in WithUuid(t', other) {
    }
    SameScan(t, t', other);
  }

  lemma OwnView(t: Table, uuid: string, e: DomainEvent, now: int)
    requires MappedStatus(e).Some?
    ensures View(AfterStatus(t, uuid, MappedStatus(e).value, now), uuid) == Reported(View(t, uuid), e) <==>
            !LeavesTwin(t, uuid, e)
  {
    var status := MappedStatus(e).value;
    var t' := AfterStatus(t, uuid, status, now);
    if status != VM_STATUS_DELETED {
      forall id ensures id in WithUuid(t, uuid) <==> id in WithUuid(t', uuid) {
      }
      SameScan(t, t', uuid);
    }
  }

  /**
   * `domainEventCallback` with the request it makes: no other VM is touched, and this one's entry takes
   * the step of its own automaton, for certain if the connection is reliable, exactly unless its removal
   * uncovers a second entry.
   */
  method ReportDomainEvent(core: VrtmCore, c: Context, e: DomainEvent, uuid: string, reliable: bool)
    requires core.heap.Valid() && core.table.build == c.build
    requires IdsAreInt32(core.table.procTable, NextId(core.reqId))
    requires IsCString(uuid) && |uuid| <= UUID_LENGTH
    modifies core, core.table, core.heap
    ensures forall other :: other != uuid ==>
            View(core.table.procTable, other) == View(old(core.table.procTable), other)
    ensures core.table.procTable == old(core.table.procTable)
            || (View(core.table.procTable, uuid) == Reported(View(old(core.table.procTable), uuid), e) <==>
                !LeavesTwin(old(core.table.procTable), uuid, e))
    ensures reliable ==>
            (View(core.table.procTable, uuid) == Reported(View(old(core.table.procTable), uuid), e) <==>
             !LeavesTwin(old(core.table.procTable), uuid, e))
    ensures var v, v' := View(old(core.table.procTable), uuid), View(core.table.procTable, uuid);
            && (v == None || v == Some(VM_STATUS_CANCELLED) ==> v' == v)
            && (v != None && v != Some(VM_STATUS_CANCELLED) && reliable ==>
                  && (e == Started ==> v' == Some(VM_STATUS_STARTED))
                  && (e.Stopped? && e.detail != OtherDetail ==> v' == Some(VM_STATUS_STOPPED))
                  && (e == DomainCrashed ==> v' == Some(VM_STATUS_STOPPED))
                  && (e == Undefined(true) && OneEntryEach(old(core.table.procTable)) ==> v' == None))
            && (e == Undefined(false) || e == Stopped(OtherDetail) || e == OtherEvent ==> v' == v)
    ensures core.heap.Valid() && core.heap.cells == old(core.heap.cells)
  {
    hide AfterStatus, View, OneEntryEach, IsCString, IdsAreInt32, StatusText, IdOf;
    ghost var before := core.table.procTable;
    if OneEntryEach(before) {
      NoTwins(before, uuid, e);
    }
    var notified := DomainEventCallback(e);
    if notified.Some? {
      StatusTextIsShort(uuid, notified.value);
      var r := UpdateVmStatus(core, c, uuid, notified.value, reliable);
      OwnView(before, uuid, e, c.now);
      forall other | other != uuid
        ensures View(AfterStatus(before, uuid, notified.value, c.now), other) == View(before, other)
      {
        OthersKeepView(before, uuid, notified.value, c.now, other);
      }
    }
  }
}

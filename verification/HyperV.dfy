/** The Hyper-V clean-up of the Windows build: what the hypervisor reports is carried over to the table. */
module HyperV {
  import opened CLib
  import opened VmTable
  import opened TableIdentity

  /** What the query reports for a name that occurs twice is the first row. */
  function FirstState(rows: seq<(string, int)>, name: string): Option<int> {
    if rows == [] then None
    else if rows[0].0 == name then Some(rows[0].1)
    else FirstState(rows[1..], name)
  }

  /** Enabled states are 2, 6, 8 and 9; a VM that is not reported is gone. */
  function Classify(state: Option<int>): int {
    match state
    case None => VM_STATUS_DELETED
    case Some(s) => if s in {2, 6, 8, 9} then VM_STATUS_STARTED else VM_STATUS_STOPPED
  }

  predicate IsFirstRow(rows: seq<(string, int)>, name: string, k: int) {
    0 <= k < |rows| && rows[k].0 == name && forall j :: 0 <= j < k ==> rows[j].0 != name
  }

  /** The status found for a name: by the first row that has it, whatever the later ones say, or that it is gone. */
  ghost predicate FoundByRows(rows: seq<(string, int)>, name: string, status: int) {
    && (forall k :: IsFirstRow(rows, name, k) && rows[k].1 in {2, 6, 8, 9} ==> status == VM_STATUS_STARTED)
    && (forall k :: IsFirstRow(rows, name, k) && rows[k].1 !in {2, 6, 8, 9} ==> status == VM_STATUS_STOPPED)
    && ((forall k :: 0 <= k < |rows| ==> rows[k].0 != name) ==> status == VM_STATUS_DELETED)
  }

  lemma {:induction false} FirstStateIsFirst(rows: seq<(string, int)>, name: string)
    ensures FirstState(rows, name) == None <==> forall k :: 0 <= k < |rows| ==> rows[k].0 != name
    ensures forall k :: IsFirstRow(rows, name, k) ==> FirstState(rows, name) == Some(rows[k].1)
  {
    if rows != [] {
      FirstStateIsFirst(rows[1..], name);
      assert forall j :: 0 < j < |rows| ==> rows[j] == rows[1..][j - 1];
      forall k | IsFirstRow(rows, name, k) ensures FirstState(rows, name) == Some(rows[k].1) {
        assert k > 0 ==> IsFirstRow(rows[1..], name, k - 1);
      }
    }
  }

  /** So an enabled VM is STARTED, a VM in any other state STOPPED, and one without a row DELETED. */
  lemma ClassifiedByRows(rows: seq<(string, int)>, name: string)
    ensures FoundByRows(rows, name, Classify(FirstState(rows, name)))
  {
    FirstStateIsFirst(rows, name);
    hide FirstState;
  }

  method FillVmList(rows: seq<(string, int)>) returns (vmList: map<string, int>)
    ensures forall name :: FirstState(rows, name) == if name in vmList then Some(vmList[name]) else None
  {
    vmList := map[];
    var i := 0;
    while i < |rows|
      invariant 0 <= i <= |rows|
      invariant forall name ::
                  FirstState(rows, name) == if name in vmList then Some(vmList[name]) else FirstState(rows[i..], name)
    {
      assert rows[i..][1..] == rows[i + 1..];
      if rows[i].0 !in vmList {
        vmList := vmList[rows[i].0 := rows[i].1];
      }
      i := i + 1;
    }
  }

  lemma InhabitedNames(s: set<string>)
    ensures s == {} || exists x :: x in s
  {
    if forall x :: x !in s {
      assert s == {};
    }
  }

  /** `get_hyperv_vms_status`: the caller's map is overwritten in place; `None` for a failed query. */
  method GetHypervVmsStatus(hypervVms: map<string, int>, query: Option<seq<(string, int)>>)
    returns (r: int, after: map<string, int>)
    ensures query == None ==> r == 1 && after == hypervVms
    ensures query.Some? ==> r == 0 && after.Keys == hypervVms.Keys
                            && forall uuid :: uuid in after ==> after[uuid] == Classify(FirstState(query.value, uuid))
    ensures query.Some? ==> forall uuid :: uuid in after ==> FoundByRows(query.value, uuid, after[uuid])
  {
    if query.Some? {
      forall uuid ensures FoundByRows(query.value, uuid, Classify(FirstState(query.value, uuid))) {
        ClassifiedByRows(query.value, uuid);
      }
    }
    hide FoundByRows;
    after := hypervVms;
    if query == None {
      return 1, after;
    }
    var vmList := FillVmList(query.value);
    var todo := hypervVms.Keys;
    while todo != {}
      invariant todo <= hypervVms.Keys && after.Keys == hypervVms.Keys
      invariant forall uuid :: uuid in after && uuid !in todo ==> after[uuid] == Classify(FirstState(query.value, uuid))
      decreases |todo|
    {
      InhabitedNames(todo);
      var uuid :| uuid in todo;
      if uuid in vmList {
        var state := vmList[uuid];
        if state == 2 || state == 6 || state == 8 || state == 9 {
          after := after[uuid := VM_STATUS_STARTED];
        } else {
          after := after[uuid := VM_STATUS_STOPPED];
        }
      } else {
        after := after[uuid := VM_STATUS_DELETED];
      }
      todo := todo - {uuid};
    }
    r := 0;
  }

  // ---- Carrying it over --------------------------------------------------------------------------------------

  predicate NoNullId(t: Table) { 0 !in t }

  predicate Registered(t: Table, uuid: string) { exists id :: id in t && t[id].uuid == uuid }

  /** An entry of a VM that was found stopped; CANCELLED is never overwritten. */
  function Stopped(e: Entry, now: int): Entry {
    if e.status == VM_STATUS_CANCELLED then e else e.(status := VM_STATUS_STOPPED, statusTime := now)
  }

  /** `t1` is `t0` with exactly the VMs in `done` brought in line with `states`. */
  ghost predicate InLine(t0: Table, t1: Table, states: map<string, int>, done: set<string>, now: int) {
    && (forall id :: id in t1 ==> id in t0)
    && forall id :: id in t0 ==>
         var e := t0[id];
         if e.uuid !in done || e.uuid !in states then id in t1 && t1[id] == e
         else if states[e.uuid] == VM_STATUS_DELETED then id !in t1
         else if states[e.uuid] == VM_STATUS_STOPPED then id in t1 && t1[id] == Stopped(e, now)
         else id in t1 && t1[id] == e
  }

  /** The VMs of `done` that the hypervisor reports in `status` and the table knows. */
  ghost function Known(t: Table, states: map<string, int>, done: set<string>, status: int): set<string> {
    set uuid | uuid in done && uuid in states && states[uuid] == status && Registered(t, uuid)
  }

  lemma OneMore(t0: Table, t1: Table, states: map<string, int>, done: set<string>, now: int, uuid: string)
    requires UuidsUnique(t0) && NoNullId(t0) && InLine(t0, t1, states, done, now) && uuid in states && uuid !in done
    ensures states[uuid] == VM_STATUS_DELETED ==> InLine(t0, WithoutUuid(t1, uuid), states, done + {uuid}, now)
    ensures states[uuid] == VM_STATUS_STOPPED ==>
            InLine(t0, AfterStatus(t1, uuid, VM_STATUS_STOPPED, now), states, done + {uuid}, now)
    ensures states[uuid] != VM_STATUS_DELETED && states[uuid] != VM_STATUS_STOPPED ==>
            InLine(t0, t1, states, done + {uuid}, now)
    ensures IdOf(t1, uuid) != 0 <==> Registered(t0, uuid)
  {
    var id := IdOf(t1, uuid);
    if Registered(t0, uuid) {
      var j :| j in t0 && t0[j].uuid == uuid;
      assert j in t1 && t1[j] == t0[j];
      assert j in WithUuid(t1, uuid);
      assert id in t1 && t1[id].uuid == uuid;
      assert id in t0;
    } else {
      assert forall j :: j !in WithUuid(t1, uuid);
      assert WithUuid(t1, uuid) == {};
    }
  }

  lemma KnownGrows(t: Table, states: map<string, int>, done: set<string>, uuid: string, status: int)
    requires uuid in states && uuid !in done
    ensures Known(t, states, done + {uuid}, status)
         == Known(t, states, done, status) + if states[uuid] == status && Registered(t, uuid) then {uuid} else {}
    ensures uuid !in Known(t, states, done, status)
  {
  }

  /** The loop over the classified VMs. */
  method BringInLine(table: ServiceProcTable, states: map<string, int>, now: int)
    returns (deletedVmCount: nat, inactive: nat)
    requires UuidsUnique(table.procTable) && NoNullId(table.procTable)
    modifies table
    ensures InLine(old(table.procTable), table.procTable, states, states.Keys, now)
    ensures deletedVmCount == |Known(old(table.procTable), states, states.Keys, VM_STATUS_DELETED)|
    ensures inactive == |Known(old(table.procTable), states, states.Keys, VM_STATUS_STOPPED)|
  {
    hide InLine, Known, IdOf, AfterStatus, WithoutUuid;
    deletedVmCount, inactive := 0, 0;
    ghost var t0 := table.procTable;
    ghost var done: set<string> := {};
    NothingDone(t0, states, now);
    var todo := states.Keys;
    while todo != {}
      invariant todo <= states.Keys && done == states.Keys - todo
      invariant InLine(t0, table.procTable, states, done, now)
      invariant deletedVmCount == |Known(t0, states, done, VM_STATUS_DELETED)|
      invariant inactive == |Known(t0, states, done, VM_STATUS_STOPPED)|
      decreases |todo|
    {
      InhabitedNames(todo);
      var uuid :| uuid in todo;
      OneMore(t0, table.procTable, states, done, now, uuid);
      KnownGrows(t0, states, done, uuid, VM_STATUS_DELETED);
      KnownGrows(t0, states, done, uuid, VM_STATUS_STOPPED);
      if states[uuid] == VM_STATUS_DELETED {
        var removed := table.RemoveProcEntryByUuid(uuid);
        if removed {
          deletedVmCount := deletedVmCount + 1;
        }
      } else if states[uuid] == VM_STATUS_STOPPED {
        var updated := table.UpdateAppStatus(uuid, VM_STATUS_STOPPED, now);
        if updated {
          inactive := inactive + 1;
        }
      }
      todo := todo - {uuid};
      done := done + {uuid};
    }
    assert done == states.Keys;
  }

  /**
   * `CleanVrtmTable_and_update_vm_status`. VMs of the set that are gone from the hypervisor are gone
   * from the table, those in a non-enabled state are STOPPED unless CANCELLED, and nothing else changes;
   * each counter is the number of VMs the table knew and the hypervisor reported so. A failed query
   * changes nothing.
   */
  method CleanVrtmTableAndUpdateVmStatus(table: ServiceProcTable, vms: set<string>, query: Option<seq<(string, int)>>,
                                         now: int)
    returns (ok: bool, deletedVmCount: nat, inactive: nat, ghost states: map<string, int>)
    requires table.build == Windows && UuidsUnique(table.procTable) && NoNullId(table.procTable)
    modifies table
    ensures ok == query.Some?
    ensures !ok ==> table.procTable == old(table.procTable) && deletedVmCount == inactive == 0
    ensures ok ==>
            states.Keys == vms && forall uuid :: uuid in vms ==> states[uuid] == Classify(FirstState(query.value, uuid))
    ensures ok ==> forall uuid :: uuid in vms ==> FoundByRows(query.value, uuid, states[uuid])
    ensures ok ==> InLine(old(table.procTable), table.procTable, states, vms, now)
    ensures ok ==> deletedVmCount == |Known(old(table.procTable), states, vms, VM_STATUS_DELETED)|
    ensures ok ==> inactive == |Known(old(table.procTable), states, vms, VM_STATUS_STOPPED)|
  {
    hide InLine, Known, UuidsUnique, FoundByRows;
    states := map[];
    var hypervVms := map uuid | uuid in vms :: VM_STATUS_UNKNOWN;
    var r, after := GetHypervVmsStatus(hypervVms, query);
    if r != 0 {
      return false, 0, 0, states;
    }
    assert after.Keys == vms;
    states := after;
    deletedVmCount, inactive := BringInLine(table, after, now);
    ok := true;
  }

  lemma NothingDone(t: Table, states: map<string, int>, now: int)
    ensures InLine(t, t, states, {}, now)
    ensures Known(t, states, {}, VM_STATUS_DELETED) == {} && Known(t, states, {}, VM_STATUS_STOPPED) == {}
  {
  }

  /** What the state of affairs is afterwards, for every VM of the set. */
  lemma AfterReconciliation(t0: Table, t1: Table, states: map<string, int>, now: int, uuid: string)
    requires UuidsUnique(t0) && InLine(t0, t1, states, states.Keys, now) && uuid in states
    ensures states[uuid] == VM_STATUS_DELETED ==> !Registered(t1, uuid)
    ensures states[uuid] != VM_STATUS_DELETED ==> (Registered(t1, uuid) <==> Registered(t0, uuid))
    ensures forall id :: id in t1 && t1[id].uuid == uuid && states[uuid] == VM_STATUS_STOPPED ==>
              t1[id].status == VM_STATUS_STOPPED || t1[id].status == VM_STATUS_CANCELLED
  {
    if states[uuid] != VM_STATUS_DELETED && Registered(t0, uuid) {
      var id :| id in t0 && t0[id].uuid == uuid;
      assert id in t1 && t1[id].uuid == uuid;
    }
  }

  /**
   * A VM counted as inactive is STOPPED afterwards exactly when it was not CANCELLED: a cancelled one is
   * counted although its entry does not change.
   */
  lemma CountedButCancelled(t0: Table, t1: Table, states: map<string, int>, now: int, id: int)
    requires InLine(t0, t1, states, states.Keys, now) && id in t0
             && t0[id].uuid in Known(t0, states, states.Keys, VM_STATUS_STOPPED)
    ensures id in t1
    ensures t1[id].status == VM_STATUS_STOPPED <==> t0[id].status != VM_STATUS_CANCELLED
    ensures t0[id].status == VM_STATUS_CANCELLED ==> t1[id] == t0[id]
  {
  }

  // ---- A whole round of the thread ---------------------------------------------------------------------------

  /** The VMs `getactivevmsuuid` collects. */
  function ActiveVms(t: Table): set<string> {
    set id | id in t && t[id].instanceType == INSTANCE_TYPE_VM && t[id].status != VM_STATUS_CANCELLED :: t[id].uuid
  }

  /** The ids of entries that are gone, and of those that are different. */
  function Gone(t0: Table, t1: Table): set<int> { set id | id in t0 && id !in t1 }
  function Changed(t0: Table, t1: Table): set<int> { set id | id in t0 && id in t1 && t1[id] != t0[id] }

  lemma ActiveAreNotCancelled(t: Table, id: int)
    requires UuidsUnique(t) && id in t && t[id].uuid in ActiveVms(t)
    ensures t[id].status != VM_STATUS_CANCELLED
  {
  }

  lemma ActiveIff(t: Table, id: int)
    requires UuidsUnique(t) && id in t
    ensures t[id].uuid in ActiveVms(t) <==>
            t[id].instanceType == INSTANCE_TYPE_VM && t[id].status != VM_STATUS_CANCELLED
  {
  }

  /** As many ids as uuids, where every uuid has one. */
  lemma {:induction false} AsManyIds(t: Table, uuids: set<string>, ids: set<int>)
    requires UuidsUnique(t)
    requires forall id :: id in ids <==> id in t && t[id].uuid in uuids
    requires forall uuid :: uuid in uuids ==> Registered(t, uuid)
    ensures |ids| == |uuids|
    decreases |uuids|
  {
    InhabitedNames(uuids);
    if uuids == {} {
      assert forall id :: id !in ids;
    } else {
      var uuid :| uuid in uuids;
      var id :| id in t && t[id].uuid == uuid;
      AsManyIds(t, uuids - {uuid}, ids - {id});
      assert |uuids| == |uuids - {uuid}| + 1 && |ids| == |ids - {id}| + 1;
    }
  }

  lemma SameSize(part: set<int>, whole: set<int>)
    requires part <= whole
    ensures |part| == |whole| <==> part == whole
  {
    assert whole == part + (whole - part);
  }

  /**
   * For any set of VMs and with every status time in the past: as many are counted as removed as entries
   * are gone, and as many as made inactive as entries are different exactly when none of these is CANCELLED.
   */
  lemma CountersAgreeIff(t0: Table, t1: Table, states: map<string, int>, now: int)
    requires UuidsUnique(t0) && InLine(t0, t1, states, states.Keys, now)
    requires forall id :: id in t0 ==> t0[id].statusTime < now
    ensures |Known(t0, states, states.Keys, VM_STATUS_DELETED)| == |Gone(t0, t1)|
    ensures |Known(t0, states, states.Keys, VM_STATUS_STOPPED)| == |Changed(t0, t1)| <==>
            forall id :: id in t0 && t0[id].uuid in Known(t0, states, states.Keys, VM_STATUS_STOPPED) ==>
                           t0[id].status != VM_STATUS_CANCELLED
  {
    var removed := Known(t0, states, states.Keys, VM_STATUS_DELETED);
    var stopped := Known(t0, states, states.Keys, VM_STATUS_STOPPED);
    forall id | id in t0 ensures id in Gone(t0, t1) <==> t0[id].uuid in removed {
    }
    AsManyIds(t0, removed, Gone(t0, t1));
    var counted := set id | id in t0 && t0[id].uuid in stopped;
    AsManyIds(t0, stopped, counted);
    forall id | id in t0 ensures id in Changed(t0, t1) <==> id in counted && t0[id].status != VM_STATUS_CANCELLED {
    }
    SameSize(Changed(t0, t1), counted);
    hide InLine, Known;
    if forall id :: id in counted ==> t0[id].status != VM_STATUS_CANCELLED {
      assert forall id :: id in Changed(t0, t1) <==> id in counted;
    } else {
      var id :| id in counted && t0[id].status == VM_STATUS_CANCELLED;
      assert id !in Changed(t0, t1);
    }
  }

  /** The thread collects active VMs only, so its counters are the numbers of entries gone and changed. */
  lemma CountersAreChanges(t0: Table, t1: Table, states: map<string, int>, now: int)
    requires UuidsUnique(t0) && states.Keys == ActiveVms(t0) && InLine(t0, t1, states, states.Keys, now)
    requires forall id :: id in t0 ==> t0[id].statusTime < now
    ensures |Known(t0, states, states.Keys, VM_STATUS_DELETED)| == |Gone(t0, t1)|
    ensures |Known(t0, states, states.Keys, VM_STATUS_STOPPED)| == |Changed(t0, t1)|
  {
    CountersAgreeIff(t0, t1, states, now);
    forall id | id in t0 && t0[id].uuid in ActiveVms(t0) ensures t0[id].status != VM_STATUS_CANCELLED {
      ActiveAreNotCancelled(t0, id);
    }
    hide InLine, Gone, Changed, ActiveVms;
  }

  /** An active VM's entry afterwards: as it was if its first row is enabled, else STOPPED, gone without a row. */
  ghost predicate EntryByRows(t: Table, id: int, e: Entry, rows: seq<(string, int)>, now: int) {
    && (forall k :: IsFirstRow(rows, e.uuid, k) && rows[k].1 in {2, 6, 8, 9} ==> id in t && t[id] == e)
    && (forall k :: IsFirstRow(rows, e.uuid, k) && rows[k].1 !in {2, 6, 8, 9} ==>
          id in t && t[id] == e.(status := VM_STATUS_STOPPED, statusTime := now))
    && ((forall k :: 0 <= k < |rows| ==> rows[k].0 != e.uuid) ==> id !in t)
  }

  /**
   * One undisturbed round of the thread: collect the active VMs, sleep, ask, reconcile. Every VM found
   * not enabled ends STOPPED, every VM found gone is gone, nothing else changes, and both counters are
   * the numbers of entries that did.
   */
  method ReconcileActiveVms(table: ServiceProcTable, query: Option<seq<(string, int)>>, now: int)
    returns (ok: bool, deletedVmCount: nat, inactive: nat)
    requires table.build == Windows && UuidsUnique(table.procTable) && NoNullId(table.procTable)
    requires forall id :: id in table.procTable ==> table.procTable[id].statusTime < now
    modifies table
    ensures ok == query.Some?
    ensures deletedVmCount == |Gone(old(table.procTable), table.procTable)|
            && inactive == |Changed(old(table.procTable), table.procTable)|
    ensures ok ==> forall id :: id in old(table.procTable) ==>
              var e := old(table.procTable)[id]; var found := Classify(FirstState(query.value, e.uuid));
              if e.uuid !in ActiveVms(old(table.procTable)) || found == VM_STATUS_STARTED
              then id in table.procTable && table.procTable[id] == e
              else if found == VM_STATUS_DELETED then id !in table.procTable
              else id in table.procTable && table.procTable[id] == e.(status := VM_STATUS_STOPPED, statusTime := now)
    ensures ok ==> forall id :: id in old(table.procTable) ==>
              var e := old(table.procTable)[id];
              if e.instanceType != INSTANCE_TYPE_VM || e.status == VM_STATUS_CANCELLED
              then id in table.procTable && table.procTable[id] == e
              else EntryByRows(table.procTable, id, e, query.value, now)
  {
    var vms := table.GetActiveVmsUuid({});
    assert vms == ActiveVms(table.procTable);
    ghost var t0, states := table.procTable, map[];
    ok, deletedVmCount, inactive, states := CleanVrtmTableAndUpdateVmStatus(table, vms, query, now);
    if ok {
      CountersAreChanges(t0, table.procTable, states, now);
      forall id | id in t0
        ensures t0[id].uuid in vms <==> t0[id].instanceType == INSTANCE_TYPE_VM && t0[id].status != VM_STATUS_CANCELLED
      {
        ActiveIff(t0, id);
      }
      hide Known;
    } else {
      assert Gone(t0, t0) == {} && Changed(t0, t0) == {};
    }
  }

  /**
   * The two differ when a launch is refused while the thread sleeps: the VM was collected as
   * active, is CANCELLED when it is reported stopped, and is counted although its entry stays as it is.
   */
  lemma RefusedWhileAsleep(id: int, e: Entry, refused: Update, t1: Table, now: int)
    requires id != 0 && e.instanceType == INSTANCE_TYPE_VM && e.status != VM_STATUS_CANCELLED && CancelsLaunch(refused)
    requires var t := AfterUpdate(Windows, map[id := e], id, refused); var states := map[e.uuid := VM_STATUS_STOPPED];
             InLine(t, t1, states, states.Keys, now)
    ensures ActiveVms(map[id := e]) == {e.uuid}
    ensures var t := AfterUpdate(Windows, map[id := e], id, refused); var states := map[e.uuid := VM_STATUS_STOPPED];
            && Changed(t, t1) == {} && Gone(t, t1) == {}
            && Known(t, states, states.Keys, VM_STATUS_STOPPED) == {e.uuid}
  {
    var t := AfterUpdate(Windows, map[id := e], id, refused);
    assert id in map[id := e] && id in t;
    assert Registered(t, e.uuid);
  }
}

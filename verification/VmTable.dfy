/** The table of measured VMs: what each locked operation does to it, and the class that does it. */
module VmTable {
  import opened CLib

  const TCSERVICE_RESULT_SUCCESS: int := 0
  const TCSERVICE_RESULT_FAILED: int := 10

  const VM_STATUS_UNKNOWN: int := -1
  const VM_STATUS_CANCELLED: int := 0
  const VM_STATUS_STARTED: int := 1
  const VM_STATUS_STOPPED: int := 2
  const VM_STATUS_DELETED: int := 3
  const INSTANCE_TYPE_VM: int := 0
  const INSTANCE_TYPE_DOCKER: int := 1

  const RG_HASH_SIZE: nat := 32
  const UUID_SIZE: nat := 65
  const IMAGE_ID_SIZE: nat := 256
  const CUSTOMER_ID_SIZE: nat := 256
  const MANIFEST_HASH_SIZE: nat := 65
  const MANIFEST_SIGNATURE_SIZE: nat := 512
  const LAUNCH_POLICY_SIZE: nat := 15
  const MANIFEST_DIR_SIZE: nat := 1024
  const INSTANCENAME_SIZE: nat := 512

  const ENFORCE := "Enforce"
  const AUDIT := "Audit"

  /** Which `#ifdef` branch was compiled. */
  datatype Build = Linux | Windows

  datatype Meta = Meta(imageId: string, customerId: string, manifestHash: string,
                       manifestSignature: string, manifestDir: string)

  /** `serviceprocEnt`, without the members no reachable code writes. */
  datatype Entry = Entry(uuid: string, exeFile: string, hash: string, instanceType: int,
                         status: int, statusTime: int, meta: Meta, policy: string,
                         verified: bool, instanceName: string)

  type Table = map<int, Entry>

  /** What `StartApp` hands to `updateprocEntry`; `instanceName` is `None` for its default NULL. */
  datatype Update = Update(meta: Meta, policy: string, verified: bool, instanceName: Option<string>)

  // ---- What one locked operation does -----------------------------------------------------------

  predicate CancelsLaunch(u: Update) { !u.verified && u.policy == ENFORCE }

  function NewEntry(build: Build, file: string, uuid: string, hash: string, instanceType: int, now: int): Entry {
    Entry(StrCpyS(UUID_SIZE, uuid), file, hash, instanceType,
          if instanceType == INSTANCE_TYPE_VM && build == Linux then VM_STATUS_STOPPED else VM_STATUS_STARTED,
          now, Meta("", "", "", "", ""), "", false, "")
  }

  /** `std::map::insert` leaves an entry that already has the key alone. */
  function Inserted(t: Table, id: int, e: Entry): Table {
    if id in t then t else t[id := e]
  }

  function BoundedMeta(m: Meta): Meta {
    Meta(StrCpyS(IMAGE_ID_SIZE, m.imageId), StrCpyS(CUSTOMER_ID_SIZE, m.customerId),
         StrCpyS(MANIFEST_HASH_SIZE, m.manifestHash), StrCpyS(MANIFEST_SIGNATURE_SIZE, m.manifestSignature),
         StrCpyS(MANIFEST_DIR_SIZE, m.manifestDir))
  }

  function StatusAfterUpdate(build: Build, e: Entry, u: Update): int {
    if CancelsLaunch(u) then VM_STATUS_CANCELLED
    else if e.instanceType == INSTANCE_TYPE_DOCKER || build == Windows then VM_STATUS_STARTED
    else e.status
  }

  function UpdatedEntry(build: Build, e: Entry, u: Update): Entry {
    e.(meta := BoundedMeta(u.meta),
       policy := StrCpyS(LAUNCH_POLICY_SIZE, u.policy),
       verified := u.verified,
       status := StatusAfterUpdate(build, e, u),
       instanceName := match u.instanceName case None => e.instanceName case Some(n) => StrCpyS(INSTANCENAME_SIZE, n))
  }

  function AfterUpdate(build: Build, t: Table, id: int, u: Update): Table {
    if id in t then t[id := UpdatedEntry(build, t[id], u)] else t
  }

  function WithUuid(t: Table, uuid: string): set<int> {
    set id | id in t && t[id].uuid == uuid
  }

  lemma Inhabited(s: set<int>)
    ensures s == {} || exists x :: x in s
  {
    if forall x :: x !in s {
      assert s == {};
    }
  }

  ghost function Least(s: set<int>): (m: int)
    requires s != {}
    ensures m in s && forall x :: x in s ==> m <= x
    decreases |s|
  {
    Inhabited(s);
    var x :| x in s;
    if s == {x} then x
    else
      assert s == {x} + (s - {x});
      Min(x, Least(s - {x}))
  }

  /** The id the scan by uuid reports: the first match in key order, 0 (the code's NULL) without one. */
  ghost function IdOf(t: Table, uuid: string): (id: int)
    ensures WithUuid(t, uuid) == {} ==> id == 0
    ensures WithUuid(t, uuid) != {} ==>
              id in t && t[id].uuid == uuid && forall j :: j in t && t[j].uuid == uuid ==> id <= j
  {
    if WithUuid(t, uuid) == {} then 0
    else
      var m := Least(WithUuid(t, uuid));
      assert forall j :: j in t && t[j].uuid == uuid ==> j in WithUuid(t, uuid);
      m
  }

  /** `id` is the first entry with the uuid, in key order. */
  ghost predicate IsFirst(t: Table, uuid: string, id: int) {
    id in t && t[id].uuid == uuid && forall j :: j in t && t[j].uuid == uuid ==> id <= j
  }

  lemma FirstIsFound(t: Table, uuid: string, id: int)
    requires IsFirst(t, uuid, id)
    ensures IdOf(t, uuid) == id && WithUuid(t, uuid) != {}
  {
    assert id in WithUuid(t, uuid);
  }

  ghost function WithoutUuid(t: Table, uuid: string): Table {
    var id := IdOf(t, uuid);
    if id == 0 then t else t - {id}
  }

  /** `UpdateAppStatus`, taken as one step. */
  ghost function AfterStatus(t: Table, uuid: string, status: int, now: int): Table {
    var id := IdOf(t, uuid);
    if id == 0 || id !in t || t[id].status == VM_STATUS_CANCELLED then t
    else if status == VM_STATUS_DELETED then t - {id}
    else t[id := t[id].(statusTime := now, status := status)]
  }

  function Cancelled(t: Table): set<int> {
    set id | id in t && t[id].status == VM_STATUS_CANCELLED
  }

  predicate Expired(e: Entry, status: int, maxAge: int, now: int) {
    e.status == status && now - e.statusTime >= maxAge
  }

  function ExpiredIds(t: Table, status: int, maxAge: int, now: int): set<int> {
    set id | id in t && Expired(t[id], status, maxAge, now)
  }

  // ---- The class that holds the table -------------------------------------------------------------

  class ServiceProcTable {
    const build: Build
    var procTable: Table

    constructor (build: Build)
      ensures this.build == build && procTable == map[]
    {
      this.build := build;
      procTable := map[];
    }

    method AddProcEntry(procid: int, file: string, uuid: string, hash: string, instanceType: int, now: int)
      returns (ok: bool)
      modifies this
      ensures ok == (|hash| <= RG_HASH_SIZE)
      ensures procTable == if !ok then old(procTable)
                           else Inserted(old(procTable), procid, NewEntry(build, file, uuid, hash, instanceType, now))
      ensures ok && procid !in old(procTable) ==>
                && procid in procTable && var e := procTable[procid];
                && procTable == old(procTable)[procid := e]
                && e.uuid == (if |uuid| < 65 then uuid else "") && e.exeFile == file && e.hash == hash
                && e.instanceType == instanceType && e.statusTime == now && !e.verified && e.policy == ""
                && e.status == if build == Linux && instanceType == 0 then 2 else 1
      ensures ok && procid in old(procTable) ==> procTable == old(procTable)
    {
      if |hash| > RG_HASH_SIZE {
        return false;
      }
      var status := VM_STATUS_STARTED;
      if instanceType == INSTANCE_TYPE_VM {
        if build == Windows {
          status := VM_STATUS_STARTED;
        } else {
          status := VM_STATUS_STOPPED;
        }
      }
      var ent := Entry(StrCpyS(UUID_SIZE, uuid), file, hash, instanceType, status, now,
                       Meta("", "", "", "", ""), "", false, "");
      if procid !in procTable {
        procTable := procTable[procid := ent];
      }
      return true;
    }

    method RemoveProcEntry(procid: int) returns (ok: bool)
      modifies this
      ensures ok == (procid in old(procTable))
      ensures procTable == old(procTable) - {procid}
    {
      if procid !in procTable {
        assert procTable == procTable - {procid};
        return false;
      }
      procTable := procTable - {procid};
      return true;
    }

    method RemoveProcEntryByUuid(uuid: string) returns (ok: bool)
      modifies this
      ensures procTable == WithoutUuid(old(procTable), uuid)
      ensures ok == (IdOf(old(procTable), uuid) != 0)
    {
      var id := GetProcIdFromUuid(uuid);
      if id == 0 {
        return false;
      }
      ok := RemoveProcEntry(id);
    }

    method UpdateProcEntry(procid: int, u: Update) returns (ok: bool)
      modifies this
      ensures ok == (procid in old(procTable))
      ensures procTable == AfterUpdate(build, old(procTable), procid, u)
    {
      if procid !in procTable {
        return false;
      }
      var ent := procTable[procid];
      ent := ent.(meta := BoundedMeta(u.meta), policy := StrCpyS(LAUNCH_POLICY_SIZE, u.policy), verified := u.verified);
      if u.verified == false && u.policy == ENFORCE {
        ent := ent.(status := VM_STATUS_CANCELLED);
      } else if ent.instanceType == INSTANCE_TYPE_DOCKER {
        ent := ent.(status := VM_STATUS_STARTED);
      } else if build == Windows {
        ent := ent.(status := VM_STATUS_STARTED);
      }
      if u.instanceName.Some? {
        ent := ent.(instanceName := StrCpyS(INSTANCENAME_SIZE, u.instanceName.value));
      }
      procTable := procTable[procid := ent];
      return true;
    }

    /** The scan visits the entries in key order, as iteration over a `std::map` does. */
    method GetProcIdFromUuid(uuid: string) returns (id: int)
      ensures id == IdOf(procTable, uuid)
    {
      var todo := procTable.Keys;
      while todo != {}
        invariant todo <= procTable.Keys
        invariant forall j :: j in procTable && j !in todo ==> procTable[j].uuid != uuid
        decreases |todo|
      {
        assert exists k :: k in todo && forall j :: j in todo ==> k <= j by {
          var k := Least(todo);
        }
        var k :| k in todo && forall j :: j in todo ==> k <= j;
        if procTable[k].uuid == uuid {
          assert k in WithUuid(procTable, uuid);
          return k;
        }
        todo := todo - {k};
      }
      assert forall j :: j !in WithUuid(procTable, uuid);
      return 0;
    }

    /** The verdict on the first entry with the uuid, if there is one. */
    method IsVerified(uuid: string) returns (verified: Option<bool>)
      ensures verified
           == if WithUuid(procTable, uuid) == {} then None else Some(procTable[IdOf(procTable, uuid)].verified)
    {
      var todo := procTable.Keys;
      while todo != {}
        invariant todo <= procTable.Keys
        invariant forall j :: j in procTable && j !in todo ==> procTable[j].uuid != uuid
        decreases |todo|
      {
        assert exists k :: k in todo && forall j :: j in todo ==> k <= j by {
          var k := Least(todo);
        }
        var k :| k in todo && forall j :: j in todo ==> k <= j;
        if procTable[k].uuid == uuid {
          assert k in WithUuid(procTable, uuid);
          return Some(procTable[k].verified);
        }
        todo := todo - {k};
      }
      assert forall j :: j !in WithUuid(procTable, uuid);
      return None;
    }

    method GetCancelledVmCount() returns (count: nat)
      ensures count == |Cancelled(procTable)|
    {
      var todo := procTable.Keys;
      ghost var seen: set<int> := {};
      count := 0;
      while todo != {}
        invariant todo <= procTable.Keys
        invariant seen == set id | id in procTable && id !in todo && procTable[id].status == VM_STATUS_CANCELLED
        invariant count == |seen|
        decreases |todo|
      {
        Inhabited(todo);
        var k :| k in todo;
        if procTable[k].status == VM_STATUS_CANCELLED {
          count := count + 1;
          seen := seen + {k};
        }
        todo := todo - {k};
      }
      assert seen == Cancelled(procTable);
    }

    /** `getactivevmsuuid` adds to the set the caller passes. */
    method GetActiveVmsUuid(activeVms: set<string>) returns (vms: set<string>)
      ensures vms == activeVms + set id | id in procTable && procTable[id].instanceType == INSTANCE_TYPE_VM
                                          && procTable[id].status != VM_STATUS_CANCELLED :: procTable[id].uuid
    {
      var todo := procTable.Keys;
      vms := activeVms;
      while todo != {}
        invariant todo <= procTable.Keys
        invariant vms == activeVms + set id | id in procTable && id !in todo
                                              && procTable[id].instanceType == INSTANCE_TYPE_VM
                                              && procTable[id].status != VM_STATUS_CANCELLED :: procTable[id].uuid
        decreases |todo|
      {
        Inhabited(todo);
        var k :| k in todo;
        if procTable[k].instanceType == INSTANCE_TYPE_VM && procTable[k].status != VM_STATUS_CANCELLED {
          vms := vms + {procTable[k].uuid};
        }
        todo := todo - {k};
      }
    }

    method UpdateAppStatus(uuid: string, status: int, now: int) returns (ok: bool)
      modifies this
      ensures procTable == AfterStatus(old(procTable), uuid, status, now)
      ensures ok == (IdOf(old(procTable), uuid) != 0)
    {
      var id := GetProcIdFromUuid(uuid);
      if id == 0 {
        return false;
      }
      if procTable[id].status == VM_STATUS_CANCELLED {
        return true;
      }
      if status == VM_STATUS_DELETED {
        ok := RemoveProcEntryByUuid(uuid);
        return;
      }
      procTable := procTable[id := procTable[id].(statusTime := now, status := status)];
      return true;
    }

    /** The locked half of a cleaning call: the ids of the expired entries, in key order. */
    method CollectExpired(maxAge: int, status: int, now: int) returns (keysToDel: seq<int>)
      ensures forall j :: j in keysToDel <==> j in ExpiredIds(procTable, status, maxAge, now)
      ensures forall a, b :: 0 <= a < b < |keysToDel| ==> keysToDel[a] < keysToDel[b]
    {
      keysToDel := [];
      var todo := procTable.Keys;
      while todo != {}
        invariant todo <= procTable.Keys
        invariant forall j :: j in keysToDel <==>
                  j in procTable && j !in todo && Expired(procTable[j], status, maxAge, now)
        invariant forall a :: 0 <= a < |keysToDel| ==> forall j :: j in todo ==> keysToDel[a] < j
        invariant forall a, b :: 0 <= a < b < |keysToDel| ==> keysToDel[a] < keysToDel[b]
        decreases |todo|
      {
        assert exists k :: k in todo && forall j :: j in todo ==> k <= j by {
          var k := Least(todo);
        }
        var k :| k in todo && forall j :: j in todo ==> k <= j;
        if procTable[k].status == status && now - procTable[k].statusTime >= maxAge {
          keysToDel := keysToDel + [k];
        }
        todo := todo - {k};
      }
    }

    /** One call of the cleaner: collect under the lock, then remove id by id. */
    method CleanVrtmTable(maxAge: int, status: int, now: int) returns (deleted: nat)
      modifies this
      ensures procTable == old(procTable) - ExpiredIds(old(procTable), status, maxAge, now)
      ensures deleted == |ExpiredIds(old(procTable), status, maxAge, now)|
    {
      var keysToDel := CollectExpired(maxAge, status, now);
      ghost var done: set<int> := {};
      deleted := 0;
      for i := 0 to |keysToDel|
        invariant done == set a | 0 <= a < i :: keysToDel[a]
        invariant procTable == old(procTable) - done
        invariant deleted == |done|
      {
        assert keysToDel[i] !in done && keysToDel[i] in keysToDel;
        var removed := RemoveProcEntry(keysToDel[i]);
        if removed {
          deleted := deleted + 1;
        }
        done := done + {keysToDel[i]};
      }
      assert done == ExpiredIds(old(procTable), status, maxAge, now);
    }
  }
}

/** Snapshot-then-delete: what a cleaner removes was still removable, whatever ran since it collected. */
module CleanerSafety {
  import opened CLib
  import opened VmTable
  import opened TableRuns
  import opened Scenarios

  ghost predicate Pending(s: State, id: int) {
    exists q :: q in s.cleaners && s.cleaners[q].Removing? && id in s.cleaners[q].pending
  }

  /** Every entry some cleaner is still to remove is CANCELLED and old enough. */
  ghost predicate PendingSafe(c: Config, s: State) {
    forall id :: Pending(s, id) && id in s.table ==> Expired(s.table[id], VM_STATUS_CANCELLED, c.maxAge, s.clock)
  }

  /** The step writes a status other than CANCELLED into an entry a cleaner is about to remove. */
  ghost predicate Revives(c: Config, s: State, l: Label) {
    && l.Apply? && l.tid in s.launches && s.launches[l.tid].phase.Updating?
    && Pending(s, s.launches[l.tid].phase.child) && s.launches[l.tid].phase.child in s.table
    && StatusAfterUpdate(c.build, s.table[s.launches[l.tid].phase.child], s.launches[l.tid].update)
       != VM_STATUS_CANCELLED
  }

  lemma PendingKept(c: Config, s: State, l: Label, id: int)
    requires Pending(Step(c, s, l), id)
    ensures Pending(s, id) || (id in s.table && Expired(s.table[id], VM_STATUS_CANCELLED, c.maxAge, s.clock))
  {
    var s' := Step(c, s, l);
    var q :| q in s'.cleaners && s'.cleaners[q].Removing? && id in s'.cleaners[q].pending;
    if q in s.cleaners && s.cleaners[q].Removing? {
      assert id in s.cleaners[q].pending;
    }
  }

  lemma PendingAreSettled(s: State, id: int)
    requires IdsFresh(s)
    ensures Pending(s, id) ==> Settled(s, id)
  {
  }

  /** A reviving step really breaks the promise: the entry stays pending and is no longer CANCELLED. */
  lemma RevivalBreaks(c: Config, s: State, l: Label)
    requires Revives(c, s, l)
    ensures !PendingSafe(c, Step(c, s, l))
  {
    var id := s.launches[l.tid].phase.child;
    var q :| q in s.cleaners && s.cleaners[q].Removing? && id in s.cleaners[q].pending;
    var s' := Step(c, s, l);
    assert q in s'.cleaners;
    assert Pending(s', id) && id in s'.table;
  }

  lemma OthersKeepSafe(c: Config, s: State, l: Label)
    requires IdsFresh(s) && PendingSafe(c, s) && !Revives(c, s, l)
    ensures PendingSafe(c, Step(c, s, l))
  {
    var s' := Step(c, s, l);
    forall id | Pending(s', id) && id in s'.table
      ensures Expired(s'.table[id], VM_STATUS_CANCELLED, c.maxAge, s'.clock)
    {
      PendingKept(c, s, l, id);
      PendingAreSettled(s, id);
    }
  }

  /**
   * On either build and for either instance type, a step keeps the cleaners' promise exactly when it is
   * not a reviving update.
   */
  lemma PendingSafeIff(c: Config, s: State, l: Label)
    requires IdsFresh(s) && PendingSafe(c, s)
    ensures PendingSafe(c, Step(c, s, l)) <==> !Revives(c, s, l)
  {
    if Revives(c, s, l) {
      RevivalBreaks(c, s, l);
    } else {
      OthersKeepSafe(c, s, l);
    }
  }

  ghost predicate NoRevival(c: Config, ls: seq<Label>) {
    ls == [] || (NoRevival(c, ls[..|ls| - 1]) && !Revives(c, Run(c, ls[..|ls| - 1]), ls[|ls| - 1]))
  }

  lemma {:induction false} PendingSafeHolds(c: Config, ls: seq<Label>)
    requires Run(c, ls).served < INT32_MAX && NoRevival(c, ls)
    ensures PendingSafe(c, Run(c, ls))
  {
    if ls == [] {
    } else {
      hide Step, PendingSafe, Revives;
      ServedGrows(c, Run(c, ls[..|ls| - 1]), ls[|ls| - 1]);
      var s := Run(c, ls[..|ls| - 1]);
      IdsStayFresh(c, ls[..|ls| - 1]);
      PendingSafeHolds(c, ls[..|ls| - 1]);
      PendingSafeIff(c, s, ls[|ls| - 1]);
    }
  }

  /** The same promise for VM entries alone; on Linux no update can break it. */
  ghost predicate PendingVmSafe(c: Config, s: State) {
    forall id :: Pending(s, id) && id in s.table && s.table[id].instanceType == INSTANCE_TYPE_VM ==>
                   Expired(s.table[id], VM_STATUS_CANCELLED, c.maxAge, s.clock)
  }

  lemma PendingVmSafeStep(c: Config, s: State, l: Label)
    requires c.build == Linux && IdsFresh(s) && PendingVmSafe(c, s)
    ensures PendingVmSafe(c, Step(c, s, l))
  {
    hide WithoutUuid, NewEntry, Cancelled;
    var s' := Step(c, s, l);
    forall id | Pending(s', id) && id in s'.table && s'.table[id].instanceType == INSTANCE_TYPE_VM
      ensures Expired(s'.table[id], VM_STATUS_CANCELLED, c.maxAge, s'.clock)
    {
      PendingKept(c, s, l, id);
      PendingAreSettled(s, id);
      assert id in s.table ==> s.table[id].instanceType == INSTANCE_TYPE_VM;
    }
  }

  lemma {:induction false} PendingVmSafeHolds(c: Config, ls: seq<Label>)
    requires c.build == Linux && Run(c, ls).served < INT32_MAX
    ensures PendingVmSafe(c, Run(c, ls))
  {
    if ls == [] {
    } else {
      hide Step, PendingVmSafe;
      ServedGrows(c, Run(c, ls[..|ls| - 1]), ls[|ls| - 1]);
      IdsStayFresh(c, ls[..|ls| - 1]);
      PendingVmSafeHolds(c, ls[..|ls| - 1]);
      PendingVmSafeStep(c, Run(c, ls[..|ls| - 1]), ls[|ls| - 1]);
    }
  }

  /**
   * Under any interleaving of other steps between a cleaner's collect and its removals, a VM entry it
   * removes is, at the moment of removal, CANCELLED and at least `maxAge` old.
   */
  lemma RemovalIsSafe(c: Config, ls: seq<Label>, cid: nat, id: int)
    requires c.build == Linux && Run(c, ls).served < INT32_MAX
    requires var s := Run(c, ls);
             id in s.table && s.table[id].instanceType == INSTANCE_TYPE_VM
             && id !in Step(c, s, CleanerRemove(cid, id)).table
    ensures Run(c, ls).table[id].status == VM_STATUS_CANCELLED
    ensures Run(c, ls).clock - Run(c, ls).table[id].statusTime >= c.maxAge
  {
    PendingVmSafeHolds(c, ls);
    assert Pending(Run(c, ls), id);
  }

  /** The cleaner has collected the entry when the VM is launched again and, this time, verified. */
  lemma CollectedThenRelaunched(c: Config, ls0: seq<Label>, e: Entry, good: Update) returns (ls: seq<Label>)
    requires Run(c, ls0) == State(map[1 := e], 0, 1, 1, map[], true, map[0 := Sleeping])
    requires 0 < |e.uuid| < UUID_SIZE && c.maxAge >= 0 && e.status == VM_STATUS_CANCELLED && e.statusTime == 0
    ensures Run(c, ls) == State(map[1 := UpdatedEntry(c.build, e, good)], c.maxAge, 2, 2,
                                map[1 := Launch(2, e.uuid, "", "", e.instanceType, good, Spawning)], true,
                                map[0 := Removing({1})])
  {
    hide Step;
    var cl := map[0 := Removing({1})];
    RunAppend(c, ls0, Tick(c.maxAge));
    Ticks(c, Run(c, ls0), c.maxAge);
    ls := ls0 + [Tick(c.maxAge)];
    RunAppend(c, ls, CleanerCollect(0));
    Collects(c, e, c.maxAge, 1);
    ls := ls + [CleanerCollect(0)];
    RunAppend(c, ls, Arrive(1, e.uuid, "", "", e.instanceType, good));
    Arrives(c, Run(c, ls), 1, e.uuid, e.instanceType, good);
    ls := ls + [Arrive(1, e.uuid, "", "", e.instanceType, good)];
    RunAppend(c, ls, LookUp(1));
    FindsEntry(c, e, c.maxAge, 2, 1, Launch(2, e.uuid, "", "", e.instanceType, good, LookingUp), true, cl);
    ls := ls + [LookUp(1)];
    RunAppend(c, ls, Apply(1));
    Updates(c, 1, e, c.maxAge, 2, 1, Launch(2, e.uuid, "", "", e.instanceType, good, Updating(1)), true, cl);
    ls := ls + [Apply(1)];
  }

  /** Not so for Docker: a run in which a cleaner removes an entry that was relaunched and is STARTED. */
  lemma DockerRevivedIsRemoved(c: Config, uuid: string, bad: Update, good: Update) returns (ls: seq<Label>)
    requires 0 < |uuid| < UUID_SIZE && c.maxAge >= 0 && CancelsLaunch(bad) && !CancelsLaunch(good)
    ensures 1 in Run(c, ls).table && Run(c, ls).table[1].status == VM_STATUS_STARTED
    ensures 1 !in Step(c, Run(c, ls), CleanerRemove(0, 1)).table
  {
    var ls0, e := RefusedLaunch(c, uuid, INSTANCE_TYPE_DOCKER, bad);
    ls := CollectedThenRelaunched(c, ls0, e, good);
  }
}

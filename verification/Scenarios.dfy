/** Single steps from concrete states, out of which the counterexample runs are put together. */
module Scenarios {
  import opened CLib
  import opened VmTable
  import opened TableRuns

  lemma Ticks(c: Config, s: State, d: nat)
    ensures Step(c, s, Tick(d)) == s.(clock := s.clock + d)
  {
  }

  lemma Arrives(c: Config, s: State, tid: nat, uuid: string, ty: int, x: Update)
    requires tid !in s.launches && 0 < |uuid| < UUID_SIZE && s.reqId == s.served && s.served + 1 < INT32_MAX
    ensures Step(c, s, Arrive(tid, uuid, "", "", ty, x))
         == s.(reqId := s.served + 1, served := s.served + 1,
               launches := s.launches[tid := Launch(s.served + 1, uuid, "", "", ty, x, LookingUp)])
  {
  }

  lemma FindsNothing(c: Config, clock: int, n: nat, tid: nat, x: Launch, flag: bool, cl: map<nat, CleanerPhase>)
    requires x.phase == LookingUp
    ensures Step(c, State(map[], clock, n, n, map[tid := x], flag, cl), LookUp(tid))
         == State(map[], clock, n, n, map[tid := x.(phase := Adding)], flag, cl)
  {
    assert WithUuid(map[], x.uuid) == {};
  }

  lemma FindsEntry(c: Config, e: Entry, clock: int, n: nat, tid: nat, x: Launch, flag: bool, cl: map<nat, CleanerPhase>)
    requires x.phase == LookingUp && x.uuid == e.uuid
    ensures Step(c, State(map[1 := e], clock, n, n, map[tid := x], flag, cl), LookUp(tid))
         == State(map[1 := e], clock, n, n, map[tid := x.(phase := Updating(1))], flag, cl)
  {
    assert 1 in WithUuid(map[1 := e], x.uuid);
  }

  lemma Adds(c: Config, clock: int, n: nat, tid: nat, x: Launch, flag: bool, cl: map<nat, CleanerPhase>)
    requires x.phase == Adding
    ensures Step(c, State(map[], clock, n, n, map[tid := x], flag, cl), Add(tid))
         == State(map[x.procid := NewEntry(c.build, x.file, x.uuid, x.hash, x.instanceType, clock)], clock, n, n,
                  map[tid := x.(phase := Updating(x.procid))], flag, cl)
  {
  }

  lemma Updates(c: Config, id: int, e: Entry, clock: int, n: nat, tid: nat, x: Launch, flag: bool,
                cl: map<nat, CleanerPhase>)
    requires x.phase == Updating(id)
    ensures Step(c, State(map[id := e], clock, n, n, map[tid := x], flag, cl), Apply(tid))
         == State(map[id := UpdatedEntry(c.build, e, x.update)], clock, n, n, map[tid := x.(phase := Spawning)], flag,
                  cl)
  {
  }

  lemma Spawns(c: Config, id: int, e: Entry, clock: int, n: nat, tid: nat, x: Launch)
    requires x.phase == Spawning && e.status == VM_STATUS_CANCELLED
    ensures Step(c, State(map[id := e], clock, n, n, map[tid := x], false, map[]), CleanupService(tid, 0))
         == State(map[id := e], clock, n, n, map[], true, map[0 := Checking])
  {
    assert id in Cancelled(map[id := e]);
    assert map[tid := x] - {tid} == map[];
  }

  lemma Sleeps(c: Config, id: int, e: Entry, clock: int, n: nat)
    requires e.status == VM_STATUS_CANCELLED
    ensures Step(c, State(map[id := e], clock, n, n, map[], true, map[0 := Checking]), CleanerCheck(0))
         == State(map[id := e], clock, n, n, map[], true, map[0 := Sleeping])
  {
    assert id in Cancelled(map[id := e]);
  }

  lemma Collects(c: Config, e: Entry, clock: int, n: nat)
    requires e.status == VM_STATUS_CANCELLED && clock - e.statusTime >= c.maxAge
    ensures Step(c, State(map[1 := e], clock, n, n, map[], true, map[0 := Sleeping]), CleanerCollect(0))
         == State(map[1 := e], clock, n, n, map[], true, map[0 := Removing({1})])
  {
    assert ExpiredIds(map[1 := e], VM_STATUS_CANCELLED, c.maxAge, clock) == {1};
  }

  lemma Removes(c: Config, e: Entry, clock: int, n: nat)
    ensures Step(c, State(map[1 := e], clock, n, n, map[], true, map[0 := Removing({1})]), CleanerRemove(0, 1))
         == State(map[], clock, n, n, map[], true, map[0 := Removing({})])
  {
    assert map[1 := e] - {1} == map[] && {1} - {1} == {};
    assert map[0 := Removing({1})][0 := Removing({})] == map[0 := Removing({})];
  }

  lemma Repeats(c: Config, clock: int, n: nat)
    ensures Step(c, State(map[], clock, n, n, map[], true, map[0 := Removing({})]), CleanerAgain(0))
         == State(map[], clock, n, n, map[], true, map[0 := Checking])
  {
  }

  lemma CountsNone(c: Config, clock: int, n: nat)
    ensures Step(c, State(map[], clock, n, n, map[], true, map[0 := Checking]), CleanerCheck(0))
         == State(map[], clock, n, n, map[], true, map[0 := Exiting])
  {
    assert Cancelled(map[]) == {};
  }

  lemma SeesFlag(c: Config, id: int, e: Entry, clock: int, n: nat, tid: nat, x: Launch, cl: map<nat, CleanerPhase>)
    requires x.phase == Spawning && 1 !in cl
    ensures Step(c, State(map[id := e], clock, n, n, map[tid := x], true, cl), CleanupService(tid, 1))
         == State(map[id := e], clock, n, n, map[], true, cl)
  {
    assert map[tid := x] - {tid} == map[];
  }

  lemma FindsNoneToClean(c: Config, id: int, e: Entry, clock: int, n: nat, tid: nat, x: Launch)
    requires x.phase == Spawning && e.status != VM_STATUS_CANCELLED
    ensures Step(c, State(map[id := e], clock, n, n, map[tid := x], false, map[]), CleanupService(tid, 0))
         == State(map[id := e], clock, n, n, map[], false, map[])
  {
    assert Cancelled(map[id := e]) == {};
    assert map[tid := x] - {tid} == map[];
  }

  lemma StoresStatus(c: Config, e: Entry, clock: int, n: nat, status: int)
    requires e.status != VM_STATUS_CANCELLED && status != VM_STATUS_DELETED && n + 1 < INT32_MAX
    ensures Step(c, State(map[1 := e], clock, n, n, map[], false, map[]), SetStatus(e.uuid, status))
         == State(map[1 := e.(status := status, statusTime := clock)], clock, n + 1, n + 1, map[], false, map[])
  {
    assert 1 in WithUuid(map[1 := e], e.uuid);
  }

  /** From the start: one launch, up to its call of `cleanupService`. */
  lemma FirstLaunch(c: Config, uuid: string, ty: int, u: Update) returns (ls: seq<Label>, e: Entry)
    requires 0 < |uuid| < UUID_SIZE
    ensures e == UpdatedEntry(c.build, NewEntry(c.build, "", uuid, "", ty, 0), u)
    ensures Run(c, ls) == State(map[1 := e], 0, 1, 1, map[0 := Launch(1, uuid, "", "", ty, u, Spawning)], false, map[])
  {
    hide Step;
    var x := Launch(1, uuid, "", "", ty, u, LookingUp);
    var e0 := NewEntry(c.build, "", uuid, "", ty, 0);
    e := UpdatedEntry(c.build, e0, u);
    RunAppend(c, [], Arrive(0, uuid, "", "", ty, u));
    Arrives(c, START, 0, uuid, ty, u);
    ls := [] + [Arrive(0, uuid, "", "", ty, u)];
    RunAppend(c, ls, LookUp(0));
    FindsNothing(c, 0, 1, 0, x, false, map[]);
    ls := ls + [LookUp(0)];
    RunAppend(c, ls, Add(0));
    Adds(c, 0, 1, 0, x.(phase := Adding), false, map[]);
    ls := ls + [Add(0)];
    RunAppend(c, ls, Apply(0));
    Updates(c, 1, e0, 0, 1, 0, x.(phase := Updating(1)), false, map[]);
    ls := ls + [Apply(0)];
  }

  /** A launch that is refused, up to the first sleep of the cleaner it spawns. */
  lemma RefusedLaunch(c: Config, uuid: string, ty: int, bad: Update) returns (ls: seq<Label>, e: Entry)
    requires 0 < |uuid| < UUID_SIZE && CancelsLaunch(bad)
    ensures Run(c, ls) == State(map[1 := e], 0, 1, 1, map[], true, map[0 := Sleeping])
    ensures e.uuid == uuid && e.instanceType == ty && e.status == VM_STATUS_CANCELLED && e.statusTime == 0
  {
    hide Step;
    ls, e := FirstLaunch(c, uuid, ty, bad);
    RunAppend(c, ls, CleanupService(0, 0));
    Spawns(c, 1, e, 0, 1, 0, Launch(1, uuid, "", "", ty, bad, Spawning));
    ls := ls + [CleanupService(0, 0)];
    RunAppend(c, ls, CleanerCheck(0));
    Sleeps(c, 1, e, 0, 1);
    ls := ls + [CleanerCheck(0)];
  }

  /** A launch that is accepted: no cleaner is spawned. */
  lemma AcceptedLaunch(c: Config, uuid: string, ty: int, good: Update) returns (ls: seq<Label>, e: Entry)
    requires 0 < |uuid| < UUID_SIZE && !CancelsLaunch(good)
    ensures Run(c, ls) == State(map[1 := e], 0, 1, 1, map[], false, map[])
    ensures e.uuid == uuid && e.status != VM_STATUS_CANCELLED
  {
    hide Step;
    ls, e := FirstLaunch(c, uuid, ty, good);
    RunAppend(c, ls, CleanupService(0, 0));
    FindsNoneToClean(c, 1, e, 0, 1, 0, Launch(1, uuid, "", "", ty, good, Spawning));
    ls := ls + [CleanupService(0, 0)];
  }
}

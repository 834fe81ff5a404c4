/** A CANCELLED entry has a cleaner coming for it: when that holds, and the two steps that break it. */
module CleanerPresence {
  import opened CLib
  import opened VmTable
  import opened TableRuns
  import opened Scenarios

  /** Some thread is between `updateprocEntry`'s unlock and `cleanupService`'s return. */
  ghost predicate WindowOpen(s: State) {
    exists t :: InPhase(s, t, Spawning)
  }

  /** The flag tells whether a cleaner is live, and at most one is. */
  ghost predicate CleanerCounted(s: State) {
    if s.flag then exists q :: s.cleaners.Keys == {q} else s.cleaners == map[]
  }

  /** Outside the window, a CANCELLED entry means the flag is 1 and exactly one cleaner is live. */
  ghost predicate Covered(s: State) {
    Cancelled(s.table) == {} || WindowOpen(s) || (s.flag && |s.cleaners| == 1)
  }

  /** The cleaner resets the flag on a count that has gone stale. */
  ghost predicate StaleReset(s: State, l: Label) {
    l.CleanerReset? && InCleanerPhase(s, l.cid, Exiting) && Cancelled(s.table) != {} && !WindowOpen(s)
  }

  /** A status request writes CANCELLED itself; no `cleanupService` call follows it. */
  ghost predicate RequestedCancel(s: State, l: Label) {
    && l.SetStatus? && l.status == VM_STATUS_CANCELLED && !s.flag && !WindowOpen(s)
    && IdOf(s.table, l.uuid) != 0
  }

  lemma CleanerCountedStep(c: Config, s: State, l: Label)
    requires CleanerCounted(s)
    ensures CleanerCounted(Step(c, s, l))
  {
    var s' := Step(c, s, l);
    match l
    case CleanupService(tid, cid) =>
      if s'.flag && !s.flag {
        assert s'.cleaners.Keys == {cid};
      } else {
        assert s'.cleaners == s.cleaners;
      }
    case CleanerReset(cid) =>
      if InCleanerPhase(s, cid, Exiting) {
        assert s'.cleaners == map[];
      } else {
        assert s'.cleaners == s.cleaners;
      }
    case _ =>
      assert s'.cleaners.Keys == s.cleaners.Keys && s'.flag == s.flag;
  }

  lemma CountedMeansOne(s: State)
    requires CleanerCounted(s)
    ensures |s.cleaners| == if s.flag then 1 else 0
  {
    if s.flag {
      var q :| s.cleaners.Keys == {q};
      assert |s.cleaners| == |s.cleaners.Keys|;
    }
  }

  /** Only an update that cancels, or a request for status 0, can make an entry CANCELLED. */
  lemma NewlyCancelled(c: Config, s: State, l: Label, id: int)
    requires id in Cancelled(Step(c, s, l).table) && id !in Cancelled(s.table)
    ensures WindowOpen(Step(c, s, l)) || (l.SetStatus? && l.status == VM_STATUS_CANCELLED && IdOf(s.table, l.uuid) != 0)
  {
    if l.Apply? {
      assert InPhase(Step(c, s, l), l.tid, Spawning);
    }
  }

  lemma WindowStays(c: Config, s: State, l: Label, t: nat)
    requires InPhase(s, t, Spawning) && !l.CleanupService?
    ensures WindowOpen(Step(c, s, l))
  {
    hide IdOf, AfterStatus, Inserted, AfterUpdate, WithoutUuid, NewEntry, Cancelled, ExpiredIds;
    assert InPhase(Step(c, s, l), t, Spawning);
  }

  lemma WindowOpens(c: Config, s: State, l: Label)
    requires WindowOpen(Step(c, s, l)) && !l.Apply?
    ensures WindowOpen(s)
  {
    hide Step;
    LaunchesMoveStep(c, s, l);
    var t :| InPhase(Step(c, s, l), t, Spawning);
    assert LaunchMoves(s, l, Step(c, s, l), t);
    assert InPhase(s, t, Spawning);
  }

  lemma StaleResetUncovers(c: Config, s: State, l: Label)
    requires StaleReset(s, l)
    ensures !Covered(Step(c, s, l))
  {
    if WindowOpen(Step(c, s, l)) {
      WindowOpens(c, s, l);
    }
  }

  lemma RequestedCancelUncovers(c: Config, s: State, l: Label)
    requires RequestedCancel(s, l)
    ensures !Covered(Step(c, s, l))
  {
    if WindowOpen(Step(c, s, l)) {
      WindowOpens(c, s, l);
    }
    assert IdOf(s.table, l.uuid) in Cancelled(Step(c, s, l).table);
  }

  lemma CleanupServiceCovers(c: Config, s: State, l: Label)
    requires CleanerCounted(s) && Covered(s) && l.CleanupService?
    ensures Covered(Step(c, s, l))
  {
    CleanerCountedStep(c, s, l);
    CountedMeansOne(Step(c, s, l));
    if !InPhase(s, l.tid, Spawning) || l.cid in s.cleaners {
      assert Step(c, s, l) == s;
    }
  }

  lemma FlagStays(c: Config, s: State, l: Label)
    requires s.flag && !(l.CleanerReset? && InCleanerPhase(s, l.cid, Exiting))
    ensures Step(c, s, l).flag
  {
    hide IdOf, AfterStatus, Inserted, AfterUpdate, WithoutUuid, NewEntry, Cancelled, ExpiredIds;
  }

  lemma OthersCover(c: Config, s: State, l: Label)
    requires CleanerCounted(s) && Covered(s) && !l.CleanupService?
    requires !StaleReset(s, l) && !RequestedCancel(s, l)
    ensures Covered(Step(c, s, l))
  {
    var s' := Step(c, s, l);
    if WindowOpen(s) {
      var t :| InPhase(s, t, Spawning);
      WindowStays(c, s, l, t);
    } else if Cancelled(s'.table) != {} && !WindowOpen(s') {
      CleanerCountedStep(c, s, l);
      CountedMeansOne(s');
      if Cancelled(s.table) == {} {
        Inhabited(Cancelled(s'.table));
        var id :| id in Cancelled(s'.table);
        NewlyCancelled(c, s, l, id);
      }
      hide Step;
      if s.flag {
        FlagStays(c, s, l);
      }
    }
  }

  /**
   * From a covered state, a step uncovers a CANCELLED entry exactly when it is a stale reset or a
   * requested cancellation.
   */
  lemma UncoveredIff(c: Config, s: State, l: Label)
    requires CleanerCounted(s) && Covered(s)
    ensures !Covered(Step(c, s, l)) <==> StaleReset(s, l) || RequestedCancel(s, l)
  {
    if StaleReset(s, l) {
      StaleResetUncovers(c, s, l);
    } else if RequestedCancel(s, l) {
      RequestedCancelUncovers(c, s, l);
    } else if l.CleanupService? {
      CleanupServiceCovers(c, s, l);
    } else {
      OthersCover(c, s, l);
    }
  }

  // ---- Runs in which the last count and the reset are one step -------------------------------------

  /** A cleaner whose count was 0 resets the flag before anything else runs; no request asks for status 0. */
  ghost predicate AtomicExits(c: Config, ls: seq<Label>) {
    ls == [] || (
      var s, l := Run(c, ls[..|ls| - 1]), ls[|ls| - 1];
      && AtomicExits(c, ls[..|ls| - 1])
      && (forall q :: InCleanerPhase(s, q, Exiting) ==> l == CleanerReset(q))
      && !(l.SetStatus? && l.status == VM_STATUS_CANCELLED))
  }

  /** The exiting cleaner's count is not stale. */
  ghost predicate ExitsFresh(s: State) {
    forall q :: InCleanerPhase(s, q, Exiting) ==> Cancelled(s.table) == {}
  }

  lemma ExitsFreshStep(c: Config, s: State, l: Label)
    requires CleanerCounted(s) && ExitsFresh(s)
    requires forall q :: InCleanerPhase(s, q, Exiting) ==> l == CleanerReset(q)
    ensures ExitsFresh(Step(c, s, l))
  {
    var s' := Step(c, s, l);
    forall q | InCleanerPhase(s', q, Exiting) ensures Cancelled(s'.table) == {} {
      if InCleanerPhase(s, q, Exiting) {
        assert l == CleanerReset(q);
      } else {
        assert l == CleanerCheck(q) && InCleanerPhase(s, q, Checking);
      }
    }
  }

  /** Then every state has exactly one live cleaner for its CANCELLED entries, outside the window. */
  lemma {:induction false} CleanerPresent(c: Config, ls: seq<Label>)
    requires AtomicExits(c, ls)
    ensures CleanerCounted(Run(c, ls)) && Covered(Run(c, ls)) && ExitsFresh(Run(c, ls))
  {
    if ls == [] {
      assert Cancelled(map[]) == {};
    } else {
      hide Step, CleanerCounted, Covered, ExitsFresh, RequestedCancel;
      var s, l := Run(c, ls[..|ls| - 1]), ls[|ls| - 1];
      CleanerPresent(c, ls[..|ls| - 1]);
      CleanerCountedStep(c, s, l);
      ExitsFreshStep(c, s, l);
      NotUncovering(s, l);
      UncoveredIff(c, s, l);
    }
  }

  lemma NotUncovering(s: State, l: Label)
    requires ExitsFresh(s) && !(l.SetStatus? && l.status == VM_STATUS_CANCELLED)
    ensures !StaleReset(s, l) && !RequestedCancel(s, l)
  {
  }

  // ---- The code's own order: the count and the reset are two steps -----------------------------------

  /** The cleaner has removed its only entry and counted none, but not yet reset the flag. */
  lemma CleanerAboutToExit(c: Config, uuid: string, bad: Update) returns (ls: seq<Label>)
    requires 0 < |uuid| < UUID_SIZE && c.maxAge >= 0 && CancelsLaunch(bad)
    ensures Run(c, ls) == State(map[], c.maxAge, 1, 1, map[], true, map[0 := Exiting])
  {
    var e: Entry;
    ls, e := RefusedLaunch(c, uuid, INSTANCE_TYPE_VM, bad);
    hide Step;
    RunAppend(c, ls, Tick(c.maxAge));
    Ticks(c, Run(c, ls), c.maxAge);
    ls := ls + [Tick(c.maxAge)];
    RunAppend(c, ls, CleanerCollect(0));
    Collects(c, e, c.maxAge, 1);
    ls := ls + [CleanerCollect(0)];
    RunAppend(c, ls, CleanerRemove(0, 1));
    Removes(c, e, c.maxAge, 1);
    ls := ls + [CleanerRemove(0, 1)];
    RunAppend(c, ls, CleanerAgain(0));
    Repeats(c, c.maxAge, 1);
    ls := ls + [CleanerAgain(0)];
    RunAppend(c, ls, CleanerCheck(0));
    CountsNone(c, c.maxAge, 1);
    ls := ls + [CleanerCheck(0)];
  }

  /** A second refused launch runs before the reset; `cleanupService` still finds the flag set. */
  lemma RefusedBeforeReset(c: Config, uuid: string, bad: Update, ls0: seq<Label>) returns (ls: seq<Label>, e: Entry)
    requires 0 < |uuid| < UUID_SIZE && CancelsLaunch(bad)
    requires Run(c, ls0) == State(map[], c.maxAge, 1, 1, map[], true, map[0 := Exiting])
    ensures Run(c, ls) == State(map[2 := e], c.maxAge, 2, 2, map[], true, map[0 := Exiting])
    ensures e.status == VM_STATUS_CANCELLED
  {
    hide Step;
    var cl := map[0 := Exiting];
    var x := Launch(2, uuid, "", "", INSTANCE_TYPE_VM, bad, LookingUp);
    var e0 := NewEntry(c.build, "", uuid, "", INSTANCE_TYPE_VM, c.maxAge);
    e := UpdatedEntry(c.build, e0, bad);
    ls := ls0;
    RunAppend(c, ls, Arrive(1, uuid, "", "", INSTANCE_TYPE_VM, bad));
    Arrives(c, Run(c, ls), 1, uuid, INSTANCE_TYPE_VM, bad);
    ls := ls + [Arrive(1, uuid, "", "", INSTANCE_TYPE_VM, bad)];
    RunAppend(c, ls, LookUp(1));
    FindsNothing(c, c.maxAge, 2, 1, x, true, cl);
    ls := ls + [LookUp(1)];
    RunAppend(c, ls, Add(1));
    Adds(c, c.maxAge, 2, 1, x.(phase := Adding), true, cl);
    ls := ls + [Add(1)];
    RunAppend(c, ls, Apply(1));
    Updates(c, 2, e0, c.maxAge, 2, 1, x.(phase := Updating(2)), true, cl);
    ls := ls + [Apply(1)];
    RunAppend(c, ls, CleanupService(1, 1));
    SeesFlag(c, 2, e, c.maxAge, 2, 1, x.(phase := Spawning), cl);
    ls := ls + [CleanupService(1, 1)];
  }

  /**
   * As written, the promise can be lost: a run after which an entry is CANCELLED, no thread is in the
   * window, the flag is 0 and no cleaner is live.
   */
  lemma CleanerCanBeLost(c: Config, uuid: string, bad: Update) returns (ls: seq<Label>)
    requires 0 < |uuid| < UUID_SIZE && c.maxAge >= 0 && CancelsLaunch(bad)
    ensures var s := Run(c, ls); Cancelled(s.table) != {} && !WindowOpen(s) && !s.flag && s.cleaners == map[]
  {
    var e: Entry;
    ls := CleanerAboutToExit(c, uuid, bad);
    ls, e := RefusedBeforeReset(c, uuid, bad, ls);
    RunAppend(c, ls, CleanerReset(0));
    assert 2 in Cancelled(map[2 := e]);
    ls := ls + [CleanerReset(0)];
  }

  /**
   * Nor does anything spawn a cleaner for a status request that writes CANCELLED: an accepted launch and
   * one request for 0, which is also what a status that is no number is read as.
   */
  lemma StatusRequestNeedsCleaner(c: Config, uuid: string, good: Update) returns (ls: seq<Label>)
    requires 0 < |uuid| < UUID_SIZE && !CancelsLaunch(good)
    ensures var s := Run(c, ls); Cancelled(s.table) != {} && !WindowOpen(s) && !s.flag && s.cleaners == map[]
    ensures Atoi("stopped") == VM_STATUS_CANCELLED
  {
    var e: Entry;
    ls, e := AcceptedLaunch(c, uuid, INSTANCE_TYPE_VM, good);
    RunAppend(c, ls, SetStatus(uuid, VM_STATUS_CANCELLED));
    StoresStatus(c, e, 0, 1, VM_STATUS_CANCELLED);
    hide Step;
    var gone := e.(status := VM_STATUS_CANCELLED, statusTime := 0);
    assert 1 in Cancelled(map[1 := gone]);
    ls := ls + [SetStatus(uuid, VM_STATUS_CANCELLED)];
  }
}

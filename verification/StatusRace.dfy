/**
 * `UpdateAppStatus` as it is written: it looks the VM up and checks its status, and writes later, through
 * a pointer it got under the lock but uses without it. Everything else is as in `TableRuns`.
 */
module StatusRace {
  import opened VmTable
  import opened TableRuns
  import opened Scenarios

  /** A status request that has passed its checks and is about to write. */
  datatype Writer = Writer(id: int, uuid: string, status: int)

  datatype RaceState = RaceState(s: State, writers: map<nat, Writer>)

  /** `Plain(SetStatus(..))` is a request that nothing interrupts. */
  datatype RaceLabel = Plain(step: Label) | Check(wid: nat, uuid: string, status: int) | Write(wid: nat)

  /** Nothing is modelled of a write to an entry that was freed in between. */
  ghost function AfterWrite(t: Table, w: Writer, now: int): Table {
    if w.status == VM_STATUS_DELETED then WithoutUuid(t, w.uuid)
    else if w.id !in t then t
    else t[w.id := t[w.id].(statusTime := now, status := w.status)]
  }

  ghost function RaceStep(c: Config, r: RaceState, l: RaceLabel): RaceState {
    match l
    case Plain(step) => r.(s := Step(c, r.s, step))
    case Check(wid, uuid, status) =>
      var id := IdOf(r.s.table, uuid);
      if wid in r.writers || id == 0 || r.s.table[id].status == VM_STATUS_CANCELLED then r
      else r.(writers := r.writers[wid := Writer(id, uuid, status)])
    case Write(wid) =>
      if wid !in r.writers then r
      else RaceState(r.s.(table := AfterWrite(r.s.table, r.writers[wid], r.s.clock)), r.writers - {wid})
  }

  ghost function RaceRun(c: Config, ls: seq<RaceLabel>): RaceState {
    if ls == [] then RaceState(START, map[]) else RaceStep(c, RaceRun(c, ls[..|ls| - 1]), ls[|ls| - 1])
  }

  /** With nothing in between, check and write are the one step of `TableRuns`. */
  lemma UninterruptedIsOneStep(c: Config, r: RaceState, wid: nat, uuid: string, status: int)
    requires wid !in r.writers
    ensures RaceStep(c, RaceStep(c, r, Check(wid, uuid, status)), Write(wid)).s.table
         == Step(c, r.s, SetStatus(uuid, status)).table
  {
    hide IdOf;
  }

  // ---- What a late write breaks --------------------------------------------------------------------------

  ghost predicate WritesTo(r: RaceState, l: RaceLabel, id: int) {
    && l.Write? && l.wid in r.writers && r.writers[l.wid].id == id
    && r.writers[l.wid].status != VM_STATUS_CANCELLED && r.writers[l.wid].status != VM_STATUS_DELETED
  }

  predicate MustNotRun(e: Entry) { e.policy == ENFORCE && !e.verified }

  /** The write lands on an entry whose launch was refused since the check. */
  ghost predicate LateWrite(r: RaceState, l: RaceLabel) {
    exists id :: id in r.s.table && MustNotRun(r.s.table[id]) && WritesTo(r, l, id)
  }

  /** A step breaks the enforcement exactly when it is such a write. */
  lemma EnforcedIff(c: Config, r: RaceState, l: RaceLabel)
    requires Enforced(r.s.table)
    ensures Enforced(RaceStep(c, r, l).s.table) <==> !LateWrite(r, l)
  {
    if l.Plain? {
      EnforcedStep(c, r.s, l.step);
    } else if LateWrite(r, l) {
      var id :| id in r.s.table && MustNotRun(r.s.table[id]) && WritesTo(r, l, id);
      assert id in RaceStep(c, r, l).s.table;
    } else if l.Write? && l.wid in r.writers {
      var id := r.writers[l.wid].id;
      assert id in r.s.table ==> MustNotRun(r.s.table[id]) ==> !WritesTo(r, l, id);
    }
  }

  lemma CancelledStays(c: Config, s: State, l: Label, id: int)
    requires c.build == Linux && id in s.table && id in Step(c, s, l).table
    requires s.table[id].instanceType == INSTANCE_TYPE_VM && s.table[id].status == VM_STATUS_CANCELLED
    ensures Step(c, s, l).table[id].status == VM_STATUS_CANCELLED
  {
    hide NewEntry, Cancelled, ExpiredIds, IdOf;
  }

  /** And a CANCELLED Linux VM entry stays CANCELLED exactly when the step is no such write to it. */
  lemma CancelledStaysIff(c: Config, r: RaceState, l: RaceLabel, id: int)
    requires c.build == Linux && id in r.s.table && id in RaceStep(c, r, l).s.table
    requires r.s.table[id].instanceType == INSTANCE_TYPE_VM && r.s.table[id].status == VM_STATUS_CANCELLED
    ensures RaceStep(c, r, l).s.table[id].status == VM_STATUS_CANCELLED <==> !WritesTo(r, l, id)
  {
    if l.Plain? {
      CancelledStays(c, r.s, l.step, id);
    }
    hide Step;
  }

  // ---- Runs in which no refusal overtakes a request ---------------------------------------------------------

  /** A launch is refused between a request's check and its write, on the entry it will write to. */
  ghost predicate Overtakes(r: RaceState, l: RaceLabel) {
    && l.Plain? && l.step.Apply? && l.step.tid in r.s.launches && r.s.launches[l.step.tid].phase.Updating?
    && CancelsLaunch(r.s.launches[l.step.tid].update)
    && exists w :: w in r.writers && r.writers[w].id == r.s.launches[l.step.tid].phase.child
  }

  ghost predicate NoneOvertaken(c: Config, ls: seq<RaceLabel>) {
    ls == [] || (NoneOvertaken(c, ls[..|ls| - 1]) && !Overtakes(RaceRun(c, ls[..|ls| - 1]), ls[|ls| - 1]))
  }

  /** Every request about to write writes to an entry that may run. */
  ghost predicate WritersFresh(r: RaceState) {
    forall w :: w in r.writers && r.writers[w].id in r.s.table ==> !MustNotRun(r.s.table[r.writers[w].id])
  }

  lemma StaysRunnable(c: Config, s: State, l: Label, id: int)
    requires id in s.table ==> !MustNotRun(s.table[id])
    requires l.Apply? && InPhase(s, l.tid, Updating(id)) ==> !CancelsLaunch(s.launches[l.tid].update)
    ensures id in Step(c, s, l).table ==> !MustNotRun(Step(c, s, l).table[id])
  {
    hide Cancelled, ExpiredIds, IdOf;
  }

  lemma WritersFreshStep(c: Config, r: RaceState, l: RaceLabel)
    requires WritersFresh(r) && Enforced(r.s.table) && !Overtakes(r, l)
    ensures WritersFresh(RaceStep(c, r, l))
  {
    var r' := RaceStep(c, r, l);
    forall w | w in r'.writers && r'.writers[w].id in r'.s.table ensures !MustNotRun(r'.s.table[r'.writers[w].id]) {
      if l.Plain? {
        StaysRunnable(c, r.s, l.step, r.writers[w].id);
      }
      hide Step;
      assert w in r.writers ==> r'.writers[w] == r.writers[w];
    }
  }

  lemma FreshWritesAreNotLate(r: RaceState, l: RaceLabel)
    requires WritersFresh(r)
    ensures !LateWrite(r, l)
  {
  }

  /** In every such run an entry that must not run is CANCELLED. */
  lemma {:induction false} EnforcementHoldsUnlessOvertaken(c: Config, ls: seq<RaceLabel>)
    requires NoneOvertaken(c, ls)
    ensures Enforced(RaceRun(c, ls).s.table) && WritersFresh(RaceRun(c, ls))
  {
    if ls != [] {
      hide RaceStep, Enforced, WritersFresh, LateWrite, Overtakes;
      var r, l := RaceRun(c, ls[..|ls| - 1]), ls[|ls| - 1];
      EnforcementHoldsUnlessOvertaken(c, ls[..|ls| - 1]);
      FreshWritesAreNotLate(r, l);
      EnforcedIff(c, r, l);
      WritersFreshStep(c, r, l);
    }
  }

  // ---- A run in which it does not hold ------------------------------------------------------------------------

  function Plainly(ls: seq<Label>): seq<RaceLabel> { seq(|ls|, i requires 0 <= i < |ls| => Plain(ls[i])) }

  lemma RaceAppend(c: Config, ls: seq<RaceLabel>, l: RaceLabel)
    ensures RaceRun(c, ls + [l]) == RaceStep(c, RaceRun(c, ls), l)
  {
    assert (ls + [l])[..|ls|] == ls;
  }

  /** A launch of the same VM is refused between the check and the write of a request. */
  lemma RefusedInBetween(c: Config, ls0: seq<Label>, e: Entry, bad: Update) returns (ls: seq<Label>)
    requires Run(c, ls0) == State(map[1 := e], 0, 1, 1, map[], false, map[]) && 0 < |e.uuid| < UUID_SIZE
    ensures |ls| == 3 && Run(c, ls0 + ls).table == map[1 := UpdatedEntry(c.build, e, bad)]
    ensures Run(c, ls0 + ls).clock == 0
  {
    hide Step;
    var x := Launch(2, e.uuid, "", "", e.instanceType, bad, LookingUp);
    RunAppend(c, ls0, Arrive(1, e.uuid, "", "", e.instanceType, bad));
    Arrives(c, Run(c, ls0), 1, e.uuid, e.instanceType, bad);
    var ls1 := ls0 + [Arrive(1, e.uuid, "", "", e.instanceType, bad)];
    RunAppend(c, ls1, LookUp(1));
    FindsEntry(c, e, 0, 2, 1, x, false, map[]);
    RunAppend(c, ls1 + [LookUp(1)], Apply(1));
    Updates(c, 1, e, 0, 2, 1, x.(phase := Updating(1)), false, map[]);
    ls := [Arrive(1, e.uuid, "", "", e.instanceType, bad), LookUp(1), Apply(1)];
    assert ls0 + ls == ls1 + [LookUp(1)] + [Apply(1)];
  }

  /** Steps that do not touch the writers run under them as they would alone. */
  lemma {:induction false} PlainRunUnder(c: Config, before: seq<RaceLabel>, ls0: seq<Label>, ls: seq<Label>)
    requires RaceRun(c, before).s == Run(c, ls0)
    ensures RaceRun(c, before + Plainly(ls)) == RaceState(Run(c, ls0 + ls), RaceRun(c, before).writers)
  {
    if ls == [] {
      assert before + Plainly(ls) == before && ls0 + ls == ls0;
    } else {
      hide Step;
      var most, last := ls[..|ls| - 1], ls[|ls| - 1];
      PlainRunUnder(c, before, ls0, most);
      assert before + Plainly(ls) == before + Plainly(most) + [Plain(last)] && ls0 + ls == ls0 + most + [last];
      RaceAppend(c, before + Plainly(most), Plain(last));
      RunAppend(c, ls0 + most, last);
    }
  }

  /** A run after which a VM is STARTED although the policy "Enforce" refused it. */
  lemma RefusedAndStarted(c: Config, uuid: string, good: Update, bad: Update) returns (ls: seq<RaceLabel>)
    requires 0 < |uuid| < UUID_SIZE && !CancelsLaunch(good) && CancelsLaunch(bad)
    ensures var t := RaceRun(c, ls).s.table; 1 in t && MustNotRun(t[1]) && t[1].status == VM_STATUS_STARTED
  {
    hide Step, RaceStep, UpdatedEntry;
    var ls0, e := AcceptedLaunch(c, uuid, INSTANCE_TYPE_VM, good);
    var more := RefusedInBetween(c, ls0, e, bad);
    PlainRunUnder(c, [], [], ls0);
    assert [] + Plainly(ls0) == Plainly(ls0) && [] + ls0 == ls0;
    var checked := Plainly(ls0) + [Check(0, uuid, VM_STATUS_STARTED)];
    RaceAppend(c, Plainly(ls0), Check(0, uuid, VM_STATUS_STARTED));
    PassesCheck(c, RaceRun(c, Plainly(ls0)), e);
    PlainRunUnder(c, checked, ls0, more);
    RaceAppend(c, checked + Plainly(more), Write(0));
    WritesLate(c, RaceRun(c, checked + Plainly(more)), e, bad);
    ls := checked + Plainly(more) + [Write(0)];
  }

  lemma PassesCheck(c: Config, r: RaceState, e: Entry)
    requires r.s.table == map[1 := e] && r.writers == map[] && e.status != VM_STATUS_CANCELLED
    ensures RaceStep(c, r, Check(0, e.uuid, VM_STATUS_STARTED))
         == RaceState(r.s, map[0 := Writer(1, e.uuid, VM_STATUS_STARTED)])
  {
    assert 1 in WithUuid(map[1 := e], e.uuid);
  }

  lemma WritesLate(c: Config, r: RaceState, e: Entry, bad: Update)
    requires r.s.table == map[1 := UpdatedEntry(c.build, e, bad)] && CancelsLaunch(bad)
    requires r.writers == map[0 := Writer(1, e.uuid, VM_STATUS_STARTED)]
    ensures var t := RaceStep(c, r, Write(0)).s.table; 1 in t && MustNotRun(t[1]) && t[1].status == VM_STATUS_STARTED
  {
  }
}

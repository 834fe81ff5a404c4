/**
 * How long a cleaner lives among other threads: whatever launches, requests and other cleaners run
 * between its rounds, it needs no more of them than the maximum age has intervals, once nothing is
 * cancelled any more.
 */
module CleanerBound {
  import opened VmTable
  import opened TableRuns
  import opened CleanerLoop

  // ---- New cancellations -------------------------------------------------------------------------------

  /** The step makes an entry CANCELLED that was not: a refused launch's update, or a status request for 0. */
  ghost predicate Cancels(s: State, l: Label) {
    || (&& l.Apply? && l.tid in s.launches && s.launches[l.tid].phase.Updating?
        && CancelsLaunch(s.launches[l.tid].update)
        && s.launches[l.tid].phase.child in s.table
        && s.table[s.launches[l.tid].phase.child].status != VM_STATUS_CANCELLED)
    || (&& l.SetStatus? && l.status == VM_STATUS_CANCELLED && IdOf(s.table, l.uuid) != 0
        && s.table[IdOf(s.table, l.uuid)].status != VM_STATUS_CANCELLED)
  }

  /** These are all the steps after which more is CANCELLED than before. */
  lemma CancelsIff(c: Config, s: State, l: Label)
    ensures Cancels(s, l) <==> !(Cancelled(Step(c, s, l).table) <= Cancelled(s.table))
  {
    var s' := Step(c, s, l);
    if Cancels(s, l) {
      var id := if l.Apply? then s.launches[l.tid].phase.child else IdOf(s.table, l.uuid);
      assert id in Cancelled(s'.table) && id !in Cancelled(s.table);
    } else {
      forall id | id in Cancelled(s'.table) ensures id in Cancelled(s.table) {
        hide ExpiredIds, NewEntry;
      }
    }
  }

  /** An entry that stays CANCELLED keeps the time of its status. */
  lemma CancelledKeepsTime(c: Config, s: State, l: Label, id: int)
    requires id in Cancelled(s.table) && id in Cancelled(Step(c, s, l).table)
    ensures Step(c, s, l).table[id].statusTime == s.table[id].statusTime
  {
    hide ExpiredIds;
  }

  // ---- Times -----------------------------------------------------------------------------------------------

  ghost predicate TimesPast(s: State) {
    forall id :: id in s.table ==> s.table[id].statusTime <= s.clock
  }

  lemma TimesPastStep(c: Config, s: State, l: Label)
    requires TimesPast(s)
    ensures TimesPast(Step(c, s, l)) && s.clock <= Step(c, s, l).clock
  {
    hide ExpiredIds, Cancelled;
  }

  /** In every run, no status was set later than now. */
  lemma {:induction false} TimesArePast(c: Config, ls: seq<Label>)
    ensures TimesPast(Run(c, ls))
  {
    if ls != [] {
      hide Step;
      TimesArePast(c, ls[..|ls| - 1]);
      TimesPastStep(c, Run(c, ls[..|ls| - 1]), ls[|ls| - 1]);
    }
  }

  // ---- What is observed of one cleaner ---------------------------------------------------------------------

  predicate Counts(s: State, l: Label, cid: nat) { l == CleanerCheck(cid) && InCleanerPhase(s, cid, Checking) }
  predicate Collects(s: State, l: Label, cid: nat) { l == CleanerCollect(cid) && InCleanerPhase(s, cid, Sleeping) }

  /** The clock when the cleaner last counted the CANCELLED entries. */
  ghost function LastCount(c: Config, ls: seq<Label>, cid: nat): int {
    if ls == [] then 0
    else
      var s, l := Run(c, ls[..|ls| - 1]), ls[|ls| - 1];
      if Counts(s, l, cid) then s.clock else LastCount(c, ls[..|ls| - 1], cid)
  }

  /** Between a count and the collecting that follows, the cleaner sleeps for the interval or longer. */
  ghost predicate Slept(c: Config, ls: seq<Label>, cid: nat, interval: int) {
    ls == [] || (
      var s, l, before := Run(c, ls[..|ls| - 1]), ls[|ls| - 1], ls[..|ls| - 1];
      && Slept(c, before, cid, interval)
      && (Collects(s, l, cid) ==> s.clock >= LastCount(c, before, cid) + interval))
  }

  /** How often the cleaner has collected since the first `n` steps. */
  ghost function Rounds(c: Config, ls: seq<Label>, n: nat, cid: nat): nat {
    if |ls| <= n then 0
    else Rounds(c, ls[..|ls| - 1], n, cid) + if Collects(Run(c, ls[..|ls| - 1]), ls[|ls| - 1], cid) then 1 else 0
  }

  /** Since the first `n` steps nothing was newly cancelled. */
  ghost predicate CalmSince(c: Config, ls: seq<Label>, n: nat) {
    |ls| <= n || (CalmSince(c, ls[..|ls| - 1], n) && !Cancels(Run(c, ls[..|ls| - 1]), ls[|ls| - 1]))
  }

  // ---- The invariant -----------------------------------------------------------------------------------------

  /** A cleaner that was asleep in the beginning may collect at once; that round is not counted. */
  function Head(s: State, cid: nat): int { if InCleanerPhase(s, cid, Sleeping) then 1 else 0 }

  ghost predicate IsPending(s: State, cid: nat, id: int) {
    cid in s.cleaners && s.cleaners[cid].Removing? && id in s.cleaners[cid].pending
  }

  ghost predicate IsOver(s: State, cid: nat) { cid !in s.cleaners || s.cleaners[cid] == Exiting }

  /**
   * After `k` rounds of which `due` time must have passed since `start`: CANCELLED entries that are not
   * about to be removed were cancelled before `start`, but less than the maximum age before the last
   * collecting.
   */
  ghost predicate OnTime(c: Config, s: State, cid: nat, start: int, k: nat, due: int, counted: int) {
    && start <= s.clock && start + due <= s.clock
    && (forall id :: id in Cancelled(s.table) ==> s.table[id].statusTime <= start)
    && (k > 0 ==>
        forall id :: id in Cancelled(s.table) && !IsPending(s, cid, id) ==>
          start + due - c.maxAge < s.table[id].statusTime)
    && (InCleanerPhase(s, cid, Sleeping) && (k > 0 || due == 0) ==> start + due <= counted)
    && (InCleanerPhase(s, cid, Sleeping) && k > 0 ==> due < c.maxAge)
    && (IsOver(s, cid) ==> Cancelled(s.table) == {})
  }

  lemma CollectsOnTime(c: Config, s: State, cid: nat, start: int, k: nat, due: int, counted: int, interval: int)
    requires OnTime(c, s, cid, start, k, due, counted) && InCleanerPhase(s, cid, Sleeping)
    requires s.clock >= counted + interval && (k > 0 || due == 0 || due == -interval)
    ensures OnTime(c, Step(c, s, CleanerCollect(cid)), cid, start, k + 1, due + interval, counted)
  {
  }

  lemma CountsOnTime(c: Config, s: State, cid: nat, start: int, k: nat, due: int, counted: int)
    requires OnTime(c, s, cid, start, k, due, counted) && InCleanerPhase(s, cid, Checking)
    ensures OnTime(c, Step(c, s, CleanerCheck(cid)), cid, start, k, due, s.clock)
  {
    var t := Step(c, s, CleanerCheck(cid)).table;
    if Cancelled(t) != {} {
      Inhabited(Cancelled(t));
    }
  }

  lemma OthersOnTime(c: Config, s: State, l: Label, cid: nat, start: int, k: nat, due: int, counted: int)
    requires OnTime(c, s, cid, start, k, due, counted) && !Cancels(s, l) && !Collects(s, l, cid) && !Counts(s, l, cid)
    ensures OnTime(c, Step(c, s, l), cid, start, k, due, counted)
  {
    var s' := Step(c, s, l);
    CancelsIff(c, s, l);
    PhaseKept(c, s, l, cid);
    ClockGrows(c, s, l);
    forall id | id in Cancelled(s'.table) ensures s'.table[id].statusTime == s.table[id].statusTime {
      CancelledKeepsTime(c, s, l, id);
    }
    hide Step, Cancelled, Cancels;
  }

  lemma ClockGrows(c: Config, s: State, l: Label)
    ensures s.clock <= Step(c, s, l).clock
  {
    hide IdOf, AfterStatus, Inserted, AfterUpdate, WithoutUuid, NewEntry, Cancelled, ExpiredIds;
  }

  /** Other steps do not put the cleaner to sleep, end it early or take an entry off its list that is still there. */
  lemma PhaseKept(c: Config, s: State, l: Label, cid: nat)
    requires !Collects(s, l, cid) && !Counts(s, l, cid)
    ensures var s' := Step(c, s, l);
            && (InCleanerPhase(s', cid, Sleeping) ==> InCleanerPhase(s, cid, Sleeping))
            && (IsOver(s', cid) ==> IsOver(s, cid))
            && (forall id :: id in s'.table && IsPending(s, cid, id) ==> IsPending(s', cid, id))
  {
  }

  // ---- The bound -----------------------------------------------------------------------------------------------

  lemma InTheBeginning(c: Config, s: State, cid: nat, interval: int, counted: int)
    requires interval > 0 && TimesPast(s) && !IsOver(s, cid)
    ensures OnTime(c, s, cid, s.clock, 0, (0 - Head(s, cid)) * interval, counted)
  {
  }

  /** One more step, whatever it is. */
  lemma StepOnTime(c: Config, s: State, l: Label, cid: nat, start: int, k: nat, head: int, interval: int, counted: int)
    requires interval > 0 && 0 <= head <= 1 && OnTime(c, s, cid, start, k, (k - head) * interval, counted)
             && !Cancels(s, l)
    requires Collects(s, l, cid) ==> s.clock >= counted + interval
    ensures var k' := if Collects(s, l, cid) then k + 1 else k;
            OnTime(c, Step(c, s, l), cid, start, k', (k' - head) * interval,
                   if Counts(s, l, cid) then s.clock else counted)
  {
    hide Step, OnTime, Cancels;
    if Collects(s, l, cid) {
      assert k == 0 ==> (k - head) * interval == 0 || (k - head) * interval == -interval;
      CollectsOnTime(c, s, cid, start, k, (k - head) * interval, counted, interval);
      OneMore(k - head, interval);
      assert (k + 1) - head == (k - head) + 1;
    } else if Counts(s, l, cid) {
      CountsOnTime(c, s, cid, start, k, (k - head) * interval, counted);
    } else {
      OthersOnTime(c, s, l, cid, start, k, (k - head) * interval, counted);
    }
  }

  lemma {:induction false} AlwaysOnTime(c: Config, ls: seq<Label>, n: nat, cid: nat, interval: int)
    requires n <= |ls| && interval > 0 && !IsOver(Run(c, ls[..n]), cid)
    requires CalmSince(c, ls, n) && Slept(c, ls, cid, interval)
    ensures var s0, k := Run(c, ls[..n]), Rounds(c, ls, n, cid);
            OnTime(c, Run(c, ls), cid, s0.clock, k, (k - Head(s0, cid)) * interval, LastCount(c, ls, cid))
  {
    hide Step, OnTime, Cancels;
    if |ls| == n {
      assert ls[..n] == ls;
      TimesArePast(c, ls);
      InTheBeginning(c, Run(c, ls), cid, interval, LastCount(c, ls, cid));
    } else {
      var before := ls[..|ls| - 1];
      assert before[..n] == ls[..n];
      AlwaysOnTime(c, before, n, cid, interval);
      var s0 := Run(c, ls[..n]);
      StepOnTime(c, Run(c, before), ls[|ls| - 1], cid, s0.clock, Rounds(c, before, n, cid), Head(s0, cid), interval,
                 LastCount(c, before, cid));
    }
  }

  /** As long as some entry is CANCELLED and not about to be removed, there is a round left. */
  lemma RoundLeft(c: Config, s: State, cid: nat, start: int, k: nat, head: int, interval: int, counted: int)
    requires interval > 0 && 0 <= head <= 1 && OnTime(c, s, cid, start, k, (k - head) * interval, counted)
    requires InCleanerPhase(s, cid, Sleeping) || (InCleanerPhase(s, cid, Checking) && Cancelled(s.table) != {})
    ensures k < head + RoundBound(c.maxAge, interval)
  {
    if k > 0 {
      if InCleanerPhase(s, cid, Checking) {
        Inhabited(Cancelled(s.table));
        var id :| id in Cancelled(s.table);
        assert !IsPending(s, cid, id);
      }
      assert (k - head) * interval < c.maxAge;
      BelowCeil(k - head, c.maxAge, interval);
    }
  }

  lemma {:induction false} RoundsBounded(c: Config, ls: seq<Label>, n: nat, cid: nat, interval: int)
    requires n <= |ls| && interval > 0 && !IsOver(Run(c, ls[..n]), cid)
    requires CalmSince(c, ls, n) && Slept(c, ls, cid, interval)
    ensures Rounds(c, ls, n, cid) <= Head(Run(c, ls[..n]), cid) + RoundBound(c.maxAge, interval)
  {
    hide Step, OnTime, Cancels, RoundBound;
    var s0 := Run(c, ls[..n]);
    AtLeastOne(c.maxAge, interval);
    if |ls| > n {
      var before := ls[..|ls| - 1];
      assert before[..n] == ls[..n];
      RoundsBounded(c, before, n, cid, interval);
      if Collects(Run(c, before), ls[|ls| - 1], cid) {
        AlwaysOnTime(c, before, n, cid, interval);
        RoundLeft(c, Run(c, before), cid, s0.clock, Rounds(c, before, n, cid), Head(s0, cid), interval,
                  LastCount(c, before, cid));
      }
    }
  }

  lemma AtLeastOne(maxAge: int, interval: int)
    requires interval > 0
    ensures RoundBound(maxAge, interval) >= 1
  {
  }

  /**
   * After any beginning of a run, once nothing is newly cancelled: the cleaner goes through at most
   * max(1, ceil(maxAge / interval)) rounds, and one more if it was asleep, whatever else runs. After that
   * many its next count ends it; and when it ends, nothing is CANCELLED.
   */
  lemma CleanerEnds(c: Config, ls: seq<Label>, n: nat, cid: nat, interval: int)
    requires n <= |ls| && interval > 0 && !IsOver(Run(c, ls[..n]), cid)
    requires CalmSince(c, ls, n) && Slept(c, ls, cid, interval)
    ensures var s0, s := Run(c, ls[..n]), Run(c, ls); var bound := Head(s0, cid) + RoundBound(c.maxAge, interval);
            && Rounds(c, ls, n, cid) <= bound
            && (Rounds(c, ls, n, cid) == bound && InCleanerPhase(s, cid, Checking) ==>
                  InCleanerPhase(Step(c, s, CleanerCheck(cid)), cid, Exiting))
            && (IsOver(s, cid) ==> Cancelled(s.table) == {})
    ensures var k := Rounds(c, ls, n, cid) - Head(Run(c, ls[..n]), cid);
            && (k <= 1 || (k - 1) * interval < c.maxAge)
            && (k >= 1 && k * interval >= c.maxAge && InCleanerPhase(Run(c, ls), cid, Checking) ==>
                  InCleanerPhase(Step(c, Run(c, ls), CleanerCheck(cid)), cid, Exiting))
  {
    hide OnTime, Cancels, RoundBound, Run, Rounds, CalmSince, Slept, LastCount;
    var s0, s, k := Run(c, ls[..n]), Run(c, ls), Rounds(c, ls, n, cid);
    AtLeastOne(c.maxAge, interval);
    RoundsBounded(c, ls, n, cid, interval);
    AlwaysOnTime(c, ls, n, cid, interval);
    OverMeansNone(c, s, cid, s0.clock, k, (k - Head(s0, cid)) * interval, LastCount(c, ls, cid));
    BoundIs(k - Head(s0, cid), c.maxAge, interval);
    BoundIs(k - Head(s0, cid) + 1, c.maxAge, interval);
    if InCleanerPhase(s, cid, Checking) && Cancelled(s.table) != {} {
      RoundLeft(c, s, cid, s0.clock, k, Head(s0, cid), interval, LastCount(c, ls, cid));
    }
  }

  lemma OverMeansNone(c: Config, s: State, cid: nat, start: int, k: nat, due: int, counted: int)
    requires OnTime(c, s, cid, start, k, due, counted)
    ensures IsOver(s, cid) ==> Cancelled(s.table) == {}
  {
  }
}

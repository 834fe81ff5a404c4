/** The cleaner thread run to its end: how many rounds it takes and what it leaves. */
module CleanerLoop {
  import opened VmTable

  function CeilDiv(a: int, b: int): int
    requires b > 0
  {
    (a + b - 1) / b
  }

  function RoundBound(maxAge: int, interval: int): int
    requires interval > 0
  {
    if CeilDiv(maxAge, interval) > 1 then CeilDiv(maxAge, interval) else 1
  }

  lemma BelowCeil(k: int, a: int, b: int)
    requires b > 0 && k * b < a
    ensures k < CeilDiv(a, b)
  {
    var q := (a + b - 1) / b;
    assert q * b >= a;
    assert q <= k ==> q * b <= k * b;
  }

  /** The bound is the number of intervals in the maximum age, rounded up, and at least one. */
  lemma BoundIs(k: int, maxAge: int, interval: int)
    requires interval > 0
    ensures k <= RoundBound(maxAge, interval) <==> k <= 1 || (k - 1) * interval < maxAge
  {
    var q := CeilDiv(maxAge, interval);
    assert (q - 1) * interval < maxAge <= q * interval;
    if k <= q {
      assert (k - 1) * interval <= (q - 1) * interval;
    } else {
      assert (k - 1) * interval >= q * interval;
    }
  }

  /** The entries a round does not reach: CANCELLED, but not yet `maxAge` old. */
  ghost predicate AllYoung(t: Table, maxAge: int, now: int) {
    forall id :: id in t && t[id].status == VM_STATUS_CANCELLED ==> now - t[id].statusTime < maxAge
  }

  ghost predicate LostOnlyCancelled(t0: Table, t: Table) {
    && (forall id :: id in t ==> id in t0 && t[id] == t0[id])
    && (forall id :: id in t0 && t0[id].status != VM_STATUS_CANCELLED ==> id in t)
  }

  lemma OnlyCancelledGone(t0: Table, t: Table)
    requires LostOnlyCancelled(t0, t) && Cancelled(t) == {}
    ensures t == t0 - Cancelled(t0)
  {
    forall id ensures id in t <==> id in t0 && id !in Cancelled(t0) {
      assert id !in Cancelled(t);
    }
    IsDifference(t, t0, Cancelled(t0));
  }

  lemma IsDifference(t: Table, t0: Table, gone: set<int>)
    requires forall id :: id in t <==> id in t0 && id !in gone
    requires forall id :: id in t ==> t[id] == t0[id]
    ensures t == t0 - gone
  {
    var kept := t0 - gone;
    forall id | id in t ensures id in kept && t[id] == kept[id] {}
    forall id | id in kept ensures id in t {}
    assert t.Keys == kept.Keys;
    assert t == map id | id in t :: t[id];
    assert kept == map id | id in t :: t[id];
  }

  lemma OneMore(k: int, b: int)
    ensures (k + 1) * b == k * b + b
  {
  }

  class CleanupThread {
    const table: ServiceProcTable
    /** `g_cleanup_service_status` */
    var flag: int

    constructor (table: ServiceProcTable)
      ensures this.table == table && flag == 1
    {
      this.table := table;
      flag := 1;
    }

    /**
     * With no other thread touching the table and every status time in the past, the thread ends within
     * `RoundBound` rounds even if each sleep is longer than asked, and only the CANCELLED entries are gone.
     */
    method CleanVrtmTableThread(maxAge: int, interval: int, start: int) returns (rounds: nat, now: int)
      requires interval > 0
      requires forall id :: id in table.procTable ==> table.procTable[id].statusTime <= start
      modifies this, table
      ensures table.procTable == old(table.procTable) - Cancelled(old(table.procTable))
      ensures Cancelled(table.procTable) == {} && flag == 0
      ensures rounds <= RoundBound(maxAge, interval) && (rounds <= 1 || (rounds - 1) * interval < maxAge)
      ensures rounds == 0 <==> Cancelled(old(table.procTable)) == {}
      ensures now >= start + rounds * interval
    {
      hide RoundBound;
      rounds, now := 0, start;
      BoundIs(0, maxAge, interval);
      ghost var due := 0;
      var count := table.GetCancelledVmCount();
      while count != 0
        invariant count == |Cancelled(table.procTable)|
        invariant LostOnlyCancelled(old(table.procTable), table.procTable)
        invariant rounds == 0 ==> table.procTable == old(table.procTable)
        invariant rounds > 0 ==> AllYoung(table.procTable, maxAge, now) && Cancelled(old(table.procTable)) != {}
        invariant rounds <= RoundBound(maxAge, interval)
        invariant due == rounds * interval && now >= start + due
        decreases RoundBound(maxAge, interval) - rounds
      {
        Inhabited(Cancelled(table.procTable));
        ghost var id :| id in Cancelled(table.procTable);
        assert rounds > 0 ==> now - start < maxAge;
        BoundIs(rounds + 1, maxAge, interval);
        var oversleep: nat :| oversleep >= 0;
        now := now + interval + oversleep;
        var cleaned := table.CleanVrtmTable(maxAge, VM_STATUS_CANCELLED, now);
        OneMore(rounds, interval);
        rounds, due := rounds + 1, due + interval;
        count := table.GetCancelledVmCount();
      }
      flag := 0;
      BoundIs(rounds, maxAge, interval);
      OnlyCancelledGone(old(table.procTable), table.procTable);
    }
  }
}

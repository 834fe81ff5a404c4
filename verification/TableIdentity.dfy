/** One entry per VM: ids, uuids and the scan by uuid, over every interleaving of `StartApp`s. */
module TableIdentity {
  import opened CLib
  import opened VmTable
  import opened TableRuns

  ghost predicate UuidsUnique(t: Table) {
    forall id, j :: id in t && j in t && id != j ==> t[id].uuid != t[j].uuid
  }

  /** No two `StartApp`s of one uuid are between their lookup and their add at the same time. */
  ghost predicate NoRacingAdds(s: State) {
    forall t, u :: InPhase(s, t, Adding) && InPhase(s, u, Adding) && t != u ==> s.launches[t].uuid != s.launches[u].uuid
  }

  ghost predicate RaceFree(c: Config, ls: seq<Label>) {
    NoRacingAdds(Run(c, ls)) && (ls == [] || RaceFree(c, ls[..|ls| - 1]))
  }

  ghost predicate UuidsFit(s: State) {
    forall t :: t in s.launches ==> 0 < |s.launches[t].uuid| < UUID_SIZE && |s.launches[t].hash| <= RG_HASH_SIZE
  }

  /** The lookup's answer "not registered" still holds when the add comes. */
  ghost predicate AddersClear(s: State) {
    forall t, id :: InPhase(s, t, Adding) && id in s.table ==> s.table[id].uuid != s.launches[t].uuid
  }

  /** The id a `StartApp` is about to update is its own VM's, if it is still there. */
  ghost predicate ChildrenOwned(s: State) {
    forall t :: t in s.launches && s.launches[t].phase.Updating? && s.launches[t].phase.child in s.table ==>
                  s.table[s.launches[t].phase.child].uuid == s.launches[t].uuid
  }

  ghost predicate Identity(s: State) {
    IdsFresh(s) && UuidsFit(s) && UuidsUnique(s.table) && AddersClear(s) && ChildrenOwned(s)
  }

  lemma UuidsFitMove(s: State, l: Label, s': State)
    requires UuidsFit(s) && LaunchesMove(s, l, s')
    ensures UuidsFit(s')
  {
    hide PhaseMoves;
  }

  lemma UuidsUniqueMove(s: State, l: Label, s': State)
    requires UuidsFit(s) && UuidsUnique(s.table) && AddersClear(s) && TableMoves(s, l, s')
    ensures UuidsUnique(s'.table)
  {
  }

  lemma AddersClearMove(s: State, l: Label, s': State)
    requires Identity(s) && NoRacingAdds(s) && LaunchesMove(s, l, s') && TableMoves(s, l, s')
    ensures AddersClear(s')
  {
    assert 0 !in s.table by { assert 0 in s.table ==> Settled(s, 0); }
    forall t, id | InPhase(s', t, Adding) && id in s'.table ensures s'.table[id].uuid != s'.launches[t].uuid {
      assert LaunchMoves(s, l, s', t);
    }
  }

  lemma ChildrenOwnedMove(s: State, l: Label, s': State)
    requires Identity(s) && LaunchesMove(s, l, s') && TableMoves(s, l, s')
    ensures ChildrenOwned(s')
  {
    forall t | t in s'.launches && s'.launches[t].phase.Updating? && s'.launches[t].phase.child in s'.table
      ensures s'.table[s'.launches[t].phase.child].uuid == s'.launches[t].uuid
    {
      assert LaunchMoves(s, l, s', t);
      var child := s'.launches[t].phase.child;
      if t in s.launches && s.launches[t].phase == Adding {
        assert child in s.table ==> Settled(s, child);
      } else if t in s.launches && s.launches[t].phase.Updating? {
        assert Settled(s, child);
      }
    }
  }

  lemma IdentityStep(c: Config, s: State, l: Label)
    requires Identity(s) && NoRacingAdds(s) && Step(c, s, l).served < INT32_MAX
    ensures Identity(Step(c, s, l))
  {
    hide Step;
    LaunchesMoveStep(c, s, l);
    TableMovesStep(c, s, l);
    var s' := Step(c, s, l);
    IdsFreshStep(c, s, l);
    UuidsFitMove(s, l, s');
    UuidsUniqueMove(s, l, s');
    AddersClearMove(s, l, s');
    ChildrenOwnedMove(s, l, s');
  }

  lemma AddInserts(c: Config, s: State, t: nat)
    requires IdsFresh(s) && UuidsFit(s) && InPhase(s, t, Adding)
    ensures s.launches[t].procid !in s.table
    ensures Step(c, s, Add(t)).table.Keys == s.table.Keys + {s.launches[t].procid}
    ensures Step(c, s, Add(t)).table[s.launches[t].procid].uuid == s.launches[t].uuid
    ensures forall id :: id in s.table ==> Step(c, s, Add(t)).table[id] == s.table[id]
  {
    assert s.launches[t].procid in s.table ==> Settled(s, s.launches[t].procid);
  }

  lemma {:induction false} IdentityHolds(c: Config, ls: seq<Label>)
    requires RaceFree(c, ls) && Run(c, ls).served < INT32_MAX
    ensures Identity(Run(c, ls))
  {
    if ls == [] {
    } else {
      hide Step, Identity;
      ServedGrows(c, Run(c, ls[..|ls| - 1]), ls[|ls| - 1]);
      IdentityHolds(c, ls[..|ls| - 1]);
      IdentityStep(c, Run(c, ls[..|ls| - 1]), ls[|ls| - 1]);
    }
  }

  /** With unique uuids and positive ids, the scan reports `id` exactly when `id` is that VM's entry. */
  lemma ScanIsExact(t: Table, uuid: string, id: int)
    requires UuidsUnique(t) && forall j :: j in t ==> 0 < j
    ensures id != 0 ==> (IdOf(t, uuid) == id <==> id in t && t[id].uuid == uuid)
    ensures IdOf(t, uuid) == 0 <==> forall j :: j in t ==> t[j].uuid != uuid
  {
    assert forall j :: j in t && t[j].uuid == uuid ==> j in WithUuid(t, uuid);
  }

  /**
   * Over every run without racing adds and without id wrap-around: ids are positive, uuids are pairwise
   * distinct, every add really inserts, and the scan is exact.
   */
  lemma TableIdentityHolds(c: Config, ls: seq<Label>)
    requires RaceFree(c, ls) && Run(c, ls).served < INT32_MAX
    ensures UuidsUnique(Run(c, ls).table)
    ensures forall id :: id in Run(c, ls).table ==> 0 < id <= Run(c, ls).served
    ensures forall t :: InPhase(Run(c, ls), t, Adding) ==> Run(c, ls).launches[t].procid !in Run(c, ls).table
    ensures forall uuid, id :: id != 0 ==>
              (IdOf(Run(c, ls).table, uuid) == id <==> id in Run(c, ls).table && Run(c, ls).table[id].uuid == uuid)
  {
    IdentityHolds(c, ls);
    var s := Run(c, ls);
    forall id | id in s.table ensures 0 < id <= s.served { assert Settled(s, id); }
    forall t | InPhase(s, t, Adding) ensures s.launches[t].procid !in s.table { AddInserts(c, s, t); }
    forall uuid, id | id != 0 ensures IdOf(s.table, uuid) == id <==> id in s.table && s.table[id].uuid == uuid {
      ScanIsExact(s.table, uuid, id);
    }
  }

  /** The condition is exact: from any state with two racing adds, the two adds give one VM two entries. */
  lemma RacingAddsDuplicate(c: Config, s: State, t: nat, u: nat)
    requires IdsFresh(s) && UuidsFit(s) && s.served < INT32_MAX && t != u
    requires InPhase(s, t, Adding) && InPhase(s, u, Adding) && s.launches[t].uuid == s.launches[u].uuid
    ensures !UuidsUnique(Step(c, Step(c, s, Add(t)), Add(u)).table)
  {
    AddInserts(c, s, t);
    var s1 := Step(c, s, Add(t));
    IdsFreshStep(c, s, Add(t));
    AddInserts(c, s1, u);
    var t2 := Step(c, s1, Add(u)).table;
    assert t2[s.launches[t].procid].uuid == t2[s.launches[u].procid].uuid;
  }

  lemma RacingLookUps(c: Config, uuid: string, file: string, x: Update) returns (ls: seq<Label>)
    requires 0 < |uuid| < UUID_SIZE
    ensures var s := Run(c, ls);
            && s.served == 2 && InPhase(s, 0, Adding) && InPhase(s, 1, Adding)
            && s.launches[0].uuid == s.launches[1].uuid == uuid && UuidsFit(s)
  {
    ls := RunTwo(c, [],
                 [Arrive(0, uuid, file, "", INSTANCE_TYPE_VM, x), Arrive(1, uuid, file, "", INSTANCE_TYPE_VM, x)]);
    assert WithUuid(map[], uuid) == {};
    ls := RunTwo(c, ls, [LookUp(0), LookUp(1)]);
  }

  /** Such a state is reachable: two launches of one VM that both look it up before either adds it. */
  lemma RacingAddsReachable(c: Config, uuid: string, file: string, x: Update) returns (ls: seq<Label>)
    requires 0 < |uuid| < UUID_SIZE
    ensures Run(c, ls).served == 2 && !UuidsUnique(Run(c, ls).table)
  {
    ls := RacingLookUps(c, uuid, file, x);
    IdsStayFresh(c, ls);
    RacingAddsDuplicate(c, Run(c, ls), 0, 1);
    AddServesNothing(c, Run(c, ls), 0);
    AddServesNothing(c, Step(c, Run(c, ls), Add(0)), 1);
    ls := RunTwo(c, ls, [Add(0), Add(1)]);
    hide Step, UuidsUnique;
  }

  lemma AddServesNothing(c: Config, s: State, t: nat)
    ensures Step(c, s, Add(t)).served == s.served
  {
  }
}

/** A launch, and then the question what came of it: what the query answers is what the measurement showed. */
module VerdictQuery {
  import opened CLib
  import opened XmlRpc
  import opened ArgOwnership
  import opened TcpChannel
  import opened VmTable
  import opened LaunchDecision
  import opened Service
  import opened Exchange
  import opened LaunchGate
  import LaunchArgs

  lemma UuidAsked(g: Guest)
    requires AreCStrings(g)
    ensures |FieldsAsked(g).uuid| < UUID_SIZE && IsCString(FieldsAsked(g).uuid)
  {
    VectorParses(g);
    VectorIsCStrings(g);
    hide LaunchArgs.Scan, IsCString;
    LaunchArgs.ScanKeepsUuid(VectorOf(g), 0, LaunchArgs.NO_FIELDS);
    EmptyIsCString();
  }

  lemma EmptyIsCString()
    ensures IsCString("")
  {
  }

  lemma QueryAskable(meth: string, uuid: string)
    requires IsMethodName(meth) && |meth| <= 1000 && IsCString(uuid) && |uuid| < UUID_SIZE
    ensures Askable(VM2RP_ISVERIFIED, meth, [uuid]) && |CallText(meth, [uuid])| < MAX_LEN
  {
    ShortCallText(meth, [uuid]);
    hide CallText, IsMethodName;
  }

  lemma LaunchKeepsInt32(c: Context, t: Table, procid: int, f: LaunchArgs.Fields, next: int)
    requires IdsAreInt32(t, procid) && IsInt32(next)
    ensures IdsAreInt32(TableAfter(c.build, t, procid, f, c.outcomes, c.now, c.dir), next)
  {
    hide Decide, IdOf, UpdateOf, NewEntry;
  }

  lemma NextIsInt32(reqId: int)
    ensures IsInt32(NextId(reqId))
  {
  }

  lemma OnlyFirst(t: Table, uuid: string, id: int)
    requires IsFirst(t, uuid, id)
    ensures forall j :: IsFirst(t, uuid, j) ==> j == id
  {
  }

  /**
   * With reliable connections and unless the request is too long or the launch fails: after a measured
   * launch, allowed or not, the query is answered 1 exactly if the line showed the policy's hash (or, for
   * a hash no buffer holds, nothing), and 0 exactly if it did not.
   */
  method LaunchThenAsk(core: VrtmCore, c: Context, g: Guest, meth: string) returns (verdict: Option<int>)
    requires core.heap.Valid() && core.table.build == c.build
    requires AreCStrings(g) && IsMethodName(meth) && |meth| <= 1000 && |RequestText(g)| < MAX_LEN
    requires IdsAreInt32(core.table.procTable, NextId(core.reqId)) && NextId(core.reqId) !in core.table.procTable
    requires forall id :: id in core.table.procTable ==> 0 < id
    requires StartReply(core.table.procTable, NextId(core.reqId), FieldsAsked(g), c.outcomes) != None
    requires c.outcomes.policy == "MeasureOnly" || c.outcomes.policy == "MeasureAndEnforce"
    modifies core, core.table, core.heap
    ensures c.outcomes.hashFile.Some?
    ensures var golden, line := c.outcomes.goldenHash, c.outcomes.hashFile.value;
            var shown := if 0 < |golden| < 64 then line == golden else if |golden| == 64 then golden <= line
              else line == "";
            (verdict == Some(1) <==> shown) && (verdict == Some(0) <==> !shown)
  {
    hide TableAfter, IdsAreInt32, StartReply, FieldsAsked, RequestText, CallText, AreCStrings, Askable, NextId, IdOf,
         Launchable, IdGiven, ArgsReply, ArgsTable, IsMethodName;
    ghost var t0, procid, f := core.table.procTable, NextId(core.reqId), FieldsAsked(g);
    var positive := GetRpcoreResponse(core, c, g, true);
    UuidAsked(g);
    QueryAskable(meth, f.uuid);
    NextIsInt32(core.reqId);
    LaunchKeepsInt32(c, t0, procid, f, NextId(core.reqId));
    ghost var id := VerdictIsKept(c.build, t0, procid, f, c.outcomes, c.now, c.dir);
    OnlyFirst(core.table.procTable, f.uuid, id);
    verdict := Ask(core, c, VM2RP_ISVERIFIED, meth, [FieldsAsked(g).uuid], true);
  }
}

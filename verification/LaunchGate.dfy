/**
 * The proxy's gate: it asks the server for a launch, and what it gets is a positive id exactly when the
 * launch is in order, and a denial whenever anything goes wrong.
 */
module LaunchGate {
  import opened CLib
  import opened XmlRpc
  import opened ArgOwnership
  import opened TcpChannel
  import opened VmTable
  import opened LaunchDecision
  import opened Service
  import opened Exchange
  import LaunchArgs

  const REQUEST_METHOD := "foo"

  /** The four strings of `get_rpcore_response`. */
  datatype Guest = Guest(kernel: string, ramdisk: string, disk: string, uuid: string)

  predicate AreCStrings(g: Guest) {
    IsCString(g.kernel) && IsCString(g.ramdisk) && IsCString(g.disk) && IsCString(g.uuid)
  }

  function VectorOf(g: Guest): seq<string> { LaunchArgs.ProxyVector(g.kernel, g.ramdisk, g.disk, g.uuid) }

  function RequestText(g: Guest): string
    requires AreCStrings(g)
  {
    VectorIsCStrings(g);
    CallText(REQUEST_METHOD, VectorOf(g))
  }

  lemma VectorIsCStrings(g: Guest)
    requires AreCStrings(g)
    ensures AllCStrings(VectorOf(g)) && IsMethodName(REQUEST_METHOD)
  {
  }

  lemma VectorParses(g: Guest)
    ensures Parseable(VectorOf(g)) && |VectorOf(g)| <= LaunchArgs.MAX_ARGS
  {
    LaunchArgs.ProxyVectorScans(g.kernel, g.ramdisk, g.disk, g.uuid);
    hide LaunchArgs.Scan;
  }

  /** However long the strings are, the request fits the proxy's buffer and the server's, and is parsed there. */
  lemma RequestFits(g: Guest)
    requires AreCStrings(g)
    ensures |RequestText(g)| < PARAMSIZE - HEADER_SIZE
    ensures Askable(VM2RP_STARTAPP, REQUEST_METHOD, VectorOf(g))
  {
    VectorIsCStrings(g);
    VectorParses(g);
    CallTextLength(REQUEST_METHOD, VectorOf(g));
    hide CallText, Parseable, IsMethodName, AllCStrings, LaunchArgs.Scan;
  }

  /** The fields `StartApp` parses from the proxy's vector. */
  function FieldsAsked(g: Guest): LaunchArgs.Fields {
    VectorParses(g);
    FieldsOfVector(VectorOf(g))
  }

  /** They are the four strings, if none of these is a flag that its place in the vector exposes it to. */
  lemma FieldsAskedAreTheStrings(g: Guest)
    requires LaunchArgs.NotFlags(g.kernel, g.ramdisk, g.disk, g.uuid)
    ensures FieldsAsked(g)
         == LaunchArgs.Fields(StrCpyS(LaunchArgs.PATH_SIZE, g.kernel), StrCpyS(LaunchArgs.PATH_SIZE, g.ramdisk),
                                                Some("config"), StrCpyS(UUID_SIZE, g.uuid),
                                                StrCpyS(LaunchArgs.PATH_SIZE, g.disk), "", "", false)
  {
    LaunchArgs.ProxyVectorParsed(g.kernel, g.ramdisk, g.disk, g.uuid);
    hide LaunchArgs.Scan;
  }

  // ---- The decision ------------------------------------------------------------------------------------------

  /** The launch the proxy asked for is in order, and its request is short enough to be understood. */
  predicate LaunchInOrder(g: Guest, o: Outcomes)
    requires AreCStrings(g)
  {
    |RequestText(g)| < MAX_LEN && Admitted(FieldsAsked(g), o)
  }

  /** The launch is in order and there is a positive id to name it by. */
  ghost predicate Launchable(c: Context, t: Table, procid: int, g: Guest)
    requires AreCStrings(g)
  {
    LaunchInOrder(g, c.outcomes) && IdGiven(t, procid, FieldsAsked(g), c.outcomes) > 0
  }

  /** The server answers the proxy's vector with a positive id exactly for a launch it admits. */
  lemma PositiveOnlyInOrder(c: Context, t: Table, procid: int, g: Guest)
    requires ArgsSuffice(VM2RP_STARTAPP, VectorOf(g))
    ensures var r := ArgsReply(c, t, procid, VM2RP_STARTAPP, VectorOf(g));
            && (r.Some? && r.value > 0 <==>
                Admitted(FieldsAsked(g), c.outcomes) && IdGiven(t, procid, FieldsAsked(g), c.outcomes) > 0)
            && (r.Some? && r.value > 0 ==> r.value == IdGiven(t, procid, FieldsAsked(g), c.outcomes))
    ensures ArgsTable(c, t, procid, VM2RP_STARTAPP, VectorOf(g))
         == TableAfter(c.build, t, procid, FieldsAsked(g), c.outcomes, c.now, c.dir)
  {
    VectorParses(g);
    PositiveIffAdmitted(t, procid, FieldsAsked(g), c.outcomes);
    hide Decide, Admitted, TableAfter, IdGiven, Parseable, LaunchArgs.Scan, FieldsOfVector, ReplyOf;
  }

  /** Launchable step by step: what was sent, what was read, what was measured and what it showed, and the id. */
  lemma LaunchableIff(c: Context, t: Table, procid: int, g: Guest)
    requires AreCStrings(g)
    ensures Launchable(c, t, procid, g) <==>
              var o, f := c.outcomes, FieldsAsked(g);
              var measured := o.policy == "MeasureOnly" || o.policy == "MeasureAndEnforce";
              && |RequestText(g)| <= 4095
              && f.uuid != "" && (f.docker ==> f.mountPath != "" && f.name != "")
              && o.policyFile && o.manifestFile && o.policyParsed && o.digestParsed
              && (measured ==>
                    && o.verifierStatus == 0 && o.hashFile.Some?
                    && (f.docker || (o.mountDirMade && o.mountStatus == 0 && o.unmountStatus == 0)))
              && (o.policy == "MeasureAndEnforce" ==>
                    if 0 < |o.goldenHash| < 64 then o.hashFile.value == o.goldenHash
                    else if |o.goldenHash| == 64 then o.goldenHash <= o.hashFile.value
                    else o.hashFile.value == "")
              && (if measured && IdOf(t, f.uuid) != 0 then IdOf(t, f.uuid) else procid) > 0
  {
    hide RequestText, FieldsAsked, IdOf;
    PoliciesDiffer();
    assert LaunchPolicy(c.outcomes) == "" <==>
      c.outcomes.policy != "MeasureOnly" && c.outcomes.policy != "MeasureAndEnforce";
  }

  /** Under enforcement a launchable guest shows the policy's hash, or there is nothing to compare on either side. */
  lemma LaunchableShowsHash(c: Context, t: Table, procid: int, g: Guest)
    requires AreCStrings(g) && Launchable(c, t, procid, g) && c.outcomes.policy == "MeasureAndEnforce"
    ensures c.outcomes.hashFile.Some?
    ensures 0 < |c.outcomes.goldenHash| <= HASH_CHARS ==> HashShown(c.outcomes.goldenHash, c.outcomes.hashFile.value)
    ensures c.outcomes.goldenHash == "" || |c.outcomes.goldenHash| > HASH_CHARS ==> c.outcomes.hashFile.value == ""
  {
    hide RequestText, FieldsAsked, IdGiven;
  }

  /** The second case occurs: with no usable hash in the policy, an image that was measured as nothing is launchable. */
  lemma EmptyMeasurementLaunchable(c: Context, t: Table, procid: int, g: Guest)
    requires AreCStrings(g) && |RequestText(g)| < MAX_LEN && IdGiven(t, procid, FieldsAsked(g), c.outcomes) > 0
    requires Complete(FieldsAsked(g)) && PolicyRead(c.outcomes) && ImageMeasured(FieldsAsked(g).docker, c.outcomes)
    requires c.outcomes.policy == "MeasureAndEnforce" && c.outcomes.hashFile == Some("")
    ensures Launchable(c, t, procid, g) <==> c.outcomes.goldenHash == "" || |c.outcomes.goldenHash| > HASH_CHARS
  {
    hide RequestText, FieldsAsked, IdGiven;
  }

  const SOME_GUEST := Guest("k", "r", "d", "u")

  lemma ShortRequest(g: Guest)
    requires AreCStrings(g)
    requires |g.kernel| <= SHORT_ARG && |g.ramdisk| <= SHORT_ARG && |g.disk| <= SHORT_ARG && |g.uuid| <= SHORT_ARG
    ensures |RequestText(g)| < MAX_LEN
  {
    VectorIsCStrings(g);
    hide CallText, IsCString, AllCStrings;
    ShortCallText(REQUEST_METHOD, VectorOf(g));
  }

  lemma SomeFields()
    ensures FieldsAsked(SOME_GUEST) == LaunchArgs.Fields("k", "r", Some("config"), "u", "d", "", "", false)
  {
    LaunchArgs.FlagsStartWithDash("k");
    LaunchArgs.FlagsStartWithDash("r");
    LaunchArgs.FlagsStartWithDash("d");
    LaunchArgs.FlagsStartWithDash("u");
    hide LaunchArgs.IsLaterFlag, FieldsAsked;
    FieldsAskedAreTheStrings(SOME_GUEST);
  }

  /** Such as this one: the first request of all, under a policy that has no hash. */
  lemma EmptyMeasurementPasses(c: Context)
    requires c.outcomes
          == Outcomes(true, true, true, true, "MeasureAndEnforce", "", "", "", "", true, 0, 0, 0, Some(""))
    ensures AreCStrings(SOME_GUEST) && Launchable(c, map[], 1, SOME_GUEST)
  {
    hide RequestText, FieldsAsked, LaunchPolicy, Launchable;
    ShortRequest(SOME_GUEST);
    SomeFields();
    assert WithUuid(map[], "u") == {};
    EmptyMeasurementLaunchable(c, map[], 1, SOME_GUEST);
  }

  // ---- The gate ----------------------------------------------------------------------------------------------

  /** `get_rpcore_response` against `handle_session`: a positive id comes back only for a launch in order. */
  method GetRpcoreResponse(core: VrtmCore, c: Context, g: Guest, reliable: bool) returns (retval: int)
    requires core.heap.Valid() && core.table.build == c.build
    requires AreCStrings(g) && IdsAreInt32(core.table.procTable, NextId(core.reqId))
    modifies core, core.table, core.heap
    ensures retval == -1 || retval > 0
    ensures retval > 0 ==>
              && Launchable(c, old(core.table.procTable), core.reqId, g)
              && retval == IdGiven(old(core.table.procTable), core.reqId, FieldsAsked(g), c.outcomes)
    ensures retval > 0 && c.outcomes.policy == "MeasureAndEnforce" && 0 < |c.outcomes.goldenHash| <= HASH_CHARS ==>
              c.outcomes.hashFile.Some? && HashShown(c.outcomes.goldenHash, c.outcomes.hashFile.value)
    ensures retval > 0 ==>
              var o, f := c.outcomes, FieldsAsked(g);
              && f.uuid != "" && (f.docker ==> f.mountPath != "" && f.name != "")
              && o.policyFile && o.manifestFile && o.policyParsed && o.digestParsed
              && (o.policy == "MeasureOnly" || o.policy == "MeasureAndEnforce" ==>
                    && o.verifierStatus == 0 && o.hashFile.Some?
                    && (f.docker || (o.mountDirMade && o.mountStatus == 0 && o.unmountStatus == 0)))
    ensures reliable ==> (retval > 0 <==> Launchable(c, old(core.table.procTable), core.reqId, g))
    ensures var after := TableAfter(c.build, old(core.table.procTable), core.reqId, FieldsAsked(g), c.outcomes, c.now,
                                    c.dir);
            && (core.table.procTable == old(core.table.procTable) || core.table.procTable == after)
            && (retval > 0 || (reliable && |RequestText(g)| < MAX_LEN) ==> core.table.procTable == after)
    ensures core.heap.Valid() && core.heap.cells == old(core.heap.cells) && core.reqId == NextId(old(core.reqId))
  {
    hide CallText, ArgsReply, ArgsTable, Askable, Admitted, IdGiven, TableAfter, FieldsAsked, VectorOf, ArgsSuffice,
         HashShown, AreCStrings, AllCStrings, IdsAreInt32;
    RequestFits(g);
    assert AllCStrings(VectorOf(g)) by { VectorIsCStrings(g); }
    assert ArgsSuffice(VM2RP_STARTAPP, VectorOf(g)) by { VectorParses(g); SufficientIsParseable(VectorOf(g)); }
    ghost var t0 := core.table.procTable;
    var answer := Ask(core, c, VM2RP_STARTAPP, REQUEST_METHOD, VectorOf(g), reliable);
    PositiveOnlyInOrder(c, t0, core.reqId, g);
    LaunchableIff(c, t0, core.reqId, g);
    if answer == None || answer.value <= 0 {
      return -1;
    }
    if c.outcomes.policy == "MeasureAndEnforce" {
      LaunchableShowsHash(c, t0, core.reqId, g);
    }
    retval := answer.value;
  }

  lemma SufficientIsParseable(args: seq<string>)
    ensures ArgsSuffice(VM2RP_STARTAPP, args) <==> Parseable(args)
  {
  }
}

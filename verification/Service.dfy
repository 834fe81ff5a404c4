/** The server side of a launch: `StartApp`, `serviceRequest` and `process_request`. */
module Service {
  import opened CLib
  import opened XmlRpc
  import opened XmlText
  import opened RpcRoundTrip
  import opened XmlRpcCodec
  import opened ArgOwnership
  import opened TcpChannel
  import opened VmTable
  import opened LaunchDecision
  import LaunchArgs

  const VM2RP_STARTAPP: int := 15
  const VM2RP_SETVM_STATUS: int := 25
  const VM2RP_GETRPID: int := 36
  const VM2RP_GETVMMETA: int := 38
  const VM2RP_ISVERIFIED: int := 40
  const VM2RP_GETVMREPORT: int := 42

  const MAX_SLOTS: nat := 32

  /** The requests that carry arguments and are answered with one number. */
  const CALLS: set<int> := {VM2RP_STARTAPP, VM2RP_SETVM_STATUS, VM2RP_GETRPID, VM2RP_ISVERIFIED}

  /** The surroundings of one request: the clock, the report directory and what the commands report. */
  datatype Context = Context(build: Build, now: int, dir: string, outcomes: Outcomes)

  // ---- What a request comes to ---------------------------------------------------------------------------

  /** Vectors `StartApp` can parse without reading past their end; longer ones it refuses unread. */
  predicate Parseable(args: seq<string>) {
    |args| <= LaunchArgs.MAX_ARGS ==> LaunchArgs.Scan(args, 0, LaunchArgs.NO_FIELDS).Some?
  }

  function FieldsOfVector(args: seq<string>): LaunchArgs.Fields
    requires Parseable(args) && |args| <= LaunchArgs.MAX_ARGS
  {
    LaunchArgs.Scan(args, 0, LaunchArgs.NO_FIELDS).value
  }

  ghost function StartAppReply(c: Context, t: Table, procid: int, args: seq<string>): Option<int>
    requires Parseable(args)
  {
    if |args| > LaunchArgs.MAX_ARGS then None
    else StartReply(t, procid, FieldsOfVector(args), c.outcomes)
  }

  ghost function StartAppTable(c: Context, t: Table, procid: int, args: seq<string>): Table
    requires Parseable(args)
  {
    if |args| > LaunchArgs.MAX_ARGS then t
    else TableAfter(c.build, t, procid, FieldsOfVector(args), c.outcomes, c.now, c.dir)
  }

  /** `StartApp` must not read past the vector, and a status request needs the status it carries. */
  predicate ArgsSuffice(uReq: int, args: seq<string>) {
    if uReq == VM2RP_STARTAPP then Parseable(args) else uReq == VM2RP_SETVM_STATUS ==> |args| != 1
  }

  /** What a decoded request is answered with. */
  ghost function ArgsReply(c: Context, t: Table, procid: int, uReq: int, args: seq<string>): Option<int>
    requires ArgsSuffice(uReq, args)
  {
    if args == [] then None
    else if uReq == VM2RP_STARTAPP then StartAppReply(c, t, procid, args)
    else if uReq == VM2RP_SETVM_STATUS then Some(if IdOf(t, args[0]) != 0 then 0 else -1)
    else if uReq == VM2RP_GETRPID then if IdOf(t, args[0]) != 0 then Some(IdOf(t, args[0])) else None
    else if uReq == VM2RP_ISVERIFIED then
      if WithUuid(t, args[0]) != {} then Some(if t[IdOf(t, args[0])].verified then 1 else 0) else None
    else None
  }

  ghost function ArgsTable(c: Context, t: Table, procid: int, uReq: int, args: seq<string>): Table
    requires ArgsSuffice(uReq, args)
  {
    if args == [] then t
    else if uReq == VM2RP_STARTAPP then StartAppTable(c, t, procid, args)
    else if uReq == VM2RP_SETVM_STATUS then AfterStatus(t, args[0], Atoi(args[1]), c.now)
    else t
  }

  /** The arguments a document yields; none for one that does not decode. */
  function ArgsIn(inparams: string): seq<string> {
    if DecodeCall(inparams).Call? then DecodeCall(inparams).args else []
  }

  /** Documents with few enough parameters and the arguments the request needs; and codes that are modelled. */
  predicate Serviceable(uReq: int, inparams: string) {
    if uReq in CALLS then ArgCount(inparams) <= MAX_SLOTS && ArgsSuffice(uReq, ArgsIn(inparams))
    else uReq !in {VM2RP_GETVMMETA, VM2RP_GETVMREPORT}
  }

  ghost function RequestReply(c: Context, t: Table, procid: int, uReq: int, inparams: string): Option<int>
    requires Serviceable(uReq, inparams)
  {
    if uReq in CALLS then ArgsReply(c, t, procid, uReq, ArgsIn(inparams)) else None
  }

  ghost function RequestTable(c: Context, t: Table, procid: int, uReq: int, inparams: string): Table
    requires Serviceable(uReq, inparams)
  {
    if uReq in CALLS then ArgsTable(c, t, procid, uReq, ArgsIn(inparams)) else t
  }

  /** Ids are `int`s, and a reply is one of them or a small number. */
  predicate IdsAreInt32(t: Table, procid: int) {
    IsInt32(procid) && forall id :: id in t ==> IsInt32(id)
  }

  lemma StartAppRepliesAreInt32(c: Context, t: Table, procid: int, args: seq<string>)
    requires Parseable(args) && IdsAreInt32(t, procid)
    ensures StartAppReply(c, t, procid, args).Some? ==> IsInt32(StartAppReply(c, t, procid, args).value)
  {
  }

  lemma RepliesAreInt32(c: Context, t: Table, procid: int, uReq: int, args: seq<string>)
    requires ArgsSuffice(uReq, args) && IdsAreInt32(t, procid)
    ensures ArgsReply(c, t, procid, uReq, args).Some? ==> IsInt32(ArgsReply(c, t, procid, uReq, args).value)
  {
    hide StartAppReply, Parseable;
    if uReq == VM2RP_STARTAPP {
      StartAppRepliesAreInt32(c, t, procid, args);
    }
  }

  function ReplyMethod(uReq: int): string {
    if uReq == VM2RP_STARTAPP then "StartApp" else if uReq == VM2RP_SETVM_STATUS then "update_vm_status" else ""
  }

  lemma VerdictTexts()
    ensures Decimal(1) == "1" && Decimal(0) == "0" && IsCString("1") && IsCString("0")
  {
    assert DecimalNat(1) == "1" && DecimalNat(0) == "0";
  }

  /** The payload of an answer: nothing at all, or the document that carries the number. */
  function ReplyPayload(uReq: int, r: Option<int>): string {
    match r
    case None => ""
    case Some(n) =>
      DecimalIsCString(n);
      CbufText(ReplyMethod(uReq), Decimal(n))
  }

  /** The only frames `process_request` sends. */
  function ReplyFrame(uReq: U32, r: Option<int>): string
    requires |ReplyPayload(uReq, r)| < UINT32_RANGE
  {
    Frame(uReq, if r == None then UINT32_RANGE - 1 else 0, ReplyPayload(uReq, r))
  }

  // ---- What the answers say ------------------------------------------------------------------------------

  lemma NobodyWith(t: Table, uuid: string)
    requires WithUuid(t, uuid) == {}
    ensures forall id :: id in t ==> t[id].uuid != uuid
  {
    forall id ensures id in t ==> t[id].uuid != uuid {
      assert id !in WithUuid(t, uuid);
    }
  }

  /** A query for a verdict is answered 1 for a verified first entry, 0 for one that is not, and not at all without. */
  lemma VerdictAnswers(c: Context, t: Table, procid: int, args: seq<string>)
    requires args != []
    ensures var r := ArgsReply(c, t, procid, VM2RP_ISVERIFIED, args);
            && (r == Some(1) <==> exists id :: IsFirst(t, args[0], id) && t[id].verified)
            && (r == Some(0) <==> exists id :: IsFirst(t, args[0], id) && !t[id].verified)
            && (r == None <==> forall id :: id in t ==> t[id].uuid != args[0])
  {
    var id := IdOf(t, args[0]);
    if WithUuid(t, args[0]) != {} {
      assert IsFirst(t, args[0], id);
      forall j | IsFirst(t, args[0], j) ensures j == id {
        FirstIsFound(t, args[0], j);
      }
    } else {
      NobodyWith(t, args[0]);
    }
    hide IdOf;
  }

  /** A query for an id is answered with the first entry's, unless that is 0. */
  lemma IdAnswers(c: Context, t: Table, procid: int, args: seq<string>)
    requires args != []
    ensures var r := ArgsReply(c, t, procid, VM2RP_GETRPID, args);
            && (forall id :: r == Some(id) <==> id != 0 && IsFirst(t, args[0], id))
            && (r == None <==> forall id :: IsFirst(t, args[0], id) ==> id == 0)
  {
    if WithUuid(t, args[0]) != {} {
      assert IsFirst(t, args[0], IdOf(t, args[0]));
    }
    forall j | IsFirst(t, args[0], j) ensures j == IdOf(t, args[0]) {
      FirstIsFound(t, args[0], j);
    }
    hide IdOf;
  }

  /** A status request is answered 0 if there is an entry under another id than 0, and -1 otherwise. */
  lemma StatusAnswers(c: Context, t: Table, procid: int, args: seq<string>)
    requires |args| > 1
    ensures var r := ArgsReply(c, t, procid, VM2RP_SETVM_STATUS, args);
            && (r == Some(0) <==> exists id :: id != 0 && IsFirst(t, args[0], id))
            && (r == Some(-1) <==> forall id :: IsFirst(t, args[0], id) ==> id == 0)
  {
    if WithUuid(t, args[0]) != {} {
      assert IsFirst(t, args[0], IdOf(t, args[0]));
    }
    forall j | IsFirst(t, args[0], j) ensures j == IdOf(t, args[0]) {
      FirstIsFound(t, args[0], j);
    }
    hide IdOf;
  }

  /** For the first entry's verdict the document of "1" or "0", and nothing without an entry. */
  ghost predicate IsVerdictDocument(t: Table, uuid: string, p: string) {
    && (p == "" <==> forall id :: id in t ==> t[id].uuid != uuid)
    && (forall id :: IsFirst(t, uuid, id) ==>
          IsCString("1") && IsCString("0") && p == if t[id].verified then CbufText("", "1") else CbufText("", "0"))
  }

  /** For the first entry the document of its id, and nothing without an entry or if its id is 0. */
  ghost predicate IsIdDocument(t: Table, uuid: string, p: string) {
    && (p == "" <==> forall id :: IsFirst(t, uuid, id) ==> id == 0)
    && (forall id :: id != 0 && IsFirst(t, uuid, id) ==> IsCString(Decimal(id)) && p == CbufText("", Decimal(id)))
  }

  ghost predicate QueryAnswered(t: Table, uReq: int, inparams: string, p: string) {
    ArgsIn(inparams) != [] ==>
      && (uReq == VM2RP_ISVERIFIED ==> IsVerdictDocument(t, ArgsIn(inparams)[0], p))
      && (uReq == VM2RP_GETRPID ==> IsIdDocument(t, ArgsIn(inparams)[0], p))
  }

  // ---- How long an answer is -----------------------------------------------------------------------------

  lemma ReplyMethodIsText(uReq: int)
    ensures IsMethodName(ReplyMethod(uReq)) && |ReplyMethod(uReq)| <= 16
  {
  }

  /** An answer fits every limit on its way. */
  lemma ReplyFits(uReq: int, r: Option<int>)
    requires r.Some? ==> IsInt32(r.value)
    ensures |ReplyPayload(uReq, r)| < 1024 && (r.Some? <==> |ReplyPayload(uReq, r)| > 0)
  {
    hide CbufText, Decimal, ReplyMethod;
    if r.Some? {
      DecimalIsCString(r.value);
      Int32Decimal(r.value);
      ReplyMethodIsText(uReq);
      CbufTextLength(ReplyMethod(uReq), Decimal(r.value));
    }
  }

  /** `memcpy_s` copies this much of a reply, whatever its size. */
  const REPLY_MAX: nat := PARAMSIZE - HEADER_SIZE - 1

  /** A 32-bit word read as an `int`. */
  function Signed(x: U32): int { if x < 0x8000_0000 then x else x - UINT32_RANGE }

  predicate IsRequest(buf: string, dataSize: int)
    requires |buf| >= HEADER_SIZE
  {
    dataSize >= HEADER_SIZE && Signed(ReqSizeIn(buf)) <= PARAMSIZE
  }

  lemma RequestRepliesFit(c: Context, t: Table, procid: int, uReq: int, inparams: string)
    requires IdsAreInt32(t, procid) && Serviceable(uReq, inparams)
    ensures var r := RequestReply(c, t, procid, uReq, inparams);
            && (r.Some? ==> IsInt32(r.value))
            && |ReplyPayload(uReq, r)| < 1024 && (ReplyPayload(uReq, r) == "" <==> r == None)
  {
    hide ArgsIn, ArgsReply, ArgCount, ReplyPayload;
    if uReq in CALLS {
      RepliesAreInt32(c, t, procid, uReq, ArgsIn(inparams));
    }
    ReplyFits(uReq, RequestReply(c, t, procid, uReq, inparams));
  }

  // ---- Request ids ---------------------------------------------------------------------------------------

  function NextId(reqId: int): int { (reqId + 1) % INT32_MAX }

  /** What the `k`-th call of `generate_req_id` returns, counted from 1, when the counter stood at `start`. */
  function IdOfCall(start: int, k: nat): int { if k == 0 then start else NextId(IdOfCall(start, k - 1)) }

  lemma {:induction false} CallIds(start: int, k: nat)
    requires 0 <= start < INT32_MAX
    ensures IdOfCall(start, k) == (start + k) % INT32_MAX
  {
    if k > 0 {
      CallIds(start, k - 1);
    }
  }

  /** Two requests get the same id exactly when a multiple of INT32_MAX requests lies between them. */
  lemma CallIdsDistinct(start: int, j: nat, d: nat)
    requires 0 <= start < INT32_MAX
    ensures IdOfCall(start, j) == IdOfCall(start, j + d) <==> d % INT32_MAX == 0
  {
    CallIds(start, j);
    CallIds(start, j + d);
    SameRemainder(start + j, d);
    assert start + j + d == start + (j + d);
    hide IdOfCall;
  }

  /** From the counter's initial 0, the id is 0 exactly for every INT32_MAX-th request and positive for all others. */
  lemma CallIdsPositive(k: nat)
    ensures 0 <= IdOfCall(0, k) < INT32_MAX && (IdOfCall(0, k) == 0 <==> k % INT32_MAX == 0)
  {
    CallIds(0, k);
    hide IdOfCall;
  }

  lemma SameRemainder(a: nat, d: nat)
    ensures a % INT32_MAX == (a + d) % INT32_MAX <==> d % INT32_MAX == 0
  {
    var ra, rd := a % INT32_MAX, d % INT32_MAX;
    assert (a + d) % INT32_MAX == if ra + rd < INT32_MAX then ra + rd else ra + rd - INT32_MAX;
  }

  // ---- What serving a connection comes to ------------------------------------------------------------------

  /** The server's buffer when `n` bytes of `stream` arrived in it. */
  function Buffered(stream: string, n: nat): (buf: string)
    requires n <= |stream| && n <= PADDEDREQ
    ensures |buf| == PADDEDREQ
  {
    stream[..n] + Zeros(PADDEDREQ - n)
  }

  /** A buffer that holds no request, or one that can be served. */
  predicate CanServe(buf: string, dataSize: int)
    requires |buf| >= HEADER_SIZE
  {
    IsRequest(buf, dataSize) ==> Serviceable(ReqIdIn(buf), buf[HEADER_SIZE..])
  }

  /**
   * What `process_request` makes of a buffer: without a request nothing happens, and otherwise the table
   * is as specified, and the one frame that is specified goes out, or a first part of it if sending fails.
   */
  ghost predicate Processed(c: Context, t0: Table, t1: Table, procid: int, buf: string, dataSize: int, before: string,
                            now: string, whole: bool)
    requires |buf| >= HEADER_SIZE && CanServe(buf, dataSize)
  {
    if !IsRequest(buf, dataSize) then now == before && t1 == t0
    else
      var uReq, inparams := ReqIdIn(buf), buf[HEADER_SIZE..];
      var reply := RequestReply(c, t0, procid, uReq, inparams);
      && t1 == RequestTable(c, t0, procid, uReq, inparams)
      && |ReplyPayload(uReq, reply)| < 1024
      && SentUpTo(before, now, ReplyFrame(uReq, reply))
      && (whole ==> now == before + ReplyFrame(uReq, reply))
  }

  // ---- The methods ---------------------------------------------------------------------------------------

  class VrtmCore {
    const table: ServiceProcTable
    const heap: Heap
    var reqId: int

    constructor (table: ServiceProcTable, heap: Heap)
      ensures this.table == table && this.heap == heap && reqId == 0
    {
      this.table, this.heap, reqId := table, heap, 0;
    }

    method GenerateReqId() returns (id: int)
      modifies this
      ensures reqId == id == NextId(old(reqId))
    {
      reqId := (reqId + 1) % INT32_MAX;
      id := reqId;
    }

    /** The strings the first `n` slots point to. */
    method ReadStrings(av: array<int>, n: nat, ghost base: map<int, string>, ghost args: seq<string>)
      returns (s: seq<string>)
      requires n <= av.Length && Loaded(base, heap.cells, av[..n], args)
      ensures s == args
    {
      s := [];
      for i := 0 to n
        invariant s == args[..i]
      {
        assert av[..n][i] == av[i];
        s := s + [heap.cells[av[i]]];
      }
    }

    /** The middle of `StartApp`: policy, mounting, measuring, comparing. `None` stands for `start_app_status` 1. */
    method Measure(f: LaunchArgs.Fields, o: Outcomes) returns (r: Option<(string, bool, string)>)
      requires Complete(f)
      ensures r == match Decide(f, o)
                   case Refused => None
                   case Failed => None
                   case Unmeasured => Some(("", false, ""))
                   case Measured(policy, verified, imageHash) => Some((policy, verified, imageHash))
      ensures r.Some? <==>
                && o.policyFile && o.manifestFile && o.policyParsed && o.digestParsed
                && (o.policy == "MeasureOnly" || o.policy == "MeasureAndEnforce" ==>
                      && o.verifierStatus == 0 && o.hashFile.Some?
                      && (f.docker || (o.mountDirMade && o.mountStatus == 0 && o.unmountStatus == 0)))
    {
      PoliciesDiffer();
      if !o.policyFile || !o.manifestFile || !o.policyParsed || !o.digestParsed {
        return None;
      }
      var launchPolicy := "";
      if o.policy == "MeasureOnly" {
        launchPolicy := AUDIT;
      } else if o.policy == "MeasureAndEnforce" {
        launchPolicy := ENFORCE;
      }
      if launchPolicy != AUDIT && launchPolicy != ENFORCE {
        return Some(("", false, ""));
      }
      if f.docker {
        if o.verifierStatus != 0 {
          return None;
        }
      } else {
        if !o.mountDirMade || o.mountStatus != 0 || o.unmountStatus != 0 || o.verifierStatus != 0 {
          return None;
        }
      }
      if o.hashFile == None {
        return None;
      }
      var line := o.hashFile.value;
      var imageHash := line[..Min(|line|, HASH_CHARS)];
      return Some((launchPolicy, imageHash == StrCpyS(HASH_BUFFER, o.goldenHash), imageHash));
    }

    /** Lookup, add and update: each takes the table's lock for itself. */
    method Record(procid: int, f: LaunchArgs.Fields, o: Outcomes, policy: string, verified: bool, imageHash: string,
                  c: Context)
      returns (ok: bool, child: int)
      requires Decide(f, o) == Measured(policy, verified, imageHash)
      modifies table
      ensures table.build == c.build ==>
              table.procTable == TableAfter(c.build, old(table.procTable), procid, f, o, c.now, c.dir)
      ensures ok && child == ChildOf(old(table.procTable), procid, f.uuid)
    {
      hide Decide, AfterUpdate, IdOf, NewEntry;
      child := procid;
      var known := table.GetProcIdFromUuid(f.uuid);
      if known == 0 {
        ok := table.AddProcEntry(child, f.kernel, f.uuid, NO_HASH, InstanceType(f), c.now);
        if !ok {
          return;
        }
      } else {
        child := known;
      }
      ok := table.UpdateProcEntry(child, UpdateOf(f, o, Measured(policy, verified, imageHash), c.dir));
      ChildIsThere(old(table.procTable), procid, f.uuid,
                   NewEntry(table.build, f.kernel, f.uuid, NO_HASH, InstanceType(f), c.now));
    }

    /**
     * `StartApp`. The result is 0 and `out` the id exactly when the specification answers; the table is
     * what it says; and the argument strings are either all still owned or all freed.
     */
    method StartApp(procid: int, an: nat, av: array<int>, c: Context, ghost base: map<int, string>,
                    ghost args: seq<string>)
      returns (result: int, out: int)
      requires heap.Valid() && an <= av.Length && Loaded(base, heap.cells, av[..an], args)
      requires Parseable(args) && table.build == c.build
      modifies table, heap, av
      ensures heap.Valid() && Owned(base, heap.cells, av[..an])
      ensures result == if StartAppReply(c, old(table.procTable), procid, args).Some?
                        then TCSERVICE_RESULT_SUCCESS else TCSERVICE_RESULT_FAILED
      ensures result == TCSERVICE_RESULT_SUCCESS ==> Some(out) == StartAppReply(c, old(table.procTable), procid, args)
      ensures result == TCSERVICE_RESULT_SUCCESS ==>
                && |args| <= 30 && var f, o := FieldsOfVector(args), c.outcomes;
                && f.uuid != "" && (f.docker ==> f.mountPath != "" && f.name != "")
                && o.policyFile && o.manifestFile && o.policyParsed && o.digestParsed
                && (o.policy == "MeasureOnly" || o.policy == "MeasureAndEnforce" ==>
                      && o.verifierStatus == 0 && o.hashFile.Some?
                      && (f.docker || (o.mountDirMade && o.mountStatus == 0 && o.unmountStatus == 0)))
      ensures table.procTable == StartAppTable(c, old(table.procTable), procid, args)
    {
      hide Decide, TableAfter, ChildOf, LaunchArgs.Scan, LaunchPolicy, Loaded;
      out := -1;
      assert |args| == an && Owned(base, heap.cells, av[..an]) by { LoadedIsOwned(base, heap.cells, av[..an], args); }
      if an > LaunchArgs.MAX_ARGS {
        return TCSERVICE_RESULT_FAILED, out;
      }
      var strings := ReadStrings(av, an, base, args);
      var f := LaunchArgs.ParseArgs(strings);
      assert f == FieldsOfVector(args);
      var o := c.outcomes;
      DecideIs(f, o);
      FailingSteps(table.procTable, procid, f, o);
      UnmeasuredChangesNothing(c, table.procTable, procid, f);
      if f.uuid == "" || (f.docker && f.mountPath == "") || (f.docker && f.name == "") {
        assert !Complete(f);
        return TCSERVICE_RESULT_FAILED, out;
      }
      assert Complete(f);
      var child, verified, launchPolicy, status := procid, false, "", 0;
      var m := Measure(f, o);
      if m == None {
        status := 1;
      } else {
        launchPolicy := m.value.0;
        if launchPolicy != "" {
          verified := m.value.1;
          var ok;
          ok, child := Record(procid, f, o, launchPolicy, verified, m.value.2, c);
          if !ok {
            status := 1;
          }
        }
      }
      FreeAll(heap, av, an, base);
      if status != 0 {
        return TCSERVICE_RESULT_FAILED, -1;
      }
      if !verified && launchPolicy == ENFORCE {
        return TCSERVICE_RESULT_SUCCESS, -1;
      }
      return TCSERVICE_RESULT_SUCCESS, child;
    }

    /** The case of `serviceRequest` for a launch; `None` is an answer of size 0. */
    method ServeStartApp(procid: int, an: nat, av: array<int>, c: Context, ghost base: map<int, string>,
                         ghost args: seq<string>)
      returns (answer: Option<int>)
      requires heap.Valid() && an <= av.Length && Loaded(base, heap.cells, av[..an], args)
      requires args != [] && ArgsSuffice(VM2RP_STARTAPP, args) && table.build == c.build
      modifies table, heap, av
      ensures heap.Valid() && Owned(base, heap.cells, av[..an])
      ensures answer == ArgsReply(c, old(table.procTable), procid, VM2RP_STARTAPP, args)
      ensures table.procTable == ArgsTable(c, old(table.procTable), procid, VM2RP_STARTAPP, args)
    {
      hide StartAppReply, StartAppTable, Owned, Parseable;
      var result, out := StartApp(procid, an, av, c, base, args);
      if result != TCSERVICE_RESULT_SUCCESS {
        return None;
      }
      return Some(out);
    }

    /** The cases for a status request and the two queries that are answered with a number. */
    method ServeTable(uReq: U32, an: nat, av: array<int>, c: Context, ghost base: map<int, string>,
                      ghost args: seq<string>)
      returns (answer: Option<int>)
      requires heap.Valid() && an <= av.Length && Loaded(base, heap.cells, av[..an], args)
      requires uReq in CALLS && uReq != VM2RP_STARTAPP && args != [] && ArgsSuffice(uReq, args)
      modifies table
      ensures answer == ArgsReply(c, old(table.procTable), 0, uReq, args)
      ensures table.procTable == ArgsTable(c, old(table.procTable), 0, uReq, args)
    {
      hide IdOf, AfterStatus, Owned, WithUuid;
      var strings := ReadStrings(av, an, base, args);
      if uReq == VM2RP_SETVM_STATUS {
        var updated := table.UpdateAppStatus(strings[0], Atoi(strings[1]), c.now);
        return Some(if updated then 0 else -1);
      }
      if uReq == VM2RP_GETRPID {
        var id := table.GetProcIdFromUuid(strings[0]);
        return if id == 0 then None else Some(id);
      }
      var verified := table.IsVerified(strings[0]);
      return match verified case None => None case Some(v) => Some(if v then 1 else 0);
    }

    /**
     * `serviceRequest`. The answer is the document that carries the specified number, or size 0; the table
     * is as specified; and every argument string that was allocated has been freed, once.
     */
    method ServiceRequest(procid: int, uReq: U32, inparams: string, outparams: array<char>, c: Context)
      returns (ok: bool, outparamsize: int)
      requires heap.Valid() && table.build == c.build && IdsAreInt32(table.procTable, procid)
      requires outparams.Length == PARAMSIZE && Serviceable(uReq, inparams)
      modifies table, heap, outparams
      ensures heap.Valid() && heap.cells == old(heap.cells)
      ensures var r := RequestReply(c, old(table.procTable), procid, uReq, inparams);
              ok == r.Some? && outparamsize == |ReplyPayload(uReq, r)| <= PARAMSIZE
                && outparams[..outparamsize] == ReplyPayload(uReq, r)
      ensures QueryAnswered(old(table.procTable), uReq, inparams, outparams[..outparamsize])
      ensures uReq !in {15, 25, 36, 40} ==> outparamsize == 0
      ensures uReq !in {15, 25} ==> table.procTable == old(table.procTable)
      ensures table.procTable == RequestTable(c, old(table.procTable), procid, uReq, inparams)
    {
      hide DecodeCall, ArgsReply, ArgsTable, ArgsSuffice, Decimal, CbufText, ArgCount, Owned, QueryAnswered;
      ghost var base, t0 := heap.cells, table.procTable;
      var av := new int[MAX_SLOTS];
      var an := 0;
      var answer: Option<int> := None;
      if uReq in CALLS {
        var status, meth;
        status, an, meth := XmlrpcToArgs(heap, inparams, av, an);
        ghost var args := ArgsIn(inparams);
        NoArgsNoAnswer(c, t0, procid, uReq);
        if status > 0 {
          if uReq == VM2RP_STARTAPP {
            answer := ServeStartApp(procid, an, av, c, base, args);
          } else {
            answer := ServeTable(uReq, an, av, c, base, args);
            IdMattersOnlyToStartApp(c, t0, procid, uReq, args);
          }
        }
      }
      RequestRepliesFit(c, t0, procid, uReq, inparams);
      QueryPayloads(c, t0, procid, uReq, inparams);
      OthersOnlyRead(c, t0, procid, uReq, inparams);
      if answer == None {
        ok, outparamsize := false, 0;
      } else {
        DecimalIsCString(answer.value);
        Int32Decimal(answer.value);
        ReplyMethodIsText(uReq);
        MemSet(outparams, 0, PARAMSIZE);
        outparamsize := CbufToXmlrpc(ReplyMethod(uReq), Decimal(answer.value), outparams);
        ok := true;
      }
      FreeAll(heap, av, an, base);
    }

    /**
     * The second half of `process_request`: `buf` becomes the reply frame and is sent. What is sent of a
     * reply are its first `PARAMSIZE - 13` bytes, followed by zeros if it is longer.
     */
    method SendReply(fd: Socket, buf: array<char>, uReq: U32, outparams: array<char>, outparamsSize: nat)
      returns (r: int)
      requires buf.Length == PADDEDREQ && outparams.Length == PARAMSIZE && outparamsSize <= PARAMSIZE
               && buf != outparams
      modifies fd, buf
      ensures fd.incoming == old(fd.incoming)
      ensures var frame := Frame(uReq, if outparamsSize == 0 then UINT32_RANGE - 1 else 0,
                                 Copied(old(outparams[..outparamsSize])));
              && (r == 0 ==> fd.outgoing == old(fd.outgoing) + frame)
              && SentUpTo(old(fd.outgoing), fd.outgoing, frame)
      ensures r == 0 || r == -1
      ensures fd.reliable ==> r == 0
    {
      hide HeaderBytes, Zeros, Copied;
      var header := Header(uReq, outparamsSize, if outparamsSize == 0 then UINT32_RANGE - 1 else 0);
      ghost var reply := outparams[..];
      MemSet(buf, 0, PADDEDREQ);
      ghost var zeroed := buf[..];
      assert zeroed == Zeros(PADDEDREQ);
      CopyIn(buf, 0, HeaderBytes(header));
      ghost var headed := buf[..];
      assert headed == HeaderBytes(header) + zeroed[HEADER_SIZE..];
      MemCpyS(buf, HEADER_SIZE, PARAMSIZE, outparams[..REPLY_MAX]);
      assert outparams[..REPLY_MAX] == reply[..REPLY_MAX];
      FrameInBuffer(HeaderBytes(header), reply, outparamsSize, headed, buf[..]);
      assert buf[..HEADER_SIZE + outparamsSize] == buf[..][..HEADER_SIZE + outparamsSize];
      assert outparams[..outparamsSize] == reply[..outparamsSize];
      r := ChWrite(fd, buf, HEADER_SIZE + outparamsSize);
      r := if r < 0 then -1 else 0;
    }

    /**
     * `process_request`: a short frame or one that announces too much is dropped without an answer;
     * every other request is answered with one frame.
     */
    method ProcessRequest(fd: Socket, procid: int, buf: array<char>, dataSize: int, c: Context) returns (r: int)
      requires heap.Valid() && table.build == c.build && IdsAreInt32(table.procTable, procid)
      requires buf.Length == PADDEDREQ && dataSize <= PADDEDREQ && CanServe(buf[..], dataSize)
      modifies fd, buf, table, heap
      ensures heap.Valid() && heap.cells == old(heap.cells) && fd.incoming == old(fd.incoming)
      ensures Processed(c, old(table.procTable), table.procTable, procid, old(buf[..]), dataSize, old(fd.outgoing),
                        fd.outgoing, r == 0 || fd.reliable)
      ensures !IsRequest(old(buf[..]), dataSize) ==> r == -1
      ensures dataSize < 12 || PARAMSIZE < ReqSizeIn(old(buf[..])) < 0x8000_0000 ==>
                r == -1 && fd.outgoing == old(fd.outgoing) && table.procTable == old(table.procTable)
      ensures dataSize >= 12 && ReqSizeIn(old(buf[..])) <= PARAMSIZE && r == 0 ==>
                |fd.outgoing| >= |old(fd.outgoing)| + 12
    {
      hide RequestReply, RequestTable, Serviceable, ReplyPayload, Frame, Zeros;
      if dataSize < HEADER_SIZE {
        return -1;
      }
      var uReq := ReqIdIn(buf[..]);
      var payloadSize := Signed(ReqSizeIn(buf[..]));
      if payloadSize > PARAMSIZE {
        return -1;
      }
      var outparams := new char[PARAMSIZE];
      assert buf[HEADER_SIZE..] == buf[..][HEADER_SIZE..];
      RequestRepliesFit(c, table.procTable, procid, uReq, buf[HEADER_SIZE..]);
      var ok, outparamsSize := ServiceRequest(procid, uReq, buf[HEADER_SIZE..], outparams, c);
      ShortIsCopiedWhole(outparams[..outparamsSize]);
      FrameIs(uReq, if outparamsSize == 0 then UINT32_RANGE - 1 else 0, outparams[..outparamsSize]);
      r := SendReply(fd, buf, uReq, outparams, outparamsSize);
    }

    /**
     * `handle_session`, for any connection on which whatever can arrive can be served: the next request id
     * is taken, some first part of the stream is read, and that is processed. `read` is how much of the
     * stream it was, -1 for an error, after which nothing has changed.
     */
    method HandleSession(fd: Socket, c: Context) returns (ghost read: int)
      requires heap.Valid() && table.build == c.build && IdsAreInt32(table.procTable, NextId(reqId))
      requires forall n :: 0 <= n <= |fd.incoming| && n <= PADDEDREQ ==> CanServe(Buffered(fd.incoming, n), n)
      modifies this, fd, table, heap
      ensures heap.Valid() && heap.cells == old(heap.cells) && reqId == NextId(old(reqId))
      ensures -1 <= read <= |old(fd.incoming)| && read <= PADDEDREQ && (fd.reliable ==> read >= 0)
      ensures read == -1 ==> fd.outgoing == old(fd.outgoing) && table.procTable == old(table.procTable)
      ensures read >= 0 ==>
                var buf := Buffered(old(fd.incoming), read);
                && ReadOutcome(buf, Zeros(PADDEDREQ), old(fd.incoming), PADDEDREQ, read)
                && Processed(c, old(table.procTable), table.procTable, reqId, buf, read, old(fd.outgoing), fd.outgoing,
                             fd.reliable)
    {
      hide CanServe, Processed, Wanted;
      var domid := GenerateReqId();
      var buf := new char[PADDEDREQ];
      MemSet(buf, 0, PADDEDREQ);
      assert buf[..] == Zeros(PADDEDREQ);
      ghost var stream := fd.incoming;
      var bytes := ChRead(fd, buf, PADDEDREQ);
      read := bytes;
      if bytes < 0 {
        return;
      }
      assert buf[..] == Buffered(stream, bytes);
      var r := ProcessRequest(fd, domid, buf, bytes, c);
      ReliableIsWhole(c, old(table.procTable), table.procTable, domid, Buffered(stream, bytes), bytes,
                      old(fd.outgoing), fd.outgoing, r, fd.reliable);
    }
  }

  lemma ReliableIsWhole(c: Context, t0: Table, t1: Table, procid: int, buf: string, dataSize: int, before: string,
                        now: string, r: int, reliable: bool)
    requires |buf| >= HEADER_SIZE && CanServe(buf, dataSize)
    requires Processed(c, t0, t1, procid, buf, dataSize, before, now, r == 0 || reliable)
    ensures Processed(c, t0, t1, procid, buf, dataSize, before, now, reliable)
  {
    hide CanServe, RequestReply, RequestTable, ReplyPayload, Serviceable, Frame;
  }

  lemma OthersOnlyRead(c: Context, t: Table, procid: int, uReq: int, inparams: string)
    requires Serviceable(uReq, inparams)
    ensures uReq !in {15, 25} ==> RequestTable(c, t, procid, uReq, inparams) == t
    ensures uReq !in {15, 25, 36, 40} ==> RequestReply(c, t, procid, uReq, inparams) == None
  {
    hide ArgsIn, ArgsReply, ArgCount, StartAppTable, AfterStatus;
  }

  /** The documents the two queries are answered with. */
  lemma QueryPayloads(c: Context, t: Table, procid: int, uReq: int, inparams: string)
    requires IdsAreInt32(t, procid) && Serviceable(uReq, inparams)
    ensures QueryAnswered(t, uReq, inparams, ReplyPayload(uReq, RequestReply(c, t, procid, uReq, inparams)))
  {
    hide ArgsIn, ArgsReply, CbufText, Decimal, IsFirst, ArgCount, ArgsSuffice;
    RequestRepliesFit(c, t, procid, uReq, inparams);
    VerdictTexts();
    if ArgsIn(inparams) != [] {
      VerdictAnswers(c, t, procid, ArgsIn(inparams));
      IdAnswers(c, t, procid, ArgsIn(inparams));
    }
  }

  lemma NoArgsNoAnswer(c: Context, t: Table, procid: int, uReq: int)
    ensures ArgsSuffice(uReq, []) ==>
            ArgsReply(c, t, procid, uReq, []) == None && ArgsTable(c, t, procid, uReq, []) == t
  {
  }

  lemma IdMattersOnlyToStartApp(c: Context, t: Table, procid: int, uReq: int, args: seq<string>)
    requires ArgsSuffice(uReq, args) && uReq != VM2RP_STARTAPP
    ensures ArgsReply(c, t, procid, uReq, args) == ArgsReply(c, t, 0, uReq, args)
    ensures ArgsTable(c, t, procid, uReq, args) == ArgsTable(c, t, 0, uReq, args)
  {
  }

  /** What the reply buffer holds of a reply. */
  function Copied(reply: string): string {
    reply[..Min(|reply|, REPLY_MAX)] + Zeros(|reply| - Min(|reply|, REPLY_MAX))
  }

  lemma FrameInBuffer(header: string, reply: string, size: nat, headed: string, after: string)
    requires |header| == HEADER_SIZE && |reply| == PARAMSIZE && size <= PARAMSIZE && |headed| == PADDEDREQ
    requires headed == header + Zeros(PADDEDREQ)[HEADER_SIZE..]
    requires after == headed[..HEADER_SIZE] + reply[..REPLY_MAX] + headed[HEADER_SIZE + REPLY_MAX..]
    ensures |after| == PADDEDREQ && after[..HEADER_SIZE + size] == header + Copied(reply[..size])
  {
    var n := Min(size, REPLY_MAX);
    var whole := header + Copied(reply[..size]);
    assert reply[..size][..n] == reply[..n];
    forall k | 0 <= k < HEADER_SIZE + size ensures after[k] == whole[k] {
      assert k >= HEADER_SIZE + n ==> after[k] == NUL;
    }
  }

  lemma ShortIsCopiedWhole(reply: string)
    requires |reply| <= REPLY_MAX
    ensures Copied(reply) == reply
  {
  }

  lemma LoadedIsOwned(base: map<int, string>, cells: map<int, string>, slots: seq<int>, args: seq<string>)
    requires Loaded(base, cells, slots, args)
    ensures Owned(base, cells, slots) && |slots| == |args|
  {
  }

  lemma DecideIs(f: LaunchArgs.Fields, o: Outcomes)
    ensures Decide(f, o) == Refused <==> !Complete(f)
    ensures Decide(f, o).Measured? ==> Decide(f, o).policy == AUDIT || Decide(f, o).policy == ENFORCE
    ensures AUDIT != "" && ENFORCE != "" && ENFORCE != AUDIT
  {
    PoliciesDiffer();
  }

  lemma UnmeasuredChangesNothing(c: Context, t: Table, procid: int, f: LaunchArgs.Fields)
    ensures !Decide(f, c.outcomes).Measured? ==> TableAfter(c.build, t, procid, f, c.outcomes, c.now, c.dir) == t
  {
  }
}

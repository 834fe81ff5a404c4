/**
 * One request and its answer: the client sends a frame, the server serves what arrives of it, the client
 * reads what arrives of the reply. Proxy and listener both talk to the server like this.
 */
module Exchange {
  import opened CLib
  import opened XmlRpc
  import opened XmlText
  import opened RpcRoundTrip
  import opened XmlRpcCodec
  import opened ArgOwnership
  import opened TcpChannel
  import opened VmTable
  import opened Service

  const RESPONSE_SIZE: nat := 1024

  /** Requests whose document fits the buffers and whose arguments suffice. */
  predicate Askable(uReq: int, meth: string, args: seq<string>) {
    && uReq in CALLS && IsMethodName(meth) && AllCStrings(args) && |args| <= MAX_SLOTS && ArgsSuffice(uReq, args)
    && |CallText(meth, args)| <= PARAMSIZE - HEADER_SIZE
  }

  /** The payload a request is sent with. */
  function PayloadOf(meth: string, args: seq<string>): (p: string)
    requires AllCStrings(args)
    ensures |p| == |CallText(meth, args)|
  {
    Sent(CallText(meth, args))
  }

  /** The server's payload buffer when the first `n` bytes of `payload` arrived. */
  function Received(payload: string, n: nat): string
    requires n <= |payload| <= PARAMSIZE
  {
    payload[..n] + Zeros(PARAMSIZE - n)
  }

  // ---- What the server makes of a part of the request --------------------------------------------------------

  /** What arrives yields the arguments that were sent or none; the whole of a short document yields them. */
  lemma DecodePart(meth: string, args: seq<string>, n: nat)
    requires IsMethodName(meth) && AllCStrings(args) && n <= |PayloadOf(meth, args)| <= PARAMSIZE
    ensures var got := ArgsIn(Received(PayloadOf(meth, args), n));
            && (got == [] || (got == args && |CallText(meth, args)| < MAX_LEN))
            && (n == |CallText(meth, args)| < MAX_LEN ==> got == args)
  {
    hide DecodeCall, CallText, Sent, Zeros, IsCString, IsMethodName, AllCStrings;
    DecodeCutCall(meth, args, n, PARAMSIZE - n);
  }

  lemma FewArgs(meth: string, args: seq<string>, n: nat, zeros: nat)
    requires IsMethodName(meth) && AllCStrings(args) && n <= |PayloadOf(meth, args)|
    ensures ArgCount(PayloadOf(meth, args)[..n] + Zeros(zeros)) <= |args|
  {
    hide CallText, CallTree, Params, ParseDoc, Sent, CStrN, Zeros, CountCall, IsMethodName, AllCStrings;
    CallTextNoNul(meth, args);
    CStrNOfCut(CallText(meth, args), n, zeros);
    CutCallText(meth, args, n);
    EmptyDoesNotParse();
    IsElem(meth, Params(args));
    CountCallOf(meth, args);
  }

  lemma NoArgsSuffice(uReq: int)
    ensures ArgsSuffice(uReq, [])
  {
  }

  /** So the server can serve whatever arrives. */
  lemma AnyPartServiceable(uReq: int, meth: string, args: seq<string>, n: nat)
    requires Askable(uReq, meth, args) && n <= |PayloadOf(meth, args)|
    ensures Serviceable(uReq, Received(PayloadOf(meth, args), n))
  {
    hide ArgsIn, PayloadOf, CallText, ArgCount, ArgsSuffice, Zeros, IsMethodName, AllCStrings;
    NoArgsSuffice(uReq);
    DecodePart(meth, args, n);
    FewArgs(meth, args, n, PARAMSIZE - n);
  }

  /** The buffer shows the request's own header as soon as that is complete, and behind it what arrived. */
  lemma PartInBuffer(uReq: U32, payload: string, stream: string, n: nat)
    requires |payload| <= PARAMSIZE && stream <= Frame(uReq, 0, payload) && n <= |stream|
    ensures |stream| <= HEADER_SIZE + |payload|
    ensures var buf := Buffered(stream, n);
            if n < HEADER_SIZE then !IsRequest(buf, n)
            else IsRequest(buf, n) && ReqIdIn(buf) == uReq && buf[HEADER_SIZE..] == Received(payload, n - HEADER_SIZE)
  {
    hide Frame, ReqIdIn, ReqSizeIn, UstatusIn, Wanted;
    FrameIs(uReq, 0, payload);
    var part, buf := stream[..n], Buffered(stream, n);
    assert part <= Frame(uReq, 0, payload);
    assert part[..n] == part && Zeros(PADDEDREQ)[n..] == Zeros(PADDEDREQ - n);
    assert Arrived(buf, Zeros(PADDEDREQ), part, n);
    FrameArrives(uReq, 0, payload, part, buf, Zeros(PADDEDREQ), PADDEDREQ, n);
  }

  lemma AnyPartServed(uReq: U32, meth: string, args: seq<string>, stream: string, n: nat)
    requires Askable(uReq, meth, args) && stream <= Frame(uReq, 0, PayloadOf(meth, args))
    requires n <= |stream| && n <= PADDEDREQ
    ensures CanServe(Buffered(stream, n), n)
  {
    hide Frame, PayloadOf, ReqIdIn, ReqSizeIn, Serviceable, CallText, Buffered, Received, ArgsSuffice;
    PartInBuffer(uReq, PayloadOf(meth, args), stream, n);
    if n >= HEADER_SIZE {
      AnyPartServiceable(uReq, meth, args, n - HEADER_SIZE);
    }
  }

  /** What the server makes of a request that it decodes to `args`, or to nothing. */
  lemma PartAnswered(c: Context, t: Table, procid: int, uReq: int, meth: string, args: seq<string>, n: nat)
    requires Askable(uReq, meth, args) && n <= |PayloadOf(meth, args)|
    requires Serviceable(uReq, Received(PayloadOf(meth, args), n))
    ensures var inparams := Received(PayloadOf(meth, args), n);
            var r, t1 := RequestReply(c, t, procid, uReq, inparams), RequestTable(c, t, procid, uReq, inparams);
            && ((r == None && t1 == t)
                || (&& |CallText(meth, args)| < MAX_LEN
                    && r == ArgsReply(c, t, procid, uReq, args) && t1 == ArgsTable(c, t, procid, uReq, args)))
            && (n == |CallText(meth, args)| < MAX_LEN ==>
                  r == ArgsReply(c, t, procid, uReq, args) && t1 == ArgsTable(c, t, procid, uReq, args))
  {
    hide ArgsIn, PayloadOf, CallText, ArgCount, ArgsSuffice, Received, ArgsReply, ArgsTable, IsMethodName, AllCStrings;
    DecodePart(meth, args, n);
    NoArgsSuffice(uReq);
    NoArgsNoAnswer(c, t, procid, uReq);
  }

  // ---- The client ------------------------------------------------------------------------------------------

  /** The request goes out as one frame. */
  method SendRequest(fd: Socket, uReq: U32, meth: string, args: seq<string>, rgBuf: array<char>) returns (err: int)
    requires Askable(uReq, meth, args) && rgBuf.Length == PARAMSIZE
    modifies fd, rgBuf
    ensures fd.incoming == old(fd.incoming)
    ensures SentUpTo(old(fd.outgoing), fd.outgoing, Frame(uReq, 0, PayloadOf(meth, args)))
    ensures fd.reliable ==> err >= 0 && fd.outgoing == old(fd.outgoing) + Frame(uReq, 0, PayloadOf(meth, args))
  {
    hide CallText, Sent, HeaderBytes, Zeros, IsMethodName, AllCStrings, ArgsSuffice;
    ghost var payload := PayloadOf(meth, args);
    var size := EncodeCall(meth, args, rgBuf, HEADER_SIZE);
    ghost var filled := rgBuf[..];
    assert filled[HEADER_SIZE..] == rgBuf[HEADER_SIZE..];
    CopyIn(rgBuf, 0, HeaderBytes(Header(uReq, size, 0)));
    assert rgBuf[..HEADER_SIZE + size] == HeaderBytes(Header(uReq, size, 0)) + payload;
    err := ChWrite(fd, rgBuf, HEADER_SIZE + size);
  }

  /** What the client decodes of a reply of which `n` payload bytes arrived: the number's digits or nothing. */
  lemma DecodeReplyPart(uReq: int, r: Option<int>, n: nat, zeros: nat)
    requires r.Some? ==> IsInt32(r.value)
    requires n <= |ReplyPayload(uReq, r)|
    ensures var buf := ReplyPayload(uReq, r)[..n] + Zeros(zeros);
            && CbufFits(buf, RESPONSE_SIZE)
            && (DecodeCbuf(buf) == (0, None)
                || (r.Some? && DecodeCbuf(buf) == (|Decimal(r.value)|, Some(Decimal(r.value)))))
            && (r.Some? && n == |ReplyPayload(uReq, r)| ==>
                DecodeCbuf(buf) == (|Decimal(r.value)|, Some(Decimal(r.value))))
  {
    hide CbufText, Decimal, DecodeCbuf, CbufFits, Zeros, Sent, ReplyMethod;
    ReplyFits(uReq, r);
    match r
    case None =>
      assert ReplyPayload(uReq, r)[..n] + Zeros(zeros) == Zeros(zeros);
      NothingDecodes(zeros);
    case Some(id) =>
      DecimalIsCString(id);
      Int32Decimal(id);
      ReplyMethodIsText(uReq);
      var doc := CbufText(ReplyMethod(uReq), Decimal(id));
      ShortIsSent(doc);
      DecodeCutCbuf(ReplyMethod(uReq), Decimal(id), n, zeros);
      CutCbufFits(ReplyMethod(uReq), Decimal(id), n, zeros, RESPONSE_SIZE);
      if n == |doc| {
        assert doc[..n] == doc;
        DecodeSentCbuf(ReplyMethod(uReq), Decimal(id), zeros);
      }
  }

  lemma ShortIsSent(doc: string)
    requires |doc| < MAX_LEN
    ensures Sent(doc) == doc
  {
  }

  lemma NothingDecodes(zeros: nat)
    ensures DecodeCbuf(Zeros(zeros)) == (0, None) && CbufFits(Zeros(zeros), RESPONSE_SIZE)
  {
    CStrNOfZeros(zeros);
    EmptyDoesNotParse();
    hide ParseDoc;
  }

  /**
   * Whatever part of the server's reply arrives, the client gets the number in it, if the reply is
   * complete and its status is 0, or nothing.
   */
  method ReadAnswer(fd: Socket, uReq: U32, rgBuf: array<char>, ghost r: Option<int>) returns (answer: Option<int>)
    requires rgBuf.Length == PARAMSIZE && (r.Some? ==> IsInt32(r.value))
    requires |ReplyPayload(uReq, r)| < 1024 && fd.incoming <= ReplyFrame(uReq, r)
    modifies fd, rgBuf
    ensures answer.Some? ==> answer == r && |old(fd.incoming)| > HEADER_SIZE
    ensures fd.reliable && old(fd.incoming) == ReplyFrame(uReq, r) ==> answer == r
  {
    hide ReplyPayload, Frame, ReqIdIn, ReqSizeIn, UstatusIn, Zeros, DecodeCbuf, CbufFits, Decimal, Atoi, ReadOutcome,
         CStr;
    ghost var stream := fd.incoming;
    ghost var payload := ReplyPayload(uReq, r);
    ghost var n := if |stream| > HEADER_SIZE then |stream| - HEADER_SIZE else 0;
    ReplyFits(uReq, r);
    FrameIs(uReq, if r == None then UINT32_RANGE - 1 else 0, payload);
    MemSet(rgBuf, 0, PARAMSIZE);
    assert rgBuf[..] == Zeros(PARAMSIZE);
    var err := ChRead(fd, rgBuf, PARAMSIZE);
    if err < 0 {
      return None;
    }
    FrameArrives(uReq, if r == None then UINT32_RANGE - 1 else 0, payload, stream, rgBuf[..], Zeros(PARAMSIZE),
                 PARAMSIZE, err);
    ZerosTail(PARAMSIZE, err);
    if err < HEADER_SIZE {
      ShortRead(rgBuf[..], stream);
    }
    assert rgBuf[..][HEADER_SIZE..] == payload[..n] + Zeros(PARAMSIZE - HEADER_SIZE - n);
    assert rgBuf[HEADER_SIZE..] == rgBuf[..][HEADER_SIZE..];
    DecodeReplyPart(uReq, r, n, PARAMSIZE - HEADER_SIZE - n);
    if n == 0 {
      assert payload[..n] + Zeros(PARAMSIZE - HEADER_SIZE - n) == Zeros(PARAMSIZE - HEADER_SIZE);
      NothingDecodes(PARAMSIZE - HEADER_SIZE);
    }
    var response := new char[RESPONSE_SIZE];
    MemSet(response, 0, RESPONSE_SIZE);
    var dataSize := XmlrpcToCbuf(rgBuf[HEADER_SIZE..], response);
    if dataSize <= 0 {
      assert r.Some? ==> |Decimal(r.value)| > 0;
      return None;
    }
    DigitsThenNul(r.value, response[..]);
    if UstatusIn(rgBuf[..]) != 0 {
      return None;
    }
    answer := Some(Atoi(CStr(response[..])));
  }

  lemma ZerosTail(n: nat, k: nat)
    requires k <= n
    ensures Zeros(n)[k..] == Zeros(n - k)
  {
  }

  lemma ShortRead(now: string, stream: string)
    requires |stream| <= HEADER_SIZE <= |now| && now == stream + Zeros(|now| - |stream|)
    ensures now[HEADER_SIZE..] == "" + Zeros(|now| - HEADER_SIZE)
  {
  }

  lemma DigitsThenNul(id: int, response: string)
    requires |Decimal(id)| < |response| && response[..|Decimal(id)| + 1] == Decimal(id) + [NUL]
    ensures Atoi(CStr(response)) == id && |Decimal(id)| > 0
  {
    hide Decimal, Atoi, CStr;
    var d := Decimal(id);
    DecimalIsCString(id);
    AtoiOfDecimal(id);
    var rest := response[|d|..];
    assert response[..|d| + 1][..|d|] == d && response[..|d| + 1][|d|] == NUL;
    assert response == d + rest && rest[0] == NUL;
    CStrOfTerminated(d, rest);
  }

  // ---- Both ends ---------------------------------------------------------------------------------------------

  /** What one end sent reaches the other in order; a connection that breaks loses the rest. */
  method Deliver(sent: string, reliable: bool) returns (arrived: string)
    ensures arrived <= sent && (reliable ==> arrived == sent)
  {
    var k: nat :| k <= |sent| && (reliable ==> k == |sent|);
    arrived := sent[..k];
  }

  lemma SentFromNothing(now: string, data: string)
    ensures SentUpTo("", now, data) ==> now <= data
    ensures "" + data == data
  {
  }

  lemma Prefixes(a: string, b: string, c: string)
    requires a <= b <= c
    ensures a <= c
  {
  }

  /** A whole frame on a reliable connection is read to its end. */
  lemma WholeIsRead(uReq: U32, payload: string, n: nat)
    requires |payload| <= PARAMSIZE && n <= HEADER_SIZE + |payload|
    requires |Frame(uReq, 0, payload)| == HEADER_SIZE + |payload|
    requires ReadOutcome(Buffered(Frame(uReq, 0, payload), n), Zeros(PADDEDREQ), Frame(uReq, 0, payload), PADDEDREQ, n)
    ensures n == HEADER_SIZE + |payload|
  {
    hide ReadOutcome;
    FrameDelivered(uReq, 0, payload, Buffered(Frame(uReq, 0, payload), n), Zeros(PADDEDREQ), PADDEDREQ, n);
  }

  /** The specification's reply and table for the part of the request that was read. */
  ghost predicate IsReplyTo(c: Context, t0: Table, t1: Table, procid: int, uReq: int, meth: string, args: seq<string>,
                            r: Option<int>)
    requires Askable(uReq, meth, args)
  {
    || (r == None && t1 == t0)
    || (|CallText(meth, args)| < MAX_LEN && r == ArgsReply(c, t0, procid, uReq, args)
        && t1 == ArgsTable(c, t0, procid, uReq, args))
  }

  /** Serving what arrives of the request: the reply, or a first part of it, goes out. */
  method Serve(core: VrtmCore, c: Context, fd: Socket, uReq: U32, meth: string, args: seq<string>)
    returns (ghost r: Option<int>)
    requires core.heap.Valid() && core.table.build == c.build && IdsAreInt32(core.table.procTable, NextId(core.reqId))
    requires Askable(uReq, meth, args) && fd.incoming <= Frame(uReq, 0, PayloadOf(meth, args)) && fd.outgoing == ""
    modifies core, core.table, core.heap, fd
    ensures core.heap.Valid() && core.heap.cells == old(core.heap.cells) && core.reqId == NextId(old(core.reqId))
    ensures r.Some? ==> IsInt32(r.value)
    ensures |ReplyPayload(uReq, r)| < 1024 && fd.outgoing <= ReplyFrame(uReq, r)
    ensures IsReplyTo(c, old(core.table.procTable), core.table.procTable, core.reqId, uReq, meth, args, r)
    ensures fd.reliable && old(fd.incoming) == Frame(uReq, 0, PayloadOf(meth, args)) ==>
              fd.outgoing == ReplyFrame(uReq, r)
              && (|CallText(meth, args)| < MAX_LEN ==>
                    r == ArgsReply(c, old(core.table.procTable), core.reqId, uReq, args)
                    && core.table.procTable == ArgsTable(c, old(core.table.procTable), core.reqId, uReq, args))
  {
    hide CallText, PayloadOf, Frame, SentUpTo, ReplyPayload, ReplyFrame, CanServe, Serviceable, Received, RequestReply,
         RequestTable, IsRequest, ArgsSuffice, IsMethodName, AllCStrings, ReadOutcome, ArgsReply, ArgsTable, Buffered,
         ReqIdIn;
    r := None;
    ghost var t0, stream, payload := core.table.procTable, fd.incoming, PayloadOf(meth, args);
    ghost var frame := Frame(uReq, 0, payload);
    FrameIs(uReq, 0, payload);
    forall n | 0 <= n <= |stream| && n <= PADDEDREQ ensures CanServe(Buffered(stream, n), n) {
      AnyPartServed(uReq, meth, args, stream, n);
    }
    NoReply(uReq);
    ghost var n := core.HandleSession(fd, c);
    if n >= 0 {
      PartInBuffer(uReq, payload, stream, n);
      if stream == frame {
        WholeIsRead(uReq, payload, n);
      }
      if n >= HEADER_SIZE {
        AnyPartServiceable(uReq, meth, args, n - HEADER_SIZE);
        ghost var inparams := Received(payload, n - HEADER_SIZE);
        r := RequestReply(c, t0, core.reqId, uReq, inparams);
        PartAnswered(c, t0, core.reqId, uReq, meth, args, n - HEADER_SIZE);
        RequestRepliesFit(c, t0, core.reqId, uReq, inparams);
        SentFromNothing(fd.outgoing, ReplyFrame(uReq, r));
      }
    }
  }

  lemma NoReply(uReq: U32)
    ensures ReplyPayload(uReq, None) == "" && "" <= ReplyFrame(uReq, None)
  {
  }

  /**
   * One request and its answer, whatever the chunks and wherever the connections break: a number that is
   * read is the one the specification gives for the arguments, and the table is then as specified. On a
   * reliable connection, that is the answer exactly when the request's document has at most 4095 bytes.
   */
  method Ask(core: VrtmCore, c: Context, uReq: U32, meth: string, args: seq<string>, reliable: bool)
    returns (answer: Option<int>)
    requires core.heap.Valid() && core.table.build == c.build && IdsAreInt32(core.table.procTable, NextId(core.reqId))
    requires Askable(uReq, meth, args)
    modifies core, core.table, core.heap
    ensures core.heap.Valid() && core.heap.cells == old(core.heap.cells) && core.reqId == NextId(old(core.reqId))
    ensures core.table.procTable == old(core.table.procTable)
            || core.table.procTable == ArgsTable(c, old(core.table.procTable), core.reqId, uReq, args)
    ensures answer.Some? ==>
              && |CallText(meth, args)| < MAX_LEN
                 && answer == ArgsReply(c, old(core.table.procTable), core.reqId, uReq, args)
              && core.table.procTable == ArgsTable(c, old(core.table.procTable), core.reqId, uReq, args)
    ensures reliable ==>
              answer == if |CallText(meth, args)| < MAX_LEN
                then ArgsReply(c, old(core.table.procTable), core.reqId, uReq, args)
                        else None
    ensures reliable && |CallText(meth, args)| < MAX_LEN ==>
              core.table.procTable == ArgsTable(c, old(core.table.procTable), core.reqId, uReq, args)
    ensures uReq == VM2RP_ISVERIFIED && args != [] ==>
              var t := old(core.table.procTable);
              && (answer == Some(1) ==> exists id :: IsFirst(t, args[0], id) && t[id].verified)
              && (answer == Some(0) ==> exists id :: IsFirst(t, args[0], id) && !t[id].verified)
              && (reliable && |CallText(meth, args)| < MAX_LEN ==>
                    && (answer == Some(1) <==> exists id :: IsFirst(t, args[0], id) && t[id].verified)
                    && (answer == Some(0) <==> exists id :: IsFirst(t, args[0], id) && !t[id].verified)
                    && (answer == None <==> forall id :: id in t ==> t[id].uuid != args[0]))
    ensures uReq == VM2RP_GETRPID && args != [] ==>
              var t := old(core.table.procTable);
              && (answer.Some? ==> answer.value != 0 && IsFirst(t, args[0], answer.value))
              && (reliable && |CallText(meth, args)| < MAX_LEN ==>
                    forall id :: answer == Some(id) <==> id != 0 && IsFirst(t, args[0], id))
  {
    hide CallText, PayloadOf, Frame, SentUpTo, ReplyPayload, ReplyFrame, ArgsReply, ArgsTable, ArgsSuffice,
         IsMethodName, AllCStrings;
    ghost var t0 := core.table.procTable;
    if args != [] {
      VerdictAnswers(c, t0, NextId(core.reqId), args);
      IdAnswers(c, t0, NextId(core.reqId), args);
    }
    hide IsFirst;
    var clientEnd := new Socket("", reliable);
    var rgBuf := new char[PARAMSIZE];
    var err := SendRequest(clientEnd, uReq, meth, args, rgBuf);
    ghost var frame := Frame(uReq, 0, PayloadOf(meth, args));
    SentFromNothing(clientEnd.outgoing, frame);
    var request := Deliver(clientEnd.outgoing, reliable);
    Prefixes(request, clientEnd.outgoing, frame);
    var serverEnd := new Socket(request, reliable);
    ghost var r := Serve(core, c, serverEnd, uReq, meth, args);
    var response := Deliver(serverEnd.outgoing, reliable);
    Prefixes(response, serverEnd.outgoing, ReplyFrame(uReq, r));
    if err < 0 {
      return None;
    }
    clientEnd.incoming := response;
    answer := ReadAnswer(clientEnd, uReq, rgBuf, r);
  }
}

/** Encoding a call or a reply and decoding what arrives: the limits decide, and nothing else. */
module RpcRoundTrip {
  import opened CLib
  import opened Base64
  import opened XmlText
  import opened XmlRpc

  /**
   * The payload that goes out for a document: the buffer was zeroed, and `memcpy_s` with its limit of
   * `MAX_LEN` copies the document and its terminator or leaves zeros.
   */
  function Sent(doc: string): string {
    if |doc| + 1 <= MAX_LEN then doc else Zeros(|doc|)
  }

  lemma CStrNOfDoc(doc: string, rest: string)
    requires NoNul(doc) && |doc| < MAX_LEN
    requires rest == "" || rest[0] == NUL
    ensures CStrN(doc + rest) == doc
  {
    var buf := doc + rest;
    var n := Min(|buf|, MAX_LEN);
    var tail := rest[..n - |doc|];
    assert buf[..n] == doc + tail;
    CStrOfTerminated(doc, tail);
  }

  lemma CStrNOfZeros(n: nat)
    ensures CStrN(Zeros(n)) == ""
  {
    var z := Zeros(n)[..Min(n, MAX_LEN)];
    assert z == "" || z[0] == NUL;
  }

  lemma SentThenZeros(doc: string, k: nat)
    requires NoNul(doc)
    ensures CStrN(Sent(doc) + Zeros(k)) == if |doc| < MAX_LEN then doc else ""
  {
    if |doc| < MAX_LEN {
      CStrNOfDoc(doc, Zeros(k));
    } else {
      assert Sent(doc) + Zeros(k) == Zeros(|doc| + k);
      CStrNOfZeros(|doc| + k);
    }
  }

  lemma ShortCodeShortArg(arg: string, limit: nat)
    requires IsCString(arg) && |Base64Encode(arg)| <= limit < MAX_LEN
    ensures |arg| < 3072 && Recovered(arg) == arg
  {
    EncodedArgLength(arg);
    assert Min(|arg|, MAX_LEN) < 3072;
  }

  lemma SmallDocKeepsArgs(meth: string, args: seq<string>)
    requires AllCStrings(args) && |CallText(meth, args)| < MAX_LEN
    ensures RecoveredAll(args) == args
  {
    hide Base64Encode, CallText, Recovered;
    CallTextLength(meth, args);
    forall k | 0 <= k < |args| ensures Recovered(args[k]) == args[k] {
      ShortCodeShortArg(args[k], |CallText(meth, args)|);
    }
  }

  lemma DecodeSentCall(meth: string, args: seq<string>, k: nat)
    requires IsMethodName(meth) && AllCStrings(args)
    ensures DecodeCall(Sent(CallText(meth, args)) + Zeros(k))
         == if |CallText(meth, args)| < MAX_LEN then Call(Some(meth), args) else Call(Some(""), [])
  {
    hide CallText, CallTree, Params, WalkCall, ParseDoc, Sent, CStrN;
    var doc := CallText(meth, args);
    CallTextNoNul(meth, args);
    SentThenZeros(doc, k);
    if |doc| < MAX_LEN {
      ParseCallText(meth, args);
      EmptyDoesNotParse();
      assert CallTree(meth, Params(args)).Elem? by { IsElem(meth, Params(args)); }
      WalkCallOf(meth, args);
      SmallDocKeepsArgs(meth, args);
    }
  }

  lemma EmptyDoesNotParse()
    ensures ParseDoc("") == None
  {
  }

  lemma IsElem(meth: string, params: Forest)
    ensures CallTree(meth, params).Elem?
  {
  }

  /**
   * `xmlrpc_to_args(args_to_xmlrpc(m, args))` is `(m, args)`, empty arguments included, for every
   * markup-free method name and all C strings exactly when the document has at most 4095 bytes.
   */
  lemma CallRoundTrip(meth: string, args: seq<string>, k: nat)
    requires IsMethodName(meth) && AllCStrings(args)
    ensures DecodeCall(Sent(CallText(meth, args)) + Zeros(k)) == Call(Some(meth), args) <==>
            |CallText(meth, args)| < MAX_LEN
  {
    DecodeSentCall(meth, args, k);
    CallTextLength(meth, args);
    hide DecodeCall, CallText, Sent, ParseDoc;
    if meth == "" && args == [] {
      assert |CallText(meth, args)| <= 100;
    }
  }

  /** `cbuf_to_xmlrpc` writes the same document, with the data as its only argument. */
  function CbufText(meth: string, data: string): string
    requires IsCString(data)
  {
    CallText(meth, [data])
  }

  lemma WalkCbufOf(meth: string, data: string)
    requires IsCString(data)
    ensures WalkCbuf(CallTree(meth, Params([data])).kids, (-1, None)) == (|Recovered(data)|, Some(Recovered(data)))
  {
    hide Base64Encode, Base64Decode, Content, CStrN;
    var e := Base64Encode(data);
    var p := Params([data]);
    OneParam(data);
    ParamContent(e, End);
    assert Content(p) == e by { ContentOfOne(e); }
    CappedRoundTrip(data);
    assert CStrN(Recovered(data)) == Recovered(data) by { CStrNOfPart(data); }
    var ps := Elem("params", [], p == End, p, End);
    assert "params" != "methodName" by { assert |"params"| != |"methodName"|; }
    assert CallTree(meth, p).kids == NewChild("methodName", meth, ps);
    assert WalkCbuf(NewChild("methodName", meth, ps), (-1, None)) == WalkCbuf(ps, (-1, None));
    assert WalkCbuf(ps, (-1, None)) == WalkCbuf(End, CbufParams(p, e, (-1, None)));
    assert CbufParams(p, e, (-1, None)) == CbufParams(End, e, (|Recovered(data)|, Some(Recovered(data))));
  }

  lemma OneParam(data: string)
    requires IsCString(data)
    ensures Params([data]) == Param(Base64Encode(data), End)
  {
    assert [data][1..] == [];
    assert Params([]) == End;
  }

  lemma ContentOfOne(e: string)
    ensures Content(Param(e, End)) == e
  {
    ParamContent(e, End);
    assert e + "" == e;
  }

  lemma CStrNOfPart(x: string)
    requires IsCString(x)
    ensures CStrN(Recovered(x)) == Recovered(x)
  {
    var r := Recovered(x);
    assert r[..Min(|r|, MAX_LEN)] == r;
    CStrOfPart(x, |r|);
  }

  lemma DecodeSentCbuf(meth: string, data: string, k: nat)
    requires IsMethodName(meth) && IsCString(data)
    ensures DecodeCbuf(Sent(CbufText(meth, data)) + Zeros(k))
         == if |CbufText(meth, data)| < MAX_LEN then (|data|, Some(data)) else (0, None)
  {
    hide CallText, CallTree, Params, WalkCbuf, ParseDoc, Sent, CStrN, Recovered;
    var doc := CallText(meth, [data]);
    CallTextNoNul(meth, [data]);
    SentThenZeros(doc, k);
    if |doc| < MAX_LEN {
      ParseCallText(meth, [data]);
      EmptyDoesNotParse();
      IsElem(meth, Params([data]));
      WalkCbufOf(meth, data);
      CallTextLength(meth, [data]);
      assert [data][0] == data;
      ShortCodeShortArg(data, |doc|);
    }
  }

  /** The reply pair: what comes back is the data exactly when the document fits. */
  lemma CbufRoundTrip(meth: string, data: string, k: nat)
    requires IsMethodName(meth) && IsCString(data)
    ensures DecodeCbuf(Sent(CbufText(meth, data)) + Zeros(k)) == (|data|, Some(data)) <==>
            |CbufText(meth, data)| < MAX_LEN
  {
    DecodeSentCbuf(meth, data, k);
    hide DecodeCbuf, CbufText, Sent;
  }

  lemma CbufTextLength(meth: string, data: string)
    requires IsCString(data)
    ensures 0 < |CbufText(meth, data)| <= |meth| + 4 * CeilThirds(|data|) + 150
  {
    var e := Base64Encode(data);
    EncodedArgLength(data);
    OneParam(data);
    ParamLength(e, End);
    TreeLength(meth, Params([data]));
    DeclLength();
    EndIsEmpty();
    hide Params, PrintElem, Print, CallTree, Base64Encode, DeclText;
  }

  // ---- Documents cut short -----------------------------------------------------------------------------

  /** A call whose text stops early does not parse, unless only the last newline is missing. */
  lemma CutCallText(meth: string, args: seq<string>, n: nat)
    requires IsMethodName(meth) && AllCStrings(args) && n <= |CallText(meth, args)|
    ensures ParseDoc(CallText(meth, args)[..n]) == None
            || ParseDoc(CallText(meth, args)[..n]) == Some(CallTree(meth, Params(args)))
  {
    CallTreeWf(meth, args);
    hide Wf, Params, CallTree, DumpDoc, ParseDoc;
    var tree := CallTree(meth, Params(args));
    IsElem(meth, Params(args));
    CutDump(tree, n);
    StandsAlone(meth, Params(args));
  }

  lemma StandsAlone(meth: string, params: Forest)
    ensures WithNext(CallTree(meth, params), End) == CallTree(meth, params)
  {
  }

  lemma CutDump(tree: Forest, n: nat)
    requires tree.Elem? && Wf(tree) && n <= |DumpDoc(tree)|
    ensures ParseDoc(DumpDoc(tree)[..n]) == None || ParseDoc(DumpDoc(tree)[..n]) == Some(WithNext(tree, End))
  {
    hide ParseDoc, PrintElem, DeclText, Wf;
    var doc := DumpDoc(tree);
    assert doc[..n] + doc[n..] == doc;
    VersionIsWf();
    CutDocument(VERSION, "\n", tree, "\n", doc[..n], doc[n..]);
  }

  lemma VersionIsWf()
    ensures WfAttrs(VERSION)
  {
  }

  /** What `strnlen_s` finds of a document that was sent and arrived cut after `n` bytes. */
  lemma CStrNOfCut(doc: string, n: nat, zeros: nat)
    requires NoNul(doc) && n <= |doc|
    ensures CStrN(Sent(doc)[..n] + Zeros(zeros)) == if |doc| < MAX_LEN then doc[..n] else ""
  {
    if |doc| < MAX_LEN {
      CStrNOfDoc(doc[..n], Zeros(zeros));
    } else {
      assert Sent(doc)[..n] + Zeros(zeros) == Zeros(n + zeros);
      CStrNOfZeros(n + zeros);
    }
  }

  const NO_CALL := Call.Call(Some(""), [])

  /** A request that is cut anywhere on its way decodes to the call that was made, or to none. */
  lemma DecodeCutCall(meth: string, args: seq<string>, n: nat, zeros: nat)
    requires IsMethodName(meth) && AllCStrings(args) && n <= |CallText(meth, args)|
    ensures var call := DecodeCall(Sent(CallText(meth, args))[..n] + Zeros(zeros));
            && (call == NO_CALL || (call == Call(Some(meth), args) && |CallText(meth, args)| < MAX_LEN))
            && (n == |CallText(meth, args)| < MAX_LEN ==> call == Call(Some(meth), args))
  {
    hide CallText, CallTree, Params, WalkCall, ParseDoc, Sent, CStrN, Zeros;
    var doc := CallText(meth, args);
    CallTextNoNul(meth, args);
    CStrNOfCut(doc, n, zeros);
    CutCallText(meth, args, n);
    if |doc| < MAX_LEN {
      IsElem(meth, Params(args));
      WalkCallOf(meth, args);
      SmallDocKeepsArgs(meth, args);
    }
    if n == |doc| {
      assert Sent(doc)[..n] == Sent(doc) by { SentLength(doc); }
      DecodeSentCall(meth, args, zeros);
    }
  }

  lemma SentLength(doc: string)
    ensures |Sent(doc)| == |doc|
  {
  }

  /** The same for a reply. */
  lemma DecodeCutCbuf(meth: string, data: string, n: nat, zeros: nat)
    requires IsMethodName(meth) && IsCString(data) && n <= |CbufText(meth, data)|
    ensures var r := DecodeCbuf(Sent(CbufText(meth, data))[..n] + Zeros(zeros));
            r == (0, None) || (r == (|data|, Some(data)) && |CbufText(meth, data)| < MAX_LEN)
  {
    hide CallText, CallTree, Params, WalkCbuf, ParseDoc, Sent, CStrN, Recovered, Zeros;
    var doc := CallText(meth, [data]);
    CallTextNoNul(meth, [data]);
    CStrNOfCut(doc, n, zeros);
    CutCallText(meth, [data], n);
    if |doc| < MAX_LEN {
      IsElem(meth, Params([data]));
      WalkCbufOf(meth, data);
      CallTextLength(meth, [data]);
      assert [data][0] == data;
      ShortCodeShortArg(data, |doc|);
    }
  }
}

/** What goes over the wire, character by character: the documents, the numbers in them and the header. */
module WireFormat {
  import opened CLib
  import opened Base64
  import opened XmlText
  import opened XmlRpc
  import opened RpcRoundTrip
  import opened TcpChannel
  import opened Service

  // ---- Documents -------------------------------------------------------------------------------------------

  function OpenTag(name: string): string { "<" + name + ">" }

  lemma NodeText(name: string, kids: Forest, next: Forest)
    ensures Print(Elem(name, [], false, kids, next)) == OpenTag(name) + Print(kids) + CloseTag(name) + Print(next)
  {
    assert PrintAttrs([]) == "";
    hide PrintAttrs;
  }

  lemma ShortText(name: string, next: Forest)
    ensures Print(Elem(name, [], true, End, next)) == "<" + name + "/>" + Print(next)
  {
    assert PrintAttrs([]) == "";
    hide PrintAttrs;
  }

  lemma EndText()
    ensures Print(End) == ""
  {
  }

  lemma ChildText(name: string, content: string, next: Forest)
    ensures Print(NewChild(name, content, next))
         == (if content == "" then "<" + name + "/>" else OpenTag(name) + content + CloseTag(name)) + Print(next)
  {
    EndText();
    if content == "" {
      ShortText(name, next);
    } else {
      NodeText(name, Text(content, End), next);
      assert Print(Text(content, End)) == content + Print(End);
    }
    hide Print, OpenTag, CloseTag;
  }

  lemma Tags()
    ensures OpenTag("string") == "<string>" && CloseTag("string") == "</string>" && "<" + "string" + "/>" == "<string/>"
    ensures OpenTag("value") == "<value>" && CloseTag("value") == "</value>"
    ensures OpenTag("param") == "<param>" && CloseTag("param") == "</param>"
  {
  }

  lemma MoreTags()
    ensures OpenTag("params") == "<params>" && CloseTag("params") == "</params>" && "<" + "params" + "/>" == "<params/>"
    ensures OpenTag("methodName") == "<methodName>" && CloseTag("methodName") == "</methodName>"
    ensures "<" + "methodName" + "/>" == "<methodName/>"
    ensures OpenTag("methodCall") == "<methodCall>" && CloseTag("methodCall") == "</methodCall>"
  {
  }

  function StringText(encoded: string): string {
    if encoded == "" then "<string/>" else "<string>" + encoded + "</string>"
  }

  lemma Nothing(s: string)
    ensures s + "" == s
  {
  }

  lemma ParamText(encoded: string, next: Forest)
    ensures Print(Param(encoded, next))
         == "<param>" + ("<value>" + StringText(encoded) + "</value>") + "</param>" + Print(next)
  {
    var leaf := NewChild("string", encoded, End);
    var value := Elem("value", [], false, leaf, End);
    Tags();
    EndText();
    ChildText("string", encoded, End);
    NodeText("value", leaf, End);
    NodeText("param", value, next);
    hide Print, NewChild, OpenTag, CloseTag;
    Nothing(StringText(encoded));
    Nothing("<value>" + StringText(encoded) + "</value>");
  }

  function ParamsText(args: seq<string>): string
    requires AllCStrings(args)
  {
    if args == [] then ""
    else "<param>" + ("<value>" + StringText(Base64Encode(args[0])) + "</value>") + "</param>" + ParamsText(args[1..])
  }

  lemma {:induction false} ParamsAreText(args: seq<string>)
    requires AllCStrings(args)
    ensures Print(Params(args)) == ParamsText(args)
    ensures Params(args) == End <==> args == []
  {
    hide Print, Param, StringText, Base64Encode;
    if args == [] {
      EndText();
    } else {
      ParamsAreText(args[1..]);
      ParamText(Base64Encode(args[0]), Params(args[1..]));
      ParamIsElem(Base64Encode(args[0]), Params(args[1..]));
    }
  }

  lemma ParamIsElem(encoded: string, next: Forest)
    ensures Param(encoded, next).Elem?
  {
  }

  function MethodText(meth: string): string {
    if meth == "" then "<methodName/>" else "<methodName>" + meth + "</methodName>"
  }

  lemma KidsText(meth: string, params: Forest, text: string)
    requires Print(params) == text && (params == End ==> text == "")
    ensures Print(NewChild("methodName", meth, Elem("params", [], params == End, params, End)))
         == MethodText(meth) + if params == End then "<params/>" else "<params>" + text + "</params>"
  {
    var ps := Elem("params", [], params == End, params, End);
    MoreTags();
    EndText();
    if params == End {
      ShortText("params", End);
      Nothing("<params/>");
    } else {
      NodeText("params", params, End);
      Nothing("<params>" + text + "</params>");
    }
    ChildText("methodName", meth, ps);
    hide Print, NewChild, OpenTag, CloseTag;
  }

  /** The document of a call, in full. */
  lemma CallTextIs(meth: string, args: seq<string>)
    requires AllCStrings(args)
    ensures CallText(meth, args)
         == "<?xml version=\"1.0\"?>"
            + ("\n" + (("<methodCall>"
                        + (MethodText(meth)
                           + if args == [] then "<params/>" else "<params>" + ParamsText(args) + "</params>")
                        + "</methodCall>") + "\n"))
  {
    var params := Params(args);
    var kids := NewChild("methodName", meth, Elem("params", [], params == End, params, End));
    ParamsAreText(args);
    NothingIsText(args);
    KidsText(meth, params, ParamsText(args));
    RootText(kids);
    DeclarationText();
    hide Print, PrintElem, ParamsText, Params, NewChild, DeclText, MethodText;
  }

  lemma NothingIsText(args: seq<string>)
    requires AllCStrings(args)
    ensures args == [] ==> ParamsText(args) == ""
  {
  }

  lemma RootText(kids: Forest)
    ensures PrintElem(Elem("methodCall", [], false, kids, End)) == "<methodCall>" + Print(kids) + "</methodCall>"
  {
    MoreTags();
    RootPieces(Print(kids));
    assert PrintAttrs([]) == "";
    hide Print, PrintAttrs, CloseTag, OpenTag;
  }

  lemma RootPieces(kids: string)
    ensures "<" + "methodCall" + "" + (">" + kids + CloseTag("methodCall"))
         == OpenTag("methodCall") + kids + CloseTag("methodCall")
  {
    hide CloseTag;
    Regroup("<", "methodCall", kids, CloseTag("methodCall"));
  }

  lemma Regroup(a: string, b: string, kids: string, close: string)
    ensures a + b + "" + (">" + kids + close) == a + b + ">" + kids + close
  {
  }

  lemma DeclarationText()
    ensures DeclText(VERSION) == "<?xml version=\"1.0\"?>"
  {
    assert VERSION[1..] == [] && PrintAttrs([]) == "";
    assert PrintAttrs(VERSION) == " " + VERSION[0].name + "=\"" + VERSION[0].value + "\"" + PrintAttrs(VERSION[1..]);
  }

  /** The document of an answer has one parameter; its method name tells launches and status requests apart. */
  lemma ReplyTextIs(uReq: int, n: int)
    ensures IsCString(Decimal(n))
    ensures ReplyPayload(uReq, Some(n))
         == CallText(if uReq == 15 then "StartApp" else if uReq == 25 then "update_vm_status" else "", [Decimal(n)])
  {
    DecimalIsCString(n);
    assert [Decimal(n)][1..] == [];
    hide Decimal, Base64Encode, DumpDoc, CallTree, Param;
  }

  // ---- The header --------------------------------------------------------------------------------------------

  /** A word is four octets, least significant first. */
  predicate IsWord(s: string, x: int) {
    && |s| == 4 && s[0] as int < 256 && s[1] as int < 256 && s[2] as int < 256 && s[3] as int < 256
    && x == s[0] as int + 0x100 * s[1] as int + 0x1_0000 * s[2] as int + 0x100_0000 * s[3] as int
  }

  /** A frame starts with its request code, the size of what follows the header, and its status. */
  lemma FrameLayout(reqId: U32, ustatus: U32, payload: string)
    requires |payload| < UINT32_RANGE
    ensures var f := Frame(reqId, ustatus, payload);
            && |f| == 12 + |payload| && f[12..] == payload
            && IsWord(f[..4], reqId) && IsWord(f[4..8], |payload|) && IsWord(f[8..12], ustatus)
  {
    FrameIs(reqId, ustatus, payload);
    WordIs(reqId);
    WordIs(|payload|);
    WordIs(ustatus);
    hide Word, IsWord;
    var h := HeaderBytes(Header(reqId, |payload|, ustatus));
    var f := h + payload;
    assert f[..4] == Word(reqId) && f[4..8] == Word(|payload|) && f[8..12] == Word(ustatus);
  }

  lemma WordIs(x: U32)
    ensures IsWord(Word(x), x)
  {
    WordRoundTrip(x);
  }

  /** An answer has status 0, and what is not answered status -1, and no payload. */
  lemma ReplyLayout(uReq: U32, r: Option<int>)
    requires |ReplyPayload(uReq, r)| < UINT32_RANGE
    ensures var f := ReplyFrame(uReq, r);
            && |f| == 12 + |ReplyPayload(uReq, r)| && f[12..] == ReplyPayload(uReq, r)
            && IsWord(f[..4], uReq) && IsWord(f[8..12], if r == None then 0xFFFF_FFFF else 0)
            && (r == None ==> |f| == 12)
  {
    hide Frame, IsWord, CbufText, Decimal, ReplyMethod;
    FrameLayout(uReq, if r == None then UINT32_RANGE - 1 else 0, ReplyPayload(uReq, r));
  }
}

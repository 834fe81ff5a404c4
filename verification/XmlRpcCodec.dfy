/** The encoders and decoders that build and walk the documents, and who owns the argument strings. */
module XmlRpcCodec {
  import opened CLib
  import opened Base64
  import opened XmlText
  import opened XmlRpc
  import opened RpcRoundTrip

  // ---- Buffers -------------------------------------------------------------------------------------

  method MemSet(buf: array<char>, off: nat, n: nat)
    requires off + n <= buf.Length
    modifies buf
    ensures buf[..] == old(buf[..off]) + Zeros(n) + old(buf[off + n..])
  {
    var i := 0;
    while i < n
      invariant 0 <= i <= n
      invariant forall k :: off <= k < off + i ==> buf[k] == NUL
      invariant forall k :: 0 <= k < off || off + i <= k < buf.Length ==> buf[k] == old(buf[k])
    {
      buf[off + i] := NUL;
      i := i + 1;
    }
  }

  method CopyIn(buf: array<char>, off: nat, src: string)
    requires off + |src| <= buf.Length
    modifies buf
    ensures buf[..] == old(buf[..off]) + src + old(buf[off + |src|..])
  {
    var i := 0;
    while i < |src|
      invariant 0 <= i <= |src|
      invariant forall k :: 0 <= k < i ==> buf[off + k] == src[k]
      invariant forall k :: 0 <= k < off || off + i <= k < buf.Length ==> buf[k] == old(buf[k])
    {
      buf[off + i] := src[i];
      i := i + 1;
    }
  }

  /** `memcpy_s`: a source longer than the limit zeroes the destination up to the limit. */
  method MemCpyS(buf: array<char>, off: nat, dmax: nat, src: string)
    requires off + dmax <= buf.Length
    modifies buf
    ensures |src| <= dmax ==> buf[..] == old(buf[..off]) + src + old(buf[off + |src|..])
    ensures |src| > dmax ==> buf[..] == old(buf[..off]) + Zeros(dmax) + old(buf[off + dmax..])
  {
    if |src| <= dmax {
      CopyIn(buf, off, src);
    } else {
      MemSet(buf, off, dmax);
    }
  }

  // ---- Encoding ------------------------------------------------------------------------------------

  /** `xmlNewChild` puts a node after its siblings. */
  function AppendNode(f: Forest, node: Forest): Forest {
    match f
    case End => node
    case Text(chars, next) => Text(chars, AppendNode(next, node))
    case Elem(name, attrs, short, kids, next) => Elem(name, attrs, short, kids, AppendNode(next, node))
  }

  lemma {:induction false} AppendParam(args: seq<string>, a: string)
    requires AllCStrings(args) && IsCString(a)
    ensures AppendNode(Params(args), Param(Base64Encode(a), End)) == Params(args + [a])
  {
    hide Base64Encode;
    if args == [] {
      OneParam(a);
      assert [] + [a] == [a];
    } else {
      AppendParam(args[1..], a);
      assert (args + [a])[1..] == args[1..] + [a];
    }
  }

  /** The loop that hangs one `param` per argument under `params`. */
  method BuildParams(args: seq<string>) returns (paramsNode: Forest)
    requires AllCStrings(args)
    ensures paramsNode == Params(args)
  {
    hide Base64Encode, Param, AppendNode;
    paramsNode := End;
    var i := 0;
    while i < |args|
      invariant 0 <= i <= |args|
      invariant paramsNode == Params(args[..i])
    {
      var encoded := Base64Encode(args[i]);
      AppendParam(args[..i], args[i]);
      assert args[..i] + [args[i]] == args[..i + 1];
      paramsNode := AppendNode(paramsNode, Param(encoded, End));
      i := i + 1;
    }
    assert args[..i] == args;
  }

  /** The document of a call goes into `buf` at `off`, if it fits `MAX_LEN` with its terminator. */
  method ArgsToXmlrpc(meth: string, args: seq<string>, buf: array<char>, off: nat) returns (size: int)
    requires IsMethodName(meth) && AllCStrings(args)
    requires off + MAX_LEN <= buf.Length
    modifies buf
    ensures size == |CallText(meth, args)|
    ensures size < MAX_LEN ==> buf[..] == old(buf[..off]) + CallText(meth, args) + [NUL] + old(buf[off + size + 1..])
    ensures size >= MAX_LEN ==> buf[..] == old(buf[..off]) + Zeros(MAX_LEN) + old(buf[off + MAX_LEN..])
  {
    hide Params, DumpDoc, PrintElem, Zeros;
    var paramsNode := BuildParams(args);
    var xmlbuf := DumpDoc(CallTree(meth, paramsNode));
    size := |xmlbuf|;
    MemCpyS(buf, off, MAX_LEN, xmlbuf + [NUL]);
    assert size < MAX_LEN ==> old(buf[..off]) + (xmlbuf + [NUL]) == old(buf[..off]) + xmlbuf + [NUL];
  }

  /** `encodeVM2RP_STARTAPP`: the rest of the buffer is zeroed first. */
  method EncodeCall(meth: string, args: seq<string>, buf: array<char>, off: nat) returns (size: int)
    requires IsMethodName(meth) && AllCStrings(args)
    requires off + MAX_LEN <= buf.Length
    modifies buf
    ensures size == |CallText(meth, args)|
    ensures buf[..off] == old(buf[..off])
    ensures off + size <= buf.Length ==> buf[off..] == Sent(CallText(meth, args)) + Zeros(buf.Length - off - size)
  {
    hide CallText;
    MemSet(buf, off, buf.Length - off);
    ghost var zeroed := buf[..];
    size := ArgsToXmlrpc(meth, args, buf, off);
    SentIntoZeros(old(buf[..]), zeroed, buf[..], off, CallText(meth, args));
  }

  lemma SentIntoZeros(before: string, zeroed: string, after: string, off: nat, doc: string)
    requires off + MAX_LEN <= |before| == |zeroed|
    requires zeroed == before[..off] + Zeros(|before| - off)
    requires |doc| < MAX_LEN ==> after == zeroed[..off] + doc + [NUL] + zeroed[off + |doc| + 1..]
    requires |doc| >= MAX_LEN ==> after == zeroed[..off] + Zeros(MAX_LEN) + zeroed[off + MAX_LEN..]
    ensures |after| == |before| && after[..off] == before[..off]
    ensures off + |doc| <= |after| ==> after[off..] == Sent(doc) + Zeros(|after| - off - |doc|)
  {
    var n := |before| - off;
    assert |after| == |before|;
    assert after[..off] == before[..off];
    if off + |doc| <= |after| {
      var want := Sent(doc) + Zeros(n - |doc|);
      assert |want| == n;
      forall k | 0 <= k < n ensures after[off..][k] == want[k] {
        assert k >= |doc| ==> want[k] == NUL;
      }
      assert after[off..] == want;
    }
  }

  // ---- The reply -------------------------------------------------------------------------------------

  /** `cbuf_to_xmlrpc` */
  method CbufToXmlrpc(meth: string, data: string, buf: array<char>) returns (size: int)
    requires IsMethodName(meth) && IsCString(data)
    requires MAX_LEN <= buf.Length
    modifies buf
    ensures size == |CbufText(meth, data)|
    ensures size < MAX_LEN ==> buf[..] == CbufText(meth, data) + [NUL] + old(buf[size + 1..])
    ensures size >= MAX_LEN ==> buf[..] == Zeros(MAX_LEN) + old(buf[MAX_LEN..])
  {
    hide Params, DumpDoc, PrintElem, Zeros, Param, Base64Encode;
    OneParam(data);
    var param := Param(Base64Encode(data), End);
    var xmlbuf := DumpDoc(CallTree(meth, param));
    size := |xmlbuf|;
    MemCpyS(buf, 0, MAX_LEN, xmlbuf + [NUL]);
    assert old(buf[..0]) == "";
    assert size < MAX_LEN ==> "" + (xmlbuf + [NUL]) == xmlbuf + [NUL];
    assert "" + Zeros(MAX_LEN) == Zeros(MAX_LEN);
  }

  /** Every `params` content that decodes fits a buffer of `n` bytes, its terminator included. */
  predicate ContentsFit(cur: Forest, n: nat) {
    match cur
    case End => true
    case Text(_, next) => ContentsFit(next, n)
    case Elem(name, _, _, kids, next) =>
      ContentsFit(next, n)
        && (name == "params" && Base64Decode(Content(kids)).Some? ==> |CStrN(Base64Decode(Content(kids)).value)| < n)
  }

  predicate CbufFits(buf: string, n: nat) {
    var doc := ParseDoc(CStrN(buf));
    doc.Some? ==> ContentsFit(doc.value.kids, n)
  }

  /** What the caller's buffer holds when `written` is the last thing copied to it. */
  predicate Holding(now: string, before: string, written: Option<string>) {
    match written
    case None => now == before
    case Some(d) => |d| < |now| && now[..|d| + 1] == d + [NUL]
  }

  /** `xmlrpc_to_cbuf` */
  method XmlrpcToCbuf(buf: string, data: array<char>) returns (xmldataSize: int)
    requires CbufFits(buf, data.Length)
    modifies data
    ensures xmldataSize == DecodeCbuf(buf).0
    ensures Holding(data[..], old(data[..]), DecodeCbuf(buf).1)
  {
    hide ParseDoc, Content, Base64Decode, CStrN;
    xmldataSize := -1;
    if CStrN(buf) == "" {
      return 0;
    }
    var doc := ParseDoc(CStrN(buf));
    if doc == None {
      return 0;
    }
    ghost var written: Option<string> := None;
    var curNode := doc.value.kids;
    while curNode != End
      invariant WalkCbuf(curNode, (xmldataSize, written)) == WalkCbuf(doc.value.kids, (-1, None))
      invariant ContentsFit(curNode, data.Length)
      invariant Holding(data[..], old(data[..]), written)
      decreases curNode
    {
      if curNode.Elem? && curNode.name == "methodName" {
      } else if curNode.Elem? && curNode.name == "params" {
        var content := Content(curNode.kids);
        var paramNode := curNode.kids;
        ghost var r := CbufParams(paramNode, content, (xmldataSize, written));
        while paramNode != End
          invariant CbufParams(paramNode, content, (xmldataSize, written)) == r
          invariant Holding(data[..], old(data[..]), written)
          decreases paramNode
        {
          if !paramNode.Text? {
            var decoded := Base64Decode(content);
            if decoded == None {
              xmldataSize := -1;
              break;
            }
            var text := CStrN(decoded.value);
            CopyIn(data, 0, text + [NUL]);
            xmldataSize, written := |text|, Some(text);
          }
          paramNode := paramNode.next;
        }
      }
      curNode := curNode.next;
    }
  }

  lemma TreeContentsFit(meth: string, data: string, n: nat)
    requires IsCString(data) && |data| < n
    ensures ContentsFit(CallTree(meth, Params([data])).kids, n)
  {
    hide Base64Encode, Base64Decode, Content, CStrN;
    var e := Base64Encode(data);
    var p := Params([data]);
    OneParam(data);
    assert Content(p) == e by { ContentOfOne(e); }
    CappedRoundTrip(data);
    CStrNOfPart(data);
    var ps := Elem("params", [], p == End, p, End);
    assert CallTree(meth, p).kids == NewChild("methodName", meth, ps);
    assert "params" != "methodName" by { assert |"params"| != |"methodName"|; }
    assert ContentsFit(ps, n);
  }

  /** A reply fits the caller's buffer wherever it is cut. */
  lemma CutCbufFits(meth: string, data: string, cut: nat, zeros: nat, n: nat)
    requires IsMethodName(meth) && IsCString(data) && cut <= |CbufText(meth, data)| && |data| < n
    ensures CbufFits(Sent(CbufText(meth, data))[..cut] + Zeros(zeros), n)
  {
    hide CallText, CallTree, Params, ParseDoc, Sent, CStrN, Zeros;
    CallTextNoNul(meth, [data]);
    CStrNOfCut(CallText(meth, [data]), cut, zeros);
    CutCallText(meth, [data], cut);
    EmptyDoesNotParse();
    IsElem(meth, Params([data]));
    TreeContentsFit(meth, data, n);
  }
}

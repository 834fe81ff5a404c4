/** What the XML-RPC documents are, what reading one yields, and that the two are inverse. */
module XmlRpc {
  import opened CLib
  import opened Base64
  import opened XmlText

  // ---- The document of a call ----------------------------------------------------------------------

  /** `xmlNewChild` with content: an empty string gives an element without children. */
  function NewChild(name: string, content: string, next: Forest): Forest { Leaf(name, content, content == "", next) }

  function Param(encoded: string, next: Forest): Forest {
    Elem("param", [], false, Elem("value", [], false, NewChild("string", encoded, End), End), next)
  }

  predicate AllCStrings(args: seq<string>) {
    forall k :: 0 <= k < |args| ==> IsCString(args[k])
  }

  /** Method names are ASCII: anything else is written escaped. */
  predicate IsMethodName(s: string) { IsMarkupFree(s) && forall k :: 0 <= k < |s| ==> s[k] as int < 128 }

  function Params(args: seq<string>): Forest
    requires AllCStrings(args)
  {
    if args == [] then End else Param(Base64Encode(args[0]), Params(args[1..]))
  }

  function CallTree(meth: string, params: Forest): Forest {
    Elem("methodCall", [], false,
         NewChild("methodName", meth, Elem("params", [], params == End, params, End)), End)
  }

  const VERSION: seq<Attr> := [Attr("version", "1.0")]

  /** `xmlDocDumpFormatMemory` without formatting. */
  function DumpDoc(root: Forest): string
    requires root.Elem?
  {
    DeclText(VERSION) + ("\n" + (PrintElem(root) + "\n"))
  }

  function CallText(meth: string, args: seq<string>): string
    requires AllCStrings(args)
  {
    DumpDoc(CallTree(meth, Params(args)))
  }

  // ---- Reading one ---------------------------------------------------------------------------------

  /** `xmlNodeGetContent`: all the text below a node. */
  function Content(f: Forest): string {
    match f
    case End => ""
    case Text(chars, next) => chars + Content(next)
    case Elem(_, _, _, kids, next) => Content(kids) + Content(next)
  }

  /** The parameters from `p` on, after `args`; `None` when one does not decode. */
  function WalkParams(p: Forest, args: seq<string>): Option<seq<string>> {
    match p
    case End => Some(args)
    case Text(_, next) => WalkParams(next, args)
    case Elem(_, _, _, kids, next) =>
      match Base64Decode(Content(kids))
      case None => None
      case Some(d) => WalkParams(next, args + [CStr(d)])
  }

  function WalkCall(cur: Forest, meth: Option<string>, args: seq<string>): Option<(Option<string>, seq<string>)> {
    match cur
    case End => Some((meth, args))
    case Text(_, next) => WalkCall(next, meth, args)
    case Elem(name, _, _, kids, next) =>
      if name == "methodName" then WalkCall(next, Some(Content(kids)), args)
      else if name == "params" then
        match WalkParams(kids, args)
        case None => None
        case Some(more) => WalkCall(next, meth, more)
      else WalkCall(next, meth, args)
  }

  /** The outcome of `xmlrpc_to_args`: status -1 and nothing kept, or the method and the arguments. */
  datatype Call = BadParam | Call(meth: Option<string>, args: seq<string>)

  function DecodeCall(buf: string): Call {
    var text := CStrN(buf);
    if text == "" then Call(Some(""), [])
    else
      match ParseDoc(text)
      case None => Call(Some(""), [])
      case Some(root) =>
        match WalkCall(root.kids, None, [])
        case None => BadParam
        case Some((meth, args)) => Call(meth, args)
  }

  /** One `params` element as `xmlrpc_to_cbuf` reads it: the whole element's content, once per child. */
  function CbufParams(p: Forest, content: string, r: (int, Option<string>)): (int, Option<string>) {
    match p
    case End => r
    case Text(_, next) => CbufParams(next, content, r)
    case Elem(_, _, _, _, next) =>
      match Base64Decode(content)
      case None => (-1, r.1)
      case Some(d) => CbufParams(next, content, (|CStrN(d)|, Some(CStrN(d))))
  }

  function WalkCbuf(cur: Forest, r: (int, Option<string>)): (int, Option<string>) {
    match cur
    case End => r
    case Text(_, next) => WalkCbuf(next, r)
    case Elem(name, _, _, kids, next) =>
      if name == "methodName" then WalkCbuf(next, r)
      else if name == "params" then WalkCbuf(next, CbufParams(kids, Content(kids), r))
      else WalkCbuf(next, r)
  }

  /** `xmlrpc_to_cbuf`: the size it returns and what it copies to the caller's buffer, if anything. */
  function DecodeCbuf(buf: string): (int, Option<string>) {
    var text := CStrN(buf);
    if text == "" then (0, None)
    else
      match ParseDoc(text)
      case None => (0, None)
      case Some(root) => WalkCbuf(root.kids, (-1, None))
  }

  // ---- What a list of parameters yields ------------------------------------------------------------------

  /** The elements among siblings. */
  function Elements(p: Forest): (es: seq<Forest>)
    ensures forall k :: 0 <= k < |es| ==> es[k].Elem?
  {
    match p
    case End => []
    case Text(_, next) => Elements(next)
    case Elem(_, _, _, _, next) => [p] + Elements(next)
  }

  /** One parameter that does not decode spoils all; otherwise each one's content is decoded up to its first NUL. */
  lemma {:induction false} ParamsAllOrNone(p: Forest, args: seq<string>)
    ensures WalkParams(p, args).Some? <==>
            forall k :: 0 <= k < |Elements(p)| ==> Base64Decode(Content(Elements(p)[k].kids)).Some?
    ensures WalkParams(p, args).Some? ==>
              var more := WalkParams(p, args).value;
              && |more| == |args| + |Elements(p)| && args <= more
              && forall k :: 0 <= k < |Elements(p)| ==>
                   var d := Base64Decode(Content(Elements(p)[k].kids));
                   d.Some? && more[|args| + k] == CStr(d.value)
  {
    hide Base64Decode, Content, CStr;
    match p
    case End =>
    case Text(_, next) =>
      assert Elements(p) == Elements(next);
      ParamsAllOrNone(next, args);
    case Elem(_, _, _, kids, next) =>
      assert Elements(p)[0] == p && forall k :: 0 < k < |Elements(p)| ==> Elements(p)[k] == Elements(next)[k - 1];
      assert forall k :: 0 <= k < |Elements(next)| ==> Elements(next)[k] == Elements(p)[k + 1];
      var d := Base64Decode(Content(kids));
      if d.Some? {
        ParamsAllOrNone(next, args + [CStr(d.value)]);
      } else {
        assert Base64Decode(Content(Elements(p)[0].kids)) == None;
      }
  }

  // ---- The documents are well formed -----------------------------------------------------------------

  lemma AlphabetIsText(c: char)
    requires IsAlphabetChar(c) || c == '='
    ensures IsTextChar(c) && c as int < 256
  {
  }

  lemma EncodeTripleIsMarkupFree(a: Octet, b: Octet, c: Octet)
    ensures IsMarkupFree(EncodeTriple(a, b, c))
  {
    TripleRoundTrip(a, b, c);
    hide EncodeTriple, IsAlphabetChar, IsTextChar;
    var e := EncodeTriple(a, b, c);
    AlphabetIsText(e[0]);
    AlphabetIsText(e[1]);
    AlphabetIsText(e[2]);
    AlphabetIsText(e[3]);
  }

  lemma {:induction false} EncodeIsMarkupFree(s: string)
    requires IsOctets(s)
    ensures IsMarkupFree(Encode(s))
  {
    hide EncodeTriple, IsTextChar;
    AlphabetIsText('=');
    if s == "" {
    } else if |s| == 1 {
      EncodeTripleIsMarkupFree(s[0] as int, 0, 0);
    } else if |s| == 2 {
      EncodeTripleIsMarkupFree(s[0] as int, s[1] as int, 0);
    } else {
      EncodeTripleIsMarkupFree(s[0] as int, s[1] as int, s[2] as int);
      EncodeIsMarkupFree(s[3..]);
    }
  }

  lemma CStrNOctets(s: string)
    requires IsOctets(s)
    ensures IsOctets(CStrN(s))
  {
    var t := s[..Min(|s|, MAX_LEN)];
    assert CStr(t) <= t;
  }

  lemma NewChildWf(name: string, content: string, next: Forest)
    requires IsName(name) && IsMarkupFree(content) && Wf(next)
    ensures Wf(NewChild(name, content, next))
  {
  }

  lemma ParamWf(encoded: string, next: Forest)
    requires IsMarkupFree(encoded) && Wf(next)
    ensures Wf(Param(encoded, next))
  {
    NewChildWf("string", encoded, End);
  }

  lemma {:induction false} ParamsWf(args: seq<string>)
    requires AllCStrings(args)
    ensures Wf(Params(args))
  {
    hide Wf, Param, Base64Encode;
    if args == [] {
      EndWf();
    } else {
      ParamsWf(args[1..]);
      EncodedArgIsMarkupFree(args[0]);
      ParamWf(Base64Encode(args[0]), Params(args[1..]));
    }
  }

  lemma EndWf()
    ensures Wf(End)
  {
  }

  lemma EncodedArgIsMarkupFree(arg: string)
    requires IsOctets(arg)
    ensures IsMarkupFree(Base64Encode(arg))
  {
    CStrNOctets(arg);
    EncodeIsMarkupFree(CStrN(arg));
  }

  lemma CallTreeWf(meth: string, args: seq<string>)
    requires IsMethodName(meth) && AllCStrings(args)
    ensures Wf(CallTree(meth, Params(args)))
  {
    ParamsWf(args);
    hide Params;
    NewChildWf("methodName", meth, Elem("params", [], Params(args) == End, Params(args), End));
  }

  lemma ParseCallText(meth: string, args: seq<string>)
    requires IsMethodName(meth) && AllCStrings(args)
    ensures ParseDoc(CallText(meth, args)) == Some(CallTree(meth, Params(args)))
  {
    hide ParseDoc, PrintElem, DeclText, Params;
    CallTreeWf(meth, args);
    hide Wf;
    ParseDocOf(VERSION, "\n", CallTree(meth, Params(args)), "\n");
  }

  // ---- Reading what was written ----------------------------------------------------------------------

  lemma LeafContent(name: string, content: string, short: bool, next: Forest)
    ensures Content(Leaf(name, content, short, next).kids) == content
  {
    assert content + "" == content;
  }

  lemma ParamContent(encoded: string, next: Forest)
    ensures Content(Param(encoded, next).kids) == encoded
  {
    LeafContent("string", encoded, encoded == "", End);
    assert encoded + "" + "" + "" == encoded;
  }

  /** What the walk recovers of an argument: its first 3072 characters. */
  function Recovered(arg: string): string { arg[..Min(|arg|, 3072)] }

  lemma CStrOfPart(x: string, n: nat)
    requires IsCString(x) && n <= |x|
    ensures CStr(x[..n]) == x[..n]
  {
    CStrOfTerminated(x[..n], "");
    assert x[..n] + "" == x[..n];
  }

  lemma {:induction false} WalkParamsOf(args: seq<string>, before: seq<string>)
    requires AllCStrings(args)
    ensures WalkParams(Params(args), before)
         == Some(before + seq(|args|, k requires 0 <= k < |args| => Recovered(args[k])))
  {
    hide Base64Encode, Base64Decode, Content, CStr;
    var out := seq(|args|, k requires 0 <= k < |args| => Recovered(args[k]));
    if args == [] {
      assert before + out == before;
    } else {
      var rest := args[1..];
      var more := seq(|rest|, k requires 0 <= k < |rest| => Recovered(rest[k]));
      ParamContent(Base64Encode(args[0]), Params(rest));
      CappedRoundTrip(args[0]);
      CStrOfPart(args[0], Min(|args[0]|, 3072));
      WalkParamsOf(rest, before + [Recovered(args[0])]);
      assert before + out == before + [Recovered(args[0])] + more;
    }
  }

  function RecoveredAll(args: seq<string>): seq<string> {
    seq(|args|, k requires 0 <= k < |args| => Recovered(args[k]))
  }

  lemma WalkCallOf(meth: string, args: seq<string>)
    requires AllCStrings(args)
    ensures WalkCall(CallTree(meth, Params(args)).kids, None, []) == Some((Some(meth), RecoveredAll(args)))
  {
    WalkParamsOf(args, []);
    hide Params, WalkParams, Content;
    LeafContent("methodName", meth, meth == "", End);
    var ps := Elem("params", [], Params(args) == End, Params(args), End);
    assert Content(NewChild("methodName", meth, ps).kids) == Content(NewChild("methodName", meth, End).kids);
    assert WalkCall(NewChild("methodName", meth, ps), None, []) == WalkCall(ps, Some(meth), []);
    assert [] + RecoveredAll(args) == RecoveredAll(args);
    assert "params" != "methodName" by { assert |"params"| != |"methodName"|; }
    assert WalkCall(ps, Some(meth), []) == WalkCall(End, Some(meth), RecoveredAll(args));
  }

  // ---- No NUL in a printed document ------------------------------------------------------------------

  predicate NoNul(s: string) { forall k :: 0 <= k < |s| ==> s[k] != NUL }

  lemma {:induction false} PrintAttrsNoNul(attrs: seq<Attr>)
    requires WfAttrs(attrs)
    ensures NoNul(PrintAttrs(attrs))
  {
    if attrs != [] {
      PrintAttrsNoNul(attrs[1..]);
      hide PrintAttrs, IsNameChar, IsAttrChar;
      AttrNoNul(attrs[0]);
      PrintAttrsCons(attrs, "");
      assert PrintAttrs(attrs) + "" == PrintAttrs(attrs) && PrintAttrs(attrs[1..]) + "" == PrintAttrs(attrs[1..]);
    }
  }

  lemma AttrNoNul(a: Attr)
    requires IsName(a.name) && IsAttrValue(a.value)
    ensures NoNul(PrintAttr(a))
  {
  }

  lemma NoNulCat(a: string, b: string)
    requires NoNul(a) && NoNul(b)
    ensures NoNul(a + b)
  {
  }

  lemma ElemNoNul(e: Forest)
    requires e.Elem? && NoNul(e.name) && NoNul(PrintAttrs(e.attrs)) && NoNul(Print(e.kids))
    ensures NoNul(PrintElem(e))
  {
    NoNulCat("<", e.name);
    NoNulCat("<" + e.name, PrintAttrs(e.attrs));
    NoNulCat(">", Print(e.kids));
    NoNulCat("</", e.name);
    NoNulCat("</" + e.name, ">");
    NoNulCat(">" + Print(e.kids), CloseTag(e.name));
    NoNulCat("<" + e.name + PrintAttrs(e.attrs), ElemBody(e));
    hide NoNul, Print, PrintAttrs;
  }

  lemma {:induction false} PrintNoNul(f: Forest)
    requires Wf(f)
    ensures NoNul(Print(f))
  {
    match f
    case End =>
    case Text(chars, next) =>
      PrintNoNul(next);
      NoNulCat(chars, Print(next));
    case Elem(name, attrs, short, kids, next) =>
      PrintNoNul(kids);
      PrintNoNul(next);
      PrintAttrsNoNul(attrs);
      assert NoNul(name);
      ElemNoNul(f);
      PrintElemThen(f, "");
      NoNulCat(PrintElem(f), Print(next));
      hide PrintAttrs, PrintElem, Print, Wf, WfAttrs, NoNul;
      assert Print(f) + "" == Print(f) && Print(next) + "" == Print(next);
  }

  lemma DumpNoNul(root: Forest)
    requires root.Elem? && root.next == End && Wf(root)
    ensures NoNul(DumpDoc(root))
  {
    PrintNoNul(root);
    PrintAlone(root);
    PrintAttrsNoNul(VERSION);
    hide PrintElem, Print, PrintAttrs, Wf;
    NoNulCat("<?xml", PrintAttrs(VERSION));
    NoNulCat("<?xml" + PrintAttrs(VERSION), "?>");
    NoNulCat(PrintElem(root), "\n");
    NoNulCat("\n", PrintElem(root) + "\n");
    NoNulCat(DeclText(VERSION), "\n" + (PrintElem(root) + "\n"));
  }

  lemma CallTextNoNul(meth: string, args: seq<string>)
    requires IsMethodName(meth) && AllCStrings(args)
    ensures NoNul(CallText(meth, args))
  {
    CallTreeWf(meth, args);
    hide Wf, DumpDoc, Params;
    DumpNoNul(CallTree(meth, Params(args)));
  }

  // ---- How long the documents are ----------------------------------------------------------------------

  lemma NewChildLength(name: string, content: string, next: Forest)
    ensures |name| + |content| + 3 <= |PrintElem(NewChild(name, content, next))| <= 2 * |name| + |content| + 5
  {
    var leaf := NewChild(name, content, next);
    assert PrintAttrs([]) == "";
    if content != "" {
      assert Print(leaf.kids) == content + Print(End);
      EndIsEmpty();
    }
  }

  lemma ParamLength(encoded: string, next: Forest)
    ensures |encoded| + |Print(next)| <= |Print(Param(encoded, next))| <= |encoded| + 60 + |Print(next)|
  {
    var leaf := NewChild("string", encoded, End);
    var value := Elem("value", [], false, leaf, End);
    NewChildLength("string", encoded, End);
    PrintAlone(leaf);
    hide NewChild;
    assert PrintAttrs([]) == "";
    assert |PrintElem(value)| == |Print(leaf)| + 15;
    PrintAlone(value);
    var param := Param(encoded, next);
    assert param.kids == value;
    hide Print;
    assert |PrintElem(param)| == |Print(value)| + 15;
    PrintElemThen(param, "");
    assert Print(param) + "" == Print(param) && Print(next) + "" == Print(next);
  }

  /** The longest text an argument can be encoded to. */
  const ENCODED_MAX: nat := 5464

  lemma EncodedArgLength(arg: string)
    requires IsCString(arg)
    ensures |Base64Encode(arg)| == 4 * CeilThirds(Min(|arg|, MAX_LEN)) <= ENCODED_MAX
  {
    CStrNOfText(arg);
    EncodeLength(arg[..Min(|arg|, MAX_LEN)]);
  }

  lemma {:induction false} ParamsLength(args: seq<string>)
    requires AllCStrings(args)
    ensures |Print(Params(args))| <= |args| * (ENCODED_MAX + 60)
    ensures forall k :: 0 <= k < |args| ==> |Base64Encode(args[k])| <= |Print(Params(args))|
  {
    hide Base64Encode, Param, Print;
    if args != [] {
      ParamsLength(args[1..]);
      EncodedArgLength(args[0]);
      ParamLength(Base64Encode(args[0]), Params(args[1..]));
      forall k | 0 <= k < |args| ensures |Base64Encode(args[k])| <= |Print(Params(args))| {
        assert k > 0 ==> args[k] == args[1..][k - 1];
      }
    } else {
      EndIsEmpty();
    }
  }

  lemma TreeLength(meth: string, params: Forest)
    ensures var n := |PrintElem(CallTree(meth, params))|; |meth| + |Print(params)| <= n <= |meth| + |Print(params)| + 67
  {
    var ps := Elem("params", [], params == End, params, End);
    var leaf := NewChild("methodName", meth, ps);
    NewChildLength("methodName", meth, ps);
    EndIsEmpty();
    hide Print;
    assert PrintAttrs([]) == "";
    assert |Print(params)| <= |PrintElem(ps)| <= |Print(params)| + 17;
    PrintAlone(ps);
    PrintElemThen(leaf, "");
    assert Print(leaf) + "" == Print(leaf) && Print(ps) + "" == Print(ps);
    assert CallTree(meth, params).kids == leaf;
    assert |PrintElem(CallTree(meth, params))| == |Print(leaf)| + 25;
  }

  lemma CallTextLength(meth: string, args: seq<string>)
    requires AllCStrings(args)
    ensures |CallText(meth, args)| <= |meth| + 100 + |args| * (ENCODED_MAX + 60)
    ensures forall k :: 0 <= k < |args| ==> |Base64Encode(args[k])| <= |CallText(meth, args)|
  {
    ParamsLength(args);
    TreeLength(meth, Params(args));
    hide Params, PrintElem, Print, CallTree, Base64Encode;
    DeclLength();
  }

  const SHORT_ARG: nat := 64

  lemma {:induction false} ShortParamsLength(args: seq<string>)
    requires AllCStrings(args) && forall k :: 0 <= k < |args| ==> |args[k]| <= SHORT_ARG
    ensures |Print(Params(args))| <= |args| * 148
  {
    hide Base64Encode, Param, Print;
    if args != [] {
      ShortParamsLength(args[1..]);
      EncodedArgLength(args[0]);
      assert 4 * CeilThirds(Min(|args[0]|, MAX_LEN)) <= 88;
      ParamLength(Base64Encode(args[0]), Params(args[1..]));
    } else {
      EndIsEmpty();
    }
  }

  /** The document of a few short arguments is far below the limit. */
  lemma ShortCallText(meth: string, args: seq<string>)
    requires AllCStrings(args) && forall k :: 0 <= k < |args| ==> |args[k]| <= SHORT_ARG
    ensures |CallText(meth, args)| <= |meth| + 100 + |args| * 148
  {
    ShortParamsLength(args);
    TreeLength(meth, Params(args));
    hide Params, PrintElem, Print, CallTree;
    DeclLength();
  }

  lemma DeclLength()
    ensures |DeclText(VERSION)| == 21
  {
    assert VERSION[1..] == [];
    PrintAttrsCons(VERSION, "");
    assert PrintAttrs([]) == "";
    assert PrintAttrs(VERSION) + "" == PrintAttrs(VERSION);
    assert |PrintAttr(VERSION[0])| == 14;
  }
}

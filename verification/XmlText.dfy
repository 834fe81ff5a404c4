/**
 * The XML the program writes and reads, as text: elements, attributes and markup-free character data.
 * A tree is kept the way libxml2 keeps it, by first child and next sibling.
 */
module XmlText {
  import opened CLib

  datatype Attr = Attr(name: string, value: string)

  /** `short` tells whether an element without content is written `<a/>` rather than `<a></a>`. */
  datatype Forest =
    | End
    | Text(chars: string, next: Forest)
    | Elem(name: string, attrs: seq<Attr>, short: bool, kids: Forest, next: Forest)

  function WithNext(e: Forest, next: Forest): Forest
    requires e.Elem?
  {
    Elem(e.name, e.attrs, e.short, e.kids, next)
  }

  /** An element that holds text only. */
  function Leaf(name: string, content: string, short: bool, next: Forest): Forest {
    Elem(name, [], short, if content == "" then End else Text(content, End), next)
  }

  // ---- Which trees the text forms below can carry --------------------------------------------------

  predicate IsTextChar(c: char) {
    (c >= ' ' || c == '\t' || c == '\n') && c as int < 0xFFFE && c != '<' && c != '&' && c != '>'
  }

  predicate IsNameChar(c: char) {
    'a' <= c <= 'z' || 'A' <= c <= 'Z' || '0' <= c <= '9' || c == '_' || c == '-' || c == '.'
  }

  predicate IsAttrChar(c: char) { IsTextChar(c) && c != '"' && c != '\t' && c != '\n' }

  predicate IsMarkupFree(s: string) { forall k :: 0 <= k < |s| ==> IsTextChar(s[k]) }
  predicate IsName(s: string) { s != "" && forall k :: 0 <= k < |s| ==> IsNameChar(s[k]) }
  predicate IsAttrValue(s: string) { forall k :: 0 <= k < |s| ==> IsAttrChar(s[k]) }

  predicate WfAttrs(attrs: seq<Attr>) {
    forall k :: 0 <= k < |attrs| ==> IsName(attrs[k].name) && IsAttrValue(attrs[k].value)
  }

  /** No empty or adjacent text nodes, and only empty elements are written short. */
  predicate Wf(f: Forest) {
    match f
    case End => true
    case Text(chars, next) => chars != "" && IsMarkupFree(chars) && !next.Text? && Wf(next)
    case Elem(name, attrs, short, kids, next) =>
      IsName(name) && WfAttrs(attrs) && (short ==> kids == End) && Wf(kids) && Wf(next)
  }

  // ---- Printing ----------------------------------------------------------------------------------------

  function PrintAttrs(attrs: seq<Attr>): string {
    if attrs == [] then ""
    else " " + attrs[0].name + "=\"" + attrs[0].value + "\"" + PrintAttrs(attrs[1..])
  }

  function Print(f: Forest): string {
    match f
    case End => ""
    case Text(chars, next) => chars + Print(next)
    case Elem(name, attrs, short, kids, next) =>
      "<" + name + PrintAttrs(attrs)
      + (if short then "/>" else ">" + Print(kids) + "</" + name + ">")
      + Print(next)
  }

  // ---- Parsing -----------------------------------------------------------------------------------------

  /** The longest prefix of name characters, and what follows it. */
  function TakeName(s: string): (r: (string, string))
    ensures r.0 + r.1 == s
  {
    if s == "" || !IsNameChar(s[0]) then ("", s)
    else
      var (n, rest) := TakeName(s[1..]);
      ([s[0]] + n, rest)
  }

  function TakeText(s: string): (r: (string, string))
    ensures r.0 + r.1 == s
    ensures s != "" && IsTextChar(s[0]) ==> |r.1| < |s|
  {
    if s == "" || !IsTextChar(s[0]) then ("", s)
    else
      var (t, rest) := TakeText(s[1..]);
      ([s[0]] + t, rest)
  }

  function TakeAttrValue(s: string): (r: (string, string))
    ensures r.0 + r.1 == s
  {
    if s == "" || !IsAttrChar(s[0]) then ("", s)
    else
      var (v, rest) := TakeAttrValue(s[1..]);
      ([s[0]] + v, rest)
  }

  predicate StartsWith(s: string, p: string) { p <= s }

  /** The attributes up to `>` or `/>`, and what follows them. */
  function ParseAttrs(s: string): (r: Option<(seq<Attr>, string)>)
    ensures r.Some? ==> |r.value.1| <= |s|
    decreases |s|
  {
    if !StartsWith(s, " ") then Some(([], s))
    else
      var (name, s1) := TakeName(s[1..]);
      if name == "" || !StartsWith(s1, "=\"") then None
      else
        var (value, s2) := TakeAttrValue(s1[2..]);
        if !StartsWith(s2, "\"") then None
        else
          match ParseAttrs(s2[1..])
          case None => None
          case Some((attrs, rest)) => Some(([Attr(name, value)] + attrs, rest))
  }

  /** One element and what follows it; the element's `next` is `End`. */
  function ParseElem(s: string): (r: Option<(Forest, string)>)
    ensures r.Some? ==> |r.value.1| < |s| && r.value.0.Elem? && r.value.0.next == End
    decreases |s|, 0
  {
    if !StartsWith(s, "<") then None
    else
      var (name, s1) := TakeName(s[1..]);
      if name == "" then None
      else
        match ParseAttrs(s1)
        case None => None
        case Some((attrs, s2)) =>
          if StartsWith(s2, "/>") then Some((Elem(name, attrs, true, End, End), s2[2..]))
          else if !StartsWith(s2, ">") then None
          else
            match ParseForest(s2[1..])
            case None => None
            case Some((kids, s3)) =>
              var close := "</" + name + ">";
              if !StartsWith(s3, close) then None
              else Some((Elem(name, attrs, false, kids, End), s3[|close|..]))
  }

  /** Text and elements up to the end of the text or an end tag. */
  function ParseForest(s: string): (r: Option<(Forest, string)>)
    ensures r.Some? ==> |r.value.1| <= |s|
    decreases |s|, 1
  {
    if s == "" || StartsWith(s, "</") then Some((End, s))
    else if StartsWith(s, "<") then
      match ParseElem(s)
      case None => None
      case Some((e, s1)) =>
        match ParseForest(s1)
        case None => None
        case Some((next, s2)) => Some((WithNext(e, next), s2))
    else
      var (t, s1) := TakeText(s);
      if t == "" then None
      else
        match ParseForest(s1)
        case None => None
        case Some((next, s2)) => Some((Text(t, next), s2))
  }

  // ---- Parsing undoes printing -----------------------------------------------------------------------

  lemma {:induction false} TakeNameOf(n: string, tail: string)
    requires forall k :: 0 <= k < |n| ==> IsNameChar(n[k])
    requires tail == "" || !IsNameChar(tail[0])
    ensures TakeName(n + tail) == (n, tail)
  {
    if n == "" {
      assert n + tail == tail;
    } else {
      TakeNameOf(n[1..], tail);
      assert (n + tail)[1..] == n[1..] + tail;
      assert [n[0]] + n[1..] == n;
    }
  }

  lemma {:induction false} TakeTextOf(t: string, tail: string)
    requires IsMarkupFree(t)
    requires tail == "" || !IsTextChar(tail[0])
    ensures TakeText(t + tail) == (t, tail)
  {
    if t == "" {
      assert t + tail == tail;
    } else {
      TakeTextOf(t[1..], tail);
      assert (t + tail)[1..] == t[1..] + tail;
      assert [t[0]] + t[1..] == t;
    }
  }

  lemma {:induction false} TakeAttrValueOf(v: string, tail: string)
    requires IsAttrValue(v)
    requires tail == "" || !IsAttrChar(tail[0])
    ensures TakeAttrValue(v + tail) == (v, tail)
  {
    if v == "" {
      assert v + tail == tail;
    } else {
      TakeAttrValueOf(v[1..], tail);
      assert (v + tail)[1..] == v[1..] + tail;
      assert [v[0]] + v[1..] == v;
    }
  }

  /** What can follow the attributes of a tag, or of the declaration. */
  predicate IsTagEnd(s: string) { s != "" && (s[0] == '>' || s[0] == '/' || s[0] == '?') }

  lemma PrefixOf(p: string, rest: string)
    ensures StartsWith(p + rest, p) && (p + rest)[|p|..] == rest
  {
  }

  function PrintAttr(a: Attr): string { " " + a.name + "=\"" + a.value + "\"" }

  lemma PrintAttrsCons(attrs: seq<Attr>, tail: string)
    requires attrs != []
    ensures PrintAttrs(attrs) + tail == PrintAttr(attrs[0]) + (PrintAttrs(attrs[1..]) + tail)
  {
  }

  lemma AttrShape(a: Attr, rest: string)
    ensures PrintAttr(a) + rest == " " + (a.name + ("=\"" + (a.value + ("\"" + rest))))
  {
  }

  lemma ParseOneAttr(a: Attr, rest: string)
    requires IsName(a.name) && IsAttrValue(a.value) && ParseAttrs(rest).Some?
    ensures ParseAttrs(PrintAttr(a) + rest) == Some(([a] + ParseAttrs(rest).value.0, ParseAttrs(rest).value.1))
  {
    var s2 := "\"" + rest;
    var s1 := "=\"" + (a.value + s2);
    AttrShape(a, rest);
    PrefixOf(" ", a.name + s1);
    PrefixOf("=\"", a.value + s2);
    PrefixOf("\"", rest);
    TakeNameOf(a.name, s1);
    TakeAttrValueOf(a.value, s2);
    hide TakeName, TakeAttrValue, PrintAttr, IsName, IsAttrValue;
  }

  lemma {:induction false} ParseAttrsOf(attrs: seq<Attr>, tail: string)
    requires WfAttrs(attrs) && IsTagEnd(tail)
    ensures ParseAttrs(PrintAttrs(attrs) + tail) == Some((attrs, tail))
  {
    if attrs == [] {
      assert PrintAttrs(attrs) + tail == tail;
    } else {
      PrintAttrsCons(attrs, tail);
      ParseAttrsOf(attrs[1..], tail);
      ParseOneAttr(attrs[0], PrintAttrs(attrs[1..]) + tail);
      assert [attrs[0]] + attrs[1..] == attrs;
    }
  }

  /** What can follow a list of nodes: the end of the text or an end tag. */
  predicate IsForestEnd(s: string) { s == "" || StartsWith(s, "</") }

  function CloseTag(name: string): string { "</" + name + ">" }

  /** One element's text from its attributes on. */
  function ElemBody(e: Forest): string
    requires e.Elem?
  {
    if e.short then "/>" else ">" + Print(e.kids) + CloseTag(e.name)
  }

  /** One element's text, with nothing after it. */
  function PrintElem(e: Forest): string
    requires e.Elem?
  {
    "<" + e.name + PrintAttrs(e.attrs) + ElemBody(e)
  }

  lemma PrintElemShape(e: Forest, tail: string)
    requires e.Elem?
    ensures PrintElem(e) + tail == "<" + (e.name + (PrintAttrs(e.attrs) + (ElemBody(e) + tail)))
  {
    hide PrintAttrs, ElemBody;
  }

  lemma BodyShape(e: Forest, tail: string)
    requires e.Elem?
    ensures IsTagEnd(ElemBody(e) + tail)
    ensures e.short ==> ElemBody(e) + tail == "/>" + tail
    ensures !e.short ==> ElemBody(e) + tail == ">" + (Print(e.kids) + (CloseTag(e.name) + tail))
  {
    hide Print, CloseTag;
  }

  lemma AfterName(attrs: seq<Attr>, body: string)
    requires IsTagEnd(body)
    ensures PrintAttrs(attrs) + body != "" && !IsNameChar((PrintAttrs(attrs) + body)[0])
  {
    if attrs == [] {
      assert PrintAttrs(attrs) + body == body;
    } else {
      PrintAttrsCons(attrs, body);
      AttrShape(attrs[0], PrintAttrs(attrs[1..]) + body);
    }
  }

  /** The start tag of an element, read up to its end. */
  lemma ParseTag(name: string, attrs: seq<Attr>, body: string)
    requires IsName(name) && WfAttrs(attrs) && IsTagEnd(body)
    ensures var s := "<" + (name + (PrintAttrs(attrs) + body));
            StartsWith(s, "<") && TakeName(s[1..]) == (name, PrintAttrs(attrs) + body)
            && ParseAttrs(PrintAttrs(attrs) + body) == Some((attrs, body))
  {
    hide PrintAttrs, TakeName, ParseAttrs;
    AfterName(attrs, body);
    TakeNameOf(name, PrintAttrs(attrs) + body);
    ParseAttrsOf(attrs, body);
    PrefixOf("<", name + (PrintAttrs(attrs) + body));
  }

  lemma CloseTagShape(name: string, tail: string)
    ensures IsForestEnd(CloseTag(name) + tail)
    ensures StartsWith(CloseTag(name) + tail, CloseTag(name)) && (CloseTag(name) + tail)[|CloseTag(name)|..] == tail
  {
    PrefixOf(CloseTag(name), tail);
    assert CloseTag(name) + tail == "</" + (name + ">" + tail);
  }

  // One unfolding of the parser each, on text known only by what its pieces parse to.

  lemma ParseLongElem(s: string, name: string, s1: string, attrs: seq<Attr>, s2: string, kids: Forest, s3: string)
    requires StartsWith(s, "<") && name != "" && TakeName(s[1..]) == (name, s1)
    requires ParseAttrs(s1) == Some((attrs, s2)) && !StartsWith(s2, "/>") && StartsWith(s2, ">")
    requires ParseForest(s2[1..]) == Some((kids, s3)) && StartsWith(s3, CloseTag(name))
    ensures ParseElem(s) == Some((Elem(name, attrs, false, kids, End), s3[|CloseTag(name)|..]))
  {
    hide TakeName, ParseAttrs, ParseForest;
  }

  lemma ParseShortElem(s: string, name: string, s1: string, attrs: seq<Attr>, s2: string)
    requires StartsWith(s, "<") && name != "" && TakeName(s[1..]) == (name, s1)
    requires ParseAttrs(s1) == Some((attrs, s2)) && StartsWith(s2, "/>")
    ensures ParseElem(s) == Some((Elem(name, attrs, true, End, End), s2[2..]))
  {
    hide TakeName, ParseAttrs, ParseForest;
  }

  lemma ParseElemThen(s: string, e: Forest, s1: string, next: Forest, s2: string)
    requires StartsWith(s, "<") && !StartsWith(s, "</") && e.Elem?
    requires ParseElem(s) == Some((e, s1)) && ParseForest(s1) == Some((next, s2))
    ensures ParseForest(s) == Some((WithNext(e, next), s2))
  {
    hide TakeText, ParseElem;
  }

  lemma ParseTextThen(s: string, t: string, s1: string, next: Forest, s2: string)
    requires s != "" && !StartsWith(s, "<") && t != "" && TakeText(s) == (t, s1)
    requires ParseForest(s1) == Some((next, s2))
    ensures ParseForest(s) == Some((Text(t, next), s2))
  {
    hide TakeText, ParseElem;
    assert "</"[0] == '<' && s[..1] == [s[0]];
  }

  lemma PrintElemThen(f: Forest, tail: string)
    requires f.Elem?
    ensures Print(f) + tail == PrintElem(f) + (Print(f.next) + tail)
  {
  }

  lemma PrintTextThen(chars: string, next: Forest, tail: string)
    ensures Print(Text(chars, next)) + tail == chars + (Print(next) + tail)
  {
  }

  lemma StartOfElem(e: Forest, rest: string)
    requires e.Elem? && IsName(e.name)
    ensures var s := PrintElem(e) + rest; StartsWith(s, "<") && !StartsWith(s, "</") && s[0] == '<'
  {
    PrintElemShape(e, rest);
    hide PrintElem, PrintAttrs, ElemBody;
    var t := e.name + (PrintAttrs(e.attrs) + (ElemBody(e) + rest));
    PrefixOf("<", t);
    assert t[0] == e.name[0] && IsNameChar(t[0]);
    assert ("<" + t)[1] == t[0];
  }

  lemma AfterText(next: Forest, tail: string)
    requires Wf(next) && !next.Text? && IsForestEnd(tail)
    ensures Print(next) + tail == "" || (Print(next) + tail)[0] == '<'
  {
    if next.Elem? {
      PrintElemThen(next, tail);
      StartOfElem(next, Print(next.next) + tail);
    } else {
      assert Print(next) + tail == tail;
    }
  }

  lemma {:induction false} ParseElemOf(e: Forest, tail: string)
    requires e.Elem? && Wf(e)
    ensures ParseElem(PrintElem(e) + tail) == Some((WithNext(e, End), tail))
    decreases e, 0
  {
    hide Print, PrintElem, ElemBody, PrintAttrs, TakeName, ParseAttrs, ParseForest, ParseElem, IsForestEnd, CloseTag,
         StartsWith;
    var body := ElemBody(e) + tail;
    var s1 := PrintAttrs(e.attrs) + body;
    PrintElemShape(e, tail);
    BodyShape(e, tail);
    ParseTag(e.name, e.attrs, body);
    if e.short {
      PrefixOf("/>", tail);
      ParseShortElem(PrintElem(e) + tail, e.name, s1, e.attrs, body);
    } else {
      var rest := CloseTag(e.name) + tail;
      CloseTagShape(e.name, tail);
      PrefixOf(">", Print(e.kids) + rest);
      NotShortEnd(Print(e.kids) + rest);
      ParseForestOf(e.kids, rest);
      ParseLongElem(PrintElem(e) + tail, e.name, s1, e.attrs, body, e.kids, rest);
    }
  }

  lemma NotShortEnd(rest: string)
    ensures !StartsWith(">" + rest, "/>")
  {
    assert (">" + rest)[0] == '>';
  }

  lemma {:induction false} ParseForestOf(f: Forest, tail: string)
    requires Wf(f) && IsForestEnd(tail)
    ensures ParseForest(Print(f) + tail) == Some((f, tail))
    decreases f, 1
  {
    match f
    case End =>
      assert Print(End) + tail == tail;
    case Text(chars, next) =>
      hide Print, TakeText, ParseForest, ParseElem, IsForestEnd;
      ParseForestOf(next, tail);
      PrintTextThen(chars, next, tail);
      AfterText(next, tail);
      var rest := Print(next) + tail;
      TakeTextOf(chars, rest);
      assert (chars + rest)[0] == chars[0] && IsTextChar(chars[0]);
      ParseTextThen(chars + rest, chars, rest, next, tail);
    case Elem(name, attrs, short, kids, next) =>
      hide Print, PrintElem, TakeText, ParseForest, ParseElem, IsForestEnd;
      ParseForestOf(next, tail);
      ParseElemOf(f, Print(next) + tail);
      PrintElemThen(f, tail);
      StartOfElem(f, Print(next) + tail);
      ParseElemThen(PrintElem(f) + (Print(next) + tail), WithNext(f, End), Print(next) + tail, next, tail);
  }

  // ---- Documents ---------------------------------------------------------------------------------------

  predicate IsSpace(c: char) { c == ' ' || c == '\t' || c == '\n' || c == '\r' }

  function SkipSpace(s: string): (r: string)
    ensures |r| <= |s|
  {
    if s != "" && IsSpace(s[0]) then SkipSpace(s[1..]) else s
  }

  function DeclText(attrs: seq<Attr>): string { "<?xml" + PrintAttrs(attrs) + "?>" }

  /** What follows the XML declaration, if there is one. */
  function AfterDecl(s: string): Option<string> {
    if !StartsWith(s, "<?xml") then Some(s)
    else
      match ParseAttrs(s[5..])
      case None => None
      case Some((_, s1)) => if StartsWith(s1, "?>") then Some(s1[2..]) else None
  }

  /** `xmlParseMemory`: an optional declaration, one root element, space around it. */
  function ParseDoc(s: string): (r: Option<Forest>)
    ensures r.Some? ==> r.value.Elem? && r.value.next == End
  {
    match AfterDecl(s)
    case None => None
    case Some(body) =>
      match ParseElem(SkipSpace(body))
      case None => None
      case Some((root, rest)) => if SkipSpace(rest) == "" then Some(root) else None
  }

  lemma {:induction false} SkipSpaceOf(gap: string, rest: string)
    requires forall k :: 0 <= k < |gap| ==> IsSpace(gap[k])
    requires rest == "" || !IsSpace(rest[0])
    ensures SkipSpace(gap + rest) == rest
  {
    if gap == "" {
      assert gap + rest == rest;
    } else {
      assert (gap + rest)[1..] == gap[1..] + rest;
      SkipSpaceOf(gap[1..], rest);
    }
  }

  lemma AfterDeclOf(attrs: seq<Attr>, body: string)
    requires WfAttrs(attrs)
    ensures AfterDecl(DeclText(attrs) + body) == Some(body)
  {
    var s1 := "?>" + body;
    assert DeclText(attrs) + body == "<?xml" + (PrintAttrs(attrs) + s1);
    PrefixOf("<?xml", PrintAttrs(attrs) + s1);
    PrefixOf("?>", body);
    ParseAttrsOf(attrs, s1);
    hide ParseAttrs, PrintAttrs;
  }

  lemma ParseBody(gap: string, root: Forest, trail: string)
    requires root.Elem? && Wf(root)
    requires forall k :: 0 <= k < |gap| ==> IsSpace(gap[k])
    requires forall k :: 0 <= k < |trail| ==> IsSpace(trail[k])
    ensures ParseElem(SkipSpace(gap + (PrintElem(root) + trail))) == Some((WithNext(root, End), trail))
    ensures SkipSpace(trail) == ""
  {
    WfRoot(root);
    hide PrintElem, ParseElem, Wf, StartsWith, SkipSpace, WithNext;
    StartOfElem(root, trail);
    SkipSpaceOf(gap, PrintElem(root) + trail);
    ParseElemOf(root, trail);
    SkipSpaceOf(trail, "");
    assert trail + "" == trail;
  }

  lemma WfRoot(root: Forest)
    requires root.Elem? && Wf(root)
    ensures IsName(root.name)
  {
  }

  /** A printed document parses to its tree. */
  lemma ParseDocOf(attrs: seq<Attr>, gap: string, root: Forest, trail: string)
    requires root.Elem? && Wf(root) && WfAttrs(attrs)
    requires forall k :: 0 <= k < |gap| ==> IsSpace(gap[k])
    requires forall k :: 0 <= k < |trail| ==> IsSpace(trail[k])
    ensures ParseDoc(DeclText(attrs) + (gap + (PrintElem(root) + trail))) == Some(WithNext(root, End))
    ensures ParseDoc(PrintElem(root) + trail) == Some(WithNext(root, End))
  {
    hide PrintElem, ParseElem, DeclText, SkipSpace;
    ParseBody(gap, root, trail);
    AfterDeclOf(attrs, gap + (PrintElem(root) + trail));
    ParseBody("", root, trail);
    assert "" + (PrintElem(root) + trail) == PrintElem(root) + trail;
    NoDecl(root, trail);
  }

  lemma NoDecl(root: Forest, trail: string)
    requires root.Elem? && IsName(root.name)
    ensures AfterDecl(PrintElem(root) + trail) == Some(PrintElem(root) + trail)
  {
    PrintElemShape(root, trail);
    hide PrintElem, PrintAttrs, ElemBody, ParseAttrs;
    var t := root.name + (PrintAttrs(root.attrs) + (ElemBody(root) + trail));
    assert ("<" + t)[1] == root.name[0] && "<?xml"[1] == '?';
  }

  lemma EndIsEmpty()
    ensures Print(End) == ""
  {
  }

  lemma PrintAlone(e: Forest)
    requires e.Elem? && e.next == End
    ensures Print(e) == PrintElem(e)
  {
    PrintElemThen(e, "");
    EndIsEmpty();
    hide Print, PrintElem;
    assert Print(e) + "" == Print(e) && PrintElem(e) + ("" + "") == PrintElem(e);
  }

  // ---- A document cut short ------------------------------------------------------------------------

  lemma {:induction false} TakeNameStable(s: string, t: string)
    requires TakeName(s).1 != ""
    ensures TakeName(s + t) == (TakeName(s).0, TakeName(s).1 + t)
  {
    if s != "" && IsNameChar(s[0]) {
      TakeNameStable(s[1..], t);
      assert (s + t)[1..] == s[1..] + t;
    }
  }

  lemma {:induction false} TakeTextStable(s: string, t: string)
    requires TakeText(s).1 != ""
    ensures TakeText(s + t) == (TakeText(s).0, TakeText(s).1 + t)
  {
    if s != "" && IsTextChar(s[0]) {
      TakeTextStable(s[1..], t);
      assert (s + t)[1..] == s[1..] + t;
    }
  }

  lemma {:induction false} TakeAttrValueStable(s: string, t: string)
    requires TakeAttrValue(s).1 != ""
    ensures TakeAttrValue(s + t) == (TakeAttrValue(s).0, TakeAttrValue(s).1 + t)
  {
    if s != "" && IsAttrChar(s[0]) {
      TakeAttrValueStable(s[1..], t);
      assert (s + t)[1..] == s[1..] + t;
    }
  }

  lemma StartsWithStable(s: string, t: string, p: string)
    requires StartsWith(s, p)
    ensures StartsWith(s + t, p) && (s + t)[|p|..] == s[|p|..] + t
  {
  }

  lemma {:induction false} ParseAttrsStable(s: string, t: string)
    requires ParseAttrs(s).Some? && ParseAttrs(s).value.1 != ""
    ensures ParseAttrs(s + t) == Some((ParseAttrs(s).value.0, ParseAttrs(s).value.1 + t))
    decreases |s|
  {
    hide TakeName, TakeAttrValue;
    if !StartsWith(s, " ") {
      assert (s + t)[0] == s[0];
    } else {
      var (name, s1) := TakeName(s[1..]);
      var (value, s2) := TakeAttrValue(s1[2..]);
      StartsWithStable(s, t, " ");
      TakeNameStable(s[1..], t);
      StartsWithStable(s1, t, "=\"");
      TakeAttrValueStable(s1[2..], t);
      StartsWithStable(s2, t, "\"");
      ParseAttrsStable(s2[1..], t);
    }
  }

  lemma {:induction false} ParseElemStable(s: string, t: string)
    requires ParseElem(s).Some?
    ensures ParseElem(s + t) == Some((ParseElem(s).value.0, ParseElem(s).value.1 + t))
    decreases |s|, 0
  {
    hide TakeName, ParseAttrs, ParseForest;
    var (name, s1) := TakeName(s[1..]);
    var (attrs, s2) := ParseAttrs(s1).value;
    StartsWithStable(s, t, "<");
    EmptyAttrs(s1);
    TakeNameStable(s[1..], t);
    ParseAttrsStable(s1, t);
    if StartsWith(s2, "/>") {
      StartsWithStable(s2, t, "/>");
      ParseShortElem(s + t, name, s1 + t, attrs, s2 + t);
    } else {
      StartsWithStable(s2, t, ">");
      assert (s2 + t)[0] == '>';
      var (kids, s3) := ParseForest(s2[1..]).value;
      StartsWithStable(s3, t, CloseTag(name));
      CloseTagShape(name, s3[|CloseTag(name)|..]);
      assert s3 == CloseTag(name) + s3[|CloseTag(name)|..];
      ParseForestStable(s2[1..], t);
      ParseLongElem(s + t, name, s1 + t, attrs, s2 + t, kids, s3 + t);
    }
  }

  lemma EmptyAttrs(s: string)
    ensures ParseAttrs(s).Some? && ParseAttrs(s).value.1 != "" ==> s != ""
  {
  }

  lemma {:induction false} ParseForestStable(s: string, t: string)
    requires ParseForest(s).Some? && StartsWith(ParseForest(s).value.1, "</")
    ensures ParseForest(s + t) == Some((ParseForest(s).value.0, ParseForest(s).value.1 + t))
    decreases |s|, 1
  {
    hide TakeText, ParseElem;
    if StartsWith(s, "</") {
      StartsWithStable(s, t, "</");
    } else if StartsWith(s, "<") {
      var (e, s1) := ParseElem(s).value;
      var (next, s2) := ParseForest(s1).value;
      ParseElemStable(s, t);
      ParseForestStable(s1, t);
      StartsWithStable(s, t, "<");
      NotEndTag(s, t);
      ParseElemThen(s + t, e, s1 + t, next, s2 + t);
    } else {
      var (tx, s1) := TakeText(s);
      var (next, s2) := ParseForest(s1).value;
      assert s1 != "";
      TakeTextStable(s, t);
      ParseForestStable(s1, t);
      assert (s + t)[0] == s[0];
      ParseTextThen(s + t, tx, s1 + t, next, s2 + t);
    }
  }

  /** An element is at least three characters long, so its start is not an end tag's. */
  lemma NotEndTag(s: string, t: string)
    requires !StartsWith(s, "</") && StartsWith(s, "<") && ParseElem(s).Some?
    ensures !StartsWith(s + t, "</")
  {
    hide ParseAttrs, ParseForest;
    assert |s| >= 2;
    assert (s + t)[..2] == s[..2];
  }

  lemma AfterDeclStable(s: string, t: string)
    requires StartsWith(s, "<?xml") && AfterDecl(s).Some?
    ensures AfterDecl(s + t) == Some(AfterDecl(s).value + t)
  {
    hide ParseAttrs;
    var s1 := ParseAttrs(s[5..]).value.1;
    StartsWithStable(s, t, "<?xml");
    ParseAttrsStable(s[5..], t);
    StartsWithStable(s1, t, "?>");
  }

  /** A text cut within the first characters of the declaration has no root. */
  lemma CutBeforeDecl(cut: string, lost: string)
    requires StartsWith(cut + lost, "<?xml") && !StartsWith(cut, "<?xml")
    ensures ParseDoc(cut) == None
  {
    hide ParseAttrs, ParseForest;
    var whole := cut + lost;
    assert whole[0] == '<' && whole[1] == '?';
    assert forall k :: 0 <= k < |cut| ==> cut[k] == whole[k];
    assert cut != "" ==> cut[0] == whole[0];
    assert |cut| >= 2 ==> cut[1] == whole[1];
    assert SkipSpace(cut) == cut;
    assert cut == "" || TakeName(cut[1..]).0 == "";
  }

  /**
   * A document cut short anywhere does not parse, unless all it lost is space after the root; then the
   * root is the same.
   */
  lemma CutDocument(attrs: seq<Attr>, gap: string, root: Forest, trail: string, cut: string, lost: string)
    requires root.Elem? && Wf(root) && WfAttrs(attrs)
    requires forall k :: 0 <= k < |gap| ==> IsSpace(gap[k])
    requires forall k :: 0 <= k < |trail| ==> IsSpace(trail[k])
    requires cut + lost == DeclText(attrs) + (gap + (PrintElem(root) + trail))
    ensures ParseDoc(cut).Some? ==> ParseDoc(cut) == Some(WithNext(root, End)) && |lost| <= |trail|
  {
    hide ParseElem, PrintElem, PrintAttrs, ParseAttrs, SkipSpace;
    assert StartsWith(cut + lost, "<?xml");
    if !StartsWith(cut, "<?xml") {
      CutBeforeDecl(cut, lost);
    } else if ParseDoc(cut).Some? {
      hide AfterDecl, DeclText;
      var rest := gap + (PrintElem(root) + trail);
      var body := AfterDecl(cut).value;
      AfterDeclStable(cut, lost);
      AfterDeclOf(attrs, rest);
      assert body + lost == rest;
      ParseBody(gap, root, trail);
      NonSpaceLeft(body);
      SkipSpaceStable(body, lost);
      ParseElemStable(SkipSpace(body), lost);
    }
  }

  lemma NonSpaceLeft(body: string)
    requires ParseElem(SkipSpace(body)).Some?
    ensures SkipSpace(body) != ""
  {
    hide ParseForest, ParseAttrs, TakeName;
  }

  lemma {:induction false} SkipSpaceStable(s: string, t: string)
    requires SkipSpace(s) != ""
    ensures SkipSpace(s + t) == SkipSpace(s) + t
  {
    if s != "" && IsSpace(s[0]) {
      SkipSpaceStable(s[1..], t);
      assert (s + t)[1..] == s[1..] + t;
    }
  }
}

/**
 * Canonical XML for documents without prefixes, entities or comments. Every element then visibly uses
 * the default namespace and no other; `CanonicalForms` shows that this makes the two standard forms one.
 */
module CanonicalXml {
  import opened CLib
  import opened XmlText

  const XMLNS := "xmlns"

  // ---- Attribute order -----------------------------------------------------------------------------------

  predicate LexLe(s: string, t: string) {
    s == "" || (t != "" && (s[0] < t[0] || (s[0] == t[0] && LexLe(s[1..], t[1..]))))
  }

  lemma {:induction false} LexTotal(s: string, t: string)
    ensures LexLe(s, t) || LexLe(t, s)
  {
    if s != "" && t != "" && s[0] == t[0] {
      LexTotal(s[1..], t[1..]);
    }
  }

  function Insert(a: Attr, sorted: seq<Attr>): (r: seq<Attr>)
    ensures |r| == |sorted| + 1
    ensures forall b :: b in r <==> b == a || b in sorted
  {
    if sorted == [] || LexLe(a.name, sorted[0].name) then [a] + sorted
    else
      assert sorted == [sorted[0]] + sorted[1..];
      [sorted[0]] + Insert(a, sorted[1..])
  }

  /** The attributes that are not namespace declarations, by name. */
  function Plain(attrs: seq<Attr>): (r: seq<Attr>)
    ensures forall b :: b in r <==> b in attrs && b.name != XMLNS
  {
    if attrs == [] then []
    else
      assert attrs == [attrs[0]] + attrs[1..];
      if attrs[0].name == XMLNS then Plain(attrs[1..]) else Insert(attrs[0], Plain(attrs[1..]))
  }

  predicate Sorted(attrs: seq<Attr>) {
    forall k :: 0 < k < |attrs| ==> LexLe(attrs[k - 1].name, attrs[k].name)
  }

  lemma {:induction false} InsertSorted(a: Attr, sorted: seq<Attr>)
    requires Sorted(sorted)
    ensures Sorted(Insert(a, sorted))
    ensures sorted == [] || Insert(a, sorted)[0] == a || Insert(a, sorted)[0] == sorted[0]
  {
    if sorted != [] && !LexLe(a.name, sorted[0].name) {
      LexTotal(a.name, sorted[0].name);
      InsertSorted(a, sorted[1..]);
      var r := Insert(a, sorted[1..]);
      assert forall k :: 0 < k < |r| ==> LexLe(r[k - 1].name, r[k].name);
      assert LexLe(sorted[0].name, r[0].name) by {
        assert sorted[1..] != [] ==> sorted[1..][0] == sorted[1];
      }
    }
  }

  lemma {:induction false} PlainSorted(attrs: seq<Attr>)
    ensures Sorted(Plain(attrs))
  {
    if attrs != [] {
      PlainSorted(attrs[1..]);
      InsertSorted(attrs[0], Plain(attrs[1..]));
    }
  }

  lemma {:induction false} PlainOfSorted(attrs: seq<Attr>)
    requires Sorted(attrs) && forall b :: b in attrs ==> b.name != XMLNS
    ensures Plain(attrs) == attrs
  {
    if attrs != [] {
      assert attrs == [attrs[0]] + attrs[1..];
      PlainOfSorted(attrs[1..]);
      assert attrs[1..] != [] ==> attrs[1..][0] == attrs[1];
    }
  }

  // ---- The canonical tree ----------------------------------------------------------------------------------

  /** The default namespace of an element, given its parent's. */
  function DefaultNs(attrs: seq<Attr>, inherited: string): string {
    if attrs == [] then inherited
    else if attrs[0].name == XMLNS then attrs[0].value
    else DefaultNs(attrs[1..], inherited)
  }

  /** A declaration is rendered where it differs from what the nearest rendered ancestor has. */
  function CanonAttrs(attrs: seq<Attr>, inherited: string, rendered: string): seq<Attr> {
    var ns := DefaultNs(attrs, inherited);
    (if ns != rendered then [Attr(XMLNS, ns)] else []) + Plain(attrs)
  }

  /** No short tags, attributes in order, superfluous declarations dropped, missing ones added. */
  function Canon(f: Forest, inherited: string, rendered: string): Forest {
    match f
    case End => End
    case Text(chars, next) => Text(chars, Canon(next, inherited, rendered))
    case Elem(name, attrs, _, kids, next) =>
      var ns := DefaultNs(attrs, inherited);
      Elem(name, CanonAttrs(attrs, inherited, rendered), false, Canon(kids, ns, ns), Canon(next, inherited, rendered))
  }

  /** The canonical octets of a document. */
  function DocOctets(root: Forest): string
    requires root.Elem?
  {
    PrintElem(Canon(root, "", ""))
  }

  /** The canonical octets of a subtree below a parent with default namespace `ns`. */
  function SubtreeOctets(apex: Forest, ns: string): string
    requires apex.Elem?
  {
    PrintElem(Canon(apex, ns, ""))
  }

  /** Dictionary order, capitals first, and a prefix before what it is a prefix of. */
  lemma AttributesAscend(x: Attr, y: Attr)
    requires x.name != XMLNS && y.name != XMLNS && x.name != y.name
    ensures Canon(Elem("e", [x, y], true, End, End), "", "")
         == Elem("e", if LexLe(x.name, y.name) then [x, y] else [y, x], false, End, End)
    ensures LexLe("Z", "a") && !LexLe("a", "Z") && LexLe("a", "ab") && !LexLe("ab", "a") && LexLe("ab", "b")
            && !LexLe("b", "ab")
  {
    assert "ab"[1..] == "b" && "a"[1..] == "";
    hide LexLe;
    assert [x, y][1..] == [y] && [y][1..] == [] && Plain([]) == [];
    assert Plain([y]) == [y];
    assert Plain([x, y]) == Insert(x, [y]);
    assert Insert(x, [y]) == if LexLe(x.name, y.name) then [x] + [y] else [y] + [x];
    NoDeclaration([x, y], "");
  }

  // ---- Canonical text is its own canonical form ------------------------------------------------------------

  lemma CanonAttrsStable(attrs: seq<Attr>, inherited: string, rendered: string)
    ensures var c := CanonAttrs(attrs, inherited, rendered);
            DefaultNs(c, rendered) == DefaultNs(attrs, inherited) && CanonAttrs(c, rendered, rendered) == c
  {
    var ns := DefaultNs(attrs, inherited);
    var p := Plain(attrs);
    PlainSorted(attrs);
    PlainOfSorted(p);
    NoDeclaration(p, rendered);
    if ns != rendered {
      var c := [Attr(XMLNS, ns)] + p;
      assert c[1..] == p && c[0].name == XMLNS;
      assert Plain(c) == p;
    } else {
      assert [] + p == p;
    }
  }

  lemma {:induction false} NoDeclaration(attrs: seq<Attr>, inherited: string)
    requires forall b :: b in attrs ==> b.name != XMLNS
    ensures DefaultNs(attrs, inherited) == inherited
  {
    if attrs != [] {
      assert attrs[0] in attrs && forall b :: b in attrs[1..] ==> b in attrs;
      NoDeclaration(attrs[1..], inherited);
    }
  }

  lemma {:induction false} CanonStable(f: Forest, inherited: string, rendered: string)
    ensures Canon(Canon(f, inherited, rendered), rendered, rendered) == Canon(f, inherited, rendered)
  {
    hide CanonAttrs, DefaultNs;
    match f
    case End =>
    case Text(_, next) =>
      CanonStable(next, inherited, rendered);
    case Elem(name, attrs, _, kids, next) =>
      var ns := DefaultNs(attrs, inherited);
      CanonAttrsStable(attrs, inherited, rendered);
      CanonStable(kids, ns, ns);
      CanonStable(next, inherited, rendered);
  }

  lemma XmlnsIsName()
    ensures IsName(XMLNS)
  {
  }

  lemma {:induction false} DefaultNsIsValue(attrs: seq<Attr>, inherited: string)
    requires WfAttrs(attrs) && IsAttrValue(inherited)
    ensures IsAttrValue(DefaultNs(attrs, inherited))
  {
    if attrs != [] {
      DefaultNsIsValue(attrs[1..], inherited);
    }
  }

  lemma CanonAttrsWf(attrs: seq<Attr>, inherited: string, rendered: string)
    requires WfAttrs(attrs) && IsAttrValue(inherited)
    ensures WfAttrs(CanonAttrs(attrs, inherited, rendered))
  {
    hide IsName, IsAttrValue;
    XmlnsIsName();
    DefaultNsIsValue(attrs, inherited);
    forall k | 0 <= k < |Plain(attrs)| ensures IsName(Plain(attrs)[k].name) && IsAttrValue(Plain(attrs)[k].value) {
      assert Plain(attrs)[k] in attrs;
    }
  }

  lemma {:induction false} CanonWf(f: Forest, inherited: string, rendered: string)
    requires Wf(f) && IsAttrValue(inherited)
    ensures Wf(Canon(f, inherited, rendered))
    ensures Canon(f, inherited, rendered).Text? <==> f.Text?
  {
    hide CanonAttrs, DefaultNs, IsName, IsAttrValue, WfAttrs, IsMarkupFree;
    match f
    case End =>
    case Text(_, next) =>
      CanonWf(next, inherited, rendered);
    case Elem(name, attrs, _, kids, next) =>
      CanonAttrsWf(attrs, inherited, rendered);
      DefaultNsIsValue(attrs, inherited);
      CanonWf(kids, DefaultNs(attrs, inherited), DefaultNs(attrs, inherited));
      CanonWf(next, inherited, rendered);
  }

  /** For every document: its canonical octets parse, and canonicalize to themselves. */
  lemma CanonicalIsFixed(root: Forest)
    requires root.Elem? && Wf(root) && root.next == End
    ensures var text := DocOctets(root);
            ParseDoc(text).Some? && Wf(ParseDoc(text).value) && DocOctets(ParseDoc(text).value) == text
  {
    hide PrintElem, ParseDoc, CanonAttrs, DefaultNs;
    var c := Canon(root, "", "");
    CanonWf(root, "", "");
    CanonStable(root, "", "");
    ParseDocOf([], "", c, "");
    assert PrintElem(c) + "" == PrintElem(c);
  }
}

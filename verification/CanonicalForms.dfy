/**
 * The two canonical forms the program names: the inclusive one it computes (Canonical XML 1.0) and the
 * exclusive one its reports declare (Exclusive XML Canonicalization 1.0), for documents with namespace
 * prefixes, and that they are the one form of `CanonicalXml` where names have none. Attributes of the
 * `xml` namespace that a subtree would inherit in the inclusive form are left out.
 */
module CanonicalForms {
  import opened CLib
  import opened XmlText
  import opened CanonicalXml

  datatype Form = Inclusive | Exclusive

  // ---- Names with prefixes ---------------------------------------------------------------------------------

  predicate IsLocal(name: string) { forall k :: 0 <= k < |name| ==> name[k] != ':' }

  function PrefixOf(name: string): (prefix: string)
    ensures !IsLocal(name) ==> |prefix| < |name|
  {
    if IsLocal(name) then "" else if name[0] == ':' then "" else [name[0]] + PrefixOf(name[1..])
  }

  function LocalOf(name: string): string {
    if IsLocal(name) then name else name[|PrefixOf(name)| + 1..]
  }

  /** Namespace declarations are kept as the attributes they are: `xmlns`, or `xmlns:` and a prefix. */
  predicate IsDeclaration(name: string) { name == XMLNS || (!IsLocal(name) && PrefixOf(name) == XMLNS) }

  function DeclarationOf(prefix: string): string { if prefix == "" then XMLNS else XMLNS + ":" + prefix }

  // ---- Namespaces in scope, by name ------------------------------------------------------------------------

  function NsOf(scope: seq<Attr>, name: string): string {
    if scope == [] then "" else if scope[0].name == name then scope[0].value else NsOf(scope[1..], name)
  }

  function Put(scope: seq<Attr>, a: Attr): seq<Attr> {
    if scope == [] then [a]
    else if scope[0].name == a.name then [a] + scope[1..]
    else if LexLe(a.name, scope[0].name) then [a] + scope
    else [scope[0]] + Put(scope[1..], a)
  }

  /** What an element's own declarations make of its parent's namespaces. */
  function Declared(attrs: seq<Attr>, scope: seq<Attr>): seq<Attr> {
    if attrs == [] then scope
    else if IsDeclaration(attrs[0].name) then Put(Declared(attrs[1..], scope), attrs[0])
    else Declared(attrs[1..], scope)
  }

  function PutAll(scope: seq<Attr>, more: seq<Attr>): seq<Attr>
    decreases |more|
  {
    if more == [] then scope else PutAll(Put(scope, more[0]), more[1..])
  }

  /** The declared prefix is that of the element's name, or of an attribute's. */
  predicate VisiblyUsed(decl: string, name: string, attrs: seq<Attr>) {
    || DeclarationOf(PrefixOf(name)) == decl
    || exists k :: 0 <= k < |attrs| && !IsDeclaration(attrs[k].name) && !IsLocal(attrs[k].name)
                   && DeclarationOf(PrefixOf(attrs[k].name)) == decl
  }

  /** The declarations that are rendered: those that differ from what is rendered above, if the form needs them. */
  function Rendered(form: Form, scope: seq<Attr>, above: seq<Attr>, name: string, attrs: seq<Attr>): seq<Attr> {
    if scope == [] then []
    else
      var rest := Rendered(form, scope[1..], above, name, attrs);
      if NsOf(above, scope[0].name) != scope[0].value && (form == Inclusive || VisiblyUsed(scope[0].name, name, attrs))
      then [scope[0]] + rest else rest
  }

  // ---- Attribute order -----------------------------------------------------------------------------------

  /** By namespace, and then by local name; an attribute without a prefix has no namespace. */
  predicate KeyLe(a: Attr, b: Attr, scope: seq<Attr>) {
    var nsA := if IsLocal(a.name) then "" else NsOf(scope, DeclarationOf(PrefixOf(a.name)));
    var nsB := if IsLocal(b.name) then "" else NsOf(scope, DeclarationOf(PrefixOf(b.name)));
    if nsA == nsB then LexLe(LocalOf(a.name), LocalOf(b.name)) else LexLe(nsA, nsB)
  }

  function InsertByKey(a: Attr, sorted: seq<Attr>, scope: seq<Attr>): seq<Attr> {
    if sorted == [] || KeyLe(a, sorted[0], scope) then [a] + sorted
    else [sorted[0]] + InsertByKey(a, sorted[1..], scope)
  }

  function Others(attrs: seq<Attr>, scope: seq<Attr>): seq<Attr> {
    if attrs == [] then []
    else if IsDeclaration(attrs[0].name) then Others(attrs[1..], scope)
    else InsertByKey(attrs[0], Others(attrs[1..], scope), scope)
  }

  // ---- The canonical trees ---------------------------------------------------------------------------------

  function CanonIn(form: Form, f: Forest, scope: seq<Attr>, above: seq<Attr>): Forest {
    match f
    case End => End
    case Text(chars, next) => Text(chars, CanonIn(form, next, scope, above))
    case Elem(name, attrs, _, kids, next) =>
      var inner := Declared(attrs, scope);
      var decls := Rendered(form, inner, above, name, attrs);
      Elem(name, decls + Others(attrs, inner), false, CanonIn(form, kids, inner, PutAll(above, decls)),
           CanonIn(form, next, scope, above))
  }

  /** The octets of a document, and those of a subtree below a parent with default namespace `ns`. */
  function OctetsIn(form: Form, root: Forest): string
    requires root.Elem?
  {
    PrintElem(CanonIn(form, root, [], []))
  }

  function SubtreeOctetsIn(form: Form, apex: Forest, ns: string): string
    requires apex.Elem?
  {
    PrintElem(CanonIn(form, apex, [Attr(XMLNS, ns)], []))
  }

  // ---- Without prefixes the two are one ------------------------------------------------------------------------

  predicate LocalAttrs(attrs: seq<Attr>) { forall k :: 0 <= k < |attrs| ==> IsLocal(attrs[k].name) }

  predicate PrefixFree(f: Forest) {
    match f
    case End => true
    case Text(_, next) => PrefixFree(next)
    case Elem(name, attrs, _, kids, next) => IsLocal(name) && LocalAttrs(attrs) && PrefixFree(kids) && PrefixFree(next)
  }

  /** At most the default namespace is declared, and it is `ns`. */
  predicate OnlyDefault(scope: seq<Attr>, ns: string) {
    (scope == [] && ns == "") || scope == [Attr(XMLNS, ns)]
  }

  lemma NsOfDefault(scope: seq<Attr>, ns: string)
    requires OnlyDefault(scope, ns)
    ensures NsOf(scope, XMLNS) == ns
  {
  }

  lemma PutDefault(scope: seq<Attr>, before: string, ns: string)
    requires OnlyDefault(scope, before)
    ensures Put(scope, Attr(XMLNS, ns)) == [Attr(XMLNS, ns)]
  {
  }

  lemma {:induction false} DeclaredDefault(attrs: seq<Attr>, scope: seq<Attr>, inherited: string)
    requires LocalAttrs(attrs) && OnlyDefault(scope, inherited)
    ensures OnlyDefault(Declared(attrs, scope), DefaultNs(attrs, inherited))
    ensures Declared(attrs, scope) == [] ==> scope == []
  {
    if attrs != [] {
      assert IsLocal(attrs[0].name);
      DeclaredDefault(attrs[1..], scope, inherited);
      if attrs[0].name == XMLNS {
        PutDefault(Declared(attrs[1..], scope), DefaultNs(attrs[1..], inherited), attrs[0].value);
      }
    }
  }

  lemma RenderedDefault(form: Form, scope: seq<Attr>, above: seq<Attr>, name: string, attrs: seq<Attr>, ns: string,
                        rendered: string)
    requires OnlyDefault(scope, ns) && OnlyDefault(above, rendered) && (scope == [] ==> rendered == "") && IsLocal(name)
    ensures Rendered(form, scope, above, name, attrs) == if ns != rendered then [Attr(XMLNS, ns)] else []
    ensures OnlyDefault(PutAll(above, Rendered(form, scope, above, name, attrs)), ns)
  {
    NsOfDefault(above, rendered);
    assert DeclarationOf(PrefixOf(name)) == XMLNS;
    if scope != [] {
      assert scope[1..] == [];
      assert VisiblyUsed(scope[0].name, name, attrs);
      assert Rendered(form, scope[1..], above, name, attrs) == [];
      PutDefault(above, rendered, ns);
    }
    assert [Attr(XMLNS, ns)][1..] == [];
  }

  lemma {:induction false} InsertLocal(a: Attr, sorted: seq<Attr>, scope: seq<Attr>)
    requires IsLocal(a.name) && LocalAttrs(sorted)
    ensures InsertByKey(a, sorted, scope) == Insert(a, sorted) && LocalAttrs(Insert(a, sorted))
  {
    if sorted != [] {
      InsertLocal(a, sorted[1..], scope);
    }
  }

  lemma {:induction false} OthersLocal(attrs: seq<Attr>, scope: seq<Attr>)
    requires LocalAttrs(attrs)
    ensures Others(attrs, scope) == Plain(attrs) && LocalAttrs(Plain(attrs))
  {
    if attrs != [] {
      assert IsLocal(attrs[0].name);
      OthersLocal(attrs[1..], scope);
      InsertLocal(attrs[0], Plain(attrs[1..]), scope);
    }
  }

  /** On trees without prefixes both forms are the one of `CanonicalXml`, whatever namespaces surround them. */
  lemma {:induction false} FormsAgree(form: Form, f: Forest, scope: seq<Attr>, above: seq<Attr>, inherited: string,
                                      rendered: string)
    requires PrefixFree(f) && OnlyDefault(scope, inherited) && OnlyDefault(above, rendered)
             && (scope == [] ==> rendered == "")
    ensures CanonIn(form, f, scope, above) == Canon(f, inherited, rendered)
  {
    hide Declared, DefaultNs, Rendered, Others, Plain, PutAll, IsLocal, OnlyDefault;
    match f
    case End =>
    case Text(_, next) =>
      FormsAgree(form, next, scope, above, inherited, rendered);
    case Elem(name, attrs, _, kids, next) =>
      var inner, ns := Declared(attrs, scope), DefaultNs(attrs, inherited);
      DeclaredDefault(attrs, scope, inherited);
      RenderedDefault(form, inner, above, name, attrs, ns, rendered);
      OthersLocal(attrs, inner);
      EmptyIsNone(inner, ns);
      FormsAgree(form, kids, inner, PutAll(above, Rendered(form, inner, above, name, attrs)), ns, ns);
      FormsAgree(form, next, scope, above, inherited, rendered);
  }

  lemma EmptyIsNone(scope: seq<Attr>, ns: string)
    requires OnlyDefault(scope, ns)
    ensures scope == [] ==> ns == ""
  {
  }

  lemma NamesAreLocal(s: string)
    requires IsName(s)
    ensures IsLocal(s)
  {
  }

  /** The names of a well-formed tree of the modelled subset have no prefixes. */
  lemma {:induction false} WfIsPrefixFree(f: Forest)
    requires Wf(f)
    ensures PrefixFree(f)
  {
    hide IsName, IsLocal;
    match f
    case End =>
    case Text(_, next) => WfIsPrefixFree(next);
    case Elem(name, attrs, _, kids, next) =>
      NamesAreLocal(name);
      forall k | 0 <= k < |attrs| ensures IsLocal(attrs[k].name) {
        NamesAreLocal(attrs[k].name);
      }
      WfIsPrefixFree(kids);
      WfIsPrefixFree(next);
  }

  lemma OctetsAgree(form: Form, root: Forest)
    requires root.Elem? && Wf(root)
    ensures OctetsIn(form, root) == DocOctets(root)
  {
    WfIsPrefixFree(root);
    FormsAgree(form, root, [], [], "", "");
    hide Canon, CanonIn, Wf;
  }

  lemma SubtreeOctetsAgree(form: Form, apex: Forest, ns: string)
    requires apex.Elem? && Wf(WithNext(apex, End))
    ensures SubtreeOctetsIn(form, apex, ns) == SubtreeOctets(apex, ns)
  {
    var alone := WithNext(apex, End);
    WfIsPrefixFree(alone);
    FormsAgree(form, alone, [Attr(XMLNS, ns)], [], ns, "");
    SiblingsDoNotCount(form, apex, ns);
    hide Wf, CanonIn, Canon;
  }

  lemma SiblingsDoNotCount(form: Form, apex: Forest, ns: string)
    requires apex.Elem?
    ensures SubtreeOctetsIn(form, apex, ns) == SubtreeOctetsIn(form, WithNext(apex, End), ns)
    ensures SubtreeOctets(apex, ns) == SubtreeOctets(WithNext(apex, End), ns)
  {
    hide Declared, Rendered, Others, PutAll, CanonAttrs, DefaultNs;
  }

  /** In either form, canonical octets parse, and canonicalize to themselves in both. */
  lemma CanonicalInBothForms(form: Form, other: Form, root: Forest)
    requires root.Elem? && Wf(root) && root.next == End
    ensures var doc := ParseDoc(OctetsIn(form, root)); doc.Some? && OctetsIn(other, doc.value) == OctetsIn(form, root)
  {
    hide ParseDoc, DocOctets, OctetsIn, Wf;
    CanonicalIsFixed(root);
    OctetsAgree(form, root);
    OctetsAgree(other, ParseDoc(DocOctets(root)).value);
  }

  lemma {:induction false} PrefixOfJoined(prefix: string, local: string)
    requires IsLocal(prefix)
    ensures !IsLocal(prefix + ":" + local) && PrefixOf(prefix + ":" + local) == prefix
  {
    var name := prefix + ":" + local;
    assert name[|prefix|] == ':';
    if prefix != "" {
      assert name[0] == prefix[0] && name[1..] == prefix[1..] + ":" + local;
      PrefixOfJoined(prefix[1..], local);
    }
  }

  /** With a prefix that nothing uses they differ: only the inclusive form renders its declaration. */
  lemma UnusedPrefixTellsApart(prefix: string, uri: string, name: string)
    requires prefix != "" && uri != "" && IsLocal(name)
    ensures var e := Elem(name, [Attr(XMLNS + ":" + prefix, uri)], false, End, End);
            && CanonIn(Inclusive, e, [], []) == e
            && CanonIn(Exclusive, e, [], []) == Elem(name, [], false, End, End)
  {
    var a := Attr(XMLNS + ":" + prefix, uri);
    PrefixOfJoined(XMLNS, prefix);
    assert [a][1..] == [];
    assert Declared([a][1..], []) == [];
    assert Declared([a], []) == [a];
    assert Others([a][1..], [a]) == [];
    assert Others([a], [a]) == [];
    assert NsOf([], a.name) == "";
    assert a.name != XMLNS;
    assert !VisiblyUsed(a.name, name, [a]);
    assert Rendered(Inclusive, [a][1..], [], name, [a]) == [] && Rendered(Exclusive, [a][1..], [], name, [a]) == [];
    assert Rendered(Inclusive, [a], [], name, [a]) == [a] && Rendered(Exclusive, [a], [], name, [a]) == [];
    assert [a] + [] == [a];
    hide Rendered, Others, Declared, PutAll;
    CanonOfLeaf(Inclusive, Elem(name, [a], false, End, End));
    CanonOfLeaf(Exclusive, Elem(name, [a], false, End, End));
  }

  /** A prefix that an attribute uses is declared in both. */
  lemma UsedPrefixStays(form: Form, prefix: string, uri: string, name: string, local: string, value: string)
    requires prefix != "" && prefix != XMLNS && IsLocal(prefix) && uri != "" && IsLocal(name)
    ensures var e := Elem(name, [Attr(XMLNS + ":" + prefix, uri), Attr(prefix + ":" + local, value)], false, End, End);
            CanonIn(form, e, [], []) == e
  {
    var d, a := Attr(XMLNS + ":" + prefix, uri), Attr(prefix + ":" + local, value);
    PrefixOfJoined(XMLNS, prefix);
    PrefixOfJoined(prefix, local);
    assert [d, a][1..] == [a] && [a][1..] == [] && [d][1..] == [];
    assert !IsDeclaration(a.name) && IsDeclaration(d.name);
    assert Declared([], []) == [];
    assert Declared([a], []) == [];
    assert Declared([d, a], []) == [d];
    assert Others([], [d]) == [];
    assert Others([a], [d]) == [a];
    assert Others([d, a], [d]) == [a];
    assert [d, a][1] == a;
    assert VisiblyUsed(d.name, name, [d, a]);
    assert NsOf([], d.name) == "";
    assert Rendered(form, [], [], name, [d, a]) == [];
    assert Rendered(form, [d], [], name, [d, a]) == [d];
    assert [d] + [a] == [d, a];
    hide Rendered, Others, Declared, PutAll;
    CanonOfLeaf(form, Elem(name, [d, a], false, End, End));
  }

  lemma CanonOfLeaf(form: Form, e: Forest)
    requires e.Elem? && e.kids == End && e.next == End
    ensures var decls := Rendered(form, Declared(e.attrs, []), [], e.name, e.attrs);
            CanonIn(form, e, [], []) == Elem(e.name, decls + Others(e.attrs, Declared(e.attrs, [])), false, End, End)
  {
  }
}

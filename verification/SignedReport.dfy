/**
 * The signed VM report. Its text, the text that is hashed and the text that is signed are assembled
 * separately; they agree where XML Signature needs them to.
 */
module SignedReport {
  import opened CLib
  import opened Base64
  import opened XmlText
  import opened CanonicalXml
  import opened CanonicalForms
  import XmlRpc

  datatype Alg = Sha1 | Sha256

  function AlgName(alg: Alg): string { if alg == Sha1 then "sha1" else "sha256" }

  function AlgFor(tpmVersion: string): Option<Alg> {
    if tpmVersion == "2.0" then Some(Sha256) else if tpmVersion == "1.2" then Some(Sha1) else None
  }

  const W3 := "http://www.w3.org/"
  const DSIG := W3 + "2000/09/xmldsig#"
  const C14N := W3 + "TR/2001/REC-xml-c14n-20010315"
  const EXC_C14N := W3 + "2001/10/xml-exc-c14n#"
  const DSIG_MORE := W3 + "2001/04/xmldsig-more#"
  const XMLENC := W3 + "2001/04/xmlenc#"

  function Enveloped(): string { DSIG + "enveloped-signature" }
  function SignatureUri(alg: Alg): string { if alg == Sha1 then DSIG + "rsa-sha1" else DSIG_MORE + "rsa-sha256" }
  function DigestUri(alg: Alg): string { if alg == Sha1 then DSIG + "sha1" else XMLENC + "sha256" }

  // ---- The texts, piece by piece as they are written -------------------------------------------------------

  function Open(name: string): string { "<" + name + ">" }
  function Short(name: string, uri: string): string { "<" + name + " Algorithm=\"" + uri + "\"/>" }
  function Long(name: string, uri: string): string { "<" + name + " Algorithm=\"" + uri + "\"></" + name + ">" }

  const DECLARATION: seq<Attr> := [Attr("version", "1.0"), Attr("encoding", "UTF-8"), Attr("standalone", "yes")]

  /** `us_xml.xml`, the text that is hashed. */
  function UsXmlText(nonce: string, uuid: string, alg: Alg, hash: string): string {
    Open("VMQuote") + (Open("nonce") + (nonce + (CloseTag("nonce")
    + (Open("vm_instance_id") + (uuid + (CloseTag("vm_instance_id")
    + (Open("digest_alg") + (AlgName(alg) + (CloseTag("digest_alg")
    + (Open("cumulative_hash") + (hash + (CloseTag("cumulative_hash") + CloseTag("VMQuote")))))))))))))
  }

  /** The report up to the quoted values. */
  function QuoteText(nonce: string, uuid: string, alg: Alg, hash: string): string {
    Open("VMQuote") + (Open("nonce") + (nonce + (CloseTag("nonce")
    + (Open("vm_instance_id") + (uuid + (CloseTag("vm_instance_id")
    + (Open("digest_alg") + (AlgName(alg) + (CloseTag("digest_alg")
    + (Open("cumulative_hash") + (hash + CloseTag("cumulative_hash"))))))))))))
  }

  /** ... and on to where the digest goes. */
  function SignatureHead(alg: Alg): string {
    "<Signature xmlns=\"" + DSIG + "\">" + (Open("SignedInfo")
    + (Short("CanonicalizationMethod", EXC_C14N) + (Short("SignatureMethod", SignatureUri(alg))
    + ("<Reference URI=\"\">" + (Open("Transforms")
    + (Short("Transform", Enveloped()) + (Short("Transform", EXC_C14N) + (CloseTag("Transforms")
    + (Short("DigestMethod", DigestUri(alg)) + Open("DigestValue"))))))))))
  }

  function AfterDigest(): string {
    CloseTag("DigestValue") + (CloseTag("Reference") + (CloseTag("SignedInfo") + Open("SignatureValue")))
  }

  function AfterSignature(): string {
    CloseTag("SignatureValue") + (Open("KeyInfo") + (Open("X509Data") + Open("X509Certificate")))
  }

  function ReportEnd(): string {
    CloseTag("X509Certificate")
      + (CloseTag("X509Data") + (CloseTag("KeyInfo") + (CloseTag("Signature") + CloseTag("VMQuote"))))
  }

  /** `us_can.xml`, the text that is signed: up to where the digest goes, and after it. */
  function UsCanHead(alg: Alg): string {
    "<SignedInfo xmlns=\"" + DSIG + "\">"
    + (Long("CanonicalizationMethod", EXC_C14N) + (Long("SignatureMethod", SignatureUri(alg))
    + ("<Reference URI=\"\">" + (Open("Transforms")
    + (Long("Transform", Enveloped()) + (Long("Transform", EXC_C14N) + (CloseTag("Transforms")
    + (Long("DigestMethod", DigestUri(alg)) + Open("DigestValue")))))))))
  }

  function UsCanEnd(): string { CloseTag("DigestValue") + (CloseTag("Reference") + CloseTag("SignedInfo")) }

  function UsCanText(alg: Alg, digest: string): string { UsCanHead(alg) + digest + UsCanEnd() }

  function ReportText(nonce: string, uuid: string, alg: Alg, hash: string, digest: string, signature: string,
                      cert: string): string {
    DeclText(DECLARATION) + (QuoteText(nonce, uuid, alg, hash) + SignatureHead(alg)) + digest + AfterDigest()
      + signature
    + AfterSignature() + cert + ReportEnd()
  }

  lemma QuoteTags()
    ensures Open("VMQuote") == "<VMQuote>" && CloseTag("VMQuote") == "</VMQuote>"
    ensures Open("nonce") == "<nonce>" && CloseTag("nonce") == "</nonce>"
    ensures Open("digest_alg") == "<digest_alg>" && CloseTag("digest_alg") == "</digest_alg>"
  {
  }

  lemma InstanceTags()
    ensures Open("vm_instance_id") == "<vm_instance_id>" && CloseTag("vm_instance_id") == "</vm_instance_id>"
  {
  }

  lemma HashTags()
    ensures Open("cumulative_hash") == "<cumulative_hash>" && CloseTag("cumulative_hash") == "</cumulative_hash>"
  {
  }

  lemma SignatureTags()
    ensures Open("SignedInfo") == "<SignedInfo>" && CloseTag("SignedInfo") == "</SignedInfo>"
    ensures CloseTag("Reference") == "</Reference>" && CloseTag("DigestValue") == "</DigestValue>"
    ensures Open("SignatureValue") == "<SignatureValue>" && CloseTag("SignatureValue") == "</SignatureValue>"
    ensures CloseTag("Signature") == "</Signature>"
  {
  }

  lemma KeyTags()
    ensures Open("KeyInfo") == "<KeyInfo>" && CloseTag("KeyInfo") == "</KeyInfo>"
    ensures Open("X509Data") == "<X509Data>" && CloseTag("X509Data") == "</X509Data>"
    ensures Open("X509Certificate") == "<X509Certificate>" && CloseTag("X509Certificate") == "</X509Certificate>"
  {
  }

  /** The hashed text and the parts of the report, tag by tag. */
  lemma TextsAre(nonce: string, uuid: string, alg: Alg, hash: string)
    ensures var digestAlg := if alg == Sha256 then "sha256" else "sha1";
            var values := tail => "<nonce>" + (nonce + ("</nonce>" + ("<vm_instance_id>" + (uuid + ("</vm_instance_id>"
                                  + ("<digest_alg>" + (digestAlg + ("</digest_alg>"
                                  + ("<cumulative_hash>" + (hash + tail))))))))));
            && QuoteText(nonce, uuid, alg, hash) == "<VMQuote>" + values("</cumulative_hash>")
            && UsXmlText(nonce, uuid, alg, hash) == "<VMQuote>" + values("</cumulative_hash>" + "</VMQuote>")
    ensures AfterDigest() == "</DigestValue>" + ("</Reference>" + ("</SignedInfo>" + "<SignatureValue>"))
    ensures AfterSignature() == "</SignatureValue>" + ("<KeyInfo>" + ("<X509Data>" + "<X509Certificate>"))
    ensures ReportEnd()
         == "</X509Certificate>" + ("</X509Data>" + ("</KeyInfo>" + ("</Signature>" + "</VMQuote>")))
    ensures UsCanEnd() == "</DigestValue>" + ("</Reference>" + "</SignedInfo>")
  {
    QuoteTags();
    InstanceTags();
    HashTags();
    SignatureTags();
    KeyTags();
    hide Open, CloseTag;
  }

  // ---- The trees they are the texts of -----------------------------------------------------------------------

  function AlgElem(name: string, uri: string, short: bool, next: Forest): Forest {
    Elem(name, [Attr("Algorithm", uri)], short, End, next)
  }

  function QuoteFields(nonce: string, uuid: string, alg: Alg, hash: string, next: Forest): Forest {
    Leaf("nonce", nonce, false,
         Leaf("vm_instance_id", uuid, false,
              Leaf("digest_alg", AlgName(alg), false, Leaf("cumulative_hash", hash, false, next))))
  }

  function TransformsTree(short: bool, next: Forest): Forest {
    Elem("Transforms", [], false, AlgElem("Transform", Enveloped(), short, AlgElem("Transform", EXC_C14N, short, End)),
         next)
  }

  function ReferenceTree(alg: Alg, short: bool, digest: string): Forest {
    Elem("Reference", [Attr("URI", "")], false,
         TransformsTree(short,
                        AlgElem("DigestMethod", DigestUri(alg), short, Leaf("DigestValue", digest, false, End))), End)
  }

  function SignedInfoTree(attrs: seq<Attr>, alg: Alg, short: bool, digest: string, next: Forest): Forest {
    Elem("SignedInfo", attrs, false,
         AlgElem("CanonicalizationMethod", EXC_C14N, short,
                 AlgElem("SignatureMethod", SignatureUri(alg), short, ReferenceTree(alg, short, digest))), next)
  }

  function KeyInfoTree(cert: string): Forest {
    Elem("KeyInfo", [], false, Elem("X509Data", [], false, Leaf("X509Certificate", cert, false, End), End), End)
  }

  function SignatureTree(alg: Alg, digest: string, signature: string, cert: string): Forest {
    Elem("Signature", [Attr(XMLNS, DSIG)], false,
         SignedInfoTree([], alg, true, digest, Leaf("SignatureValue", signature, false, KeyInfoTree(cert))), End)
  }

  function ReportTree(nonce: string, uuid: string, alg: Alg, hash: string, digest: string, signature: string,
                      cert: string): Forest {
    Elem("VMQuote", [], false, QuoteFields(nonce, uuid, alg, hash, SignatureTree(alg, digest, signature, cert)), End)
  }

  function UsXmlTree(nonce: string, uuid: string, alg: Alg, hash: string): Forest {
    Elem("VMQuote", [], false, QuoteFields(nonce, uuid, alg, hash, End), End)
  }

  function UsCanTree(alg: Alg, digest: string): Forest {
    SignedInfoTree([Attr(XMLNS, DSIG)], alg, false, digest, End)
  }

  // ---- One step of printing, with what follows ---------------------------------------------------------------

  lemma LeafKids(content: string)
    ensures Print(if content == "" then End else Text(content, End)) == content
  {
    assert Print(End) == "";
    assert content != "" ==> Print(Text(content, End)) == content + Print(End);
  }

  lemma LeafThen(name: string, content: string, next: Forest, t: string)
    ensures Print(Leaf(name, content, false, next)) + t == Open(name) + (content + (CloseTag(name) + (Print(next) + t)))
  {
    hide Print, Open, CloseTag;
    LeafKids(content);
    NodeThen(name, if content == "" then End else Text(content, End), next, t);
  }

  lemma NodeThen(name: string, kids: Forest, next: Forest, t: string)
    ensures Print(Elem(name, [], false, kids, next)) + t
         == Open(name) + (Print(kids) + (CloseTag(name) + (Print(next) + t)))
  {
    assert PrintAttrs([]) == "";
    NodeText(name, "", Print(kids), Print(next), t);
    hide PrintAttrs, Open, CloseTag;
  }

  lemma NodeText(name: string, attrs: string, kids: string, next: string, t: string)
    ensures "<" + name + attrs + (">" + kids + "</" + name + ">") + next + t
         == ("<" + name + attrs + ">") + (kids + (CloseTag(name) + (next + t)))
    ensures "<" + name + "" + ">" == Open(name)
  {
  }

  lemma OneAttr(a: Attr)
    ensures PrintAttrs([a]) == PrintAttr(a)
  {
    assert [a][1..] == [];
    assert PrintAttrs([]) == "";
  }

  lemma NodeAttrThen(name: string, a: Attr, kids: Forest, next: Forest, t: string)
    ensures Print(Elem(name, [a], false, kids, next)) + t
         == "<" + name + PrintAttr(a) + ">" + (Print(kids) + (CloseTag(name) + (Print(next) + t)))
  {
    OneAttr(a);
    hide PrintAttrs, PrintAttr;
  }

  lemma ShortThen(name: string, uri: string, next: Forest, t: string)
    ensures Print(AlgElem(name, uri, true, next)) + t == Short(name, uri) + (Print(next) + t)
  {
    var a := Attr("Algorithm", uri);
    OneAttr(a);
    hide PrintAttrs;
    assert "<" + name + PrintAttr(a) + "/>" == Short(name, uri);
  }

  lemma LongThen(name: string, uri: string, next: Forest, t: string)
    ensures Print(AlgElem(name, uri, false, next)) + t == Long(name, uri) + (Print(next) + t)
  {
    var a := Attr("Algorithm", uri);
    OneAttr(a);
    hide PrintAttrs;
    assert Print(End) == "";
    assert "<" + name + PrintAttr(a) + (">" + "" + "</" + name + ">") == Long(name, uri);
  }

  // ---- The texts are the printed trees ---------------------------------------------------------------------

  lemma Nest2(a: string, b: string, r: string, t: string)
    ensures (a + (b + r)) + t == a + (b + (r + t))
  {
  }

  lemma Nest3(a: string, b: string, c: string, r: string, t: string)
    ensures (a + (b + (c + r))) + t == a + (b + (c + (r + t)))
  {
  }

  /** The four quoted values, followed by `t`. */
  function QuotedThen(nonce: string, uuid: string, alg: Alg, hash: string, t: string): string {
    Open("nonce") + (nonce + (CloseTag("nonce")
    + (Open("vm_instance_id") + (uuid + (CloseTag("vm_instance_id")
    + (Open("digest_alg") + (AlgName(alg) + (CloseTag("digest_alg")
    + (Open("cumulative_hash") + (hash + (CloseTag("cumulative_hash") + t)))))))))))
  }

  lemma QuoteFieldsThen(nonce: string, uuid: string, alg: Alg, hash: string, next: Forest, t: string)
    ensures Print(QuoteFields(nonce, uuid, alg, hash, next)) + t == QuotedThen(nonce, uuid, alg, hash, Print(next) + t)
  {
    hide Print, Open, CloseTag, Leaf, AlgName;
    var f4 := Leaf("cumulative_hash", hash, false, next);
    var f3 := Leaf("digest_alg", AlgName(alg), false, f4);
    var f2 := Leaf("vm_instance_id", uuid, false, f3);
    LeafThen("nonce", nonce, f2, t);
    LeafThen("vm_instance_id", uuid, f3, t);
    LeafThen("digest_alg", AlgName(alg), f4, t);
    LeafThen("cumulative_hash", hash, next, t);
  }

  lemma PrintEndThen(t: string)
    ensures Print(End) + t == t && t + "" == t
  {
  }

  lemma UsXmlIsPrinted(nonce: string, uuid: string, alg: Alg, hash: string)
    ensures PrintElem(UsXmlTree(nonce, uuid, alg, hash)) == UsXmlText(nonce, uuid, alg, hash)
  {
    var fields := QuoteFields(nonce, uuid, alg, hash, End);
    var tree := UsXmlTree(nonce, uuid, alg, hash);
    PrintAlone(tree);
    NodeThen("VMQuote", fields, End, "");
    QuoteFieldsThen(nonce, uuid, alg, hash, End, CloseTag("VMQuote"));
    PrintEndThen("");
    PrintEndThen(CloseTag("VMQuote"));
    PrintEndThen(Print(tree));
    hide Print, PrintElem, Open, CloseTag, Leaf, AlgName, QuoteFields;
  }

  function Tag(name: string, uri: string, short: bool): string { if short then Short(name, uri) else Long(name, uri) }

  /** Everything from `Reference` on in a `SignedInfo`, followed by `t`. */
  function ReferenceThen(alg: Alg, short: bool, digest: string, t: string): string {
    "<Reference URI=\"\">" + (Open("Transforms")
    + (Tag("Transform", Enveloped(), short) + (Tag("Transform", EXC_C14N, short) + (CloseTag("Transforms")
    + (Tag("DigestMethod", DigestUri(alg), short) + (Open("DigestValue") + (digest + (CloseTag("DigestValue")
    + (CloseTag("Reference") + t)))))))))
  }

  lemma AlgThen(name: string, uri: string, short: bool, next: Forest, t: string)
    ensures Print(AlgElem(name, uri, short, next)) + t == Tag(name, uri, short) + (Print(next) + t)
  {
    if short {
      ShortThen(name, uri, next, t);
    } else {
      LongThen(name, uri, next, t);
    }
  }

  lemma TransformsThen(short: bool, next: Forest, t: string)
    ensures Print(TransformsTree(short, next)) + t
         == Open("Transforms")
           + (Tag("Transform", Enveloped(), short)
              + (Tag("Transform", EXC_C14N, short) + (CloseTag("Transforms") + (Print(next) + t))))
  {
    hide Print, Open, CloseTag, AlgElem, Tag, Enveloped;
    var second := AlgElem("Transform", EXC_C14N, short, End);
    var rest := CloseTag("Transforms") + (Print(next) + t);
    NodeThen("Transforms", AlgElem("Transform", Enveloped(), short, second), next, t);
    AlgThen("Transform", Enveloped(), short, second, rest);
    AlgThen("Transform", EXC_C14N, short, End, rest);
    PrintEndThen(rest);
  }

  lemma UriAttr()
    ensures "<Reference" + PrintAttr(Attr("URI", "")) + ">" == "<Reference URI=\"\">"
    ensures "<" + "Reference" + PrintAttr(Attr("URI", "")) + ">" == "<Reference URI=\"\">"
  {
  }

  lemma ReferenceTreeThen(alg: Alg, short: bool, digest: string, t: string)
    ensures Print(ReferenceTree(alg, short, digest)) + t == ReferenceThen(alg, short, digest, t)
  {
    UriAttr();
    hide Print, Open, CloseTag, AlgElem, Tag, Enveloped, Leaf, TransformsTree, PrintAttr, DigestUri;
    var leaf := Leaf("DigestValue", digest, false, End);
    var dm := AlgElem("DigestMethod", DigestUri(alg), short, leaf);
    var rest := CloseTag("Reference") + t;
    NodeAttrThen("Reference", Attr("URI", ""), TransformsTree(short, dm), End, t);
    PrintEndThen(t);
    TransformsThen(short, dm, rest);
    AlgThen("DigestMethod", DigestUri(alg), short, leaf, rest);
    LeafThen("DigestValue", digest, End, rest);
    PrintEndThen(rest);
  }

  lemma Nest4(a: string, b: string, c: string, d: string, r: string, t: string)
    ensures (a + (b + (c + (d + r)))) + t == a + (b + (c + (d + (r + t))))
  {
    Nest2(a, b, c + (d + r), t);
    Nest2(c, d, r, t);
  }

  lemma Nest9(a: string, b: string, c: string, d: string, e: string, f: string, g: string, h: string, i: string,
              r: string, t: string)
    ensures (a + (b + (c + (d + (e + (f + (g + (h + (i + r))))))))) + t
         == a + (b + (c + (d + (e + (f + (g + (h + (i + (r + t)))))))))
  {
    Nest4(a, b, c, d, e + (f + (g + (h + (i + r)))), t);
    Nest4(e, f, g, h, i + r, t);
    assert (i + r) + t == i + (r + t);
  }

  /** What a `SignedInfo` without its start tag is, followed by `t`. */
  function SignedInfoThen(alg: Alg, short: bool, digest: string, t: string): string {
    Tag("CanonicalizationMethod", EXC_C14N, short)
    + (Tag("SignatureMethod", SignatureUri(alg), short) + ReferenceThen(alg, short, digest, CloseTag("SignedInfo") + t))
  }

  lemma SignedInfoKidsThen(alg: Alg, short: bool, digest: string, t: string)
    ensures Print(AlgElem("CanonicalizationMethod", EXC_C14N, short,
                          AlgElem("SignatureMethod", SignatureUri(alg), short, ReferenceTree(alg, short, digest))))
            + (CloseTag("SignedInfo") + t)
         == SignedInfoThen(alg, short, digest, t)
  {
    hide Print, CloseTag, AlgElem, Tag, SignatureUri, ReferenceTree, ReferenceThen;
    var reference := ReferenceTree(alg, short, digest);
    var signatureMethod := AlgElem("SignatureMethod", SignatureUri(alg), short, reference);
    var rest := CloseTag("SignedInfo") + t;
    AlgThen("CanonicalizationMethod", EXC_C14N, short, signatureMethod, rest);
    AlgThen("SignatureMethod", SignatureUri(alg), short, reference, rest);
    ReferenceTreeThen(alg, short, digest, rest);
  }

  lemma XmlnsAttr(name: string)
    ensures "<" + name + PrintAttr(Attr(XMLNS, DSIG)) + ">" == "<" + name + " xmlns=\"" + DSIG + "\">"
  {
  }

  lemma SignedInfoTag()
    ensures "<" + "SignedInfo" + " xmlns=\"" + DSIG + "\">" == "<SignedInfo xmlns=\"" + DSIG + "\">"
    ensures "<" + "Signature" + " xmlns=\"" + DSIG + "\">" == "<Signature xmlns=\"" + DSIG + "\">"
  {
    assert "<" + "SignedInfo" + " xmlns=\"" == "<SignedInfo xmlns=\"";
    assert "<" + "Signature" + " xmlns=\"" == "<Signature xmlns=\"";
  }

  /** The text that is signed is the printed `SignedInfo` with its namespace declared and no short tags. */
  lemma UsCanIsPrinted(alg: Alg, digest: string)
    ensures PrintElem(UsCanTree(alg, digest)) == UsCanText(alg, digest)
  {
    hide Print, PrintElem, Open, CloseTag, AlgElem, Long, SignatureUri, DigestUri, ReferenceTree, Enveloped, PrintAttr;
    var tree := UsCanTree(alg, digest);
    PrintAlone(tree);
    XmlnsAttr("SignedInfo");
    SignedInfoTag();
    NodeAttrThen("SignedInfo", Attr(XMLNS, DSIG), tree.kids, End, "");
    PrintEndThen("");
    SignedInfoKidsThen(alg, false, digest, "");
    PrintEndThen(Print(tree));
    Nest9("<SignedInfo xmlns=\"" + DSIG + "\">", Long("CanonicalizationMethod", EXC_C14N),
          Long("SignatureMethod", SignatureUri(alg)),
          "<Reference URI=\"\">", Open("Transforms"), Long("Transform", Enveloped()), Long("Transform", EXC_C14N),
          CloseTag("Transforms"), Long("DigestMethod", DigestUri(alg)), Open("DigestValue"), digest + UsCanEnd());
    Regroup(UsCanHead(alg), digest, UsCanEnd());
    PrintEndThen(CloseTag("SignedInfo"));
  }

  lemma Regroup(a: string, b: string, c: string)
    ensures a + b + c == a + (b + c)
  {
  }

  lemma QuoteTextThen(nonce: string, uuid: string, alg: Alg, hash: string, t: string)
    ensures QuoteText(nonce, uuid, alg, hash) + t == Open("VMQuote") + QuotedThen(nonce, uuid, alg, hash, t)
  {
    hide Open, CloseTag, AlgName;
    var last := Open("cumulative_hash") + (hash + CloseTag("cumulative_hash"));
    var third := Open("digest_alg") + (AlgName(alg) + (CloseTag("digest_alg") + last));
    var second := Open("vm_instance_id") + (uuid + (CloseTag("vm_instance_id") + third));
    Nest4(Open("VMQuote"), Open("nonce"), nonce, CloseTag("nonce"), second, t);
    Nest3(Open("vm_instance_id"), uuid, CloseTag("vm_instance_id"), third, t);
    Nest3(Open("digest_alg"), AlgName(alg), CloseTag("digest_alg"), last, t);
    Nest2(Open("cumulative_hash"), hash, CloseTag("cumulative_hash"), t);
  }

  lemma SignatureHeadThen(alg: Alg, digest: string, t: string)
    ensures SignatureHead(alg)
            + (digest + (CloseTag("DigestValue") + (CloseTag("Reference") + (CloseTag("SignedInfo") + t))))
         == "<Signature xmlns=\"" + DSIG + "\">" + (Open("SignedInfo") + SignedInfoThen(alg, true, digest, t))
  {
    hide Open, CloseTag, Short, SignatureUri, DigestUri, Enveloped;
    var x := digest + (CloseTag("DigestValue") + (CloseTag("Reference") + (CloseTag("SignedInfo") + t)));
    Nest9("<Signature xmlns=\"" + DSIG + "\">", Open("SignedInfo"), Short("CanonicalizationMethod", EXC_C14N),
          Short("SignatureMethod", SignatureUri(alg)),
          "<Reference URI=\"\">", Open("Transforms"), Short("Transform", Enveloped()), Short("Transform", EXC_C14N),
          CloseTag("Transforms"), Short("DigestMethod", DigestUri(alg)) + Open("DigestValue"), x);
    Regroup(Short("DigestMethod", DigestUri(alg)), Open("DigestValue"), x);
  }

  /** What stands behind `SignedInfo` in the report. */
  function TailText(signature: string, cert: string): string {
    Open("SignatureValue") + (signature + (CloseTag("SignatureValue") + (Open("KeyInfo") + (Open("X509Data")
    + (Open("X509Certificate") + (cert + ReportEnd()))))))
  }

  lemma TailIsPrinted(signature: string, cert: string)
    ensures Print(Leaf("SignatureValue", signature, false, KeyInfoTree(cert)))
            + (CloseTag("Signature") + CloseTag("VMQuote"))
         == TailText(signature, cert)
  {
    hide Print, Open, CloseTag, Leaf;
    var t := CloseTag("Signature") + CloseTag("VMQuote");
    var leaf := Leaf("X509Certificate", cert, false, End);
    var data := Elem("X509Data", [], false, leaf, End);
    LeafThen("SignatureValue", signature, KeyInfoTree(cert), t);
    NodeThen("KeyInfo", data, End, t);
    NodeThen("X509Data", leaf, End, CloseTag("KeyInfo") + t);
    LeafThen("X509Certificate", cert, End, CloseTag("X509Data") + (CloseTag("KeyInfo") + t));
    PrintEndThen(t);
    PrintEndThen(CloseTag("KeyInfo") + t);
    PrintEndThen(CloseTag("X509Data") + (CloseTag("KeyInfo") + t));
  }

  lemma SignatureTreeThen(alg: Alg, digest: string, signature: string, cert: string)
    ensures Print(SignatureTree(alg, digest, signature, cert)) + CloseTag("VMQuote")
         == "<Signature xmlns=\"" + DSIG + "\">"
           + (Open("SignedInfo") + SignedInfoThen(alg, true, digest, TailText(signature, cert)))
  {
    hide Print, Open, CloseTag, AlgElem, SignatureUri, ReferenceTree, Leaf, PrintAttr, TailText, SignedInfoThen;
    var tree := SignatureTree(alg, digest, signature, cert);
    var t := CloseTag("VMQuote");
    var tail := Leaf("SignatureValue", signature, false, KeyInfoTree(cert));
    XmlnsAttr("Signature");
    SignedInfoTag();
    NodeAttrThen("Signature", Attr(XMLNS, DSIG), tree.kids, End, t);
    PrintEndThen(t);
    NodeThen("SignedInfo", tree.kids.kids, tail, CloseTag("Signature") + t);
    TailIsPrinted(signature, cert);
    SignedInfoKidsThen(alg, true, digest, TailText(signature, cert));
  }

  lemma Regroup7(a: string, b: string, c: string, d: string, e: string, f: string, g: string, h: string)
    ensures (a + b) + c + d + e + f + g + h == a + (b + (c + (d + (e + (f + (g + h))))))
  {
    Regroup(a, b, c + (d + (e + (f + (g + h)))));
    var ab := a + b;
    Regroup(ab, c, d);
    Regroup(ab, c + d, e);
    Regroup(ab, c + d + e, f);
    Regroup(ab, c + d + e + f, g);
    Regroup(ab, c + d + e + f + g, h);
    Regroup(c + d + e + f, g, h);
    Regroup(c + d + e, f, g + h);
    Regroup(c + d, e, f + (g + h));
    Regroup(c, d, e + (f + (g + h)));
  }

  lemma AroundSignature(digest: string, signature: string, cert: string)
    ensures digest + (AfterDigest() + (signature + (AfterSignature() + (cert + ReportEnd()))))
         == digest
           + (CloseTag("DigestValue") + (CloseTag("Reference") + (CloseTag("SignedInfo") + TailText(signature, cert))))
  {
    hide Open, CloseTag;
    Nest3(CloseTag("DigestValue"), CloseTag("Reference"), CloseTag("SignedInfo"), Open("SignatureValue"),
          signature + (AfterSignature() + (cert + ReportEnd())));
    Nest3(CloseTag("SignatureValue"), Open("KeyInfo"), Open("X509Data"), Open("X509Certificate"), cert + ReportEnd());
  }

  /** The report's body: what is written after the declaration. */
  function BodyText(nonce: string, uuid: string, alg: Alg, hash: string, digest: string, signature: string,
                    cert: string): string {
    (QuoteText(nonce, uuid, alg, hash) + SignatureHead(alg)) + digest + AfterDigest() + signature + AfterSignature()
      + cert + ReportEnd()
  }

  lemma ReportBody(nonce: string, uuid: string, alg: Alg, hash: string, digest: string, signature: string, cert: string)
    ensures ReportText(nonce, uuid, alg, hash, digest, signature, cert)
         == DeclText(DECLARATION) + BodyText(nonce, uuid, alg, hash, digest, signature, cert)
  {
    hide DeclText, QuoteText, SignatureHead, AfterDigest, AfterSignature, ReportEnd;
    var decl, a, b := DeclText(DECLARATION), QuoteText(nonce, uuid, alg, hash) + SignatureHead(alg), AfterDigest();
    var c, d, e, f := signature, AfterSignature(), cert, ReportEnd();
    Regroup(decl, a, digest);
    Regroup(decl, a + digest, b);
    Regroup(decl, a + digest + b, c);
    Regroup(decl, a + digest + b + c, d);
    Regroup(decl, a + digest + b + c + d, e);
    Regroup(decl, a + digest + b + c + d + e, f);
  }

  /** The report is its declaration and the printed tree. */
  lemma ReportIsPrinted(nonce: string, uuid: string, alg: Alg, hash: string, digest: string, signature: string,
                        cert: string)
    ensures PrintElem(ReportTree(nonce, uuid, alg, hash, digest, signature, cert))
         == BodyText(nonce, uuid, alg, hash, digest, signature, cert)
  {
    var tree := ReportTree(nonce, uuid, alg, hash, digest, signature, cert);
    PrintAlone(tree);
    hide Print, PrintElem, Open, CloseTag, QuoteFields, SignatureTree, TailText, SignedInfoThen, QuotedThen, QuoteText,
         SignatureHead, AfterDigest, AfterSignature, ReportEnd;
    var sig := SignatureTree(alg, digest, signature, cert);
    var rest := "<Signature xmlns=\"" + DSIG + "\">"
      + (Open("SignedInfo") + SignedInfoThen(alg, true, digest, TailText(signature, cert)));
    NodeThen("VMQuote", tree.kids, End, "");
    PrintEndThen("");
    PrintEndThen(CloseTag("VMQuote"));
    PrintEndThen(Print(tree));
    QuoteFieldsThen(nonce, uuid, alg, hash, sig, CloseTag("VMQuote"));
    SignatureTreeThen(alg, digest, signature, cert);
    assert PrintElem(tree) == Open("VMQuote") + QuotedThen(nonce, uuid, alg, hash, rest);
    QuoteTextThen(nonce, uuid, alg, hash, rest);
    SignatureHeadThen(alg, digest, TailText(signature, cert));
    AroundSignature(digest, signature, cert);
    Regroup7(QuoteText(nonce, uuid, alg, hash), SignatureHead(alg), digest, AfterDigest(), signature, AfterSignature(),
             cert, ReportEnd());
  }

  // ---- The trees are well formed -------------------------------------------------------------------------

  lemma ShortNames()
    ensures IsName("VMQuote") && IsName("nonce") && IsName("vm_instance_id") && IsName("digest_alg")
            && IsName("cumulative_hash")
    ensures IsName("Signature") && IsName("SignedInfo") && IsName("Reference") && IsName("Transforms")
            && IsName("Transform")
  {
  }

  lemma LongNames()
    ensures IsName("CanonicalizationMethod") && IsName("SignatureMethod") && IsName("DigestMethod")
            && IsName("DigestValue")
    ensures IsName("SignatureValue") && IsName("KeyInfo") && IsName("X509Data") && IsName("X509Certificate")
  {
  }

  lemma AttrNames()
    ensures IsName("Algorithm") && IsName("URI") && IsName("version") && IsName("encoding") && IsName("standalone")
  {
  }

  lemma JoinValues(a: string, b: string)
    requires IsAttrValue(a) && IsAttrValue(b)
    ensures IsAttrValue(a + b)
  {
  }

  lemma SignatureNamespaces()
    ensures IsAttrValue(DSIG) && IsAttrValue(EXC_C14N)
  {
    assert IsAttrValue(W3) && IsAttrValue("2000/09/xmldsig#") && IsAttrValue("2001/10/xml-exc-c14n#");
    hide IsAttrValue;
    JoinValues(W3, "2000/09/xmldsig#");
    JoinValues(W3, "2001/10/xml-exc-c14n#");
  }

  lemma DigestNamespaces()
    ensures IsAttrValue(DSIG_MORE) && IsAttrValue(XMLENC)
  {
    assert IsAttrValue(W3) && IsAttrValue("2001/04/xmldsig-more#") && IsAttrValue("2001/04/xmlenc#");
    hide IsAttrValue;
    JoinValues(W3, "2001/04/xmldsig-more#");
    JoinValues(W3, "2001/04/xmlenc#");
  }

  lemma FragmentsAreValues()
    ensures IsAttrValue("enveloped-signature") && IsAttrValue("rsa-sha1") && IsAttrValue("rsa-sha256")
            && IsAttrValue("sha1") && IsAttrValue("sha256")
  {
  }

  lemma UrisAreValues(alg: Alg)
    ensures IsAttrValue(DSIG) && IsAttrValue(EXC_C14N) && IsAttrValue(Enveloped()) && IsAttrValue(SignatureUri(alg))
            && IsAttrValue(DigestUri(alg))
  {
    hide IsAttrValue;
    SignatureNamespaces();
    DigestNamespaces();
    FragmentsAreValues();
    JoinValues(DSIG, "enveloped-signature");
    JoinValues(DSIG, "rsa-sha1");
    JoinValues(DSIG_MORE, "rsa-sha256");
    JoinValues(DSIG, "sha1");
    JoinValues(XMLENC, "sha256");
  }

  lemma LeafIsWf(name: string, content: string, next: Forest)
    requires IsName(name) && IsMarkupFree(content) && Wf(next)
    ensures Wf(Leaf(name, content, false, next))
  {
  }

  lemma AlgIsWf(name: string, uri: string, short: bool, next: Forest)
    requires IsName(name) && IsAttrValue(uri) && Wf(next)
    ensures Wf(AlgElem(name, uri, short, next))
  {
    AttrNames();
  }

  lemma NodeIsWf(name: string, kids: Forest, next: Forest)
    requires IsName(name) && Wf(kids) && Wf(next)
    ensures Wf(Elem(name, [], false, kids, next))
  {
  }

  lemma NodeAttrIsWf(name: string, a: Attr, kids: Forest, next: Forest)
    requires IsName(name) && IsName(a.name) && IsAttrValue(a.value) && Wf(kids) && Wf(next)
    ensures Wf(Elem(name, [a], false, kids, next))
  {
  }

  lemma EndIsWf()
    ensures Wf(End)
  {
  }

  lemma SignedInfoKidsWf(alg: Alg, short: bool, digest: string)
    requires IsMarkupFree(digest)
    ensures Wf(AlgElem("CanonicalizationMethod", EXC_C14N, short,
                       AlgElem("SignatureMethod", SignatureUri(alg), short, ReferenceTree(alg, short, digest))))
  {
    ShortNames();
    LongNames();
    AttrNames();
    UrisAreValues(alg);
    EndIsWf();
    hide Wf, IsName, IsAttrValue, IsMarkupFree, AlgElem, Leaf, SignatureUri, DigestUri, Enveloped;
    var leaf := Leaf("DigestValue", digest, false, End);
    var dm := AlgElem("DigestMethod", DigestUri(alg), short, leaf);
    var second := AlgElem("Transform", EXC_C14N, short, End);
    LeafIsWf("DigestValue", digest, End);
    AlgIsWf("DigestMethod", DigestUri(alg), short, leaf);
    AlgIsWf("Transform", EXC_C14N, short, End);
    AlgIsWf("Transform", Enveloped(), short, second);
    NodeIsWf("Transforms", AlgElem("Transform", Enveloped(), short, second), dm);
    EmptyValue();
    NodeAttrIsWf("Reference", Attr("URI", ""), TransformsTree(short, dm), End);
    AlgIsWf("SignatureMethod", SignatureUri(alg), short, ReferenceTree(alg, short, digest));
    AlgIsWf("CanonicalizationMethod", EXC_C14N, short,
            AlgElem("SignatureMethod", SignatureUri(alg), short, ReferenceTree(alg, short, digest)));
  }

  lemma EmptyValue()
    ensures IsAttrValue("")
  {
  }

  lemma AlgNameIsText(alg: Alg)
    ensures IsMarkupFree(AlgName(alg))
  {
  }

  lemma QuoteFieldsWf(nonce: string, uuid: string, alg: Alg, hash: string, next: Forest)
    requires IsMarkupFree(nonce) && IsMarkupFree(uuid) && IsMarkupFree(hash) && Wf(next)
    ensures Wf(QuoteFields(nonce, uuid, alg, hash, next))
  {
    ShortNames();
    AlgNameIsText(alg);
    hide Wf, IsName, IsMarkupFree, Leaf, AlgName;
    var f4 := Leaf("cumulative_hash", hash, false, next);
    var f3 := Leaf("digest_alg", AlgName(alg), false, f4);
    LeafIsWf("cumulative_hash", hash, next);
    LeafIsWf("digest_alg", AlgName(alg), f4);
    LeafIsWf("vm_instance_id", uuid, f3);
    LeafIsWf("nonce", nonce, Leaf("vm_instance_id", uuid, false, f3));
  }

  lemma UsXmlWf(nonce: string, uuid: string, alg: Alg, hash: string)
    requires IsMarkupFree(nonce) && IsMarkupFree(uuid) && IsMarkupFree(hash)
    ensures Wf(UsXmlTree(nonce, uuid, alg, hash))
  {
    ShortNames();
    EndIsWf();
    QuoteFieldsWf(nonce, uuid, alg, hash, End);
    NodeIsWf("VMQuote", QuoteFields(nonce, uuid, alg, hash, End), End);
  }

  lemma UsCanWf(alg: Alg, digest: string)
    requires IsMarkupFree(digest)
    ensures Wf(UsCanTree(alg, digest))
  {
    ShortNames();
    UrisAreValues(alg);
    XmlnsIsName();
    EndIsWf();
    SignedInfoKidsWf(alg, false, digest);
    hide Wf, IsName, IsAttrValue;
    NodeAttrIsWf("SignedInfo", Attr(XMLNS, DSIG), UsCanTree(alg, digest).kids, End);
  }

  lemma ReportWf(nonce: string, uuid: string, alg: Alg, hash: string, digest: string, signature: string, cert: string)
    requires IsMarkupFree(nonce) && IsMarkupFree(uuid) && IsMarkupFree(hash)
    requires IsMarkupFree(digest) && IsMarkupFree(signature) && IsMarkupFree(cert)
    ensures Wf(ReportTree(nonce, uuid, alg, hash, digest, signature, cert))
  {
    ShortNames();
    LongNames();
    UrisAreValues(alg);
    XmlnsIsName();
    EndIsWf();
    SignedInfoKidsWf(alg, true, digest);
    hide Wf, IsName, IsAttrValue, IsMarkupFree, Leaf, AlgElem;
    var leaf := Leaf("X509Certificate", cert, false, End);
    LeafIsWf("X509Certificate", cert, End);
    NodeIsWf("X509Data", leaf, End);
    NodeIsWf("KeyInfo", Elem("X509Data", [], false, leaf, End), End);
    var tail := Leaf("SignatureValue", signature, false, KeyInfoTree(cert));
    LeafIsWf("SignatureValue", signature, KeyInfoTree(cert));
    var tree := SignatureTree(alg, digest, signature, cert);
    NodeIsWf("SignedInfo", tree.kids.kids, tail);
    NodeAttrIsWf("Signature", Attr(XMLNS, DSIG), tree.kids, End);
    QuoteFieldsWf(nonce, uuid, alg, hash, tree);
    NodeIsWf("VMQuote", QuoteFields(nonce, uuid, alg, hash, tree), End);
  }

  // ---- Parsing the texts -----------------------------------------------------------------------------------

  lemma DeclarationIsWf()
    ensures WfAttrs(DECLARATION)
  {
    AttrNames();
    hide IsName;
    assert IsAttrValue("1.0") && IsAttrValue("UTF-8") && IsAttrValue("yes");
  }

  lemma ParsePrinted(tree: Forest, attrs: seq<Attr>)
    requires tree.Elem? && tree.next == End && Wf(tree) && WfAttrs(attrs)
    ensures ParseDoc(PrintElem(tree)) == Some(tree)
    ensures ParseDoc(DeclText(attrs) + PrintElem(tree)) == Some(tree)
  {
    hide ParseDoc, PrintElem, Wf, WfAttrs, DeclText;
    ParseDocOf(attrs, "", tree, "");
    assert PrintElem(tree) + "" == PrintElem(tree) && "" + (PrintElem(tree) + "") == PrintElem(tree);
  }

  lemma NoAttrs()
    ensures WfAttrs([])
  {
  }

  lemma ParseUsXml(nonce: string, uuid: string, alg: Alg, hash: string)
    requires IsMarkupFree(nonce) && IsMarkupFree(uuid) && IsMarkupFree(hash)
    ensures ParseDoc(UsXmlText(nonce, uuid, alg, hash)) == Some(UsXmlTree(nonce, uuid, alg, hash))
  {
    hide ParseDoc, PrintElem, Wf, QuoteFields, UsXmlText, IsMarkupFree;
    UsXmlWf(nonce, uuid, alg, hash);
    UsXmlIsPrinted(nonce, uuid, alg, hash);
    NoAttrs();
    ParsePrinted(UsXmlTree(nonce, uuid, alg, hash), []);
  }

  lemma ParseReport(nonce: string, uuid: string, alg: Alg, hash: string, digest: string, signature: string,
                    cert: string)
    requires IsMarkupFree(nonce) && IsMarkupFree(uuid) && IsMarkupFree(hash)
    requires IsMarkupFree(digest) && IsMarkupFree(signature) && IsMarkupFree(cert)
    ensures ParseDoc(ReportText(nonce, uuid, alg, hash, digest, signature, cert))
         == Some(ReportTree(nonce, uuid, alg, hash, digest, signature, cert))
  {
    hide ParseDoc, PrintElem, Wf, WfAttrs, QuoteFields, SignatureTree, ReportText, BodyText, DeclText, IsMarkupFree;
    ReportWf(nonce, uuid, alg, hash, digest, signature, cert);
    ReportIsPrinted(nonce, uuid, alg, hash, digest, signature, cert);
    ReportBody(nonce, uuid, alg, hash, digest, signature, cert);
    DeclarationIsWf();
    ParsePrinted(ReportTree(nonce, uuid, alg, hash, digest, signature, cert), DECLARATION);
  }

  lemma ParseUsCan(alg: Alg, digest: string)
    requires IsMarkupFree(digest)
    ensures ParseDoc(UsCanText(alg, digest)) == Some(UsCanTree(alg, digest))
  {
    hide ParseDoc, PrintElem, Wf, UsCanText, AlgElem, IsMarkupFree, ReferenceTree;
    UsCanWf(alg, digest);
    UsCanIsPrinted(alg, digest);
    NoAttrs();
    ParsePrinted(UsCanTree(alg, digest), []);
  }

  // ---- What a verifier of the report does ------------------------------------------------------------------

  /** The first element of that name among siblings. */
  function Find(f: Forest, name: string): (e: Option<Forest>)
    ensures e.Some? ==> e.value.Elem?
  {
    match f
    case End => None
    case Text(_, next) => Find(next, name)
    case Elem(n, _, _, _, next) => if n == name then Some(f) else Find(next, name)
  }

  /** The enveloped-signature transform (section 6.6.4 of XML Signature Syntax and Processing). */
  function WithoutSignature(f: Forest, ns: string): Forest {
    match f
    case End => End
    case Text(chars, next) => Text(chars, WithoutSignature(next, ns))
    case Elem(name, attrs, short, kids, next) =>
      if name == "Signature" && DefaultNs(attrs, ns) == DSIG then WithoutSignature(next, ns)
      else Elem(name, attrs, short, kids, WithoutSignature(next, ns))
  }

  function WithoutEnvelope(root: Forest): Forest
    requires root.Elem?
  {
    Elem(root.name, root.attrs, root.short, WithoutSignature(root.kids, DefaultNs(root.attrs, "")), root.next)
  }

  /** The algorithms a verifier knows by their identifiers. */
  function DigestNamed(uri: string): Option<Alg> {
    if uri == W3 + "2000/09/xmldsig#sha1" then Some(Sha1)
    else if uri == W3 + "2001/04/xmlenc#sha256" then Some(Sha256) else None
  }

  function SignatureNamed(uri: string): Option<Alg> {
    if uri == W3 + "2000/09/xmldsig#rsa-sha1" then Some(Sha1)
    else if uri == W3 + "2001/04/xmldsig-more#rsa-sha256" then Some(Sha256) else None
  }

  function AlgorithmOf(e: Forest): string
    requires e.Elem?
  {
    if e.attrs != [] && e.attrs[0].name == "Algorithm" then e.attrs[0].value else ""
  }

  function FormNamed(uri: string): Option<Form> {
    if uri == C14N then Some(Inclusive) else if uri == EXC_C14N then Some(Exclusive) else None
  }

  function TransformsOf(f: Forest): seq<string> {
    match f
    case End => []
    case Text(_, next) => TransformsOf(next)
    case Elem(name, _, _, _, next) => (if name == "Transform" then [AlgorithmOf(f)] else []) + TransformsOf(next)
  }

  /**
   * The octets a list of transforms makes of a document: any number of times without its signature, then
   * canonicalized, in the inclusive form if the list names none (section 4.4.3.2 of XML Signature Syntax
   * and Processing).
   */
  function Transformed(root: Forest, transforms: seq<string>): Option<string>
    requires root.Elem?
    decreases |transforms|
  {
    if transforms == [] then Some(OctetsIn(Inclusive, root))
    else if transforms[0] == Enveloped() then Transformed(WithoutEnvelope(root), transforms[1..])
    else if transforms[1..] == [] && FormNamed(transforms[0]).Some?
      then Some(OctetsIn(FormNamed(transforms[0]).value, root))
    else None
  }

  /** The parts of a report a verifier looks up. */
  datatype Parts = Parts(root: Forest, signatureNs: string, signedInfo: Forest, signedForm: Option<Form>,
                         signatureAlg: Option<Alg>,
                         transforms: seq<string>, digestAlg: Option<Alg>, digestValue: string, signatureValue: string)

  function PartsOf(text: string): (p: Option<Parts>)
    ensures p.Some? ==> p.value.root.Elem? && p.value.signedInfo.Elem?
  {
    match ParseDoc(text)
    case None => None
    case Some(root) => PartsOfRoot(root)
  }

  function PartsOfRoot(root: Forest): (p: Option<Parts>)
    requires root.Elem?
    ensures p.Some? ==> p.value.root == root && p.value.signedInfo.Elem?
  {
    match Find(root.kids, "Signature")
    case None => None
    case Some(sig) =>
      match (Find(sig.kids, "SignedInfo"), Find(sig.kids, "SignatureValue"))
      case (Some(info), Some(value)) =>
        (match (Find(info.kids, "CanonicalizationMethod"), Find(info.kids, "SignatureMethod"),
                Find(info.kids, "Reference"))
         case (Some(canonMethod), Some(signatureMethod), Some(reference)) =>
           (match (Find(reference.kids, "Transforms"), Find(reference.kids, "DigestMethod"),
                   Find(reference.kids, "DigestValue"))
            case (Some(transforms), Some(digestMethod), Some(digest)) =>
              Some(Parts(root, DefaultNs(sig.attrs, DefaultNs(root.attrs, "")), info,
                         FormNamed(AlgorithmOf(canonMethod)), SignatureNamed(AlgorithmOf(signatureMethod)),
                         TransformsOf(transforms.kids), DigestNamed(AlgorithmOf(digestMethod)),
                         XmlRpc.Content(digest.kids), XmlRpc.Content(value.kids)))
            case (_, _, _) => None)
         case (_, _, _) => None)
      case (_, _) => None
  }

  /** The first element of that name below `e` contains the text. */
  predicate HasField(e: Forest, name: string, text: string) {
    e.Elem? && Find(e.kids, name).Some? && XmlRpc.Content(Find(e.kids, name).value.kids) == text
  }

  type OctetString = s: string | IsOctets(s)

  /** Reference validation: with the transforms and the algorithm it names, the digest of the document. */
  predicate ReferenceValid(text: string, h: (Alg, string) -> OctetString) {
    var p := PartsOf(text);
    && p.Some? && p.value.digestAlg.Some? && Transformed(p.value.root, p.value.transforms).Some?
    && p.value.digestValue == Encode(h(p.value.digestAlg.value, Transformed(p.value.root, p.value.transforms).value))
  }

  /** Signature validation: with the form and the algorithm it names, the signature of the canonical `SignedInfo`. */
  predicate SignatureValid(text: string, sign: (Alg, string) -> OctetString) {
    var p := PartsOf(text);
    && p.Some? && p.value.signatureAlg.Some? && p.value.signedForm.Some?
    && p.value.signatureValue
       == Encode(sign(p.value.signatureAlg.value,
                      SubtreeOctetsIn(p.value.signedForm.value, p.value.signedInfo, p.value.signatureNs)))
  }

  // ---- The report verifies -------------------------------------------------------------------------------

  lemma NamesDiffer()
    ensures "Signature" !in {"nonce", "vm_instance_id", "digest_alg", "cumulative_hash"}
    ensures "SignedInfo" != "SignatureValue" && "Reference" !in {"CanonicalizationMethod", "SignatureMethod"}
    ensures "DigestValue" !in {"Transforms", "DigestMethod"} && "Transforms" != "DigestMethod"
            && "CanonicalizationMethod" != "SignatureMethod"
    ensures "Algorithm" != XMLNS && "URI" != XMLNS
  {
    assert |"Signature"| == 9 && |"nonce"| == 5 && |"vm_instance_id"| == 14 && |"digest_alg"| == 10
      && |"cumulative_hash"| == 15;
    assert |"SignedInfo"| == 10 && |"SignatureValue"| == 14 && |"Reference"| == 9 && |"CanonicalizationMethod"| == 22
      && |"SignatureMethod"| == 15;
    assert |"DigestValue"| == 11 && |"Transforms"| == 10 && |"DigestMethod"| == 12 && |"Algorithm"| == 9
      && |"URI"| == 3 && |XMLNS| == 5;
  }

  /** Removing the signature from the report leaves the tree of the text that was hashed. */
  lemma EnvelopeRemoved(nonce: string, uuid: string, alg: Alg, hash: string, digest: string, signature: string,
                        cert: string)
    ensures WithoutEnvelope(ReportTree(nonce, uuid, alg, hash, digest, signature, cert))
         == UsXmlTree(nonce, uuid, alg, hash)
  {
    NamesDiffer();
    hide SignedInfoTree, KeyInfoTree, AlgName;
    var sig := SignatureTree(alg, digest, signature, cert);
    assert DefaultNs([Attr(XMLNS, DSIG)], "") == DSIG;
    assert DefaultNs([], "") == "";
    assert WithoutSignature(sig, "") == WithoutSignature(End, "") == End;
    var f4 := Leaf("cumulative_hash", hash, false, sig);
    var f3 := Leaf("digest_alg", AlgName(alg), false, f4);
    var f2 := Leaf("vm_instance_id", uuid, false, f3);
    hide SignatureTree;
    assert WithoutSignature(f4, "") == Leaf("cumulative_hash", hash, false, WithoutSignature(sig, ""));
    assert WithoutSignature(f3, "") == Leaf("digest_alg", AlgName(alg), false, WithoutSignature(f4, ""));
    assert WithoutSignature(f2, "") == Leaf("vm_instance_id", uuid, false, WithoutSignature(f3, ""));
  }

  /** The identifiers in the report name the algorithm that was used. */
  lemma UrisName(alg: Alg)
    ensures DigestNamed(DigestUri(alg)) == Some(alg) && SignatureNamed(SignatureUri(alg)) == Some(alg)
  {
    DigestUriIs(alg);
    SignatureUriIs(alg);
    assert |W3 + "2000/09/xmldsig#sha1"| == 38 && |W3 + "2001/04/xmlenc#sha256"| == 39;
    assert |W3 + "2000/09/xmldsig#rsa-sha1"| == 42 && |W3 + "2001/04/xmldsig-more#rsa-sha256"| == 49;
  }

  lemma DigestUriIs(alg: Alg)
    ensures DigestUri(alg) == if alg == Sha1 then W3 + "2000/09/xmldsig#sha1" else W3 + "2001/04/xmlenc#sha256"
  {
    assert "2000/09/xmldsig#" + "sha1" == "2000/09/xmldsig#sha1"
      && "2001/04/xmlenc#" + "sha256" == "2001/04/xmlenc#sha256";
    Regroup(W3, "2000/09/xmldsig#", "sha1");
    Regroup(W3, "2001/04/xmlenc#", "sha256");
  }

  lemma SignatureUriIs(alg: Alg)
    ensures SignatureUri(alg)
         == if alg == Sha1 then W3 + "2000/09/xmldsig#rsa-sha1" else W3 + "2001/04/xmldsig-more#rsa-sha256"
  {
    Regroup(W3, "2000/09/xmldsig#", "rsa-sha1");
    Regroup(W3, "2001/04/xmldsig-more#", "rsa-sha256");
    assert "2000/09/xmldsig#" + "rsa-sha1" == "2000/09/xmldsig#rsa-sha1";
    assert "2001/04/xmldsig-more#" + "rsa-sha256" == "2001/04/xmldsig-more#rsa-sha256";
  }

  lemma PartsFound(root: Forest, sig: Forest, info: Forest, value: Forest, cm: Forest, sm: Forest, reference: Forest,
                   ts: Forest, dm: Forest, digest: Forest)
    requires root.Elem? && sig.Elem? && info.Elem? && value.Elem? && cm.Elem? && sm.Elem? && reference.Elem? && ts.Elem?
    requires dm.Elem? && digest.Elem?
    requires Find(root.kids, "Signature") == Some(sig) && Find(sig.kids, "SignedInfo") == Some(info)
    requires Find(sig.kids, "SignatureValue") == Some(value)
    requires Find(info.kids, "CanonicalizationMethod") == Some(cm) && Find(info.kids, "SignatureMethod") == Some(sm)
    requires Find(info.kids, "Reference") == Some(reference) && Find(reference.kids, "Transforms") == Some(ts)
    requires Find(reference.kids, "DigestMethod") == Some(dm) && Find(reference.kids, "DigestValue") == Some(digest)
    ensures PartsOfRoot(root)
         == Some(Parts(root, DefaultNs(sig.attrs, DefaultNs(root.attrs, "")), info, FormNamed(AlgorithmOf(cm)),
                       SignatureNamed(AlgorithmOf(sm)), TransformsOf(ts.kids), DigestNamed(AlgorithmOf(dm)),
                       XmlRpc.Content(digest.kids), XmlRpc.Content(value.kids)))
  {
    hide Find, DefaultNs, XmlRpc.Content, FormNamed, SignatureNamed, DigestNamed, AlgorithmOf, TransformsOf;
  }

  /** What the report declares: the signature taken out, then the exclusive form. */
  function DeclaredTransforms(): seq<string> { [Enveloped(), EXC_C14N] }

  lemma FormUris()
    ensures FormNamed(EXC_C14N) == Some(Exclusive) && Enveloped() != EXC_C14N
  {
    assert |W3| == 18 && |DSIG| == 34 && |Enveloped()| == 53 && |EXC_C14N| == 39 && |C14N| == 47;
  }

  lemma TransformsFound(short: bool, next: Forest)
    ensures TransformsOf(TransformsTree(short, next).kids) == DeclaredTransforms()
  {
    var second := AlgElem("Transform", EXC_C14N, short, End);
    assert TransformsOf(End) == [];
    assert TransformsOf(second) == [EXC_C14N] + [];
  }

  lemma DeclaredOctets(root: Forest)
    requires root.Elem?
    ensures Transformed(root, DeclaredTransforms()) == Some(OctetsIn(Exclusive, WithoutEnvelope(root)))
  {
    FormUris();
    assert DeclaredTransforms()[1..] == [EXC_C14N] && [EXC_C14N][1..] == [];
    hide FormNamed, Enveloped, WithoutEnvelope, OctetsIn;
  }

  /** The `SignedInfo` element in its place in the report. */
  function InfoOf(alg: Alg, digest: string, signature: string, cert: string): Forest {
    SignedInfoTree([], alg, true, digest, Leaf("SignatureValue", signature, false, KeyInfoTree(cert)))
  }

  lemma FindInSignature(alg: Alg, digest: string, signature: string, cert: string)
    ensures var kids := SignatureTree(alg, digest, signature, cert).kids;
            && Find(kids, "SignedInfo") == Some(InfoOf(alg, digest, signature, cert))
            && Find(kids, "SignatureValue") == Some(Leaf("SignatureValue", signature, false, KeyInfoTree(cert)))
    ensures DefaultNs(SignatureTree(alg, digest, signature, cert).attrs, DefaultNs([], "")) == DSIG
  {
    NamesDiffer();
    hide ReferenceTree, KeyInfoTree, AlgElem;
    FindSecond(InfoOf(alg, digest, signature, cert), "SignatureValue");
    FindLeaf("SignatureValue", signature, KeyInfoTree(cert));
  }

  lemma ReportParts(nonce: string, uuid: string, alg: Alg, hash: string, digest: string, signature: string,
                    cert: string)
    requires IsMarkupFree(nonce) && IsMarkupFree(uuid) && IsMarkupFree(hash)
    requires IsMarkupFree(digest) && IsMarkupFree(signature) && IsMarkupFree(cert)
    ensures PartsOf(ReportText(nonce, uuid, alg, hash, digest, signature, cert))
         == Some(Parts(ReportTree(nonce, uuid, alg, hash, digest, signature, cert), DSIG,
                       InfoOf(alg, digest, signature, cert),
                       Some(Exclusive), Some(alg), DeclaredTransforms(), Some(alg), digest, signature))
  {
    var tree := ReportTree(nonce, uuid, alg, hash, digest, signature, cert);
    hide ParseDoc, ReportText, IsMarkupFree, PartsOfRoot, XmlRpc.Content, QuoteFields, ReferenceTree, KeyInfoTree,
         Leaf, Find, DefaultNs,
         AlgElem, FormNamed, SignatureNamed, DigestNamed, AlgorithmOf, SignatureUri, DigestUri, TransformsOf,
         TransformsTree, DeclaredTransforms;
    ParseReport(nonce, uuid, alg, hash, digest, signature, cert);
    var leaf := Leaf("DigestValue", digest, false, End);
    var value := Leaf("SignatureValue", signature, false, KeyInfoTree(cert));
    var reference := ReferenceTree(alg, true, digest);
    var sm := AlgElem("SignatureMethod", SignatureUri(alg), true, reference);
    var dm := AlgElem("DigestMethod", DigestUri(alg), true, leaf);
    var cm, ts := AlgElem("CanonicalizationMethod", EXC_C14N, true, sm), TransformsTree(true, dm);
    FindSignature(nonce, uuid, alg, hash, SignatureTree(alg, digest, signature, cert));
    FindInSignature(alg, digest, signature, cert);
    FindReference(alg, true, digest);
    FindDigest(alg, true, digest);
    XmlRpc.LeafContent("DigestValue", digest, false, End);
    XmlRpc.LeafContent("SignatureValue", signature, false, KeyInfoTree(cert));
    LeafIsElem("DigestValue", digest, End);
    LeafIsElem("SignatureValue", signature, KeyInfoTree(cert));
    NamesAlgorithm("CanonicalizationMethod", EXC_C14N, true, sm);
    NamesAlgorithm("SignatureMethod", SignatureUri(alg), true, reference);
    NamesAlgorithm("DigestMethod", DigestUri(alg), true, leaf);
    UrisName(alg);
    FormUris();
    TransformsFound(true, dm);
    PartsFound(tree, SignatureTree(alg, digest, signature, cert), InfoOf(alg, digest, signature, cert), value, cm, sm,
               reference, ts, dm, leaf);
  }

  lemma LeafFound(e: Forest, name: string, text: string, next: Forest)
    requires e.Elem? && Find(e.kids, name) == Find(Leaf(name, text, false, next), name)
    ensures HasField(e, name, text)
  {
    FindLeaf(name, text, next);
    XmlRpc.LeafContent(name, text, false, next);
    LeafIsElem(name, text, next);
    hide Find, Leaf, XmlRpc.Content;
  }

  lemma FindPast(name: string, text: string, next: Forest, other: string)
    requires name != other
    ensures Find(Leaf(name, text, false, next), other) == Find(next, other)
  {
  }

  lemma QuoteNamesDiffer()
    ensures "nonce" != "vm_instance_id" && "nonce" != "digest_alg" && "nonce" != "cumulative_hash"
    ensures "vm_instance_id" != "digest_alg" && "vm_instance_id" != "cumulative_hash"
            && "digest_alg" != "cumulative_hash"
  {
    assert |"nonce"| == 5 && |"vm_instance_id"| == 14 && |"digest_alg"| == 10 && |"cumulative_hash"| == 15;
  }

  /** A reader finds the nonce, the VM, the name of the hash and the VM's measured hash. */
  lemma QuotedValues(nonce: string, uuid: string, alg: Alg, hash: string, digest: string, signature: string,
                     cert: string)
    ensures var root := ReportTree(nonce, uuid, alg, hash, digest, signature, cert);
            && HasField(root, "nonce", nonce) && HasField(root, "vm_instance_id", uuid)
            && HasField(root, "digest_alg", if alg == Sha256 then "sha256" else "sha1")
            && HasField(root, "cumulative_hash", hash)
  {
    QuoteNamesDiffer();
    var sig := SignatureTree(alg, digest, signature, cert);
    var f4 := Leaf("cumulative_hash", hash, false, sig);
    var f3 := Leaf("digest_alg", AlgName(alg), false, f4);
    var f2 := Leaf("vm_instance_id", uuid, false, f3);
    var root := ReportTree(nonce, uuid, alg, hash, digest, signature, cert);
    assert root.Elem? && root.kids == Leaf("nonce", nonce, false, f2);
    hide Leaf, Find, HasField, SignatureTree, ReportTree;
    FindPast("nonce", nonce, f2, "vm_instance_id");
    FindPast("nonce", nonce, f2, "digest_alg");
    FindPast("nonce", nonce, f2, "cumulative_hash");
    FindPast("vm_instance_id", uuid, f3, "digest_alg");
    FindPast("vm_instance_id", uuid, f3, "cumulative_hash");
    FindPast("digest_alg", AlgName(alg), f4, "cumulative_hash");
    LeafFound(root, "nonce", nonce, f2);
    LeafFound(root, "vm_instance_id", uuid, f3);
    LeafFound(root, "digest_alg", AlgName(alg), f4);
    LeafFound(root, "cumulative_hash", hash, sig);
  }

  lemma NamesAlgorithm(name: string, uri: string, short: bool, next: Forest)
    ensures AlgElem(name, uri, short, next).Elem? && AlgorithmOf(AlgElem(name, uri, short, next)) == uri
  {
  }

  lemma LeafIsElem(name: string, content: string, next: Forest)
    ensures Leaf(name, content, false, next).Elem?
  {
  }

  lemma FindSignature(nonce: string, uuid: string, alg: Alg, hash: string, sig: Forest)
    requires sig.Elem? && sig.name == "Signature"
    ensures Find(QuoteFields(nonce, uuid, alg, hash, sig), "Signature") == Some(sig)
  {
    NamesDiffer();
    hide AlgName;
    var f4 := Leaf("cumulative_hash", hash, false, sig);
    var f3 := Leaf("digest_alg", AlgName(alg), false, f4);
    assert Find(f4, "Signature") == Find(sig, "Signature");
    assert Find(f3, "Signature") == Find(f4, "Signature");
  }

  lemma FindReference(alg: Alg, short: bool, digest: string)
    ensures var kids := SignedInfoTree([], alg, short, digest, End).kids;
            var reference := ReferenceTree(alg, short, digest);
            && Find(kids, "Reference") == Some(reference)
            && Find(kids, "SignatureMethod") == Some(AlgElem("SignatureMethod", SignatureUri(alg), short, reference))
            && Find(kids, "CanonicalizationMethod")
               == Some(AlgElem("CanonicalizationMethod", EXC_C14N, short,
                               AlgElem("SignatureMethod", SignatureUri(alg), short, reference)))
  {
    NamesDiffer();
    hide SignatureUri, TransformsTree;
    var reference := ReferenceTree(alg, short, digest);
    assert Find(AlgElem("SignatureMethod", SignatureUri(alg), short, reference), "Reference")
      == Find(reference, "Reference");
  }

  lemma FindDigest(alg: Alg, short: bool, digest: string)
    ensures var kids := ReferenceTree(alg, short, digest).kids; var leaf := Leaf("DigestValue", digest, false, End);
            && Find(kids, "DigestValue") == Some(leaf)
            && Find(kids, "DigestMethod") == Some(AlgElem("DigestMethod", DigestUri(alg), short, leaf))
            && Find(kids, "Transforms")
               == Some(TransformsTree(short, AlgElem("DigestMethod", DigestUri(alg), short, leaf)))
            && TransformsTree(short, AlgElem("DigestMethod", DigestUri(alg), short, leaf)).Elem?
  {
    NamesDiffer();
    hide DigestUri, Enveloped;
    var leaf := Leaf("DigestValue", digest, false, End);
    var dm := AlgElem("DigestMethod", DigestUri(alg), short, leaf);
    assert Find(dm, "DigestValue") == Find(leaf, "DigestValue");
    assert Find(TransformsTree(short, dm), "DigestValue") == Find(dm, "DigestValue");
    assert Find(TransformsTree(short, dm), "DigestMethod") == Find(dm, "DigestMethod");
  }

  lemma FindSecond(e: Forest, name: string)
    requires e.Elem? && e.name != name
    ensures Find(e, name) == Find(e.next, name)
  {
  }

  lemma FindLeaf(name: string, content: string, next: Forest)
    ensures Find(Leaf(name, content, false, next), name) == Some(Leaf(name, content, false, next))
  {
  }

  // The canonical form of the report's `SignedInfo` is the text that was signed.

  lemma CanonAlg(name: string, uri: string, short: bool, next: Forest, ns: string)
    ensures Canon(AlgElem(name, uri, short, next), ns, ns) == AlgElem(name, uri, false, Canon(next, ns, ns))
  {
    NamesDiffer();
    OnePlain(Attr("Algorithm", uri), ns);
  }

  lemma OnePlain(a: Attr, ns: string)
    requires a.name != XMLNS
    ensures DefaultNs([a], ns) == ns && CanonAttrs([a], ns, ns) == [a]
  {
    assert [a][1..] == [];
    assert Plain([]) == [];
    assert DefaultNs([], ns) == ns;
  }

  lemma CanonNode(name: string, kids: Forest, next: Forest, ns: string)
    ensures Canon(Elem(name, [], false, kids, next), ns, ns)
         == Elem(name, [], false, Canon(kids, ns, ns), Canon(next, ns, ns))
  {
    assert DefaultNs([], ns) == ns && Plain([]) == [];
  }

  lemma CanonLeaf(name: string, content: string, next: Forest, ns: string)
    ensures Canon(Leaf(name, content, false, next), ns, ns) == Leaf(name, content, false, Canon(next, ns, ns))
  {
    assert Canon(End, ns, ns) == End;
    CanonNode(name, if content == "" then End else Text(content, End), next, ns);
  }

  lemma CanonReference(alg: Alg, digest: string, ns: string)
    ensures Canon(ReferenceTree(alg, true, digest), ns, ns) == ReferenceTree(alg, false, digest)
  {
    NamesDiffer();
    OnePlain(Attr("URI", ""), ns);
    assert Canon(End, ns, ns) == End;
    var leaf := Leaf("DigestValue", digest, false, End);
    var dm := AlgElem("DigestMethod", DigestUri(alg), true, leaf);
    var second := AlgElem("Transform", EXC_C14N, true, End);
    CanonLeaf("DigestValue", digest, End, ns);
    CanonAlg("DigestMethod", DigestUri(alg), true, leaf, ns);
    CanonAlg("Transform", EXC_C14N, true, End, ns);
    CanonAlg("Transform", Enveloped(), true, second, ns);
    CanonNode("Transforms", AlgElem("Transform", Enveloped(), true, second), dm, ns);
    hide Leaf, AlgElem, DigestUri, Enveloped, CanonAttrs, DefaultNs;
  }

  lemma CanonSignedInfo(alg: Alg, digest: string, next: Forest)
    ensures SubtreeOctets(SignedInfoTree([], alg, true, digest, next), DSIG) == PrintElem(UsCanTree(alg, digest))
  {
    assert DefaultNs([], DSIG) == DSIG && Plain([]) == [];
    assert CanonAttrs([], DSIG, "") == [Attr(XMLNS, DSIG)];
    var reference := ReferenceTree(alg, true, digest);
    CanonReference(alg, digest, DSIG);
    CanonAlg("SignatureMethod", SignatureUri(alg), true, reference, DSIG);
    CanonAlg("CanonicalizationMethod", EXC_C14N, true, AlgElem("SignatureMethod", SignatureUri(alg), true, reference),
             DSIG);
    hide AlgElem, ReferenceTree, CanonAttrs, DefaultNs, SignatureUri;
  }

  /** The octets that are hashed, in the inclusive form, are those that the transforms in the report give. */
  lemma HashedOctetsAgree(nonce: string, uuid: string, alg: Alg, hash: string, digest: string, signature: string,
                          cert: string)
    requires IsMarkupFree(nonce) && IsMarkupFree(uuid) && IsMarkupFree(hash)
    requires IsMarkupFree(digest) && IsMarkupFree(signature) && IsMarkupFree(cert)
    ensures var us := ParseDoc(UsXmlText(nonce, uuid, alg, hash));
            var report := ParseDoc(ReportText(nonce, uuid, alg, hash, digest, signature, cert));
            && us.Some? && report.Some?
            && Transformed(report.value, DeclaredTransforms()) == Some(OctetsIn(Inclusive, us.value))
  {
    hide ParseDoc, UsXmlText, ReportText, IsMarkupFree, QuoteFields, Transformed, DeclaredTransforms, Wf, OctetsIn,
         DocOctets, WithoutEnvelope;
    DeclaredOctets(ReportTree(nonce, uuid, alg, hash, digest, signature, cert));
    UsXmlWf(nonce, uuid, alg, hash);
    OctetsAgree(Inclusive, UsXmlTree(nonce, uuid, alg, hash));
    OctetsAgree(Exclusive, UsXmlTree(nonce, uuid, alg, hash));
    ParseUsXml(nonce, uuid, alg, hash);
    ParseReport(nonce, uuid, alg, hash, digest, signature, cert);
    EnvelopeRemoved(nonce, uuid, alg, hash, digest, signature, cert);
  }

  lemma SignedInfoWf(alg: Alg, digest: string)
    requires IsMarkupFree(digest)
    ensures Wf(SignedInfoTree([], alg, true, digest, End))
  {
    ShortNames();
    EndIsWf();
    SignedInfoKidsWf(alg, true, digest);
    hide Wf, IsName, IsMarkupFree;
    NodeIsWf("SignedInfo", SignedInfoTree([], alg, true, digest, End).kids, End);
  }

  /**
   * The text that is signed is, octet for octet, the `SignedInfo` of the report in the exclusive form it
   * declares; and the inclusive form, which is what is computed, leaves it as it is.
   */
  lemma SignedOctetsAgree(alg: Alg, digest: string, next: Forest)
    requires IsMarkupFree(digest)
    ensures UsCanText(alg, digest) == SubtreeOctetsIn(Exclusive, SignedInfoTree([], alg, true, digest, next), DSIG)
    ensures ParseDoc(UsCanText(alg, digest)).Some?
    ensures OctetsIn(Inclusive, ParseDoc(UsCanText(alg, digest)).value) == UsCanText(alg, digest)
  {
    hide ParseDoc, UsCanText, IsMarkupFree, Wf, OctetsIn, DocOctets, SubtreeOctets, SubtreeOctetsIn;
    SignedInfoWf(alg, digest);
    SubtreeOctetsAgree(Exclusive, SignedInfoTree([], alg, true, digest, next), DSIG);
    UsCanWf(alg, digest);
    OctetsAgree(Inclusive, UsCanTree(alg, digest));
    CanonSignedInfo(alg, digest, next);
    UsCanIsPrinted(alg, digest);
    ParseUsCan(alg, digest);
    CanonOfUsCan(alg, digest);
  }

  lemma CanonOfUsCan(alg: Alg, digest: string)
    ensures DocOctets(UsCanTree(alg, digest)) == PrintElem(UsCanTree(alg, digest))
  {
    var info := SignedInfoTree([], alg, true, digest, End);
    CanonSignedInfoTree(alg, digest);
    CanonStable(info, DSIG, "");
  }

  lemma CanonSignedInfoTree(alg: Alg, digest: string)
    ensures Canon(SignedInfoTree([], alg, true, digest, End), DSIG, "") == UsCanTree(alg, digest)
  {
    assert DefaultNs([], DSIG) == DSIG && Plain([]) == [];
    assert CanonAttrs([], DSIG, "") == [Attr(XMLNS, DSIG)];
    assert Canon(End, DSIG, "") == End;
    var reference := ReferenceTree(alg, true, digest);
    CanonReference(alg, digest, DSIG);
    CanonAlg("SignatureMethod", SignatureUri(alg), true, reference, DSIG);
    CanonAlg("CanonicalizationMethod", EXC_C14N, true, AlgElem("SignatureMethod", SignatureUri(alg), true, reference),
             DSIG);
    hide AlgElem, ReferenceTree, CanonAttrs, DefaultNs, SignatureUri;
  }
}

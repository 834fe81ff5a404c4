/** Writing the signed report, file by file, and that what is written verifies. */
module ReportWriter {
  import opened CLib
  import opened Base64
  import opened XmlText
  import opened CanonicalForms
  import opened SignedReport
  import opened VmTable
  import XmlRpc

  const XMLSTR_SIZE: nat := 8192
  const SIGNATURE_MAX: nat := 256

  /** The digest and the signature that belong into a report. */
  function DigestOf(nonce: string, uuid: string, alg: Alg, hash: string, h: (Alg, string) -> OctetString): string {
    Encode(h(alg, OctetsIn(Inclusive, UsXmlTree(nonce, uuid, alg, hash))))
  }

  function SignatureOf(alg: Alg, digest: string, sign: (Alg, string) -> OctetString): string {
    Encode(sign(alg, UsCanText(alg, digest)))
  }

  /** A report verifies exactly when digest and signature are those of the two canonical texts. */
  lemma ReportVerifiesIff(nonce: string, uuid: string, alg: Alg, hash: string, digest: string, signature: string,
                          cert: string, h: (Alg, string) -> OctetString, sign: (Alg, string) -> OctetString)
    requires IsMarkupFree(nonce) && IsMarkupFree(uuid) && IsMarkupFree(hash)
    requires IsMarkupFree(digest) && IsMarkupFree(signature) && IsMarkupFree(cert)
    ensures ReferenceValid(ReportText(nonce, uuid, alg, hash, digest, signature, cert), h) <==>
            digest == DigestOf(nonce, uuid, alg, hash, h)
    ensures SignatureValid(ReportText(nonce, uuid, alg, hash, digest, signature, cert), sign) <==>
            signature == SignatureOf(alg, digest, sign)
  {
    hide PartsOf, ReportText, IsMarkupFree, UsCanText, Encode, OctetsIn, SubtreeOctetsIn, QuoteFields, UsXmlTree,
         ReportTree, Transformed, DeclaredTransforms, ParseDoc, UsXmlText;
    ReportParts(nonce, uuid, alg, hash, digest, signature, cert);
    HashedOctetsAgree(nonce, uuid, alg, hash, digest, signature, cert);
    ParseUsXml(nonce, uuid, alg, hash);
    ParseReport(nonce, uuid, alg, hash, digest, signature, cert);
    SignedOctetsAgree(alg, digest, Leaf("SignatureValue", signature, false, KeyInfoTree(cert)));
  }

  /** At most 256 bytes of the signature file are read. */
  function Cut(signature: OctetString): OctetString { signature[..Min(|signature|, SIGNATURE_MAX)] }

  lemma SignatureIsText(alg: Alg, digest: string, sign: (Alg, string) -> OctetString)
    ensures IsMarkupFree(Encode(Cut(sign(alg, UsCanText(alg, digest)))))
  {
    hide Encode, UsCanText, IsMarkupFree;
    XmlRpc.EncodeIsMarkupFree(Cut(sign(alg, UsCanText(alg, digest))));
  }

  /** A report with the signature as it is read back verifies exactly when no byte of it was cut off. */
  lemma ReadSignatureValidIff(nonce: string, uuid: string, alg: Alg, hash: string, digest: string, cert: string,
                              sign: (Alg, string) -> OctetString)
    requires IsMarkupFree(nonce) && IsMarkupFree(uuid) && IsMarkupFree(hash) && IsMarkupFree(digest)
             && IsMarkupFree(cert)
    ensures var signed := sign(alg, UsCanText(alg, digest));
            SignatureValid(ReportText(nonce, uuid, alg, hash, digest, Encode(Cut(signed)), cert), sign) <==>
              |signed| <= SIGNATURE_MAX
  {
    var signed := sign(alg, UsCanText(alg, digest));
    SignatureIsText(alg, digest, sign);
    ReportVerifiesIff(nonce, uuid, alg, hash, digest, Encode(Cut(signed)), cert, (a, x) => "", sign);
    hide Encode, UsCanText, SignatureValid, ReportText, IsMarkupFree;
    DecodeOfEncode(signed);
    DecodeOfEncode(Cut(signed));
    if |signed| <= SIGNATURE_MAX {
      assert Cut(signed) == signed;
    } else {
      assert |Cut(signed)| != |signed|;
    }
  }

  /** A signature of 257 bytes is one that does not survive. */
  lemma LongSignatureFails(nonce: string, uuid: string, alg: Alg, hash: string, digest: string, cert: string)
    requires IsMarkupFree(nonce) && IsMarkupFree(uuid) && IsMarkupFree(hash) && IsMarkupFree(digest)
             && IsMarkupFree(cert)
    ensures var signed: OctetString := Zeros(SIGNATURE_MAX + 1);
            !SignatureValid(ReportText(nonce, uuid, alg, hash, digest, Encode(Cut(signed)), cert), (a, x) => signed)
  {
    hide Encode, SignatureValid, ReportText, IsMarkupFree;
    var signed: OctetString := Zeros(SIGNATURE_MAX + 1);
    ReadSignatureValidIff(nonce, uuid, alg, hash, digest, cert, (a, x) => signed);
  }

  /** `snprintf` into a buffer of `n` bytes. */
  function SnPrintf(n: nat, s: string): string
    requires n > 0
  {
    s[..Min(|s|, n - 1)]
  }

  lemma HeadFits(nonce: string, uuid: string, alg: Alg, hash: string)
    requires |nonce| < MAX_LEN && |uuid| < UUID_SIZE && |hash| < MANIFEST_HASH_SIZE
    ensures |QuoteText(nonce, uuid, alg, hash) + SignatureHead(alg)| < XMLSTR_SIZE
    ensures |UsXmlText(nonce, uuid, alg, hash)| < XMLSTR_SIZE
  {
    HeadLength(alg);
    hide SignatureHead;
    assert |AlgName(alg)| <= 6;
  }

  lemma HeadLength(alg: Alg)
    ensures |SignatureHead(alg)| < 2000
  {
    assert |SignatureUri(alg)| <= 60 && |DigestUri(alg)| <= 60;
    hide SignatureUri, DigestUri;
  }

  /** `xmlstr` takes all of `s`. */
  lemma Whole(s: string)
    requires |s| < XMLSTR_SIZE
    ensures SnPrintf(XMLSTR_SIZE, s) == s
  {
  }

  lemma UsCanFits(alg: Alg)
    ensures |UsCanHead(alg)| < XMLSTR_SIZE
  {
    assert |SignatureUri(alg)| <= 60 && |DigestUri(alg)| <= 60;
    hide SignatureUri, DigestUri;
  }

  lemma EndsFit()
    ensures |UsCanEnd()| < XMLSTR_SIZE && |AfterDigest()| < XMLSTR_SIZE
    ensures |AfterSignature()| < XMLSTR_SIZE && |ReportEnd()| < XMLSTR_SIZE
  {
  }

  lemma DeclarationLength()
    ensures |DeclText(DECLARATION)| < 100
  {
    var d1, d2 := DECLARATION[1..], DECLARATION[1..][1..];
    assert d1[0] == DECLARATION[1] && d2[0] == DECLARATION[2] && d2[1..] == [];
    assert |PrintAttrs(d2)| < 30;
    assert |PrintAttrs(d1)| < 60;
  }

  /** Which files could be opened, which octets hashed, and how the two commands exited. */
  datatype Steps = Steps(reportOpens: bool, usXmlOpens: bool, documentHashed: bool, usCanOpens: bool,
                         passwordOpens: bool, signedInfoHashed: bool, hashInputOpens: bool, signStatus: int,
                         signatureOpens: bool, reportReopens: bool, certStatus: int)

  predicate AllSucceed(s: Steps) {
    && s.reportOpens && s.usXmlOpens && s.documentHashed && s.usCanOpens && s.passwordOpens && s.signedInfoHashed
    && s.hashInputOpens && s.signStatus == 0 && s.signatureOpens && s.reportReopens && s.certStatus == 0
  }

  /** The files of one VM's report directory. */
  class ReportDirectory {
    var signedReport: string
    var usXml: string
    var usCan: string

    constructor ()
      ensures signedReport == usXml == usCan == ""
    {
      signedReport, usXml, usCan := "", "", "";
    }

    /** The report up to where the digest goes, and the text that is hashed. */
    method WriteQuote(nonce: string, uuid: string, manifestHash: string, alg: Alg)
      requires |nonce| < MAX_LEN && |uuid| < UUID_SIZE && |manifestHash| < MANIFEST_HASH_SIZE
      modifies this
      ensures signedReport == DeclText(DECLARATION) + (QuoteText(nonce, uuid, alg, manifestHash) + SignatureHead(alg))
      ensures usXml == UsXmlText(nonce, uuid, alg, manifestHash) && usCan == old(usCan)
    {
      hide QuoteText, SignatureHead, UsXmlText, DeclText, SnPrintf;
      HeadFits(nonce, uuid, alg, manifestHash);
      DeclarationLength();
      Whole(DeclText(DECLARATION));
      signedReport := SnPrintf(XMLSTR_SIZE, DeclText(DECLARATION));
      var xmlstr := QuoteText(nonce, uuid, alg, manifestHash) + SignatureHead(alg);
      Whole(xmlstr);
      signedReport := signedReport + SnPrintf(XMLSTR_SIZE, xmlstr);
      Whole(UsXmlText(nonce, uuid, alg, manifestHash));
      usXml := SnPrintf(XMLSTR_SIZE, UsXmlText(nonce, uuid, alg, manifestHash));
    }

    /** The digest into the report, up to where the signature goes. */
    method WriteDigest(digest: string)
      modifies this
      ensures signedReport == old(signedReport) + digest + AfterDigest()
      ensures usCan == old(usCan) && usXml == old(usXml)
    {
      hide AfterDigest, SnPrintf;
      EndsFit();
      signedReport := signedReport + digest;
      Whole(AfterDigest());
      signedReport := signedReport + SnPrintf(XMLSTR_SIZE, AfterDigest());
    }

    /** The text that is signed. */
    method WriteSignedInfo(alg: Alg, digest: string)
      modifies this
      ensures usCan == UsCanText(alg, digest)
      ensures signedReport == old(signedReport) && usXml == old(usXml)
    {
      hide UsCanHead, UsCanEnd, SnPrintf;
      UsCanFits(alg);
      EndsFit();
      Whole(UsCanHead(alg));
      usCan := SnPrintf(XMLSTR_SIZE, UsCanHead(alg));
      usCan := usCan + digest;
      Whole(UsCanEnd());
      usCan := usCan + SnPrintf(XMLSTR_SIZE, UsCanEnd());
    }

    /** Signature, certificate and the end of the report. */
    method WriteSignature(signature: string, cert: string)
      modifies this
      ensures signedReport == old(signedReport) + signature + AfterSignature() + cert + ReportEnd()
      ensures usCan == old(usCan) && usXml == old(usXml)
    {
      hide AfterSignature, ReportEnd, SnPrintf;
      EndsFit();
      signedReport := signedReport + signature;
      Whole(AfterSignature());
      signedReport := signedReport + SnPrintf(XMLSTR_SIZE, AfterSignature());
      signedReport := signedReport + cert;
      Whole(ReportEnd());
      signedReport := signedReport + SnPrintf(XMLSTR_SIZE, ReportEnd());
    }

    /**
     * `GenerateSAMLAndGetDir`, from the choice of the hash on. It succeeds exactly with a known TPM version,
     * an XML text to hash and no failing step. The report it then leaves behind, for markup-free values,
     * has the digest of the report without its signature; and the signature of its `SignedInfo`
     * exactly when that has at most 256 bytes.
     */
    method GenerateSaml(nonce: string, uuid: string, manifestHash: string, tpmVersion: string, steps: Steps,
                        h: (Alg, string) -> OctetString, sign: (Alg, string) -> OctetString, cert: string)
      returns (result: int)
      requires |nonce| < MAX_LEN && |uuid| < UUID_SIZE && |manifestHash| < MANIFEST_HASH_SIZE
      modifies this
      ensures AlgFor(tpmVersion) == None ==> Unchanged(old(signedReport), old(usXml), old(usCan))
      ensures result == if && AlgFor(tpmVersion).Some? && AllSucceed(steps)
                           && ParseDoc(UsXmlText(nonce, uuid, AlgFor(tpmVersion).value, manifestHash)).Some?
                        then TCSERVICE_RESULT_SUCCESS else TCSERVICE_RESULT_FAILED
      ensures AlgFor(tpmVersion).Some? && AreTexts(nonce, uuid, manifestHash) && AllSucceed(steps) ==>
                result == TCSERVICE_RESULT_SUCCESS
      ensures result == TCSERVICE_RESULT_SUCCESS ==> tpmVersion == "2.0" || tpmVersion == "1.2"
      ensures result == TCSERVICE_RESULT_SUCCESS && AreTexts(nonce, uuid, manifestHash) && IsMarkupFree(cert) ==>
                var p := PartsOf(signedReport);
                && p.Some?
                && p.value.digestAlg == p.value.signatureAlg == Some(if tpmVersion == "2.0" then Sha256 else Sha1)
                && HasField(p.value.root, "digest_alg", if tpmVersion == "2.0" then "sha256" else "sha1")
                && HasField(p.value.root, "nonce", nonce) && HasField(p.value.root, "vm_instance_id", uuid)
                && HasField(p.value.root, "cumulative_hash", manifestHash)
      ensures result == TCSERVICE_RESULT_SUCCESS && AreTexts(nonce, uuid, manifestHash) && IsMarkupFree(cert) ==>
                var alg := AlgFor(tpmVersion).value; var digest := DigestOf(nonce, uuid, alg, manifestHash, h);
                && ReferenceValid(signedReport, h)
                && (SignatureValid(signedReport, sign) <==> |sign(alg, UsCanText(alg, digest))| <= SIGNATURE_MAX)
    {
      hide ParseDoc, QuoteText, SignatureHead, UsXmlText, UsCanText, AfterDigest, AfterSignature, ReportEnd, Encode,
           OctetsIn, IsMarkupFree, HasField, PartsOf, ReportTree, DeclText, ReferenceValid, SignatureValid, UsXmlTree,
           UsCanTree;
      var chosen := AlgFor(tpmVersion);
      if chosen == None || !steps.reportOpens {
        return TCSERVICE_RESULT_FAILED;
      }
      var alg := chosen.value;
      if AreTexts(nonce, uuid, manifestHash) {
        ParseUsXml(nonce, uuid, alg, manifestHash);
      }
      WriteQuote(nonce, uuid, manifestHash, alg);
      if !steps.usXmlOpens {
        return TCSERVICE_RESULT_FAILED;
      }
      var doc := ParseDoc(usXml);
      if doc == None || !steps.documentHashed {
        return TCSERVICE_RESULT_FAILED;
      }
      var digest := Encode(h(alg, OctetsIn(Inclusive, doc.value)));
      XmlRpc.EncodeIsMarkupFree(h(alg, OctetsIn(Inclusive, doc.value)));
      WriteDigest(digest);
      if !steps.usCanOpens {
        return TCSERVICE_RESULT_FAILED;
      }
      WriteSignedInfo(alg, digest);
      ParseUsCan(alg, digest);
      if !steps.passwordOpens || ParseDoc(usCan) == None || !steps.signedInfoHashed || !steps.hashInputOpens {
        return TCSERVICE_RESULT_FAILED;
      }
      if steps.signStatus != 0 || !steps.signatureOpens || !steps.reportReopens || steps.certStatus != 0 {
        return TCSERVICE_RESULT_FAILED;
      }
      var signature := Encode(Cut(sign(alg, usCan)));
      SignatureIsText(alg, digest, sign);
      WriteSignature(signature, cert);
      assert signedReport == ReportText(nonce, uuid, alg, manifestHash, digest, signature, cert);
      if AreTexts(nonce, uuid, manifestHash) && IsMarkupFree(cert) {
        hide ReportText;
        ReportVerifiesIff(nonce, uuid, alg, manifestHash, digest, signature, cert, h, sign);
        ReadSignatureValidIff(nonce, uuid, alg, manifestHash, digest, cert, sign);
        ReportParts(nonce, uuid, alg, manifestHash, digest, signature, cert);
        QuotedValues(nonce, uuid, alg, manifestHash, digest, signature, cert);
      }
      return TCSERVICE_RESULT_SUCCESS;
    }

    predicate Unchanged(report: string, xml: string, can: string)
      reads this
    {
      signedReport == report && usXml == xml && usCan == can
    }
  }

  predicate AreTexts(nonce: string, uuid: string, hash: string) {
    IsMarkupFree(nonce) && IsMarkupFree(uuid) && IsMarkupFree(hash)
  }
}

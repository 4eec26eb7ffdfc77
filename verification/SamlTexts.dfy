/** The texts that are searched for and emitted, letter by letter: which part is cut, which is read, and the template. */
module SamlTexts {
  import opened Prelude
  import opened Base64
  import opened Search
  import opened SamlSignature
  import opened SamlVerifier

  // ----- Searching from an offset

  lemma AtShift(s: string, p: string, start: nat, j: nat)
    requires start <= |s|
    ensures At(s[start..], p, j) <==> At(s, p, start + j)
  {
    if start + j + |p| <= |s| {
      assert s[start..][j..j + |p|] == s[start + j..start + j + |p|];
    }
  }

  /** Searching the rest of a text finds what a search from there finds. */
  lemma FirstInRest(s: string, p: string, start: nat)
    requires start <= |s|
    ensures IsFirst(s, p, start, if Index(s[start..], p) < 0 then -1 else start + Index(s[start..], p))
  {
    var j := Index(s[start..], p);
    forall i | start <= i
      ensures At(s, p, i) <==> At(s[start..], p, i - start)
    {
      AtShift(s, p, start, i - start);
    }
    assert forall i | start <= i && At(s, p, i) :: At(s[start..], p, i - start);
  }

  // ----- Cutting

  /** The first `open` stands at `i`, ends the text or is followed by a delimiter, and the next `close` stands at `k`. */
  ghost predicate CutAt(s: string, open: string, close: string, i: int, k: int) {
    && 0 <= i <= k && IsFirst(s, open, 0, i) && IsFirst(s, close, i, k)
    && (i + |open| == |s| || s[i + |open|] in {' ', '>', '\t', '\n', '\r'})
  }

  /** The text without what lies between, and without one line break before it. */
  function Without(s: string, close: string, i: int, k: int): string
    requires 0 <= i <= |s| && At(s, close, k)
  {
    (if i > 0 && s[i - 1] == '\n' then s[..i - 1] else s[..i]) + s[k + |close|..]
  }

  ghost predicate Cuts(s: string, open: string, close: string) {
    exists i, k :: CutAt(s, open, close, i, k)
  }

  lemma CutMeaning(s: string, open: string, close: string, i: int, k: int)
    requires CutAt(s, open, close, i, k)
    ensures i <= |s| && CutElement(s, open, close) == Some(Without(s, close, i, k))
  {
    FirstIsUnique(s, open, 0, i, Index(s, open));
    FirstInRest(s, close, i);
    var e := Index(s[i..], close);
    FirstIsUnique(s, close, i, k, if e < 0 then -1 else i + e);
  }

  lemma CutExists(s: string, open: string, close: string) returns (i: int, k: int)
    requires CutElement(s, open, close).Some?
    ensures CutAt(s, open, close, i, k)
  {
    i := Index(s, open);
    FirstInRest(s, close, i);
    k := i + Index(s[i..], close);
  }

  lemma CutIff(s: string, open: string, close: string)
    ensures CutElement(s, open, close).Some? <==> Cuts(s, open, close)
  {
    if CutElement(s, open, close).Some? {
      var i, k := CutExists(s, open, close);
    }
    if i, k :| CutAt(s, open, close, i, k) {
      CutMeaning(s, open, close, i, k);
    }
  }

  lemma OpenTexts()
    ensures SigOpen() == "<ds:Signature" && InfoOpen() == "<ds:SignedInfo"
  {
  }

  lemma SigCloseText()
    ensures SigClose() == "</ds:Signature>"
  {
  }

  lemma InfoCloseText()
    ensures InfoClose() == "</ds:SignedInfo>"
  {
  }

  lemma CutByTags(s: string, i: int, k: int)
    ensures CutAt(s, SigOpen(), SigClose(), i, k) ==>
              i <= |s| && StripEnvelopedSignature(s) == Without(s, SigClose(), i, k)
    ensures !Cuts(s, SigOpen(), SigClose()) && CutAt(s, "<Signature", "</Signature>", i, k) ==>
              i <= |s| && StripEnvelopedSignature(s) == Without(s, "</Signature>", i, k)
    ensures !Cuts(s, SigOpen(), SigClose()) && !Cuts(s, "<Signature", "</Signature>") ==> StripEnvelopedSignature(s) == s
  {
    CutIff(s, SigOpen(), SigClose());
    CutIff(s, "<Signature", "</Signature>");
    if CutAt(s, SigOpen(), SigClose(), i, k) {
      CutMeaning(s, SigOpen(), SigClose(), i, k);
    }
    if CutAt(s, "<Signature", "</Signature>", i, k) {
      CutMeaning(s, "<Signature", "</Signature>", i, k);
    }
  }

  /** The prefixed spelling is cut where it can be, else the plain one where that can be, else nothing. */
  lemma StripMeaning(s: string, i: int, k: int)
    ensures CutAt(s, "<ds:Signature", "</ds:Signature>", i, k) ==>
              i <= |s| && StripEnvelopedSignature(s) == Without(s, "</ds:Signature>", i, k)
    ensures !Cuts(s, "<ds:Signature", "</ds:Signature>") && CutAt(s, "<Signature", "</Signature>", i, k) ==>
              i <= |s| && StripEnvelopedSignature(s) == Without(s, "</Signature>", i, k)
    ensures !Cuts(s, "<ds:Signature", "</ds:Signature>") && !Cuts(s, "<Signature", "</Signature>") ==>
              StripEnvelopedSignature(s) == s
  {
    OpenTexts();
    SigCloseText();
    CutByTags(s, i, k);
  }

  // ----- Reading

  /** `tag` is `a`, first found at `i`, or `b` if there is no `a`. */
  ghost predicate FirstOfTwo(s: string, a: string, b: string, from: int, i: int, tag: string) {
    || (tag == a && i >= 0 && IsFirst(s, a, from, i))
    || (tag == b && i >= 0 && IsFirst(s, a, from, -1) && IsFirst(s, b, from, i))
  }

  ghost predicate NoneOfTwo(s: string, a: string, b: string, from: int) {
    IsFirst(s, a, from, -1) && IsFirst(s, b, from, -1)
  }

  /** The search for one of two tags, the first one preferred, in the rest of a text. */
  lemma FoundOfTwo(s: string, i: nat, a: string, b: string, k: int, tag: string)
    requires i <= |s|
    ensures var x, y := Index(s[i..], a), Index(s[i..], b);
            && (NoneOfTwo(s, a, b, i) <==> x < 0 && y < 0)
            && (FirstOfTwo(s, a, b, i, k, tag) ==>
                  (tag == a && x >= 0 && k == i + x) || (tag == b && x < 0 && y >= 0 && k == i + y))
  {
    var x, y := Index(s[i..], a), Index(s[i..], b);
    FirstInRest(s, a, i);
    FirstInRest(s, b, i);
    if IsFirst(s, a, i, -1) {
      FirstIsUnique(s, a, i, -1, if x < 0 then -1 else i + x);
    }
    if IsFirst(s, b, i, -1) {
      FirstIsUnique(s, b, i, -1, if y < 0 then -1 else i + y);
    }
    if IsFirst(s, a, i, k) {
      FirstIsUnique(s, a, i, k, if x < 0 then -1 else i + x);
    }
    if IsFirst(s, b, i, k) {
      FirstIsUnique(s, b, i, k, if y < 0 then -1 else i + y);
    }
  }

  function Start(s: string): int {
    var ds := Index(s, InfoOpen());
    if ds >= 0 then ds else Index(s, "<SignedInfo")
  }

  lemma StartIs(s: string, i: int, open: string)
    requires FirstOfTwo(s, InfoOpen(), "<SignedInfo", 0, i, open)
    ensures 0 <= i <= |s| && Start(s) == i
  {
    assert s[0..] == s;
    FoundOfTwo(s, 0, InfoOpen(), "<SignedInfo", i, open);
  }

  lemma EndKnown(s: string, i: nat, x: int, y: int)
    requires Start(s) == i && i <= |s|
    requires x == Index(s[i..], InfoClose()) && y == Index(s[i..], "</SignedInfo>")
    ensures x >= 0 ==> At(s[i..], InfoClose(), x) && ExtractSignedInfoBytes(s) == Some(s[i..i + x + |InfoClose()|])
    ensures x < 0 && y >= 0 ==> At(s[i..], "</SignedInfo>", y) && ExtractSignedInfoBytes(s) == Some(s[i..i + y + |"</SignedInfo>"|])
    ensures x < 0 && y < 0 ==> ExtractSignedInfoBytes(s) == None
  {
  }

  lemma ExtractByTags(s: string, i: int, open: string, k: int, close: string)
    requires FirstOfTwo(s, InfoOpen(), "<SignedInfo", 0, i, open)
    ensures i <= |s|
    ensures FirstOfTwo(s, InfoClose(), "</SignedInfo>", i, k, close) ==> At(s, close, k) && ExtractSignedInfoBytes(s) == Some(s[i..k + |close|])
    ensures NoneOfTwo(s, InfoClose(), "</SignedInfo>", i) ==> ExtractSignedInfoBytes(s) == None
  {
    StartIs(s, i, open);
    FoundOfTwo(s, i, InfoClose(), "</SignedInfo>", k, close);
    EndKnown(s, i, Index(s[i..], InfoClose()), Index(s[i..], "</SignedInfo>"));
  }

  lemma NothingToExtract(s: string)
    requires NoneOfTwo(s, InfoOpen(), "<SignedInfo", 0)
    ensures ExtractSignedInfoBytes(s) == None
  {
    assert s[0..] == s;
    FoundOfTwo(s, 0, InfoOpen(), "<SignedInfo", 0, "");
  }

  /**
   What is read reaches from the first opening tag of SignedInfo to the next closing one, the prefixed spelling first at
   either end; without either tag nothing is.
   */
  lemma ExtractMeaning(s: string, i: int, open: string, k: int, close: string)
    ensures NoneOfTwo(s, "<ds:SignedInfo", "<SignedInfo", 0) ==> ExtractSignedInfoBytes(s) == None
    ensures FirstOfTwo(s, "<ds:SignedInfo", "<SignedInfo", 0, i, open) ==>
            && i <= |s|
            && (FirstOfTwo(s, "</ds:SignedInfo>", "</SignedInfo>", i, k, close) ==>
                  At(s, close, k) && ExtractSignedInfoBytes(s) == Some(s[i..k + |close|]))
            && (NoneOfTwo(s, "</ds:SignedInfo>", "</SignedInfo>", i) ==> ExtractSignedInfoBytes(s) == None)
  {
    OpenTexts();
    InfoCloseText();
    if NoneOfTwo(s, InfoOpen(), "<SignedInfo", 0) {
      NothingToExtract(s);
    }
    if FirstOfTwo(s, InfoOpen(), "<SignedInfo", 0, i, open) {
      ExtractByTags(s, i, open, k, close);
    }
  }

  // ----- The template

  /** An opening tag that declares the namespace of XML signatures. */
  function Declared(name: string): string {
    "<" + name + " xmlns:ds=\"" + ("http://www.w3.org/" + "2000/09/xmldsig#") + "\">\n"
  }

  /** An empty element that names an algorithm. */
  function Named(name: string, uri: string): string {
    "<" + name + " Algorithm=\"" + uri + "\"/>"
  }

  lemma Regrouped(a: string, n: string, x: string, u: string, y: string, z: string)
    ensures a + n + (x + u + y) == a + n + x + u + y
    ensures a + n + ((x + u + y) + z) == (a + n + x + u + y) + z
  {
  }

  lemma DeclaredTags()
    ensures RenderOne(SignedInfoTag()) == Declared("ds:SignedInfo") && RenderOne(SignatureTag()) == Declared("ds:Signature")
  {
    var u := "http://www.w3.org/" + "2000/09/xmldsig#";
    Regrouped("<", "ds:SignedInfo", " xmlns:ds=\"", u, "\">\n", "");
    Regrouped("<", "ds:Signature", " xmlns:ds=\"", u, "\">\n", "");
  }

  lemma NamedTag(name: Text, uri: Text)
    ensures RenderOne(Tag(name, Algorithm(uri))) == Named(name, uri)
    ensures RenderOne(Tag(name, Algorithm(uri) + "\n")) == Named(name, uri) + "\n"
  {
    Regrouped("<", name, " Algorithm=\"", uri, "\"/>", "\n");
  }

  lemma RenderTwo(a: Tag, b: Tag)
    ensures Render([a, b]) == RenderOne(a) + RenderOne(b)
  {
    assert [a, b] == [a] + [b];
    RenderConcat([a], [b]);
    RenderSingle(a);
    RenderSingle(b);
  }

  lemma RenderFour(a: Tag, b: Tag, c: Tag, d: Tag)
    ensures Render([a, b, c, d]) == RenderOne(a) + RenderOne(b) + RenderOne(c) + RenderOne(d)
  {
    assert [a, b, c, d] == [a, b] + [c, d];
    RenderConcat([a, b], [c, d]);
    RenderTwo(a, b);
    RenderTwo(c, d);
    Assoc(RenderOne(a) + RenderOne(b), RenderOne(c), RenderOne(d));
  }

  lemma RenderEight(ts: seq<Tag>)
    requires |ts| == 8
    ensures Render(ts) == (RenderOne(ts[0]) + RenderOne(ts[1]) + RenderOne(ts[2]) + RenderOne(ts[3]))
                          + (RenderOne(ts[4]) + RenderOne(ts[5]) + RenderOne(ts[6]) + RenderOne(ts[7]))
  {
    assert ts == [ts[0], ts[1], ts[2], ts[3]] + [ts[4], ts[5], ts[6], ts[7]];
    RenderConcat([ts[0], ts[1], ts[2], ts[3]], [ts[4], ts[5], ts[6], ts[7]]);
    RenderFour(ts[0], ts[1], ts[2], ts[3]);
    RenderFour(ts[4], ts[5], ts[6], ts[7]);
  }

  function C14n(): string { "http://www.w3.org/" + "2001/10/xml-exc-c14n#" }

  /** The four lines of SignedInfo up to the assertion's ID. */
  function FrontText(): string {
    Declared("ds:SignedInfo")
    + (Named("ds:CanonicalizationMethod", C14n()) + "\n")
    + (Named("ds:SignatureMethod", "http://www.w3.org/" + "2001/04/xmldsig-more#" + "rsa-sha256") + "\n")
    + "<ds:Reference URI=\"#"
  }

  lemma FrontIsText()
    ensures Render(InfoFront()) == FrontText()
  {
    RenderFour(SignedInfoTag(), CanonicalizationTag(), MethodTag(), ReferenceTag());
    DeclaredTags();
    NamedTag("ds:CanonicalizationMethod", C14nUri());
    NamedTag("ds:SignatureMethod", RsaSha256Uri());
    ReferenceText();
  }

  lemma ReferenceText()
    ensures RenderOne(ReferenceTag()) == "<ds:Reference URI=\"#"
  {
  }

  /** What follows the ID. */
  function BackText(digest: string): string {
    ("<ds:Transforms>"
     + Named("ds:Transform", "http://www.w3.org/" + "2000/09/xmldsig#" + "enveloped-signature")
     + Named("ds:Transform", C14n())
     + "</ds:Transforms>\n")
    + ((Named("ds:DigestMethod", "http://www.w3.org/" + "2001/04/xmlenc#sha256") + "\n")
       + ("<ds:DigestValue>" + digest)
       + "</ds:DigestValue>\n"
       + "</ds:Reference>\n")
  }

  lemma TransformsTexts()
    ensures RenderOne(TransformsTag()) == "<ds:Transforms>" && RenderOne(TransformsEnd()) == "</ds:Transforms>\n"
  {
  }

  lemma DigestTexts(digest: Text)
    ensures RenderOne(DigestValueTag(digest)) == "<ds:DigestValue>" + digest
    ensures RenderOne(DigestValueEnd()) == "</ds:DigestValue>\n" && RenderOne(ReferenceEnd()) == "</ds:Reference>\n"
  {
    assert "<" + "ds:DigestValue" + ">" == "<ds:DigestValue>";
  }

  lemma BackIsText(digest: Text)
    ensures Render(InfoBack(digest)) == BackText(digest)
  {
    RenderEight(InfoBack(digest));
    TransformsTexts();
    DigestTexts(digest);
    NamedTag("ds:Transform", EnvelopedUri());
    NamedTag("ds:Transform", C14nUri());
    NamedTag("ds:DigestMethod", Sha256Uri());
  }

  /** SignedInfo as it is written out: the ID and the digest in the fixed text around them. */
  lemma SignedInfoText(id: string, digest: Text)
    ensures SignedInfo(id, digest) == FrontText() + id + "\">\n" + BackText(digest) + "</ds:SignedInfo>"
  {
    FrontIsText();
    BackIsText(digest);
    InfoCloseText();
  }

  /** What follows SignedInfo in the Signature element. */
  function TrailerText(signature: string, cert: string): string {
    (("<ds:SignatureValue>" + signature) + "</ds:SignatureValue>\n" + "<ds:KeyInfo>" + "<ds:X509Data>")
    + (("<ds:X509Certificate>" + cert) + "</ds:X509Certificate>" + "</ds:X509Data>" + "</ds:KeyInfo>\n")
  }

  lemma ValueTexts(signature: Text)
    ensures RenderOne(SignatureValueTag(signature)) == "<ds:SignatureValue>" + signature
    ensures RenderOne(SignatureValueEnd()) == "</ds:SignatureValue>\n"
  {
    assert "<" + "ds:SignatureValue" + ">" == "<ds:SignatureValue>";
  }

  lemma KeyTexts()
    ensures RenderOne(KeyInfoTag()) == "<ds:KeyInfo>" && RenderOne(KeyInfoEnd()) == "</ds:KeyInfo>\n"
    ensures RenderOne(X509DataTag()) == "<ds:X509Data>" && RenderOne(X509DataEnd()) == "</ds:X509Data>"
  {
  }

  lemma CertificateTexts(cert: Text)
    ensures RenderOne(X509CertificateTag(cert)) == "<ds:X509Certificate>" + cert
    ensures RenderOne(X509CertificateEnd()) == "</ds:X509Certificate>"
  {
    assert "<" + "ds:X509Certificate" + ">" == "<ds:X509Certificate>";
  }

  lemma TrailerIsText(signature: Text, cert: Text)
    ensures Render(Trailer(signature, cert)) == TrailerText(signature, cert)
  {
    RenderEight(Trailer(signature, cert));
    ValueTexts(signature);
    KeyTexts();
    CertificateTexts(cert);
  }

  /** The Signature element as it is written out. */
  lemma SignatureText(info: string, signature: Text, cert: Text)
    ensures SignatureElement(info, signature, cert)
            == Declared("ds:Signature") + info + "\n" + TrailerText(signature, cert) + "</ds:Signature>"
  {
    RenderSingle(SignatureTag());
    DeclaredTags();
    TrailerIsText(signature, cert);
    SigCloseText();
  }

  // ----- Signing, in these texts

  function InfoText(id: string, digest: string): string {
    FrontText() + id + "\">\n" + BackText(digest) + "</ds:SignedInfo>"
  }

  function ElementText(info: string, signature: string, cert: string): string {
    Declared("ds:Signature") + info + "\n" + TrailerText(signature, cert) + "</ds:Signature>"
  }

  lemma InfoIsText(c: Crypto, a: string)
    ensures InfoFor(c, a) == InfoText(ExtractID(a), EncodePadded(Std, c.hash(SHA256, a)))
  {
    SignedInfoText(ExtractID(a), DigestText(c, a));
  }

  lemma ElementIsText(info: string, sig: Bytes, cert: Bytes)
    ensures SignatureElement(info, Base64Text(sig), CertText(cert))
            == ElementText(info, EncodePadded(Std, sig), if cert == [] then "" else EncodePadded(Std, cert))
  {
    SignatureText(info, Base64Text(sig), CertText(cert));
  }

  lemma SignedWith(c: Crypto, privateKey: Bytes, cert: Bytes, a: string, info: string, sig: Bytes, element: string)
    requires InfoFor(c, a) == info && c.rsaSign(privateKey, c.hash(SHA256, info)) == Some(sig)
    requires element == SignatureElement(info, Base64Text(sig), CertText(cert))
    ensures var p := InsertionPoint(a);
            SignAssertion(c, privateKey, cert, a) == Ok(if p == -1 then a else a[..p] + "\n" + element + a[p..])
  {
  }

  /**
   What signing yields: the assertion with, after a line break at the splice point, the Signature element around the
   SignedInfo that was signed, the signature and the certificate; the assertion itself if there is no such point.
   */
  lemma SignedText(c: Crypto, privateKey: Bytes, cert: Bytes, a: string, info: string, sig: Bytes, element: string)
    requires info == InfoText(ExtractID(a), EncodePadded(Std, c.hash(SHA256, a)))
    requires c.rsaSign(privateKey, c.hash(SHA256, info)) == Some(sig)
    requires element == ElementText(info, EncodePadded(Std, sig), if cert == [] then "" else EncodePadded(Std, cert))
    ensures var p := InsertionPoint(a);
            SignAssertion(c, privateKey, cert, a) == Ok(if p == -1 then a else a[..p] + "\n" + element + a[p..])
  {
    InfoIsText(c, a);
    ElementIsText(info, sig, cert);
    SignedWith(c, privateKey, cert, a, info, sig, element);
  }

  lemma FailsWith(c: Crypto, privateKey: Bytes, cert: Bytes, a: string, info: string)
    requires InfoFor(c, a) == info
    ensures SignAssertion(c, privateKey, cert, a).Err? <==> c.rsaSign(privateKey, c.hash(SHA256, info)) == None
  {
  }

  /** It fails iff the key does not sign the hash of that text. */
  lemma SigningFailsIff(c: Crypto, privateKey: Bytes, cert: Bytes, a: string, info: string)
    requires info == InfoText(ExtractID(a), EncodePadded(Std, c.hash(SHA256, a)))
    ensures SignAssertion(c, privateKey, cert, a).Err? <==> c.rsaSign(privateKey, c.hash(SHA256, info)) == None
  {
    InfoIsText(c, a);
    FailsWith(c, privateKey, cert, a, info);
  }

  /** The ID is what stands between the first `ID="` and the next quote; without either it is empty. */
  lemma IDMeaning(a: string, i: int, k: int)
    requires IsFirst(a, "ID=\"", 0, i) && (i != -1 ==> IsFirst(a, "\"", i + 4, k))
    ensures i != -1 && k != -1 ==> i + 4 <= k <= |a| && ExtractID(a) == a[i + 4..k]
    ensures i == -1 || k == -1 ==> ExtractID(a) == ""
  {
    FirstIsUnique(a, "ID=\"", 0, i, Index(a, "ID=\""));
    if i != -1 {
      FirstIsUnique(a, "\"", i + 4, k, IndexFrom(a, "\"", i + 4));
    }
  }

  /** A response without a closing tag is left as it is. */
  lemma NothingInjected(response: string, assertion: string)
    requires !Occurs(response, "</samlp:Response>") && !Occurs(response, "</Response>")
    ensures InjectAssertion(response, assertion) == response
  {
    LastOrNone(response, SAMLP_RESPONSE_CLOSE);
    LastOrNone(response, RESPONSE_CLOSE);
  }
}

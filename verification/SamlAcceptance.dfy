/** VerifySignedAssertion as a whole: decoding, placement, reference, digest, signature and time conditions. */
module SamlAcceptance {
  import opened Prelude
  import opened Base64
  import opened Search
  import opened SamlSignature
  import opened SamlVerifier
  import opened SamlPlacement
  import M = SamlMarshalling

  /** What XML decoding yields: the assertion's ID, its Signature with and without the namespace, and the token stream. */
  datatype Decoded = Decoded(
    id: string, namespaced: Option<XmlSignature>, plain: Option<XmlSignature>, tokens: seq<Token>)

  /** The namespaced Signature unless its value is empty, else the other one, whose value must not be. */
  function ParseSignature(d: Decoded): Option<XmlSignature> {
    if d.namespaced.Some? && d.namespaced.value.signatureValue != "" then d.namespaced
    else if d.plain.Some? && d.plain.value.signatureValue != "" then d.plain
    else None
  }

  /** Accepted, or the step that refuses. */
  datatype Answer = Pass | NoCertificate | EmptyText | Unparsed | Unsigned | Misplaced | BadSignature | Expired

  /** The steps in their order; `conditionsHold` is the outcome of the time check. */
  function VerifySignedAssertion(
      c: Crypto, decoded: Option<Decoded>, raw: string, key: Option<PublicKey>, conditionsHold: bool): Answer
  {
    if key.None? then NoCertificate
    else if raw == "" then EmptyText
    else if decoded.None? then Unparsed
    else
      var d, x := decoded.value, ParseSignature(decoded.value);
      if x.None? || BuildSigInfo(x.value, raw).Err? then Unsigned
      else if Scan(d.tokens, 0, -1) != Accepted then Misplaced
      else if VerifySteps(c, x.value, raw, d.id, key.value).Err? then BadSignature
      else if conditionsHold then Pass
      else Expired
  }

  /** A document whose root is an Assertion with a Signature among its children and none inside an earlier child. */
  ghost predicate Enveloped(tokens: seq<Token>, before: seq<Node>, inner: seq<Node>, after: seq<Node>) {
    && (forall i | 0 <= i < |before| :: !HasSignature(before[i]))
    && tokens == Tokens(Element("Assertion", before + [Element("Signature", inner)] + after))
  }

  lemma EnvelopedIsAccepted(tokens: seq<Token>, before: seq<Node>, inner: seq<Node>, after: seq<Node>)
    requires Enveloped(tokens, before, inner, after)
    ensures Scan(tokens, 0, -1) == Accepted
  {
    var kids := before + [Element("Signature", inner)] + after;
    assert forall j | 0 <= j < |before| :: kids[j] == before[j];
    assert FirstAt(kids, |before|);
    assert [] + Tokens(Element("Assertion", kids)) + [] == tokens;
    AcceptsExactlyDirectChildren([], kids, []);
  }

  /** A text that carries the signature of `a` so that the verifier restores `a` and re-reads what was signed. */
  predicate Carries(c: Crypto, raw: string, a: string) {
    raw != "" && StripEnvelopedSignature(raw) == a && ExtractSignedInfoBytes(raw) == Some(InfoFor(c, a))
  }

  /** What a decoder yields that reads an emitted Signature back, its URI unescaped like the assertion's ID. */
  predicate Decodes(c: Crypto, a: string, sig: Bytes, d: Decoded) {
    d.namespaced == Some(XmlSignature(Base64Text(sig), RsaSha256Uri(), Sha256Uri(), DigestText(c, a), "#" + d.id))
  }

  lemma SignatureTextNotEmpty(sig: Bytes)
    requires sig != []
    ensures Base64Text(sig) != ""
  {
    Shape(Std, sig);
  }

  lemma CarriedIsAccepted(c: Crypto, key: Bytes, a: string, raw: string, d: Decoded, sig: Bytes, conditionsHold: bool)
    requires Carries(c, raw, a) && Decodes(c, a, sig, d) && Scan(d.tokens, 0, -1) == Accepted
    requires sig != [] && c.rsaVerify(key, SHA256, c.hash(SHA256, InfoFor(c, a)), sig)
    ensures VerifySignedAssertion(c, Some(d), raw, Some(Rsa(key)), conditionsHold) == if conditionsHold then Pass else Expired
  {
    var x := d.namespaced.value;
    SignatureTextNotEmpty(sig);
    StepsAccept(c, x, raw, a, InfoFor(c, a), sig, d.id, key);
    AllStepsPass(c, d, x, raw, Rsa(key), conditionsHold);
  }

  lemma AllStepsPass(c: Crypto, d: Decoded, x: XmlSignature, raw: string, key: PublicKey, conditionsHold: bool)
    requires raw != "" && ParseSignature(d) == Some(x)
    requires Scan(d.tokens, 0, -1) == Accepted && VerifySteps(c, x, raw, d.id, key).Ok?
    ensures VerifySignedAssertion(c, Some(d), raw, Some(key), conditionsHold) == if conditionsHold then Pass else Expired
  {
  }

  /** What signing a clean assertion yields. */
  lemma SignedCarries(c: Crypto, privateKey: Bytes, cert: Bytes, a: string, raw: string)
    requires SignAssertion(c, privateKey, cert, a) == Ok(raw) && Clean(a)
    ensures Carries(c, raw, a)
  {
    StripRestores(c, privateKey, cert, a);
    ExtractsSignedBytes(c, privateKey, cert, a);
  }

  /** Nothing of a signature before the splice point or in the ID. */
  predicate Clean(a: string) {
    && InsertionPoint(a) != -1
    && Index(Prefix(a), SigOpen()) == -1 && Index(Prefix(a), InfoOpen()) == -1
    && Index(ExtractID(a), SigClose()) == -1 && Index(ExtractID(a), InfoClose()) == -1
  }

  lemma KeysFit(c: Crypto, privateKey: Bytes, publicKey: Bytes, h: Bytes, sig: Bytes)
    requires KeyPair(c, privateKey, publicKey) && c.rsaSign(privateKey, h) == Some(sig)
    ensures sig != [] && c.rsaVerify(publicKey, SHA256, h, sig)
  {
  }

  /** A text that carries the signature of `a` is accepted, whoever put it together. */
  lemma EnvelopedCarriedIsAccepted(
      c: Crypto, privateKey: Bytes, publicKey: Bytes, a: string, raw: string, sig: Bytes,
      d: Decoded, before: seq<Node>, inner: seq<Node>, after: seq<Node>, conditionsHold: bool)
    requires KeyPair(c, privateKey, publicKey) && c.rsaSign(privateKey, c.hash(SHA256, InfoFor(c, a))) == Some(sig)
    requires Carries(c, raw, a) && Decodes(c, a, sig, d) && Enveloped(d.tokens, before, inner, after)
    ensures VerifySignedAssertion(c, Some(d), raw, Some(Rsa(publicKey)), conditionsHold) == if conditionsHold then Pass else Expired
  {
    KeysFit(c, privateKey, publicKey, c.hash(SHA256, InfoFor(c, a)), sig);
    EnvelopedIsAccepted(d.tokens, before, inner, after);
    CarriedIsAccepted(c, publicKey, a, raw, d, sig, conditionsHold);
  }

  /**
   What the identity provider signed the service provider accepts: for every clean assertion, every key pair, and
   whatever decoder reads the emitted texts back and finds the Signature among the children of the root. The answer
   is then that of the time check alone.
   */
  lemma SignedIsAccepted(c: Crypto, privateKey: Bytes, publicKey: Bytes, cert: Bytes, a: string, raw: string, sig: Bytes,
                         d: Decoded, before: seq<Node>, inner: seq<Node>, after: seq<Node>, conditionsHold: bool)
    requires KeyPair(c, privateKey, publicKey) && Clean(a)
    requires c.rsaSign(privateKey, c.hash(SHA256, InfoFor(c, a))) == Some(sig)
    requires SignAssertion(c, privateKey, cert, a) == Ok(raw)
    requires Decodes(c, a, sig, d) && Enveloped(d.tokens, before, inner, after)
    ensures VerifySignedAssertion(c, Some(d), raw, Some(Rsa(publicKey)), conditionsHold) == if conditionsHold then Pass else Expired
  {
    SignedCarries(c, privateKey, cert, a, raw);
    EnvelopedCarriedIsAccepted(c, privateKey, publicKey, a, raw, sig, d, before, inner, after, conditionsHold);
  }

  /** The same for every assertion that the identity provider marshals, with no hypothesis on its text. */
  lemma MarshalledIsAccepted(
      c: Crypto, privateKey: Bytes, publicKey: Bytes, cert: Bytes, id: string, attrs: seq<M.Attr>, issuer: string,
      later: seq<M.Xml>, a: string, raw: string, sig: Bytes, d: Decoded,
      before: seq<Node>, inner: seq<Node>, after: seq<Node>, conditionsHold: bool)
    requires KeyPair(c, privateKey, publicKey) && M.Fields(attrs, later)
    requires a == M.Marshal(M.AssertionElement(id, attrs, issuer, later))
    requires c.rsaSign(privateKey, c.hash(SHA256, InfoFor(c, a))) == Some(sig)
    requires SignAssertion(c, privateKey, cert, a) == Ok(raw)
    requires Decodes(c, a, sig, d) && Enveloped(d.tokens, before, inner, after)
    ensures VerifySignedAssertion(c, Some(d), raw, Some(Rsa(publicKey)), conditionsHold) == if conditionsHold then Pass else Expired
  {
    M.MarshalledIsClean(id, attrs, issuer, later);
    SignedIsAccepted(c, privateKey, publicKey, cert, a, raw, sig, d, before, inner, after, conditionsHold);
  }
}

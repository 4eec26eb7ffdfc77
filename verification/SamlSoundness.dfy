/**
 What an accepted answer means: every condition that VerifySignedAssertion has established when it passes, stated of the
 decoded texts, the literal algorithm names and the cryptographic primitives.
 */
module SamlSoundness {
  import opened Prelude
  import opened Base64
  import opened Search
  import opened SamlSignature
  import opened SamlVerifier
  import opened SamlPlacement
  import opened SamlDocuments
  import opened SamlBinding
  import opened SamlAcceptance
  import S = Splitting

  // ----- The algorithm names

  predicate EndsWith(s: string, c: char) {
    s != "" && s[|s| - 1] == c
  }

  lemma LastOf256()
    ensures EndsWith(Sha256Uri(), '6') && EndsWith(RsaSha256Uri(), '6') && EndsWith(DsigMoreUri() + "ecdsa-sha256", '6')
  {
  }

  lemma LastOf384()
    ensures EndsWith(DsigMoreUri() + "sha384", '4') && EndsWith(DsigMoreUri() + "rsa-sha384", '4')
    ensures EndsWith(DsigMoreUri() + "ecdsa-sha384", '4')
  {
  }

  lemma LastOf512()
    ensures EndsWith(W3() + "2001/04/xmlenc#sha512", '2') && EndsWith(DsigMoreUri() + "rsa-sha512", '2')
    ensures EndsWith(DsigMoreUri() + "ecdsa-sha512", '2')
  {
  }

  /** The digest algorithms, each by its name. */
  lemma DigestNames(uri: string)
    ensures HashForAlgorithm(uri) == Some(SHA256) <==> uri == "http://www.w3.org/" + "2001/04/xmlenc#sha256"
    ensures HashForAlgorithm(uri) == Some(SHA384) <==> uri == "http://www.w3.org/" + "2001/04/xmldsig-more#" + "sha384"
    ensures HashForAlgorithm(uri) == Some(SHA512) <==> uri == "http://www.w3.org/" + "2001/04/xmlenc#sha512"
  {
    LastOf256();
    LastOf384();
    LastOf512();
  }

  /** The name of a signature method. */
  function MethodName(name: string): string {
    "http://www.w3.org/" + "2001/04/xmldsig-more#" + name
  }

  /** The signature methods, two for each hash. */
  lemma MethodNames(uri: string)
    ensures CryptoHashForSignature(uri) == Some(SHA256) <==> uri == MethodName("rsa-sha256") || uri == MethodName("ecdsa-sha256")
    ensures CryptoHashForSignature(uri) == Some(SHA384) <==> uri == MethodName("rsa-sha384") || uri == MethodName("ecdsa-sha384")
    ensures CryptoHashForSignature(uri) == Some(SHA512) <==> uri == MethodName("rsa-sha512") || uri == MethodName("ecdsa-sha512")
  {
    LastOf256();
    LastOf384();
    LastOf512();
  }

  /** No 'r' is followed by an 's', and none ends the text. */
  predicate NoRs(s: string) {
    && (forall i, j | 0 <= i && j == i + 1 < |s| :: s[i] == 'r' ==> s[j] != 's')
    && (s != "" ==> s[|s| - 1] != 'r')
  }

  lemma NoRsConcat(a: string, b: string)
    requires NoRs(a) && NoRs(b)
    ensures NoRs(a + b)
  {
  }

  lemma NoRsa(s: string)
    requires NoRs(s)
    ensures Index(s, "rsa") == -1
  {
    forall i: nat
      ensures !At(s, "rsa", i)
    {
      if i + 3 <= |s| {
        assert s[i..i + 3][0] == s[i] && s[i..i + 3][1] == s[i + 1];
      }
    }
  }

  lemma NoRsInMore()
    ensures NoRs(MethodName(""))
  {
    NoRsInParts();
    NoRsConcat(W3(), "2001/04/xmldsig-more#");
    assert MethodName("") == W3() + "2001/04/xmldsig-more#";
  }

  lemma NoRsInParts()
    ensures NoRs("http://www.w3.org/") && NoRs("2001/04/xmldsig-more#")
  {
  }

  lemma NoRsInNames()
    ensures NoRs("ecdsa-sha256") && NoRs("ecdsa-sha384") && NoRs("ecdsa-sha512")
  {
  }

  lemma EcdsaIsNotRsa(name: string)
    requires NoRs(name)
    ensures Index(MethodName(name), "rsa") == -1
  {
    NoRsInMore();
    NoRsConcat(MethodName(""), name);
    assert MethodName("") + name == MethodName(name);
    NoRsa(MethodName(name));
  }

  lemma RsaIsIn(name: string)
    requires |name| >= 3 && name[..3] == "rsa"
    ensures Index(MethodName(name), "rsa") >= 0
  {
    var s, i := MethodName(name), |MethodName("")|;
    assert s == MethodName("") + name;
    assert s[i..i + 3] == name[..3];
    assert At(s, "rsa", i);
  }

  function ShaName(alg: HashAlg): string {
    match alg
    case SHA256 => "sha256"
    case SHA384 => "sha384"
    case SHA512 => "sha512"
  }

  function DigestUri(alg: HashAlg): string {
    match alg
    case SHA256 => "http://www.w3.org/" + "2001/04/xmlenc#sha256"
    case SHA384 => "http://www.w3.org/" + "2001/04/xmldsig-more#" + "sha384"
    case SHA512 => "http://www.w3.org/" + "2001/04/xmlenc#sha512"
  }

  lemma NamesJoin()
    ensures "rsa-" + "sha256" == "rsa-sha256" && "rsa-" + "sha384" == "rsa-sha384" && "rsa-" + "sha512" == "rsa-sha512"
    ensures "ecdsa-" + "sha256" == "ecdsa-sha256" && "ecdsa-" + "sha384" == "ecdsa-sha384"
    ensures "ecdsa-" + "sha512" == "ecdsa-sha512"
  {
  }

  lemma MethodByName(uri: string, alg: HashAlg)
    ensures CryptoHashForSignature(uri) == Some(alg) <==>
            uri == MethodName("rsa-" + ShaName(alg)) || uri == MethodName("ecdsa-" + ShaName(alg))
  {
    NamesJoin();
    MethodNames(uri);
  }

  lemma RsaFamily(alg: HashAlg)
    ensures Index(MethodName("rsa-" + ShaName(alg)), "rsa") >= 0
    ensures Index(MethodName("ecdsa-" + ShaName(alg)), "rsa") == -1
  {
    assert ("rsa-" + ShaName(alg))[..3] == "rsa";
    RsaIsIn("rsa-" + ShaName(alg));
    NamesJoin();
    NoRsInNames();
    EcdsaIsNotRsa("ecdsa-" + ShaName(alg));
  }

  /** With an RSA key exactly the three methods of the RSA family are left. */
  lemma RsaMethodIff(uri: string, alg: HashAlg)
    ensures CryptoHashForSignature(uri) == Some(alg) && Index(uri, "rsa") >= 0 <==> uri == MethodName("rsa-" + ShaName(alg))
  {
    MethodByName(uri, alg);
    RsaFamily(alg);
  }

  // ----- The steps

  /** The bytes whose signature is verified: the SignedInfo found in the text, or none. */
  function SignedText(raw: string): string {
    match ExtractSignedInfoBytes(raw)
    case Some(info) => info
    case None => ""
  }

  function DecodedText(text: string): Option<Bytes> {
    GoDecodePadded(S.Trim(text, S.SPACES))
  }

  predicate DigestHoldsBy(c: Crypto, x: XmlSignature, raw: string, alg: HashAlg) {
    && x.digestMethod == DigestUri(alg)
    && DecodedText(x.digestValue) == Some(c.hash(alg, StripEnvelopedSignature(raw)))
  }

  /** The decoded digest is that of the text without its signature. */
  ghost predicate DigestHolds(c: Crypto, x: XmlSignature, raw: string) {
    exists alg :: DigestHoldsBy(c, x, raw, alg)
  }

  predicate SignatureHoldsBy(c: Crypto, x: XmlSignature, raw: string, key: PublicKey, alg: HashAlg, sig: Bytes) {
    && DecodedText(x.signatureValue) == Some(sig)
    && match key
       case Rsa(k) =>
         x.signatureMethod == MethodName("rsa-" + ShaName(alg)) && c.rsaVerify(k, alg, c.hash(alg, SignedText(raw)), sig)
       case Ecdsa(k) =>
         && (x.signatureMethod == MethodName("rsa-" + ShaName(alg)) || x.signatureMethod == MethodName("ecdsa-" + ShaName(alg)))
         && c.ecdsaVerify(k, c.hash(alg, SignedText(raw)), sig)
       case OtherKey => false
  }

  /** The decoded signature verifies with the key over the SignedInfo found in the text. */
  ghost predicate SignatureHolds(c: Crypto, x: XmlSignature, raw: string, key: PublicKey) {
    exists alg, sig :: SignatureHoldsBy(c, x, raw, key, alg, sig)
  }

  lemma DigestByName(uri: string, alg: HashAlg)
    ensures HashForAlgorithm(uri) == Some(alg) <==> uri == DigestUri(alg)
  {
    DigestNames(uri);
  }

  lemma DigestStep(c: Crypto, x: XmlSignature, raw: string, info: SignatureInfo)
    requires BuildSigInfo(x, raw) == Ok(info)
    ensures VerifyDigest(c, info, raw).Ok? <==> DigestHolds(c, x, raw)
  {
    var h := HashForAlgorithm(x.digestMethod);
    if h.Some? {
      DigestByName(x.digestMethod, h.value);
      assert VerifyDigest(c, info, raw).Ok? <==> DigestHoldsBy(c, x, raw, h.value);
    }
    if DigestHolds(c, x, raw) {
      var alg :| DigestHoldsBy(c, x, raw, alg);
      DigestByName(x.digestMethod, alg);
    }
  }

  lemma SignatureStepBy(c: Crypto, x: XmlSignature, raw: string, info: SignatureInfo, key: PublicKey, alg: HashAlg, sig: Bytes)
    requires BuildSigInfo(x, raw) == Ok(info)
    ensures SignatureHoldsBy(c, x, raw, key, alg, sig) <==>
            CryptoHashForSignature(x.signatureMethod) == Some(alg) && info.signature == sig && VerifyCryptoSignature(c, info, key).Ok?
  {
    MethodByName(x.signatureMethod, alg);
    RsaMethodIff(x.signatureMethod, alg);
  }

  lemma SignatureStep(c: Crypto, x: XmlSignature, raw: string, info: SignatureInfo, key: PublicKey)
    requires BuildSigInfo(x, raw) == Ok(info)
    ensures VerifyCryptoSignature(c, info, key).Ok? <==> SignatureHolds(c, x, raw, key)
  {
    var h := CryptoHashForSignature(x.signatureMethod);
    if h.Some? {
      SignatureStepBy(c, x, raw, info, key, h.value, info.signature);
    }
    if SignatureHolds(c, x, raw, key) {
      var alg, sig :| SignatureHoldsBy(c, x, raw, key, alg, sig);
      SignatureStepBy(c, x, raw, info, key, alg, sig);
    }
  }

  lemma BothDecode(c: Crypto, x: XmlSignature, raw: string, key: PublicKey)
    requires DigestHolds(c, x, raw) && SignatureHolds(c, x, raw, key)
    ensures BuildSigInfo(x, raw).Ok?
  {
    var alg :| DigestHoldsBy(c, x, raw, alg);
    var h, sig :| SignatureHoldsBy(c, x, raw, key, h, sig);
  }

  /**
   The steps after placement accept iff the reference names the assertion or nothing, the digest is that of the
   content, and the signature verifies.
   */
  lemma StepsIff(c: Crypto, x: XmlSignature, raw: string, id: string, key: PublicKey)
    ensures VerifySteps(c, x, raw, id, key).Ok? <==>
            (x.uri == "" || x.uri == "#" + id) && DigestHolds(c, x, raw) && SignatureHolds(c, x, raw, key)
  {
    match BuildSigInfo(x, raw)
    case Ok(info) =>
      DigestStep(c, x, raw, info);
      SignatureStep(c, x, raw, info, key);
    case Err(_) =>
      if DigestHolds(c, x, raw) && SignatureHolds(c, x, raw, key) {
        BothDecode(c, x, raw, key);
      }
  }

  // ----- The whole operation

  /** The decoded Signature that counts: the namespaced one, or the other where the value of that one is empty. */
  predicate Taken(d: Decoded, x: XmlSignature) {
    && x.signatureValue != ""
    && (|| d.namespaced == Some(x)
        || (d.plain == Some(x) && (d.namespaced.None? || d.namespaced.value.signatureValue == "")))
  }

  /** What the answer depends on besides the placement. */
  ghost predicate Established(c: Crypto, d: Decoded, x: XmlSignature, raw: string, key: PublicKey) {
    && Taken(d, x) && (x.uri == "" || x.uri == "#" + d.id)
    && DigestHolds(c, x, raw) && SignatureHolds(c, x, raw, key)
  }

  /** The first Assertion opens before the first Signature, which stands one level below. */
  ghost predicate PlacedBelow(doc: Node) {
    var os := Opened(doc, 1);
    exists i, j :: i < j && IsFirstAt(os, "Assertion", i) && IsFirstAt(os, "Signature", j) && os[j].depth == os[i].depth + 1
  }

  lemma EstablishedIff(c: Crypto, d: Decoded, raw: string, key: PublicKey)
    ensures (exists x :: Established(c, d, x, raw, key)) <==>
            ParseSignature(d).Some? && VerifySteps(c, ParseSignature(d).value, raw, d.id, key).Ok?
  {
    if x :| Established(c, d, x, raw, key) {
      StepsIff(c, x, raw, d.id, key);
    }
    if ParseSignature(d).Some? {
      StepsIff(c, ParseSignature(d).value, raw, d.id, key);
      assert Taken(d, ParseSignature(d).value);
      if VerifySteps(c, ParseSignature(d).value, raw, d.id, key).Ok? {
        assert Established(c, d, ParseSignature(d).value, raw, key);
      }
    }
  }

  /**
   A pass says exactly this: a certificate, a text that decodes, a Signature with a value whose reference is empty or
   names the assertion, whose digest is that of the content and whose signature verifies, one level below the first
   Assertion, and the time conditions.
   */
  lemma PassIff(c: Crypto, decoded: Option<Decoded>, raw: string, key: Option<PublicKey>, conditionsHold: bool,
                pre: seq<Token>, doc: Node, post: seq<Token>)
    requires AllOther(pre) && AllOther(post) && (decoded.Some? ==> decoded.value.tokens == pre + Tokens(doc) + post)
    ensures VerifySignedAssertion(c, decoded, raw, key, conditionsHold) == Pass <==>
            && key.Some? && raw != "" && decoded.Some? && conditionsHold && PlacedBelow(doc)
            && exists x :: Established(c, decoded.value, x, raw, key.value)
  {
    AcceptedByOrder(pre, doc, post);
    if key.Some? && decoded.Some? {
      EstablishedIff(c, decoded.value, raw, key.value);
    }
  }

  /** The same without the placement, for every token stream. */
  lemma PassEstablishes(c: Crypto, decoded: Option<Decoded>, raw: string, key: Option<PublicKey>, conditionsHold: bool)
      returns (x: XmlSignature)
    requires VerifySignedAssertion(c, decoded, raw, key, conditionsHold) == Pass
    ensures key.Some? && raw != "" && decoded.Some? && conditionsHold
    ensures Established(c, decoded.value, x, raw, key.value)
  {
    EstablishedIff(c, decoded.value, raw, key.value);
    x :| Established(c, decoded.value, x, raw, key.value);
  }

  /**
   With a collision-free hash and a key that signs for the issuer only, a text that passes contains the SignedInfo of
   an issued assertion, and without its signature it is that assertion iff the decoded digest is the one stated there.
   */
  lemma PassWasIssued(c: Crypto, decoded: Option<Decoded>, raw: string, key: Bytes, conditionsHold: bool, issued: string -> bool)
      returns (a: string, x: XmlSignature)
    requires CollisionFree(c) && SignsOnly(c, key, issued)
    requires VerifySignedAssertion(c, decoded, raw, Some(Rsa(key)), conditionsHold) == Pass
    ensures issued(a) && ExtractSignedInfoBytes(raw) == Some(InfoFor(c, a))
    ensures decoded.Some? && Taken(decoded.value, x)
    ensures x.digestMethod == DigestUri(SHA256) ==> (StripEnvelopedSignature(raw) == a <==> StatesDecodedDigest(raw, x))
  {
    x := PassEstablishes(c, decoded, raw, Some(Rsa(key)), conditionsHold);
    StepsIff(c, x, raw, decoded.value.id, Rsa(key));
    a := AcceptedWasSignedIff(c, x, raw, decoded.value.id, key, issued);
  }
}

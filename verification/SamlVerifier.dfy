/**
 The service provider's half of the enveloped signature, and the theorems that join it to
 the identity provider's half.
 */
module SamlVerifier {
  import opened Prelude
  import opened Search
  import opened Base64
  import opened SamlSignature
  import S = Splitting

  // ----- Cutting the signature out

  predicate Delimiter(c: char) {
    c == ' ' || c == '>' || c == '\t' || c == '\n' || c == '\r'
  }

  /** One turn of the loop over tag spellings: the text without the element and one newline before it. */
  function CutElement(s: string, open: string, close: string): Option<string> {
    var start := Index(s, open);
    if start < 0 then None
    else
      var after := start + |open|;
      if after < |s| && !Delimiter(s[after]) then None
      else
        var end := Index(s[start..], close);
        if end < 0 then None
        else
          var stop := start + end + |close|;
          var from := if start > 0 && s[start - 1] == '\n' then start - 1 else start;
          Some(s[..from] + s[stop..])
  }

  function StripEnvelopedSignature(s: string): string {
    match CutElement(s, SigOpen(), SigClose())
    case Some(r) => r
    case None =>
      match CutElement(s, "<Signature", "</Signature>")
      case Some(r) => r
      case None => s
  }

  function ExtractSignedInfoBytes(s: string): Option<string> {
    var ds := Index(s, InfoOpen());
    var start := if ds >= 0 then ds else Index(s, "<SignedInfo");
    if start < 0 then None
    else
      var dsEnd, end := Index(s[start..], InfoClose()), Index(s[start..], "</SignedInfo>");
      if dsEnd >= 0 then Some(s[start..start + dsEnd + |InfoClose()|])
      else if end >= 0 then Some(s[start..start + end + |"</SignedInfo>"|])
      else None
  }

  lemma FirstAfterNewline(pre: string, rest: string, open: string)
    requires open != "" && '\n' !in open
    requires Index(pre, open) == -1 && Index(rest, open) >= 0
    ensures Index(pre + ("\n" + rest), open) == |pre| + 1 + Index(rest, open)
  {
    forall i | 0 <= i
      ensures !At("\n", open, i)
    {
      assert open[0] in open;
      assert |open| == 1 ==> "\n"[0..|open|][0] == '\n';
    }
    FirstInConcat("\n", rest, open);
    FirstInConcat(pre, "\n" + rest, open);
  }

  lemma PrefixIsFirst(s: string, p: string)
    requires p != "" && p <= s
    ensures Index(s, p) == 0
  {
    assert s == p + s[|p|..];
    FirstIsSelf(p, s[|p|..]);
  }

  lemma SplicedSlices(pre: string, elem: string, post: string, k: nat)
    requires k <= |elem|
    ensures var s := pre + "\n" + elem + post;
            && s == pre + ("\n" + (elem + post))
            && |s| == |pre| + 1 + |elem| + |post|
            && s[..|pre|] == pre && s[|pre|] == '\n'
            && s[|pre| + 1..] == elem + post
            && s[|pre| + 1 + k..] == elem[k..] + post
            && (k < |elem| ==> s[|pre| + 1 + k] == elem[k])
  {
  }

  lemma CutKnown(s: string, open: string, close: string, start: nat, from: nat, stop: nat)
    requires Index(s, open) == start && start + |open| < |s| && Delimiter(s[start + |open|])
    requires Index(s[start..], close) >= 0 && stop == start + Index(s[start..], close) + |close|
    requires from == if start > 0 && s[start - 1] == '\n' then start - 1 else start
    ensures stop <= |s| && CutElement(s, open, close) == Some(s[..from] + s[stop..])
  {
  }

  lemma FoundSpliced(pre: string, elem: string, post: string, open: string, close: string)
    requires open != "" && '\n' !in open && Index(pre, open) == -1
    requires open <= elem && Index(elem, close) >= 0
    ensures var s := pre + "\n" + elem + post;
            && Index(s, open) == |pre| + 1 <= |s|
            && Index(s[|pre| + 1..], close) == Index(elem, close)
  {
    SplicedSlices(pre, elem, post, 0);
    PrefixIsFirst(elem + post, open);
    FirstAfterNewline(pre, elem + post, open);
    FirstInLeft(elem, post, close);
  }

  lemma CutFound(s: string, n: nat, open: string, close: string, e: nat)
    requires n + 1 + |open| < |s| && s[n] == '\n' && Delimiter(s[n + 1 + |open|])
    requires Index(s, open) == n + 1 && Index(s[n + 1..], close) == e
    ensures n + 1 + e + |close| <= |s|
    ensures CutElement(s, open, close) == Some(s[..n] + s[n + 1 + e + |close|..])
  {
    CutKnown(s, open, close, n + 1, n, n + 1 + e + |close|);
  }

  lemma CutBetween(s: string, n: nat, open: string, close: string, e: nat, pre: string, rest: string)
    requires n + 1 + |open| < |s| && s[n] == '\n' && Delimiter(s[n + 1 + |open|])
    requires Index(s, open) == n + 1 && Index(s[n + 1..], close) == e
    requires n + 1 + e + |close| <= |s| && s[..n] == pre && s[n + 1 + e + |close|..] == rest
    ensures CutElement(s, open, close) == Some(pre + rest)
  {
    CutFound(s, n, open, close, e);
  }

  lemma SplicedChars(pre: string, elem: string, post: string, k: nat)
    requires k < |elem|
    ensures var s := pre + "\n" + elem + post;
            |pre| + 1 + k < |s| && s[|pre|] == '\n' && s[|pre| + 1 + k] == elem[k]
  {
  }

  lemma SplicedEnds(pre: string, elem: string, post: string, k: nat)
    requires k <= |elem|
    ensures var s := pre + "\n" + elem + post;
            |pre| + 1 + k <= |s| && s[..|pre|] == pre && s[|pre| + 1 + k..] == elem[k..] + post
  {
    var s, rest := pre + "\n" + elem + post, elem[k..] + post;
    assert s == (pre + "\n" + elem[..k]) + rest by {
      assert elem == elem[..k] + elem[k..];
    }
  }

  /** Cutting an element that was spliced in after a newline removes it up to the first closing tag. */
  lemma CutSpliced(pre: string, elem: string, post: string, open: string, close: string)
    requires open != "" && '\n' !in open && Index(pre, open) == -1
    requires open <= elem && |open| < |elem| && Delimiter(elem[|open|])
    requires Index(elem, close) >= 0
    ensures CutElement(pre + "\n" + elem + post, open, close)
            == Some(pre + (elem[Index(elem, close) + |close|..] + post))
  {
    var e := Index(elem, close);
    FoundSpliced(pre, elem, post, open, close);
    SplicedChars(pre, elem, post, |open|);
    SplicedEnds(pre, elem, post, e + |close|);
    CutBetween(pre + "\n" + elem + post, |pre|, open, close, e, pre, elem[e + |close|..] + post);
  }

  // ----- The two searches on a spliced document

  lemma StripSpliced(pre: string, elem: string, post: string)
    requires Index(pre, SigOpen()) == -1
    requires SigOpen() + " " <= elem && Index(elem, SigClose()) >= 0
    ensures StripEnvelopedSignature(pre + "\n" + elem + post) == pre + post
            <==> Index(elem, SigClose()) == |elem| - |SigClose()|
  {
    var e := Index(elem, SigClose()) + |SigClose()|;
    assert elem[..|SigOpen() + " "|] == SigOpen() + " ";
    assert elem[..|SigOpen()|] == SigOpen() && elem[|SigOpen()|] == ' ';
    CutSpliced(pre, elem, post, SigOpen(), SigClose());
    if e == |elem| {
      assert elem[e..] + post == post;
    } else {
      assert |pre + (elem[e..] + post)| > |pre + post|;
    }
  }

  lemma FirstAfterTag(pre: string, tag: Tag, rest: string, q: Text)
    requires '\n' !in q && Index(pre, "<" + q) == -1 && "<" + q <= rest
    requires Skipped(tag, q) && EndsIn([tag], '\n')
    ensures Index(pre + ("\n" + (Render([tag]) + rest)), "<" + q) == |pre| + 1 + |Render([tag])|
  {
    PrefixIsFirst(rest, "<" + q);
    FirstAfterTags([tag], rest, q);
    FirstAfterNewline(pre, Render([tag]) + rest, "<" + q);
  }

  lemma ExtractKnown(s: string, start: nat, info: string, rest: string)
    requires start <= |s| && Index(s, InfoOpen()) == start && s[start..] == info + rest
    requires Index(info, InfoClose()) >= 0
    ensures ExtractSignedInfoBytes(s) == Some(info) <==> Index(info, InfoClose()) == |info| - |InfoClose()|
  {
    var k := Index(info, InfoClose()) + |InfoClose()|;
    FirstInLeft(info, rest, InfoClose());
    assert s[start..start + k] == s[start..][..k] == info[..k];
    assert k == |info| ==> info[..k] == info;
    assert k < |info| ==> |info[..k]| < |info|;
  }

  lemma InfoSlices(pre: string, t: string, info: string, after: string, post: string)
    ensures var s := pre + "\n" + (t + info + after) + post;
            && s == pre + ("\n" + (t + (info + (after + post))))
            && |pre| + 1 + |t| <= |s|
            && s[|pre| + 1 + |t|..] == info + (after + post)
  {
  }

  lemma ExtractSpliced(pre: string, tag: Tag, info: string, after: string, post: string)
    requires Index(pre, InfoOpen()) == -1 && InfoOpen() <= info && Index(info, InfoClose()) >= 0
    requires Skipped(tag, InfoName()) && EndsIn([tag], '\n') && '\n' !in InfoName()
    ensures ExtractSignedInfoBytes(pre + "\n" + (Render([tag]) + info + after) + post) == Some(info)
            <==> Index(info, InfoClose()) == |info| - |InfoClose()|
  {
    InfoSlices(pre, Render([tag]), info, after, post);
    FirstAfterTag(pre, tag, info + (after + post), InfoName());
    ExtractKnown(pre + "\n" + (Render([tag]) + info + after) + post, |pre| + 1 + |Render([tag])|, info, after + post);
  }

  // ----- The round trip

  lemma TagOpens(t: Tag, rest: string)
    requires t.tail != ""
    ensures "<" + t.name + [t.tail[0]] <= Render([t]) + rest
  {
    assert Render([t]) + rest == ("<" + t.name + [t.tail[0]]) + (t.tail[1..] + rest);
  }

  lemma ElementOpens(info: string, signature: Text, cert: Text)
    ensures SigOpen() + " " <= SignatureElement(info, signature, cert)
  {
    var rest := info + "\n" + Render(Trailer(signature, cert)) + SigClose();
    SignatureTagIsSkipped();
    assert SignatureTag().tail[0] == ' ';
    TagOpens(SignatureTag(), rest);
    assert SignatureElement(info, signature, cert) == Render([SignatureTag()]) + rest;
  }

  lemma FrontOpens(front: seq<Tag>, id: string, back: seq<Tag>, close: string)
    requires front != []
    ensures "<" + front[0].name <= Info(front, id, back) + close
  {
    var t := front[0];
    assert Info(front, id, back) + close
        == ("<" + t.name) + (t.tail + Render(front[1..]) + id + "\">\n" + Render(back) + close);
  }

  lemma InfoOpens(id: string, digest: Text)
    ensures InfoOpen() <= SignedInfo(id, digest)
  {
    FrontOpens(InfoFront(), id, InfoBack(digest), InfoClose());
  }

  /** The part of an assertion before the splice point. */
  function Prefix(a: string): string
    requires InsertionPoint(a) != -1
  {
    a[..InsertionPoint(a)]
  }

  lemma InsertedAt(a: string, elem: string)
    requires InsertionPoint(a) != -1
    ensures InsertAfterIssuer(a, elem) == Prefix(a) + "\n" + elem + a[InsertionPoint(a)..]
    ensures a == Prefix(a) + a[InsertionPoint(a)..]
  {
  }

  lemma StripOfInsert(a: string, elem: string)
    requires InsertionPoint(a) != -1 && Index(Prefix(a), SigOpen()) == -1
    requires SigOpen() + " " <= elem && Index(elem, SigClose()) >= 0
    ensures StripEnvelopedSignature(InsertAfterIssuer(a, elem)) == a
            <==> Index(elem, SigClose()) == |elem| - |SigClose()|
  {
    InsertedAt(a, elem);
    StripSpliced(Prefix(a), elem, a[InsertionPoint(a)..]);
  }

  lemma ElementEnds(id: string, digest: Text, signature: Text, cert: Text)
    ensures var elem := SignatureElement(SignedInfo(id, digest), signature, cert);
            && Index(elem, SigClose()) >= 0
            && (Index(elem, SigClose()) == |elem| - |SigClose()| <==> Index(id, SigClose()) == -1)
  {
    EndOfElement(id, digest, signature, cert);
    assert Index(id, SigClose()) + |SigClose()| <= |id| || Index(id, SigClose()) == -1;
  }

  /**
   The enveloped-signature transform undoes the splice: when no Signature element stands
   before the splice point, cutting the signature out of the signed assertion restores the
   original byte for byte, unless the assertion's ID itself contains the closing tag.
   */
  lemma StripRestores(c: Crypto, privateKey: Bytes, cert: Bytes, a: string)
    requires SignAssertion(c, privateKey, cert, a).Ok?
    requires InsertionPoint(a) != -1 && Index(Prefix(a), SigOpen()) == -1
    ensures StripEnvelopedSignature(SignAssertion(c, privateKey, cert, a).value) == a
            <==> Index(ExtractID(a), SigClose()) == -1
  {
    var sig := c.rsaSign(privateKey, c.hash(SHA256, InfoFor(c, a))).value;
    ElementEnds(ExtractID(a), DigestText(c, a), Base64Text(sig), CertText(cert));
    ElementOpens(InfoFor(c, a), Base64Text(sig), CertText(cert));
    StripOfInsert(a, SignatureElement(InfoFor(c, a), Base64Text(sig), CertText(cert)));
  }

  lemma ExtractOfInsert(a: string, tag: Tag, info: string, after: string)
    requires InsertionPoint(a) != -1 && Index(Prefix(a), InfoOpen()) == -1
    requires InfoOpen() <= info && Index(info, InfoClose()) >= 0
    requires Skipped(tag, InfoName()) && EndsIn([tag], '\n') && '\n' !in InfoName()
    ensures ExtractSignedInfoBytes(InsertAfterIssuer(a, Render([tag]) + info + after)) == Some(info)
            <==> Index(info, InfoClose()) == |info| - |InfoClose()|
  {
    ExtractSpliced(Prefix(a), tag, info, after, a[InsertionPoint(a)..]);
  }

  lemma InfoEnds(id: string, digest: Text)
    ensures var info := SignedInfo(id, digest);
            && Index(info, InfoClose()) >= 0
            && (Index(info, InfoClose()) == |info| - |InfoClose()| <==> Index(id, InfoClose()) == -1)
  {
    EndOfInfo(id, digest);
    assert Index(id, InfoClose()) + |InfoClose()| <= |id| || Index(id, InfoClose()) == -1;
  }

  lemma RegroupElement(info: string, signature: Text, cert: Text)
    ensures SignatureElement(info, signature, cert)
            == Render([SignatureTag()]) + info + ("\n" + Render(Trailer(signature, cert)) + SigClose())
  {
  }

  /**
   The verifier re-reads exactly the bytes that were signed, when no SignedInfo stands before
   the splice point and unless the assertion's ID contains its closing tag.
   */
  lemma ExtractsSignedBytes(c: Crypto, privateKey: Bytes, cert: Bytes, a: string)
    requires SignAssertion(c, privateKey, cert, a).Ok?
    requires InsertionPoint(a) != -1 && Index(Prefix(a), InfoOpen()) == -1
    ensures ExtractSignedInfoBytes(SignAssertion(c, privateKey, cert, a).value) == Some(InfoFor(c, a))
            <==> Index(ExtractID(a), InfoClose()) == -1
  {
    var info := InfoFor(c, a);
    var sig, crt := Base64Text(c.rsaSign(privateKey, c.hash(SHA256, info)).value), CertText(cert);
    InfoEnds(ExtractID(a), DigestText(c, a));
    InfoOpens(ExtractID(a), DigestText(c, a));
    SignatureTagIsSkipped();
    RegroupElement(info, sig, crt);
    ExtractOfInsert(a, SignatureTag(), info, "\n" + Render(Trailer(sig, crt)) + SigClose());
  }

  // ----- Verification

  /** What XML decoding hands over of a Signature element. */
  datatype XmlSignature = XmlSignature(
    signatureValue: string, signatureMethod: string, digestMethod: string, digestValue: string, uri: string)

  datatype SignatureInfo = SignatureInfo(
    signedInfo: Option<string>, signature: Bytes, signatureMethod: string,
    digestMethod: string, digest: Bytes, referencedID: string)

  function BuildSigInfo(x: XmlSignature, raw: string): Result<SignatureInfo> {
    match GoDecodePadded(S.Trim(x.signatureValue, S.SPACES))
    case None => Err("decode SignatureValue")
    case Some(signature) =>
      match GoDecodePadded(S.Trim(x.digestValue, S.SPACES))
      case None => Err("decode DigestValue")
      case Some(digest) =>
        Ok(SignatureInfo(ExtractSignedInfoBytes(raw), signature, x.signatureMethod, x.digestMethod, digest, x.uri))
  }

  function HashForAlgorithm(uri: string): Option<HashAlg> {
    if uri == Sha256Uri() then Some(SHA256)
    else if uri == DsigMoreUri() + "sha384" then Some(SHA384)
    else if uri == W3() + "2001/04/xmlenc#sha512" then Some(SHA512)
    else None
  }

  function CryptoHashForSignature(uri: string): Option<HashAlg> {
    if uri == RsaSha256Uri() || uri == DsigMoreUri() + "ecdsa-sha256" then Some(SHA256)
    else if uri == DsigMoreUri() + "rsa-sha384" || uri == DsigMoreUri() + "ecdsa-sha384" then Some(SHA384)
    else if uri == DsigMoreUri() + "rsa-sha512" || uri == DsigMoreUri() + "ecdsa-sha512" then Some(SHA512)
    else None
  }

  datatype PublicKey = Rsa(key: Bytes) | Ecdsa(key: Bytes) | OtherKey

  function VerifyDigest(c: Crypto, info: SignatureInfo, raw: string): Result<()> {
    match HashForAlgorithm(info.digestMethod)
    case None => Err("unsupported digest algorithm")
    case Some(alg) =>
      if c.hash(alg, StripEnvelopedSignature(raw)) == info.digest then Ok(()) else Err("digest mismatch")
  }

  function VerifyCryptoSignature(c: Crypto, info: SignatureInfo, key: PublicKey): Result<()> {
    match CryptoHashForSignature(info.signatureMethod)
    case None => Err("unsupported signature algorithm")
    case Some(alg) =>
      var hashed := c.hash(alg, if info.signedInfo.Some? then info.signedInfo.value else "");
      match key
      case Rsa(k) =>
        if Index(info.signatureMethod, "rsa") < 0 then Err("unsupported RSA signature method")
        else if c.rsaVerify(k, alg, hashed, info.signature) then Ok(())
        else Err("verification error")
      case Ecdsa(k) =>
        if c.ecdsaVerify(k, hashed, info.signature) then Ok(()) else Err("ECDSA signature verification failed")
      case OtherKey => Err("unsupported public key type")
  }

  /** Steps 2 to 5 of VerifySignedAssertion, given what XML decoding yields. */
  function VerifySteps(c: Crypto, x: XmlSignature, raw: string, assertionID: string, key: PublicKey): Result<()> {
    match BuildSigInfo(x, raw)
    case Err(e) => Err(e)
    case Ok(info) =>
      if info.referencedID != "" && info.referencedID != "#" + assertionID then Err("reference mismatch")
      else
        match VerifyDigest(c, info, raw)
        case Err(e) => Err(e)
        case Ok(_) => VerifyCryptoSignature(c, info, key)
  }

  /** The texts the identity provider wrote into the Signature element of `a`. */
  function Emitted(c: Crypto, privateKey: Bytes, a: string): XmlSignature
    requires c.rsaSign(privateKey, c.hash(SHA256, InfoFor(c, a))).Some?
  {
    var sig := c.rsaSign(privateKey, c.hash(SHA256, InfoFor(c, a))).value;
    XmlSignature(Base64Text(sig), RsaSha256Uri(), Sha256Uri(), DigestText(c, a), "#" + ExtractID(a))
  }

  /** Verification with the public key accepts what the private key signed, and a signature is not empty. */
  ghost predicate KeyPair(c: Crypto, privateKey: Bytes, publicKey: Bytes) {
    forall h, sig :: c.rsaSign(privateKey, h) == Some(sig) ==> sig != [] && c.rsaVerify(publicKey, SHA256, h, sig)
  }

  lemma SpacesAreForeign(c: char)
    requires c in S.SPACES
    ensures ValueAt(Std, c).None? && c != '='
  {
  }

  lemma DecodesBack(bs: Bytes)
    ensures GoDecodePadded(S.Trim(Base64Text(bs), S.SPACES)) == Some(bs)
  {
    GoRoundTrip(bs);
    var s := Base64Text(bs);
    forall c | c in S.SPACES
      ensures c !in s
    {
      SpacesAreForeign(c);
      Absent(bs, c);
    }
    assert s == "" || (s[0] in s && s[|s| - 1] in s);
    S.TrimKeeps(s, S.SPACES);
  }

  lemma RsaIsNamed()
    ensures Index(RsaSha256Uri(), "rsa") >= 0
  {
    assert RsaSha256Uri()[|DsigMoreUri()|..|DsigMoreUri()| + 3] == "rsa";
    assert At(RsaSha256Uri(), "rsa", |DsigMoreUri()|);
  }

  lemma StepsAccept(c: Crypto, x: XmlSignature, raw: string, a: string, info: string, sig: Bytes, id: string, key: Bytes)
    requires StripEnvelopedSignature(raw) == a && ExtractSignedInfoBytes(raw) == Some(info)
    requires x.signatureMethod == RsaSha256Uri() && x.digestMethod == Sha256Uri() && x.uri == "#" + id
    requires x.signatureValue == Base64Text(sig) && x.digestValue == Base64Text(c.hash(SHA256, a))
    requires c.rsaVerify(key, SHA256, c.hash(SHA256, info), sig)
    ensures VerifySteps(c, x, raw, id, Rsa(key)) == Ok(())
  {
    DecodesBack(sig);
    DecodesBack(c.hash(SHA256, a));
    RsaIsNamed();
    var i := BuildSigInfo(x, raw).value;
    assert VerifyDigest(c, i, raw) == Ok(());
    assert VerifyCryptoSignature(c, i, Rsa(key)) == Ok(());
  }

  /** Every assertion with a clean prefix and a clean ID verifies after signing. */
  lemma VerifierAccepts(c: Crypto, privateKey: Bytes, publicKey: Bytes, cert: Bytes, a: string)
    requires KeyPair(c, privateKey, publicKey) && SignAssertion(c, privateKey, cert, a).Ok?
    requires InsertionPoint(a) != -1
    requires Index(Prefix(a), SigOpen()) == -1 && Index(Prefix(a), InfoOpen()) == -1
    requires Index(ExtractID(a), SigClose()) == -1 && Index(ExtractID(a), InfoClose()) == -1
    ensures VerifySteps(c, Emitted(c, privateKey, a), SignAssertion(c, privateKey, cert, a).value,
                        ExtractID(a), Rsa(publicKey)) == Ok(())
  {
    var sig := c.rsaSign(privateKey, c.hash(SHA256, InfoFor(c, a))).value;
    StripRestores(c, privateKey, cert, a);
    ExtractsSignedBytes(c, privateKey, cert, a);
    StepsAccept(c, Emitted(c, privateKey, a), SignAssertion(c, privateKey, cert, a).value, a,
                InfoFor(c, a), sig, ExtractID(a), publicKey);
  }

  // ----- When the round trip fails

  lemma OccursWithin(a: string, b: string, p: string)
    requires Index(b, p) >= 0
    ensures Index(a + b, p) >= 0
  {
    AtRight(a, b, p, |a| + Index(b, p));
  }

  /** A cut that starts before the splice cannot restore the text when the two ends read differently. */
  lemma CutElsewhere(pre: string, elem: string, post: string, from: nat, stop: nat)
    requires from + 2 <= |pre| && from <= stop <= |pre| + 1 + |elem| + |post|
    requires |elem| >= 2 && pre[|pre| - 2] != elem[|elem| - 2]
    ensures var raw := pre + "\n" + elem + post; raw[..from] + raw[stop..] != pre + post
  {
    var raw := pre + "\n" + elem + post;
    var r := raw[..from] + raw[stop..];
    if |r| == |pre + post| {
      assert r[|pre| - 2] == raw[|pre| - 2 + 1 + |elem|] == elem[|elem| - 2];
      assert (pre + post)[|pre| - 2] == pre[|pre| - 2];
    }
  }

  lemma SlicesBefore(pre: string, elem: string, post: string, j: nat)
    requires j < |pre|
    ensures var raw := pre + "\n" + elem + post;
            raw[j] == pre[j] && raw[j..] == (pre[j..] + "\n") + (elem + post)
  {
  }

  lemma FoundBefore(pre: string, elem: string, post: string, open: string, close: string)
    requires Index(pre, open) >= 0 && Index(pre, open) + |open| < |pre| && Index(elem, close) >= 0
    ensures var raw := pre + "\n" + elem + post;
            Index(raw, open) == Index(pre, open) && Index(raw[Index(pre, open)..], close) >= 0
  {
    var j := Index(pre, open);
    SplicedSlices(pre, elem, post, 0);
    FirstInLeft(pre, "\n" + (elem + post), open);
    SlicesBefore(pre, elem, post, j);
    FirstInLeft(elem, post, close);
    OccursWithin(pre[j..] + "\n", elem + post, close);
  }

  lemma CutBefore(pre: string, elem: string, post: string, open: string, close: string)
    requires Index(pre, open) >= 0 && |open| >= 2 && Index(pre, open) + |open| < |pre|
    requires Delimiter(pre[Index(pre, open) + |open|])
    requires |elem| >= 2 && pre[|pre| - 2] != elem[|elem| - 2] && Index(elem, close) >= 0
    ensures var cut := CutElement(pre + "\n" + elem + post, open, close);
            cut.Some? && cut.value != pre + post
  {
    var raw, j := pre + "\n" + elem + post, Index(pre, open);
    FoundBefore(pre, elem, post, open, close);
    SlicesBefore(pre, elem, post, j + |open|);
    var e := Index(raw[j..], close);
    var from := if j > 0 && raw[j - 1] == '\n' then j - 1 else j;
    CutKnown(raw, open, close, j, from, j + e + |close|);
    CutElsewhere(pre, elem, post, from, j + e + |close|);
  }

  lemma StripOfInsertBreaks(a: string, elem: string)
    requires InsertionPoint(a) >= 2 && a[InsertionPoint(a) - 2] == 'r'
    requires var j, n := Index(Prefix(a), SigOpen()), |SigOpen()|;
             j >= 0 && j + n < |Prefix(a)| && Delimiter(Prefix(a)[j + n])
    requires |elem| >= 2 && elem[|elem| - 2] == 'e' && Index(elem, SigClose()) >= 0
    ensures StripEnvelopedSignature(InsertAfterIssuer(a, elem)) != a
  {
    var post := a[InsertionPoint(a)..];
    InsertedAt(a, elem);
    assert |SigOpen()| >= 2;
    CutBefore(Prefix(a), elem, post, SigOpen(), SigClose());
  }

  lemma IssuerEnds(a: string)
    requires LastIndex(a, SAML_ISSUER_CLOSE) >= 0 || LastIndex(a, ISSUER_CLOSE) >= 0
    ensures InsertionPoint(a) >= 2 && a[InsertionPoint(a) - 2] == 'r'
  {
    var tag := if LastIndex(a, SAML_ISSUER_CLOSE) >= 0 then SAML_ISSUER_CLOSE else ISSUER_CLOSE;
    var i := LastIndex(a, tag);
    assert tag[|tag| - 2] == 'r';
    assert a[i..i + |tag|][|tag| - 2] == 'r';
  }

  lemma ElementEndsInE(info: string, signature: Text, cert: Text)
    ensures var elem := SignatureElement(info, signature, cert); |elem| >= 2 && elem[|elem| - 2] == 'e'
  {
    var close := SigClose();
    assert |close| == 15 && close[13] == 'e';
  }

  /**
   The condition on the prefix is needed: if a Signature element already opens before the
   closing Issuer tag, the verifier cuts at that one and never restores the assertion.
   */
  lemma EarlierSignatureBreaks(c: Crypto, privateKey: Bytes, cert: Bytes, a: string)
    requires SignAssertion(c, privateKey, cert, a).Ok?
    requires LastIndex(a, SAML_ISSUER_CLOSE) >= 0 || LastIndex(a, ISSUER_CLOSE) >= 0
    requires InsertionPoint(a) != -1
    requires var j, n := Index(Prefix(a), SigOpen()), |SigOpen()|;
             j >= 0 && j + n < |Prefix(a)| && Delimiter(Prefix(a)[j + n])
    ensures StripEnvelopedSignature(SignAssertion(c, privateKey, cert, a).value) != a
  {
    var sig, crt := Base64Text(c.rsaSign(privateKey, c.hash(SHA256, InfoFor(c, a))).value), CertText(cert);
    IssuerEnds(a);
    ElementEndsInE(InfoFor(c, a), sig, crt);
    ElementEnds(ExtractID(a), DigestText(c, a), sig, crt);
    StripOfInsertBreaks(a, SignatureElement(InfoFor(c, a), sig, crt));
  }

  /** An assertion whose ID holds the closing tag of the signature. */
  function HostileAssertion(): string {
    ("ID=\"" + SigClose()) + "\"></Issuer>"
  }

  lemma HostileIdIsRead()
    ensures ExtractID(HostileAssertion()) == SigClose()
  {
    var a, close := HostileAssertion(), SigClose();
    SigEndIsClosing();
    assert |"ID=\""| == 4 && "ID=\"" <= a;
    PrefixIsFirst(a, "ID=\"");
    var end := 4 + |close|;
    forall i | 4 <= i < end
      ensures !At(a, "\"", i)
    {
      assert a[i..i + 1][0] == close[i - 4];
    }
    assert a[end..end + 1] == "\"";
    FirstIsUnique(a, "\"", 4, end, IndexFrom(a, "\"", 4));
    assert a[4..end] == close;
  }

  lemma HostileHasIssuer()
    ensures InsertionPoint(HostileAssertion()) != -1
  {
    var a := HostileAssertion();
    assert a[|a| - 1..] == ">";
    assert At(a, ">", |a| - 1);
  }

  lemma NoOpeningTag()
    ensures var a := HostileAssertion();
            forall i | 0 <= i && i + 1 < |a| :: a[i] == '<' ==> a[i + 1] != 'd'
  {
  }

  lemma HostilePrefixIsClean()
    requires InsertionPoint(HostileAssertion()) != -1
    ensures Index(Prefix(HostileAssertion()), SigOpen()) == -1
  {
    NoOpeningTag();
    NeverOpens(HostileAssertion(), InsertionPoint(HostileAssertion()), SigName());
  }

  lemma NeverOpens(a: string, n: nat, name: string)
    requires n <= |a| && name != "" && name[0] == 'd'
    requires forall i | 0 <= i && i + 1 < |a| :: a[i] == '<' ==> a[i + 1] != 'd'
    ensures Index(a[..n], "<" + name) == -1
  {
    var open := "<" + name;
    assert open[0] == '<' && open[1] == 'd';
    forall i | 0 <= i
      ensures !At(a[..n], open, i)
    {
      if i + |open| <= n {
        assert a[..n][i..i + |open|][0] == a[i];
        assert a[..n][i..i + |open|][1] == a[i + 1];
      }
    }
  }

  /** The condition on the ID is needed too: this clean-looking assertion is not restored. */
  lemma HostileIdBreaks(c: Crypto, privateKey: Bytes, cert: Bytes)
    requires SignAssertion(c, privateKey, cert, HostileAssertion()).Ok?
    ensures StripEnvelopedSignature(SignAssertion(c, privateKey, cert, HostileAssertion()).value) != HostileAssertion()
  {
    HostileIdIsRead();
    HostileHasIssuer();
    HostilePrefixIsClean();
    PrefixIsFirst(SigClose(), SigClose());
    StripRestores(c, privateKey, cert, HostileAssertion());
  }
}

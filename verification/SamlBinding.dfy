/**
 What acceptance says of the content: the digest that is compared comes from XML decoding, the bytes whose signature is
 verified from a substring search. Accepted content is content that was signed exactly when the two state the same digest.
 */
module SamlBinding {
  import opened Prelude
  import opened Base64
  import opened Search
  import opened SamlSignature
  import opened SamlVerifier
  import S = Splitting

  // ----- The digest that a SignedInfo states

  function DigestName(): Text { "ds:DigestValue>" }

  /** The text of the last DigestValue element. */
  function StatedDigest(info: string): Option<string> {
    var i := LastIndex(info, "<" + DigestName());
    if i < 0 then None
    else
      var start := i + 1 + |DigestName()|;
      var end := IndexFrom(info, "<", start);
      if end < 0 then None else Some(info[start..end])
  }

  lemma StatedFrom(front: string, digest: Text, after: string)
    requires after != "" && after[0] == '<' && Index(after, "<" + DigestName()) == -1
    ensures LastIndex(front + ("<" + DigestName()) + (digest + after), "<" + DigestName()) == |front|
  {
    var q := DigestName();
    CleanValue(digest, q);
    assert ("<" + q)[1..] == q;
    FirstInConcat(digest, after, "<" + q);
    LastBefore(front, q, digest + after);
  }

  /** A text without tags ends where the next tag begins. */
  lemma StatedUpTo(left: string, digest: Text, after: string)
    requires after != "" && after[0] == '<'
    ensures IndexFrom(left + (digest + after), "<", |left|) == |left| + |digest|
    ensures (left + (digest + after))[|left|..|left| + |digest|] == digest
  {
    var s, end := left + (digest + after), |left| + |digest|;
    forall i: nat | |left| <= i < end
      ensures !At(s, "<", i)
    {
      MatchMeans(s, "<", i);
      assert s[i] == digest[i - |left|];
    }
    MatchMeans(s, "<", end);
    assert s[end] == after[0];
    FirstIsUnique(s, "<", |left|, IndexFrom(s, "<", |left|), end);
  }

  lemma StatedAt(front: string, digest: Text, after: string)
    requires after != "" && after[0] == '<' && Index(after, "<" + DigestName()) == -1
    ensures StatedDigest(front + ("<" + DigestName()) + (digest + after)) == Some(digest)
  {
    StatedFrom(front, digest, after);
    StatedUpTo(front + ("<" + DigestName()), digest, after);
  }

  function BackFront(): seq<Tag> {
    [TransformsTag(), EnvelopedTag(), ExclusiveTag(), TransformsEnd(), DigestMethodTag()]
  }

  /** The end of SignedInfo from the digest on. */
  function BackEnd(): seq<Tag> {
    [DigestValueEnd(), ReferenceEnd(), Tag(InfoEndName(), "")]
  }

  lemma BackEndCloses()
    ensures BackEnd()[0].name[0] == '/' && BackEnd()[1].name[0] == '/' && BackEnd()[2].name[0] == '/'
    ensures BackEnd()[0].name != "" && BackEnd()[1].name != "" && BackEnd()[2].name != ""
    ensures DigestName() != "" && DigestName()[0] == 'd'
  {
  }

  lemma BackEndStatesNothing()
    ensures Index(Render(BackEnd()), "<" + DigestName()) == -1
    ensures Render(BackEnd()) != "" && Render(BackEnd())[0] == '<'
  {
    BackEndCloses();
    var ts, q := BackEnd(), DigestName();
    assert forall i | 0 <= i < 3 :: q[0] != ts[i].name[0];
    assert AllSkipped(ts, q);
    NoneInTags(ts, q);
  }

  lemma DigestTagRenders(digest: Text)
    ensures RenderOne(DigestValueTag(digest)) == ("<" + DigestName()) + digest
  {
  }

  lemma InfoShape(f: string, b: string, d: string, e: string, c: string)
    ensures f + (b + (d + e)) + c == (f + b) + (d + (e + c))
  {
  }

  function BackMiddle(): seq<Tag> {
    [DigestValueEnd(), ReferenceEnd()]
  }

  lemma BackParts(digest: Text)
    ensures Render(InfoBack(digest)) == Render(BackFront()) + (RenderOne(DigestValueTag(digest)) + Render(BackMiddle()))
  {
    var tag := [DigestValueTag(digest)];
    assert InfoBack(digest) == BackFront() + (tag + BackMiddle());
    RenderConcat(BackFront(), tag + BackMiddle());
    RenderConcat(tag, BackMiddle());
    RenderSingle(DigestValueTag(digest));
  }

  lemma EndParts()
    ensures Render(BackEnd()) == Render(BackMiddle()) + InfoClose()
  {
    var close := Tag(InfoEndName(), "");
    assert BackEnd() == BackMiddle() + [close];
    RenderConcat(BackMiddle(), [close]);
    RenderSingle(close);
    assert RenderOne(close) == InfoClose();
  }

  lemma InfoParts(id: string, digest: Text)
    ensures SignedInfo(id, digest)
            == (Render(InfoFront()) + id + "\">\n" + Render(BackFront())) + ("<" + DigestName()) + (digest + Render(BackEnd()))
  {
    var front := Render(InfoFront()) + id + "\">\n";
    BackParts(digest);
    EndParts();
    DigestTagRenders(digest);
    InfoShape(front, Render(BackFront()), RenderOne(DigestValueTag(digest)), Render(BackMiddle()), InfoClose());
    Assoc4(front + Render(BackFront()), "<" + DigestName(), digest, Render(BackEnd()));
  }

  lemma Assoc4(a: string, b: string, c: string, d: string)
    ensures a + ((b + c) + d) == a + b + (c + d)
  {
  }

  /** The emitted SignedInfo states the digest it was made with, whatever the ID. */
  lemma StatedInInfo(id: string, digest: Text)
    ensures StatedDigest(SignedInfo(id, digest)) == Some(digest)
  {
    BackEndStatesNothing();
    InfoParts(id, digest);
    StatedAt(Render(InfoFront()) + id + "\">\n" + Render(BackFront()), digest, Render(BackEnd()));
  }

  // ----- Accepted content and signed content

  /** SHA-256 never maps two texts to one digest. */
  ghost predicate CollisionFree(c: Crypto) {
    forall s, t | c.hash(SHA256, s) == c.hash(SHA256, t) :: s == t
  }

  /** Only signatures over the SignedInfo of an issued assertion verify with the key. */
  ghost predicate SignsOnly(c: Crypto, key: Bytes, issued: string -> bool) {
    forall alg, h, sig | c.rsaVerify(key, alg, h, sig) ::
      alg == SHA256 && exists a :: issued(a) && h == c.hash(SHA256, InfoFor(c, a))
  }

  function DecodedDigest(text: string): Option<Bytes> {
    GoDecodePadded(S.Trim(text, S.SPACES))
  }

  /**
   The guard a caller can check: the digest that XML decoding yielded is the one that the SignedInfo found in the text
   states.
   */
  predicate StatesDecodedDigest(raw: string, x: XmlSignature) {
    var info := ExtractSignedInfoBytes(raw);
    info.Some? &&
    var stated := StatedDigest(info.value);
    stated.Some? && DecodedDigest(stated.value).Some? && DecodedDigest(x.digestValue) == DecodedDigest(stated.value)
  }

  /** What the two cryptographic steps establish, each for itself. */
  lemma StepsEstablish(c: Crypto, x: XmlSignature, raw: string, id: string, key: Bytes) returns (alg: HashAlg, sig: Bytes)
    requires VerifySteps(c, x, raw, id, Rsa(key)).Ok?
    ensures var info := ExtractSignedInfoBytes(raw);
            c.rsaVerify(key, alg, c.hash(alg, if info.Some? then info.value else ""), sig)
    ensures x.digestMethod == Sha256Uri() ==> DecodedDigest(x.digestValue) == Some(c.hash(SHA256, StripEnvelopedSignature(raw)))
  {
    var i := BuildSigInfo(x, raw).value;
    assert VerifyDigest(c, i, raw).Ok? && VerifyCryptoSignature(c, i, Rsa(key)).Ok?;
    alg := CryptoHashForSignature(i.signatureMethod).value;
    sig := i.signature;
  }

  lemma InfoIsNotEmpty(c: Crypto, a: string)
    ensures InfoFor(c, a) != "" && StatedDigest(InfoFor(c, a)) == Some(DigestText(c, a))
    ensures DecodedDigest(DigestText(c, a)) == Some(c.hash(SHA256, a))
  {
    StatedInInfo(ExtractID(a), DigestText(c, a));
    DecodesBack(c.hash(SHA256, a));
    InfoOpens(ExtractID(a), DigestText(c, a));
  }

  /** The signature that verified is over the SignedInfo of some issued assertion, which is the one in the text. */
  lemma SignedInfoWasIssued(c: Crypto, raw: string, key: Bytes, issued: string -> bool, alg: HashAlg, sig: Bytes) returns (a: string)
    requires CollisionFree(c) && SignsOnly(c, key, issued)
    requires var info := ExtractSignedInfoBytes(raw);
             c.rsaVerify(key, alg, c.hash(alg, if info.Some? then info.value else ""), sig)
    ensures issued(a) && ExtractSignedInfoBytes(raw) == Some(InfoFor(c, a))
  {
    var info := ExtractSignedInfoBytes(raw);
    var signed := if info.Some? then info.value else "";
    a :| issued(a) && c.hash(alg, signed) == c.hash(SHA256, InfoFor(c, a));
    InfoIsNotEmpty(c, a);
  }

  /**
   Whatever is accepted was signed, if the guard holds, and only then: with a collision-free hash and a key that signs
   for the issuer only, every accepted text contains the SignedInfo of an issued assertion, and its content without the
   signature is that assertion if and only if the decoded digest is the one that this SignedInfo states.
   */
  lemma AcceptedWasSignedIff(c: Crypto, x: XmlSignature, raw: string, id: string, key: Bytes, issued: string -> bool)
      returns (a: string)
    requires CollisionFree(c) && SignsOnly(c, key, issued) && VerifySteps(c, x, raw, id, Rsa(key)).Ok?
    ensures issued(a) && ExtractSignedInfoBytes(raw) == Some(InfoFor(c, a))
    ensures x.digestMethod == Sha256Uri() ==> (StripEnvelopedSignature(raw) == a <==> StatesDecodedDigest(raw, x))
  {
    var alg, sig := StepsEstablish(c, x, raw, id, key);
    a := SignedInfoWasIssued(c, raw, key, issued, alg, sig);
    InfoIsNotEmpty(c, a);
  }

  /** What the issuer emitted meets the guard. */
  lemma EmittedStatesDigest(c: Crypto, a: string, raw: string, x: XmlSignature)
    requires ExtractSignedInfoBytes(raw) == Some(InfoFor(c, a)) && x.digestValue == DigestText(c, a)
    ensures StatesDecodedDigest(raw, x)
  {
    InfoIsNotEmpty(c, a);
  }

  // ----- Without the guard

  lemma NoCloseNoCut(s: string, open: string, close: string)
    requires Index(s, close) == -1
    ensures CutElement(s, open, close) == None
  {
    var start := Index(s, open);
    if start >= 0 {
      assert s == s[..start] + s[start..];
      forall i: nat
        ensures !At(s[start..], close, i)
      {
        AtRight(s[..start], s[start..], close, start + i);
      }
    }
  }

  /** The template before the ID, and after it up to the end of the text. */
  lemma NoneAroundID(id: Text, digest: Text, q: Text)
    requires q != "" && '#' !in q && '\n' !in q
    requires AllSkipped(InfoFront(), q) && AllSkipped(InfoBack(digest), q) && Skipped(Tag(InfoEndName(), ""), q)
    ensures Index(SignedInfo(id, digest), "<" + q) == -1
  {
    var p := "<" + q;
    var back := InfoBack(digest) + [Tag(InfoEndName(), "")];
    assert p[1..] == q;
    RenderConcat(InfoBack(digest), [Tag(InfoEndName(), "")]);
    RenderSingle(Tag(InfoEndName(), ""));
    NoneInTags(back, q);
    var middle := id + "\">\n";
    CleanValue(middle, q);
    FirstInConcat(middle, Render(back), p);
    ReferenceEndsInHash();
    FirstAfterTags(InfoFront(), middle + Render(back), q);
    assert RenderOne(Tag(InfoEndName(), "")) == InfoClose();
    Regroup4(Render(InfoFront()), id, "\">\n", Render(InfoBack(digest)), InfoClose());
  }

  lemma Regroup4(f: string, id: string, quote: string, b: string, c: string)
    ensures (f + id + quote + b) + c == f + ((id + quote) + (b + c))
  {
  }

  lemma FrontNames()
    ensures forall i | 0 <= i < 4 :: InfoFront()[i].name != "" && InfoFront()[i].name[0] == 'd'
  {
  }

  lemma BackNames(digest: Text)
    ensures forall i | 0 <= i < 8 :: InfoBack(digest)[i].name != "" && (InfoBack(digest)[i].name[0] == 'd' || InfoBack(digest)[i].name[0] == '/')
  {
  }

  /** No tag of SignedInfo is named so that it could close a Signature without a namespace. */
  lemma PlainIsSkipped(digest: Text)
    ensures var q := "/Signature>";
            AllSkipped(InfoFront(), q) && AllSkipped(InfoBack(digest), q) && Skipped(Tag(InfoEndName(), ""), q)
  {
    var q := "/Signature>";
    FrontNames();
    BackDiffers(digest);
    assert InfoEndName()[1] == 'd' && q[1] == 'S';
    assert forall i | 0 <= i < 4 :: q[0] != InfoFront()[i].name[0];
  }

  lemma BackDiffers(digest: Text)
    ensures AllSkipped(InfoBack(digest), "/Signature>")
  {
    SecondCharacters(digest);
    var ts, q := InfoBack(digest), "/Signature>";
    forall i | 0 <= i < |ts|
      ensures Skipped(ts[i], q)
    {
      assert q[1] != ts[i].name[1];
    }
  }

  lemma SecondCharacters(digest: Text)
    ensures |InfoBack(digest)| == 8
    ensures forall i | 0 <= i < 8 :: |InfoBack(digest)[i].name| > 1 && InfoBack(digest)[i].name[1] != 'S'
  {
  }

  lemma SigCloseIsSkipped(digest: Text)
    ensures var q := SigEndName();
            AllSkipped(InfoFront(), q) && AllSkipped(InfoBack(digest), q) && Skipped(Tag(InfoEndName(), ""), q)
  {
    TemplateFacts(digest, SigEndName());
    LookAlikes();
  }

  lemma PatternsAreSimple()
    ensures SigEndName() != "" && '#' !in SigEndName() && '\n' !in SigEndName()
    ensures "<" + "/Signature>" == "</Signature>" && '#' !in "/Signature>" && '\n' !in "/Signature>" && '<' !in "/Signature>"
  {
  }

  lemma BothCutsMiss(s: string)
    requires CutElement(s, SigOpen(), SigClose()) == None && CutElement(s, "<Signature", "</Signature>") == None
    ensures StripEnvelopedSignature(s) == s
  {
  }

  lemma FirstPairMisses(id: Text, digest: Text)
    ensures CutElement(SignedInfo(id, digest), SigOpen(), SigClose()) == None
  {
    PatternsAreSimple();
    SigCloseIsSkipped(digest);
    NoneAroundID(id, digest, SigEndName());
    NoCloseNoCut(SignedInfo(id, digest), SigOpen(), SigClose());
  }

  lemma SecondPairMisses(id: Text, digest: Text)
    ensures CutElement(SignedInfo(id, digest), "<Signature", "</Signature>") == None
  {
    PatternsAreSimple();
    PlainIsSkipped(digest);
    NoneAroundID(id, digest, "/Signature>");
    NoCloseNoCut(SignedInfo(id, digest), "<Signature", "</Signature>");
  }

  lemma BareInfoIsKept(id: Text, digest: Text)
    ensures StripEnvelopedSignature(SignedInfo(id, digest)) == SignedInfo(id, digest)
  {
    FirstPairMisses(id, digest);
    SecondPairMisses(id, digest);
    BothCutsMiss(SignedInfo(id, digest));
  }

  lemma BareInfoIsRead(id: Text, digest: Text)
    ensures ExtractSignedInfoBytes(SignedInfo(id, digest)) == Some(SignedInfo(id, digest))
  {
    var info := SignedInfo(id, digest);
    InfoOpens(id, digest);
    InfoEnds(id, digest);
    CleanValue(id, InfoEndName());
    PrefixIsFirst(info, InfoOpen());
    assert info + "" == info && info[0..] == info;
    ExtractKnown(info, 0, info, "");
  }

  /**
   The guard is needed: taken as a text by itself, the SignedInfo of a signed assertion passes the digest and signature
   steps with its own digest, although its content is not the assertion that was signed.
   */
  lemma BareInfoPasses(c: Crypto, privateKey: Bytes, publicKey: Bytes, a: string, raw: string, sig: Bytes, id: string)
    requires KeyPair(c, privateKey, publicKey) && '<' !in ExtractID(a) && raw == InfoFor(c, a)
    requires c.rsaSign(privateKey, c.hash(SHA256, raw)) == Some(sig)
    ensures StripEnvelopedSignature(raw) == raw && ExtractSignedInfoBytes(raw) == Some(raw)
    ensures VerifySteps(c, XmlSignature(Base64Text(sig), RsaSha256Uri(), Sha256Uri(), DigestText(c, raw), "#" + id),
                        raw, id, Rsa(publicKey)).Ok?
  {
    BareInfoIsKept(ExtractID(a), DigestText(c, a));
    BareInfoIsRead(ExtractID(a), DigestText(c, a));
    StepsAccept(c, XmlSignature(Base64Text(sig), RsaSha256Uri(), Sha256Uri(), DigestText(c, raw), "#" + id),
                raw, raw, raw, sig, id, publicKey);
  }

  /** It is another text than the assertion, and states another digest. */
  lemma BareInfoStatesOther(c: Crypto, a: string, raw: string, x: XmlSignature)
    requires CollisionFree(c) && '<' !in ExtractID(a) && raw == InfoFor(c, a) && !(InfoOpen() <= a)
    requires x.digestValue == DigestText(c, raw)
    ensures raw != a && !StatesDecodedDigest(raw, x)
  {
    InfoOpens(ExtractID(a), DigestText(c, a));
    BareInfoIsRead(ExtractID(a), DigestText(c, a));
    InfoIsNotEmpty(c, a);
    DecodesBack(c.hash(SHA256, raw));
  }
}

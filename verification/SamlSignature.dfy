/**
 The enveloped XML signature of SAML assertions (section 5.4 of SAML 2.0 Core, section
 6.6.4 of RFC 3275): the identity provider splices a Signature element into the assertion
 text, the service provider cuts it out again and re-reads the signed bytes. Both work by
 substring search, so everything rests on where the first match of a tag falls.
 */
module SamlSignature {
  import opened Prelude
  import opened Search
  import opened Base64

  // ----- Identity provider

  const SAML_ISSUER_CLOSE := "</saml:Issuer>"
  const ISSUER_CLOSE := "</Issuer>"

  /** The ID attribute's value: from the first `ID="` to the next quote. */
  function ExtractID(xml: string): string {
    var start := Index(xml, "ID=\"");
    if start < 0 then ""
    else
      var end := IndexFrom(xml, "\"", start + 4);
      if end < 0 then "" else xml[start + 4..end]
  }

  /** A match, character by character. */
  lemma MatchMeans(s: string, p: string, i: nat)
    ensures At(s, p, i) <==> i + |p| <= |s| && forall k | 0 <= k < |p| :: p[k] == s[i + k]
  {
    if i + |p| <= |s| {
      var t := s[i..i + |p|];
      assert forall k | 0 <= k < |p| :: t[k] == s[i + k];
      assert t == p <==> forall k | 0 <= k < |p| :: p[k] == t[k];
    }
  }

  /** A character of a match. */
  lemma LastOf(a: string, tag: string, i: nat, k: nat)
    requires At(a, tag, i) && k < |tag|
    ensures i + k < |a| && a[i + k] == tag[k]
  {
    assert a[i..i + |tag|][k] == tag[k];
  }

  /** Offset just after the last closing Issuer tag, else after the first `>`, else -1. */
  function InsertionPoint(a: string): (pos: int)
    ensures pos != -1 ==> 0 < pos <= |a|
  {
    var saml, plain, gt := LastIndex(a, SAML_ISSUER_CLOSE), LastIndex(a, ISSUER_CLOSE), Index(a, ">");
    if saml >= 0 then saml + |SAML_ISSUER_CLOSE|
    else if plain >= 0 then plain + |ISSUER_CLOSE|
    else if gt >= 0 then gt + 1
    else -1
  }

  /** It lies just after a tag. */
  lemma InsertionPointFollowsTag(a: string)
    requires InsertionPoint(a) != -1
    ensures a[InsertionPoint(a) - 1] == '>'
  {
    var saml, plain := LastIndex(a, SAML_ISSUER_CLOSE), LastIndex(a, ISSUER_CLOSE);
    if saml >= 0 {
      LastOf(a, SAML_ISSUER_CLOSE, saml, 13);
    } else if plain >= 0 {
      LastOf(a, ISSUER_CLOSE, plain, 8);
    } else {
      LastOf(a, ">", Index(a, ">"), 0);
    }
  }

  /** `pos` is where the last `tag` ends. */
  ghost predicate EndsLast(a: string, tag: string, pos: int) {
    At(a, tag, pos - |tag|) && forall i | At(a, tag, i) :: i + |tag| <= pos
  }

  ghost predicate Occurs(a: string, tag: string) {
    exists i :: At(a, tag, i)
  }

  /**
   The splice point is the end of the last closing Issuer tag, the prefixed spelling first; without either it is the
   end of the first tag; and there is none exactly when there is no tag at all.
   */
  lemma InsertionPointMeaning(a: string)
    ensures Occurs(a, SAML_ISSUER_CLOSE) ==> EndsLast(a, SAML_ISSUER_CLOSE, InsertionPoint(a))
    ensures !Occurs(a, SAML_ISSUER_CLOSE) && Occurs(a, ISSUER_CLOSE) ==> EndsLast(a, ISSUER_CLOSE, InsertionPoint(a))
    ensures !Occurs(a, SAML_ISSUER_CLOSE) && !Occurs(a, ISSUER_CLOSE) && '>' in a ==>
              InsertionPoint(a) > 0 && a[InsertionPoint(a) - 1] == '>' && '>' !in a[..InsertionPoint(a) - 1]
    ensures '>' !in a <==> InsertionPoint(a) == -1
  {
    LastOrNone(a, SAML_ISSUER_CLOSE);
    LastOrNone(a, ISSUER_CLOSE);
    if InsertionPoint(a) != -1 {
      InsertionPointFollowsTag(a);
    }
    var gt := Index(a, ">");
    forall i | 0 <= i < |a|
      ensures At(a, ">", i) <==> a[i] == '>'
    {
      assert a[i..i + 1] == [a[i]];
    }
    if gt == -1 {
      assert forall i | 0 <= i < |a| :: !At(a, ">", i);
    } else {
      assert forall i | 0 <= i < gt :: !At(a, ">", i);
    }
  }

  lemma LastOrNone(a: string, tag: string)
    ensures LastIndex(a, tag) >= 0 <==> Occurs(a, tag)
    ensures LastIndex(a, tag) >= 0 ==> EndsLast(a, tag, LastIndex(a, tag) + |tag|)
  {
    var i := LastIndex(a, tag);
    if i >= 0 {
      assert At(a, tag, i);
    }
  }

  function InsertAfterIssuer(a: string, content: string): string {
    var pos := InsertionPoint(a);
    if pos < 0 then a else a[..pos] + "\n" + content + a[pos..]
  }

  const SAMLP_RESPONSE_CLOSE := "</samlp:Response>"
  const RESPONSE_CLOSE := "</Response>"

  function InjectAssertion(response: string, assertion: string): string {
    var samlp, plain := LastIndex(response, SAMLP_RESPONSE_CLOSE), LastIndex(response, RESPONSE_CLOSE);
    var idx := if samlp >= 0 then samlp else plain;
    if idx < 0 then response else response[..idx] + assertion + response[idx..]
  }

  lemma LastAfterInsertion(response: string, assertion: string, tag: string)
    requires LastIndex(response, tag) >= 0
    ensures var idx := LastIndex(response, tag);
            LastIndex(response[..idx] + assertion + response[idx..], tag) == idx + |assertion|
  {
    var idx := LastIndex(response, tag);
    var left, right := response[..idx] + assertion, response[idx..];
    assert right[0..|tag|] == tag;
    AtRight(left, right, tag, |left|);
    assert response == response[..idx] + right;
    forall i | |left| < i
      ensures !At(left + right, tag, i)
    {
      AtRight(left, right, tag, i);
      AtRight(response[..idx], right, tag, i - |assertion|);
    }
  }

  /** Both parts of a text with something inserted at `idx`. */
  lemma InsertedSlices(response: string, assertion: string, idx: nat)
    requires idx <= |response|
    ensures var r, at := response[..idx] + assertion + response[idx..], idx + |assertion|;
            |assertion| <= at <= |r| && r[idx..at] == assertion && r[..idx] + r[at..] == response
  {
    assert response == response[..idx] + response[idx..];
  }

  /** The assertion ends where the last `tag` of the result begins, and without it the response is as it was. */
  predicate Recoverable(r: string, tag: string, response: string, assertion: string) {
    var at := LastIndex(r, tag);
    at >= |assertion| && r[at - |assertion|..at] == assertion && r[..at - |assertion|] + r[at..] == response
  }

  function InsertedBefore(response: string, assertion: string, tag: string): string
    requires LastIndex(response, tag) >= 0
  {
    var idx := LastIndex(response, tag);
    response[..idx] + assertion + response[idx..]
  }

  lemma RecoveredAt(response: string, assertion: string, tag: string)
    requires LastIndex(response, tag) >= 0
    ensures Recoverable(InsertedBefore(response, assertion, tag), tag, response, assertion)
  {
    LastAfterInsertion(response, assertion, tag);
    InsertedSlices(response, assertion, LastIndex(response, tag));
  }

  /** The spelling that is searched for: the prefixed one if it occurs. */
  function ResponseTag(response: string): string {
    if LastIndex(response, SAMLP_RESPONSE_CLOSE) >= 0 then SAMLP_RESPONSE_CLOSE else RESPONSE_CLOSE
  }

  lemma InjectInserts(response: string, assertion: string)
    requires LastIndex(response, ResponseTag(response)) >= 0
    ensures InjectAssertion(response, assertion) == InsertedBefore(response, assertion, ResponseTag(response))
  {
  }

  /**
   The injected assertion ends where the last closing Response tag begins, whatever tags it
   contains itself, so both parts can be read back.
   */
  lemma InjectionIsRecoverable(response: string, assertion: string)
    requires LastIndex(response, ResponseTag(response)) >= 0
    ensures Recoverable(InjectAssertion(response, assertion), ResponseTag(response), response, assertion)
  {
    InjectInserts(response, assertion);
    RecoveredAt(response, assertion, ResponseTag(response));
  }

  /** Text that opens no tag. */
  type Text = s: string | '<' !in s

  /** One tag of the emitted XML: `<`, its name, and the text before the next tag. */
  datatype Tag = Tag(name: Text, tail: Text)

  function Render(ts: seq<Tag>): string {
    if ts == [] then "" else ("<" + ts[0].name + ts[0].tail) + Render(ts[1..])
  }

  function W3(): Text { "http://www.w3.org/" }
  function DsigUri(): Text { W3() + "2000/09/xmldsig#" }
  function EnvelopedUri(): Text { DsigUri() + "enveloped-signature" }
  function C14nUri(): Text { W3() + "2001/10/xml-exc-c14n#" }
  function DsigMoreUri(): Text { W3() + "2001/04/xmldsig-more#" }
  function RsaSha256Uri(): Text { DsigMoreUri() + "rsa-sha256" }
  function Sha256Uri(): Text { W3() + "2001/04/xmlenc#sha256" }
  function Namespace(): Text { " xmlns:ds=\"" + DsigUri() + "\">\n" }
  function Algorithm(uri: Text): Text { " Algorithm=\"" + uri + "\"/>" }

  function SignatureTag(): Tag { Tag(SigName(), Namespace()) }
  function SignedInfoTag(): Tag { Tag(InfoName(), Namespace()) }
  function CanonicalizationTag(): Tag { Tag("ds:CanonicalizationMethod", Algorithm(C14nUri()) + "\n") }
  function MethodTag(): Tag { Tag("ds:SignatureMethod", Algorithm(RsaSha256Uri()) + "\n") }
  function ReferenceTag(): Tag { Tag("ds:Reference", " URI=\"#") }
  function TransformsTag(): Tag { Tag("ds:Transforms", ">") }
  function EnvelopedTag(): Tag { Tag("ds:Transform", Algorithm(EnvelopedUri())) }
  function ExclusiveTag(): Tag { Tag("ds:Transform", Algorithm(C14nUri())) }
  function TransformsEnd(): Tag { Tag("/ds:Transforms", ">\n") }
  function DigestMethodTag(): Tag { Tag("ds:DigestMethod", Algorithm(Sha256Uri()) + "\n") }
  function DigestValueTag(digest: Text): Tag { Tag("ds:DigestValue", ">" + digest) }
  function DigestValueEnd(): Tag { Tag("/ds:DigestValue", ">\n") }
  function ReferenceEnd(): Tag { Tag("/ds:Reference", ">\n") }
  function SignedInfoEnd(): Tag { Tag(InfoEndName(), "\n") }
  function SignatureValueTag(signature: Text): Tag { Tag("ds:SignatureValue", ">" + signature) }
  function SignatureValueEnd(): Tag { Tag("/ds:SignatureValue", ">\n") }
  function KeyInfoTag(): Tag { Tag("ds:KeyInfo", ">") }
  function X509DataTag(): Tag { Tag("ds:X509Data", ">") }
  function X509CertificateTag(cert: Text): Tag { Tag("ds:X509Certificate", ">" + cert) }
  function X509CertificateEnd(): Tag { Tag("/ds:X509Certificate", ">") }
  function X509DataEnd(): Tag { Tag("/ds:X509Data", ">") }
  function KeyInfoEnd(): Tag { Tag("/ds:KeyInfo", ">\n") }

  /** The tags of SignedInfo before the assertion's ID. */
  function InfoFront(): seq<Tag> {
    [SignedInfoTag(), CanonicalizationTag(), MethodTag(), ReferenceTag()]
  }

  /** The tags of SignedInfo after the assertion's ID, up to its closing tag. */
  function InfoBack(digest: Text): seq<Tag> {
    [TransformsTag(), EnvelopedTag(), ExclusiveTag(), TransformsEnd(),
     DigestMethodTag(), DigestValueTag(digest), DigestValueEnd(), ReferenceEnd()]
  }

  /** The tags of Signature after SignedInfo, up to its closing tag. */
  function Trailer(signature: Text, cert: Text): seq<Tag> {
    [SignatureValueTag(signature), SignatureValueEnd(), KeyInfoTag(), X509DataTag(),
     X509CertificateTag(cert), X509CertificateEnd(), X509DataEnd(), KeyInfoEnd()]
  }

  function InfoName(): Text { "ds:SignedInfo" }
  function InfoEndName(): Text { "/ds:SignedInfo>" }
  function SigName(): Text { "ds:Signature" }
  function SigEndName(): Text { "/ds:Signature>" }
  function InfoOpen(): string { "<" + InfoName() }
  function InfoClose(): string { "<" + InfoEndName() }
  function SigOpen(): string { "<" + SigName() }
  function SigClose(): string { "<" + SigEndName() }

  function SignedInfo(id: string, digest: Text): string {
    Info(InfoFront(), id, InfoBack(digest)) + InfoClose()
  }

  /** SignedInfo around the ID, without its closing tag. */
  function Info(front: seq<Tag>, id: string, back: seq<Tag>): string {
    Render(front) + id + "\">\n" + Render(back)
  }

  function SignatureElement(info: string, signature: Text, cert: Text): string {
    Render([SignatureTag()]) + info + "\n" + Render(Trailer(signature, cert)) + SigClose()
  }

  // ----- Signing

  datatype HashAlg = SHA256 | SHA384 | SHA512

  /** The cryptographic primitives the code calls, as uninterpreted functions. */
  datatype Crypto = Crypto(
    hash: (HashAlg, string) -> Bytes,
    rsaSign: (Bytes, Bytes) -> Option<Bytes>,
    rsaVerify: (Bytes, HashAlg, Bytes, Bytes) -> bool,
    ecdsaVerify: (Bytes, Bytes, Bytes) -> bool)

  /** `base64.StdEncoding.EncodeToString`: never contains a tag. */
  function Base64Text(bs: Bytes): Text {
    Absent(bs, '<');
    EncodePadded(Std, bs)
  }

  function CertText(cert: Bytes): Text {
    if |cert| > 0 then Base64Text(cert) else ""
  }

  function DigestText(c: Crypto, a: string): Text {
    Base64Text(c.hash(SHA256, a))
  }

  /** The SignedInfo the identity provider signs for the assertion `a`. */
  function InfoFor(c: Crypto, a: string): string {
    SignedInfo(ExtractID(a), DigestText(c, a))
  }

  function SignAssertion(c: Crypto, privateKey: Bytes, cert: Bytes, a: string): Result<string> {
    match c.rsaSign(privateKey, c.hash(SHA256, InfoFor(c, a)))
    case None => Err("RSA sign")
    case Some(sig) => Ok(InsertAfterIssuer(a, SignatureElement(InfoFor(c, a), Base64Text(sig), CertText(cert))))
  }

  // ----- First matches in rendered tags

  /** The pattern `<q` can only match at the start of a tag, and does not match this one. */
  predicate Skipped(t: Tag, q: string) {
    exists k | 0 <= k < |q| && k < |t.name| :: q[k] != t.name[k]
  }

  predicate AllSkipped(ts: seq<Tag>, q: string) {
    forall i | 0 <= i < |ts| :: Skipped(ts[i], q)
  }

  function RenderOne(t: Tag): string {
    "<" + t.name + t.tail
  }

  lemma NoMatchAtStart(t: Tag, q: string)
    requires Skipped(t, q)
    ensures !At(RenderOne(t), "<" + q, 0)
  {
    var k :| 0 <= k < |q| && k < |t.name| && q[k] != t.name[k];
    var s, p := RenderOne(t), "<" + q;
    MatchMeans(s, p, 0);
    assert s[k + 1] == t.name[k] && p[k + 1] == q[k];
  }

  lemma OneTag(t: Tag, i: nat)
    requires 0 < i < |RenderOne(t)|
    ensures RenderOne(t)[i] != '<'
  {
    assert RenderOne(t)[i] == if i <= |t.name| then t.name[i - 1] else t.tail[i - 1 - |t.name|];
  }

  lemma NoMatchLater(t: Tag, q: string, i: nat)
    requires i > 0
    ensures !At(RenderOne(t), "<" + q, i)
  {
    MatchMeans(RenderOne(t), "<" + q, i);
    assert ("<" + q)[0] == '<';
    if i < |RenderOne(t)| {
      OneTag(t, i);
    }
  }

  lemma TagHasNoMatch(t: Tag, q: string)
    requires Skipped(t, q)
    ensures Index(RenderOne(t), "<" + q) == -1
  {
    forall i: nat
      ensures !At(RenderOne(t), "<" + q, i)
    {
      if i == 0 {
        NoMatchAtStart(t, q);
      } else {
        NoMatchLater(t, q, i);
      }
    }
  }

  /** No match of `<q` crosses from the last tag of `ts` into `rest`. */
  predicate Joint(ts: seq<Tag>, rest: string, q: string) {
    || ts == []
    || rest == ""
    || rest[0] !in q
    || (var tail := ts[|ts| - 1].tail; tail != "" && tail[|tail| - 1] !in "<" + q)
  }

  lemma RenderCons(ts: seq<Tag>, rest: string)
    requires ts != []
    ensures Render(ts) + rest == RenderOne(ts[0]) + (Render(ts[1..]) + rest)
    ensures |Render(ts)| == |RenderOne(ts[0])| + |Render(ts[1..])|
  {
    assert Render(ts) == RenderOne(ts[0]) + Render(ts[1..]);
    Assoc(RenderOne(ts[0]), Render(ts[1..]), rest);
  }

  lemma Assoc(a: string, b: string, c: string)
    ensures (a + b) + c == a + (b + c)
  {
  }

  /** No match crosses from a tag into what follows it. */
  lemma NoCrossing(ts: seq<Tag>, rest: string, q: Text)
    requires ts != [] && Joint(ts, rest, q)
    ensures Joint(ts[1..], rest, q)
    ensures var t, later := RenderOne(ts[0]), Render(ts[1..]) + rest;
            later == "" || t[|t| - 1] !in "<" + q || later[0] !in ("<" + q)[1..]
  {
    assert ("<" + q)[1..] == q;
    if |ts| == 1 {
      assert Render(ts[1..]) + rest == rest;
    } else {
      assert (Render(ts[1..]) + rest)[0] == '<';
    }
  }

  /** Tags that do not match the pattern are skipped over. */
  lemma {:induction false} FirstAfterTags(ts: seq<Tag>, rest: string, q: Text)
    requires AllSkipped(ts, q) && Joint(ts, rest, q)
    ensures Index(Render(ts) + rest, "<" + q) ==
            if Index(rest, "<" + q) >= 0 then |Render(ts)| + Index(rest, "<" + q) else -1
  {
    if ts == [] {
      assert Render(ts) + rest == rest;
    } else {
      NoCrossing(ts, rest, q);
      FirstAfterTags(ts[1..], rest, q);
      TagHasNoMatch(ts[0], q);
      RenderCons(ts, rest);
      FirstInConcat(RenderOne(ts[0]), Render(ts[1..]) + rest, "<" + q);
    }
  }

  lemma CleanValue(v: string, q: string)
    requires '<' !in v
    ensures Index(v, "<" + q) == -1
  {
    forall i: nat
      ensures !At(v, "<" + q, i)
    {
      MatchMeans(v, "<" + q, i);
      assert ("<" + q)[0] == '<';
    }
  }

  /** The last tag of a name is the one in front of a text without it. */
  lemma LastBefore(front: string, q: Text, rest: string)
    requires Index(rest, "<" + q) == -1
    ensures LastIndex(front + ("<" + q) + rest, "<" + q) == |front|
  {
    var p := "<" + q;
    var left := front + p;
    var s := left + rest;
    assert At(s, p, |front|) by {
      assert s[|front|..|front| + |p|] == p;
    }
    forall i: nat | i > |front|
      ensures !At(s, p, i)
    {
      if i < |left| {
        assert s[i] == p[i - |front|] == q[i - |front| - 1];
        MatchMeans(s, p, i);
        assert p[0] == '<';
      } else {
        AtRight(left, rest, p, i);
      }
    }
  }

  lemma NoneInTags(ts: seq<Tag>, q: Text)
    requires AllSkipped(ts, q)
    ensures Index(Render(ts), "<" + q) == -1
  {
    FirstAfterTags(ts, "", q);
    assert Render(ts) + "" == Render(ts);
    assert |"<" + q| > 0;
  }

  lemma {:induction false} RenderConcat(a: seq<Tag>, b: seq<Tag>)
    ensures Render(a + b) == Render(a) + Render(b)
  {
    if a == [] {
      assert a + b == b;
      assert "" + Render(b) == Render(b);
    } else {
      RenderConcat(a[1..], b);
      assert (a + b)[1..] == a[1..] + b;
      Assoc(RenderOne(a[0]), Render(a[1..]), Render(b));
    }
  }

  lemma RenderSingle(t: Tag)
    ensures Render([t]) == RenderOne(t)
  {
    assert RenderOne(t) + "" == RenderOne(t);
  }

  /** A tag stands first in its own text. */
  lemma FirstIsSelf(p: string, rest: string)
    requires p != ""
    ensures Index(p + rest, p) == 0
  {
    assert (p + rest)[0..|p|] == p;
    assert At(p + rest, p, 0);
  }

  /** A pattern `<q` for one of the two closing tags searched for. */
  predicate Closing(q: string) {
    |q| > 4 && q[0] == '/' && q[4] == 'S' && '<' !in q && '"' !in q && '#' !in q && '\n' !in q
  }

  /** Tags that are neither a closing tag nor one whose name starts with S. */
  predicate Harmless(t: Tag) {
    t.name != "" && (t.name[0] == 'd' || (|t.name| > 4 && t.name[4] != 'S'))
  }

  lemma HarmlessIsSkipped(t: Tag, q: string)
    requires Harmless(t) && Closing(q)
    ensures Skipped(t, q)
  {
    assert if t.name[0] == 'd' then q[0] != t.name[0] else q[4] != t.name[4];
  }

  predicate EndsIn(ts: seq<Tag>, c: char) {
    ts != [] && var tail := ts[|ts| - 1].tail; tail != "" && tail[|tail| - 1] == c
  }

  /**
   A closing tag searched for in SignedInfo is found in the ID if it stands there, else in
   what follows: no match crosses from the template into the ID or back.
   */
  lemma FirstInInfo(front: seq<Tag>, id: string, back: seq<Tag>, rest: string, q: Text)
    requires Closing(q) && AllSkipped(front, q) && AllSkipped(back, q) && EndsIn(front, '#')
    requires rest != "" && rest[0] == '<'
    ensures Index(Info(front, id, back) + rest, "<" + q) ==
            if Index(id, "<" + q) >= 0 then |Render(front)| + Index(id, "<" + q)
            else if Index(rest, "<" + q) >= 0 then |Info(front, id, back)| + Index(rest, "<" + q)
            else -1
  {
    var p := "<" + q;
    assert p[1..] == q;
    var r1 := Render(back) + rest;
    var r2 := "\">\n" + r1;
    FirstAfterTags(back, rest, q);
    FirstInConcat("\">\n", r1, p);
    FirstInConcat(id, r2, p);
    FirstAfterTags(front, id + r2, q);
    assert Info(front, id, back) + rest == Render(front) + (id + r2);
  }

  /** The same with a tag in front, as in the whole Signature element. */
  lemma FirstInElement(open: Tag, front: seq<Tag>, id: string, back: seq<Tag>, rest: string, q: Text)
    requires Closing(q) && AllSkipped(front, q) && AllSkipped(back, q) && EndsIn(front, '#')
    requires Skipped(open, q) && EndsIn([open], '\n')
    requires rest != "" && rest[0] == '<' && Index(rest, "<" + q) >= 0
    ensures Index(Render([open]) + (Info(front, id, back) + rest), "<" + q) ==
            |Render([open])| + if Index(id, "<" + q) >= 0 then |Render(front)| + Index(id, "<" + q)
                               else |Info(front, id, back)| + Index(rest, "<" + q)
  {
    FirstInInfo(front, id, back, rest, q);
    FirstAfterTags([open], Info(front, id, back) + rest, q);
  }

  // ----- The concrete template

  lemma InfoEndIsClosing()
    ensures Closing(InfoEndName())
  {
  }

  lemma SigEndIsClosing()
    ensures Closing(SigEndName())
  {
  }

  lemma FrontHarmless1() ensures Harmless(SignedInfoTag()) && Harmless(CanonicalizationTag()) {}
  lemma FrontHarmless2() ensures Harmless(MethodTag()) && Harmless(ReferenceTag()) {}

  lemma FrontIsSkipped(q: string)
    requires Closing(q)
    ensures AllSkipped(InfoFront(), q)
  {
    FrontHarmless1();
    FrontHarmless2();
    HarmlessIsSkipped(SignedInfoTag(), q);
    HarmlessIsSkipped(CanonicalizationTag(), q);
    HarmlessIsSkipped(MethodTag(), q);
    HarmlessIsSkipped(ReferenceTag(), q);
  }

  lemma BackHarmless1() ensures Harmless(TransformsTag()) && Harmless(EnvelopedTag()) && Harmless(ExclusiveTag()) {}
  lemma BackHarmless2() ensures Harmless(TransformsEnd()) && Harmless(DigestMethodTag()) {}
  lemma BackHarmless3(digest: Text) ensures Harmless(DigestValueTag(digest)) && Harmless(DigestValueEnd()) {}
  lemma BackHarmless4() ensures Harmless(ReferenceEnd()) {}

  lemma BackIsSkipped(digest: Text, q: string)
    requires Closing(q)
    ensures AllSkipped(InfoBack(digest), q)
  {
    BackHarmless1();
    BackHarmless2();
    BackHarmless3(digest);
    BackHarmless4();
    forall i | 0 <= i < 8
      ensures Skipped(InfoBack(digest)[i], q)
    {
      HarmlessIsSkipped(InfoBack(digest)[i], q);
    }
  }

  lemma TrailerHarmless1(signature: Text)
    ensures Harmless(SignatureValueTag(signature)) && Harmless(KeyInfoTag()) && Harmless(X509DataTag())
  {
  }

  lemma TrailerHarmless2(cert: Text)
    ensures Harmless(X509CertificateTag(cert)) && Harmless(X509CertificateEnd())
    ensures Harmless(X509DataEnd()) && Harmless(KeyInfoEnd())
  {
  }

  /** `</ds:SignatureValue` and `</ds:SignedInfo>` are not the end of the Signature element. */
  lemma LookAlikes()
    ensures Skipped(SignatureValueEnd(), SigEndName()) && Skipped(SignedInfoEnd(), SigEndName())
  {
    assert SigEndName()[13] != SignatureValueEnd().name[13];
    assert SigEndName()[8] != SignedInfoEnd().name[8];
  }

  lemma TrailerIsSkipped(signature: Text, cert: Text)
    ensures AllSkipped(Trailer(signature, cert), SigEndName())
  {
    TrailerHarmless1(signature);
    TrailerHarmless2(cert);
    SigEndIsClosing();
    LookAlikes();
    forall i | 0 <= i < 8
      ensures Skipped(Trailer(signature, cert)[i], SigEndName())
    {
      if i != 1 {
        HarmlessIsSkipped(Trailer(signature, cert)[i], SigEndName());
      }
    }
  }

  lemma ReferenceEndsInHash()
    ensures EndsIn(InfoFront(), '#')
  {
    assert ReferenceTag().tail[6] == '#';
  }

  lemma SignatureTagIsSkipped()
    ensures Skipped(SignatureTag(), SigEndName())
    ensures Skipped(SignatureTag(), InfoName()) && '\n' !in InfoName()
    ensures EndsIn([SignatureTag()], '\n')
  {
    assert SignatureTag().name[0] != SigEndName()[0];
    assert SignatureTag().name[7] != InfoName()[7];
  }

  /** Everything the search for closing tags needs to know of the template. */
  lemma TemplateFacts(digest: Text, q: Text)
    requires q == InfoEndName() || q == SigEndName()
    ensures Closing(q) && AllSkipped(InfoFront(), q) && AllSkipped(InfoBack(digest), q) && EndsIn(InfoFront(), '#')
  {
    if q == InfoEndName() {
      InfoEndIsClosing();
    } else {
      SigEndIsClosing();
    }
    FrontIsSkipped(q);
    BackIsSkipped(digest, q);
    ReferenceEndsInHash();
  }

  /** Where the verifier finds the end of SignedInfo. */
  lemma EndOfInfo(id: string, digest: Text)
    ensures Index(SignedInfo(id, digest), InfoClose()) ==
            if Index(id, InfoClose()) >= 0 then |Render(InfoFront())| + Index(id, InfoClose())
            else |SignedInfo(id, digest)| - |InfoClose()|
  {
    var close := InfoClose();
    assert close == "<" + InfoEndName();
    TemplateFacts(digest, InfoEndName());
    FirstIsSelf(close, "");
    assert close + "" == close;
    FirstInInfo(InfoFront(), id, InfoBack(digest), close, InfoEndName());
  }

  /** The Signature element from SignedInfo's closing tag on. */
  function AfterInfo(signature: Text, cert: Text): string {
    InfoClose() + "\n" + Render(Trailer(signature, cert)) + SigClose()
  }

  lemma FirstInAfterInfo(signature: Text, cert: Text)
    ensures Index(AfterInfo(signature, cert), SigClose()) == |AfterInfo(signature, cert)| - |SigClose()|
  {
    var q, ts := SigEndName(), [SignedInfoEnd()] + Trailer(signature, cert);
    LookAlikes();
    TrailerIsSkipped(signature, cert);
    assert ts[1..] == Trailer(signature, cert);
    assert AllSkipped(ts, q);
    FirstIsSelf(SigClose(), "");
    assert SigClose() + "" == SigClose() == "<" + q;
    FirstAfterTags(ts, SigClose(), q);
  }

  lemma Regroup(a: string, b: string, c: string, d: string, e: string, f: string)
    ensures a + (b + c) + d + e + f == a + (b + (c + d + e + f))
  {
  }

  /** The element as its opening tag, SignedInfo up to its closing tag, and the rest. */
  lemma ElementParts(id: string, digest: Text, signature: Text, cert: Text)
    ensures SignatureElement(SignedInfo(id, digest), signature, cert)
            == Render([SignatureTag()]) + (Info(InfoFront(), id, InfoBack(digest)) + AfterInfo(signature, cert))
  {
    Regroup(Render([SignatureTag()]), Info(InfoFront(), id, InfoBack(digest)), InfoClose(), "\n",
            Render(Trailer(signature, cert)), SigClose());
  }

  lemma EndOfParts(id: string, digest: Text, after: string)
    requires after != "" && after[0] == '<' && Index(after, SigClose()) == |after| - |SigClose()| >= 0
    ensures var elem := Render([SignatureTag()]) + (Info(InfoFront(), id, InfoBack(digest)) + after);
            Index(elem, SigClose()) ==
            if Index(id, SigClose()) >= 0
            then |Render([SignatureTag()])| + |Render(InfoFront())| + Index(id, SigClose())
            else |elem| - |SigClose()|
  {
    TemplateFacts(digest, SigEndName());
    SignatureTagIsSkipped();
    FirstInElement(SignatureTag(), InfoFront(), id, InfoBack(digest), after, SigEndName());
  }

  /** Where the verifier finds the end of the Signature element. */
  lemma EndOfElement(id: string, digest: Text, signature: Text, cert: Text)
    ensures var elem := SignatureElement(SignedInfo(id, digest), signature, cert);
            Index(elem, SigClose()) ==
            if Index(id, SigClose()) >= 0
            then |Render([SignatureTag()])| + |Render(InfoFront())| + Index(id, SigClose())
            else |elem| - |SigClose()|
  {
    ElementParts(id, digest, signature, cert);
    FirstInAfterInfo(signature, cert);
    EndOfParts(id, digest, AfterInfo(signature, cert));
  }
}

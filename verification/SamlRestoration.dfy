/**
 Exactly when the service provider restores a signed assertion, for every assertion with a closing Issuer tag:
 neither the text before the splice point nor the ID may get in the way.
 */
module SamlRestoration {
  import opened Prelude
  import opened Search
  import opened SamlSignature
  import opened SamlVerifier

  /** Where a successful cut starts and stops. */
  lemma CutShape(s: string, open: string, close: string) returns (k: nat, from: nat, stop: nat)
    requires CutElement(s, open, close).Some?
    ensures k == Index(s, open) && At(s, open, k) && from <= k <= stop <= |s| && k <= from + 1
    ensures from < k ==> s[from] == '\n'
    ensures CutElement(s, open, close) == Some(s[..from] + s[stop..])
  {
    k := Index(s, open);
    from := if k > 0 && s[k - 1] == '\n' then k - 1 else k;
    stop := k + Index(s[k..], close) + |close|;
  }

  /** The text of the signature begins with this tag name, no part of which looks like another tag. */
  predicate Opening(sig: string) {
    |sig| >= 2 && sig[0] == '<' && forall i | 1 <= i < |sig| :: sig[i] != '<'
  }

  lemma SplicedAt(pre: string, elem: string, post: string, i: nat)
    requires i < |elem|
    ensures var raw := pre + "\n" + elem + post;
            |pre| + 1 + i < |raw| && raw[|pre|] == '\n' && raw[|pre| + 1 + i] == elem[i]
  {
  }

  /** A tag of another name that does not open before the end of the prefix opens behind the signature's name. */
  lemma OpensLate(pre: string, elem: string, post: string, sig: string, open: string, k: nat)
    requires pre != "" && pre[|pre| - 1] == '>' && Opening(sig) && sig + " " <= elem
    requires |open| >= 2 && open[0] == '<' && open[1] != sig[1]
    requires At(pre + "\n" + elem + post, open, k) && k + 1 >= |pre|
    ensures k >= |pre| + 2 + |sig|
  {
    var raw := pre + "\n" + elem + post;
    assert raw[k..k + |open|][0] == '<' && raw[k..k + |open|][1] == open[1];
    assert raw[k] == '<' && raw[k + 1] == open[1];
    assert raw[|pre| - 1] == pre[|pre| - 1];
    SplicedAt(pre, elem, post, 0);
    SplicedAt(pre, elem, post, 1);
    assert elem[0] == sig[0] && elem[1] == sig[1];
    forall q | |pre| + 2 <= q <= |pre| + 1 + |sig|
      ensures raw[q] != '<'
    {
      SplicedAt(pre, elem, post, q - |pre| - 1);
      assert elem[q - |pre| - 1] == (sig + " ")[q - |pre| - 1];
    }
  }

  /** A cut that starts behind the signature's name restores the text only if such a signature follows anyway. */
  lemma LateCut(pre: string, elem: string, post: string, sig: string, from: nat, stop: nat)
    requires sig <= elem && |pre| + 1 + |sig| <= from <= stop <= |pre + "\n" + elem + post|
    requires var raw := pre + "\n" + elem + post; raw[..from] + raw[stop..] == pre + post
    ensures "\n" + sig <= post
  {
    var raw := pre + "\n" + elem + post;
    var r := raw[..from] + raw[stop..];
    var n := |pre| + 1 + |sig|;
    assert r[|pre|..n] == raw[|pre|..n];
    assert raw[|pre|..n] == "\n" + sig by {
      assert raw == pre + (("\n" + sig) + (elem[|sig|..] + post));
    }
    assert (pre + post)[|pre|..n] == post[..1 + |sig|];
  }

  // ----- Cuts that start before the splice

  /** How the emitted element ends: its closing tag on a line of its own, after another tag. */
  predicate EndsLikeSignature(elem: string) {
    && |elem| >= 17
    && elem[|elem| - 17] == '>' && elem[|elem| - 16] == '\n'
    && elem[|elem| - 15..] == SigClose()
  }

  /** What the prefix ends with: a closing Issuer tag, or the only tag there is. */
  predicate EndsInTag(pre: string) {
    && |pre| >= 2 && pre[|pre| - 1] == '>'
    && (pre[|pre| - 2] == 'r' || '>' !in pre[..|pre| - 1])
  }

  lemma LastCharacters(elem: string, t: nat)
    requires EndsLikeSignature(elem) && t <= 15
    ensures elem[|elem| - 1 - t] == '<' <==> t == 14
    ensures elem[|elem| - 14] == '/' && elem[|elem| - 2] == 'e'
  {
    var close := SigClose();
    assert close == "</ds:Signature>";
    if t < 15 {
      assert elem[|elem| - 15..][14 - t] == close[14 - t];
    }
    assert elem[|elem| - 15..][1] == close[1] && elem[|elem| - 15..][13] == close[13];
  }

  /** If the cut restored the text, the prefix would end as the element does. */
  lemma SameEnds(pre: string, elem: string, post: string, from: nat, stop: nat, t: nat)
    requires from <= stop <= |pre + "\n" + elem + post| && from + t < |pre| && t < |elem|
    requires var raw := pre + "\n" + elem + post; raw[..from] + raw[stop..] == pre + post
    ensures pre[|pre| - 1 - t] == elem[|elem| - 1 - t]
  {
    var raw := pre + "\n" + elem + post;
    var r := raw[..from] + raw[stop..];
    var i := |pre| - 1 - t;
    assert |r| == |pre + post|;
    assert stop == from + |elem| + 1;
    assert r[i] == raw[i + |elem| + 1] == elem[|elem| - 1 - t];
    assert (pre + post)[i] == pre[i];
  }

  lemma DifferentEnds(pre: string, elem: string, post: string, from: nat, stop: nat, t: nat)
    requires from <= stop <= |pre + "\n" + elem + post| && from + t < |pre| && t < |elem|
    requires pre[|pre| - 1 - t] != elem[|elem| - 1 - t]
    ensures var raw := pre + "\n" + elem + post; raw[..from] + raw[stop..] != pre + post
  {
    var raw := pre + "\n" + elem + post;
    if raw[..from] + raw[stop..] == pre + post {
      SameEnds(pre, elem, post, from, stop, t);
    }
  }

  lemma CharactersBefore(pre: string, rest: string, open: string, k: nat)
    requires At(pre + rest, open, k) && |open| >= 2 && k < |pre|
    ensures pre[k] == open[0] && (k + 1 < |pre| ==> pre[k + 1] == open[1])
  {
    assert (pre + rest)[k..k + |open|][0] == open[0] && (pre + rest)[k..k + |open|][1] == open[1];
  }

  /** No cut that starts before the splice restores the text. */
  lemma EarlyCutFails(pre: string, elem: string, post: string, open: string, k: nat, from: nat, stop: nat)
    requires EndsInTag(pre) && EndsLikeSignature(elem) && |open| >= 2 && open[0] == '<' && open[1] != '/'
    requires At(pre + "\n" + elem + post, open, k) && from <= k <= from + 1 && from + 2 <= |pre|
    requires k <= stop <= |pre + "\n" + elem + post|
    ensures var raw := pre + "\n" + elem + post; raw[..from] + raw[stop..] != pre + post
  {
    var raw := pre + "\n" + elem + post;
    assert raw == pre + ("\n" + elem + post);
    CharactersBefore(pre, "\n" + elem + post, open, k);
    if pre[|pre| - 2] == 'r' {
      LastCharacters(elem, 0);
      DifferentEnds(pre, elem, post, from, stop, 1);
    } else if from + 17 <= |pre| {
      assert pre[..|pre| - 1][|pre| - 17] == pre[|pre| - 17];
      DifferentEnds(pre, elem, post, from, stop, 16);
    } else {
      var t := |pre| - 1 - k;
      LastCharacters(elem, t);
      DifferentEnds(pre, elem, post, from, stop, if t == 14 then 13 else t);
    }
  }

  /** The second pair of tags does not restore the text either. */
  lemma OtherCutFails(pre: string, elem: string, post: string, sig: string, open: string, close: string)
    requires EndsInTag(pre) && EndsLikeSignature(elem) && Opening(sig) && sig + " " <= elem
    requires |open| >= 2 && open[0] == '<' && open[1] != sig[1] && open[1] != '/' && !("\n" + sig <= post)
    ensures CutElement(pre + "\n" + elem + post, open, close) != Some(pre + post)
  {
    var raw := pre + "\n" + elem + post;
    if CutElement(raw, open, close).Some? {
      var k, from, stop := CutShape(raw, open, close);
      if from + 2 <= |pre| {
        EarlyCutFails(pre, elem, post, open, k, from, stop);
      } else {
        OpensLate(pre, elem, post, sig, open, k);
        assert sig <= elem by {
          assert elem[..|sig|] == (sig + " ")[..|sig|] == sig;
        }
        if raw[..from] + raw[stop..] == pre + post {
          LateCut(pre, elem, post, sig, from, stop);
        }
      }
    }
  }

  lemma TagNames()
    ensures Opening(SigOpen()) && |SigOpen()| == 13 && SigOpen()[12] == 'e' && SigOpen()[1] == 'd'
  {
  }

  lemma PlainTagNames()
    ensures |"<Signature"| == 10 && "<Signature"[0] == '<' && "<Signature"[1] == 'S'
  {
  }

  /** A tag name that occurs in the prefix ends before the prefix does. */
  lemma EndsBefore(pre: string, open: string)
    requires pre != "" && pre[|pre| - 1] == '>' && open != "" && open[|open| - 1] != '>' && Index(pre, open) >= 0
    ensures Index(pre, open) + |open| < |pre|
  {
    var j := Index(pre, open);
    assert pre[j..j + |open|][|open| - 1] == open[|open| - 1];
  }

  lemma RawIsLonger(pre: string, elem: string, post: string)
    ensures pre + "\n" + elem + post != pre + post
  {
    assert |pre + "\n" + elem + post| > |pre + post|;
  }

  /** Nor does the first pair when one of them opens in the prefix. */
  lemma FirstCutFails(pre: string, elem: string, post: string, open: string, close: string)
    requires EndsInTag(pre) && EndsLikeSignature(elem)
    requires |open| >= 2 && open[0] == '<' && open[1] != '/' && open[|open| - 1] != '>' && Index(pre, open) >= 0
    ensures CutElement(pre + "\n" + elem + post, open, close) != Some(pre + post)
  {
    var raw := pre + "\n" + elem + post;
    if CutElement(raw, open, close).Some? {
      var k, from, stop := CutShape(raw, open, close);
      EndsBefore(pre, open);
      FirstInLeft(pre, "\n" + elem + post, open);
      assert raw == pre + ("\n" + elem + post);
      EarlyCutFails(pre, elem, post, open, k, from, stop);
    }
  }

  lemma StripFails(raw: string, a: string)
    requires CutElement(raw, SigOpen(), SigClose()) != Some(a) && raw != a
    requires CutElement(raw, "<Signature", "</Signature>") != Some(a)
    ensures StripEnvelopedSignature(raw) != a
  {
  }

  lemma EarlierNeverRestored(pre: string, elem: string, post: string)
    requires EndsInTag(pre) && EndsLikeSignature(elem) && SigOpen() + " " <= elem
    requires Index(pre, SigOpen()) >= 0 && !("\n" + SigOpen() <= post)
    ensures StripEnvelopedSignature(pre + "\n" + elem + post) != pre + post
  {
    TagNames();
    PlainTagNames();
    FirstCutFails(pre, elem, post, SigOpen(), SigClose());
    OtherCutFails(pre, elem, post, SigOpen(), "<Signature", "</Signature>");
    RawIsLonger(pre, elem, post);
    StripFails(pre + "\n" + elem + post, pre + post);
  }

  lemma PrefixEndsInTag(a: string)
    requires InsertionPoint(a) != -1 && |Prefix(a)| >= 2
    ensures EndsInTag(Prefix(a))
  {
    InsertionPointFollowsTag(a);
    InsertionPointMeaning(a);
    if LastIndex(a, SAML_ISSUER_CLOSE) >= 0 || LastIndex(a, ISSUER_CLOSE) >= 0 {
      IssuerEnds(a);
    } else {
      LastOrNone(a, SAML_ISSUER_CLOSE);
      LastOrNone(a, ISSUER_CLOSE);
      assert a[InsertionPoint(a) - 1] in a;
      assert Prefix(a)[..|Prefix(a)| - 1] == a[..InsertionPoint(a) - 1];
    }
  }

  lemma ElementEndsLikeSignature(info: string, signature: Text, cert: Text)
    ensures EndsLikeSignature(SignatureElement(info, signature, cert))
  {
    var elem, close, ts := SignatureElement(info, signature, cert), SigClose(), Trailer(signature, cert);
    var last := RenderOne(KeyInfoEnd());
    LastTag(ts);
    assert |close| == 15 && last == "</ds:KeyInfo>\n";
    var front := Render([SignatureTag()]) + info + "\n" + Render(ts[..|ts| - 1]);
    assert elem == front + last + close by {
      Assoc(Render([SignatureTag()]) + info + "\n", Render(ts[..|ts| - 1]), last);
    }
    assert elem[|elem| - 15..] == close;
    assert elem[|elem| - 16] == last[|last| - 1] && elem[|elem| - 17] == last[|last| - 2];
  }

  lemma {:induction false} LastTag(ts: seq<Tag>)
    requires ts != []
    ensures Render(ts) == Render(ts[..|ts| - 1]) + RenderOne(ts[|ts| - 1])
  {
    if |ts| > 1 {
      LastTag(ts[1..]);
      assert ts[1..][..|ts| - 2] == ts[..|ts| - 1][1..];
      Assoc(RenderOne(ts[0]), Render(ts[..|ts| - 1][1..]), RenderOne(ts[|ts| - 1]));
    } else {
      assert Render(ts) == RenderOne(ts[0]) + "" == RenderOne(ts[0]);
      assert "" + RenderOne(ts[0]) == RenderOne(ts[0]);
    }
  }

  lemma InsertNeverRestored(a: string, elem: string)
    requires InsertionPoint(a) != -1 && Index(Prefix(a), SigOpen()) >= 0
    requires SigOpen() + " " <= elem && EndsLikeSignature(elem) && !("\n" + SigOpen() <= a[InsertionPoint(a)..])
    ensures StripEnvelopedSignature(InsertAfterIssuer(a, elem)) != a
  {
    TagNames();
    PrefixEndsInTag(a);
    InsertedAt(a, elem);
    EarlierNeverRestored(Prefix(a), elem, a[InsertionPoint(a)..]);
  }

  /**
   For every assertion with a tag to splice behind that is not directly followed by a Signature on a line of its own:
   cutting out the emitted signature restores it byte for byte if and only if no Signature opens before the splice
   point and the ID does not hold the closing tag.
   */
  lemma RestoredIff(c: Crypto, privateKey: Bytes, cert: Bytes, a: string)
    requires SignAssertion(c, privateKey, cert, a).Ok? && InsertionPoint(a) != -1
    requires !("\n" + SigOpen() <= a[InsertionPoint(a)..])
    ensures StripEnvelopedSignature(SignAssertion(c, privateKey, cert, a).value) == a
            <==> Index(Prefix(a), SigOpen()) == -1 && Index(ExtractID(a), SigClose()) == -1
  {
    if Index(Prefix(a), SigOpen()) == -1 {
      StripRestores(c, privateKey, cert, a);
    } else {
      var sig, crt := Base64Text(c.rsaSign(privateKey, c.hash(SHA256, InfoFor(c, a))).value), CertText(cert);
      ElementEndsLikeSignature(InfoFor(c, a), sig, crt);
      ElementOpens(InfoFor(c, a), sig, crt);
      InsertNeverRestored(a, SignatureElement(InfoFor(c, a), sig, crt));
    }
  }

  /** A text without a tag gets no signature, and the verifier's cut leaves it alone. */
  lemma TaglessIsUnchanged(c: Crypto, privateKey: Bytes, cert: Bytes, a: string)
    requires SignAssertion(c, privateKey, cert, a).Ok? && '>' !in a
    ensures StripEnvelopedSignature(SignAssertion(c, privateKey, cert, a).value) == a
  {
    InsertionPointMeaning(a);
    NoClosingTag(a, SigOpen(), SigClose());
    NoClosingTag(a, "<Signature", "</Signature>");
  }

  lemma NoClosingTag(a: string, open: string, close: string)
    requires '>' !in a && close != "" && close[|close| - 1] == '>'
    ensures CutElement(a, open, close) == None
  {
    var start := Index(a, open);
    if start >= 0 {
      forall i: nat
        ensures !At(a[start..], close, i)
      {
        MatchMeans(a[start..], close, i);
        assert close[|close| - 1] == '>';
      }
    }
  }
}

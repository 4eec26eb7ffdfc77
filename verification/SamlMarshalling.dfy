/**
 What the identity provider actually signs: the assertion as `encoding/xml` marshals it, with every value escaped. For
 such a text no hypothesis on its prefix or its ID is left.
 */
module SamlMarshalling {
  import opened Prelude
  import opened Search
  import opened SamlSignature
  import opened SamlVerifier
  import S = Splitting

  // ----- Marshalling

  datatype Attr = Attr(name: string, value: string)

  /** An element: its attributes, its character data, and its child elements. */
  datatype Xml = Xml(name: string, attrs: seq<Attr>, text: string, children: seq<Xml>)

  /** Characters that XML 1.0 allows. */
  predicate Allowed(c: char) {
    c == '\t' || c == '\n' || c == '\r' || '\U{0020}' <= c <= '\U{D7FF}' || '\U{E000}' <= c <= '\U{FFFD}' || '\U{10000}' <= c
  }

  /** `xml.EscapeText`, one character. */
  function EscapeChar(c: char): string {
    if c == '"' then "&#34;"
    else if c == '\'' then "&#39;"
    else if c == '&' then "&amp;"
    else if c == '<' then "&lt;"
    else if c == '>' then "&gt;"
    else if c == '\t' then "&#x9;"
    else if c == '\n' then "&#xA;"
    else if c == '\r' then "&#xD;"
    else if Allowed(c) then [c]
    else "\U{FFFD}"
  }

  predicate NoMarkup(s: string) {
    '<' !in s && '>' !in s && '"' !in s
  }

  lemma EscapeCharIsNoMarkup(c: char)
    ensures NoMarkup(EscapeChar(c))
  {
  }

  function Escape(s: string): (r: string)
    ensures NoMarkup(r)
  {
    if s == "" then ""
    else
      EscapeCharIsNoMarkup(s[0]);
      EscapeChar(s[0]) + Escape(s[1..])
  }

  // ----- Reading values back

  /** The references that an XML reader replaces (sections 4.1 and 4.6 of XML 1.0). */
  function EntityOf(name: string): Option<char> {
    if name == "#34" then Some('"')
    else if name == "#39" then Some('\'')
    else if name == "amp" then Some('&')
    else if name == "lt" then Some('<')
    else if name == "gt" then Some('>')
    else if name == "#x9" then Some('\t')
    else if name == "#xA" then Some('\n')
    else if name == "#xD" then Some('\r')
    else None
  }

  function Unescape(s: string): string
    decreases |s|
  {
    if s == "" then ""
    else if s[0] != '&' then [s[0]] + Unescape(s[1..])
    else
      var n := S.Cut(s[1..], ';');
      var c := EntityOf(s[1..][..n]);
      if c.None? || n == |s[1..]| then [s[0]] + Unescape(s[1..])
      else [c.value] + Unescape(s[n + 2..])
  }

  lemma UnescapeReference(name: string, c: char, rest: string)
    requires EntityOf(name) == Some(c) && ';' !in name
    ensures Unescape("&" + name + ";" + rest) == [c] + Unescape(rest)
  {
    var s := "&" + name + ";" + rest;
    assert s[1..] == name + [';'] + rest;
    S.CutOfJoined(name, rest, ';');
    assert s[1..][..|name|] == name;
    assert s[|name| + 2..] == rest;
  }

  lemma QuoteReferences()
    ensures EscapeChar('"') == "&" + "#34" + ";" && EntityOf("#34") == Some('"')
    ensures EscapeChar('\'') == "&" + "#39" + ";" && EntityOf("#39") == Some('\'')
    ensures EscapeChar('&') == "&" + "amp" + ";" && EntityOf("amp") == Some('&')
  {
  }

  lemma TagReferences()
    ensures EscapeChar('<') == "&" + "lt" + ";" && EntityOf("lt") == Some('<')
    ensures EscapeChar('>') == "&" + "gt" + ";" && EntityOf("gt") == Some('>')
  {
  }

  lemma SpaceReferences()
    ensures EscapeChar('\t') == "&" + "#x9" + ";" && EntityOf("#x9") == Some('\t')
    ensures EscapeChar('\n') == "&" + "#xA" + ";" && EntityOf("#xA") == Some('\n')
    ensures EscapeChar('\r') == "&" + "#xD" + ";" && EntityOf("#xD") == Some('\r')
  {
  }

  /** The character that a reader sees: itself, or the replacement character where XML does not allow it. */
  function Readable(c: char): char {
    if Allowed(c) then c else '\U{FFFD}'
  }

  predicate Special(c: char) {
    c in {'"', '\'', '&', '<', '>', '\t', '\n', '\r'}
  }

  lemma SpecialReference(c: char) returns (name: string)
    requires Special(c)
    ensures EscapeChar(c) == "&" + name + ";" && EntityOf(name) == Some(c) && ';' !in name
  {
    QuoteReferences();
    TagReferences();
    SpaceReferences();
    name := match c
      case '"' => "#34"
      case '\'' => "#39"
      case '&' => "amp"
      case '<' => "lt"
      case '>' => "gt"
      case '\t' => "#x9"
      case '\n' => "#xA"
      case _ => "#xD";
  }

  lemma OtherIsItself(c: char)
    requires !Special(c)
    ensures EscapeChar(c) == [Readable(c)] && Readable(c) != '&'
  {
  }

  lemma SpecialIsAllowed(c: char)
    requires Special(c)
    ensures Readable(c) == c
  {
  }

  lemma CharReadsBack(c: char, rest: string)
    ensures Unescape(EscapeChar(c) + rest) == [Readable(c)] + Unescape(rest)
  {
    if Special(c) {
      var name := SpecialReference(c);
      UnescapeReference(name, c, rest);
      SpecialIsAllowed(c);
    } else {
      OtherIsItself(c);
      var r := Readable(c);
      assert ([r] + rest)[1..] == rest;
    }
  }

  function ReadableText(s: string): string {
    seq(|s|, i requires 0 <= i < |s| => Readable(s[i]))
  }

  lemma {:induction false} EscapedReadsBack(s: string)
    ensures Unescape(Escape(s)) == ReadableText(s)
  {
    if s != "" {
      EscapedReadsBack(s[1..]);
      CharReadsBack(s[0], Escape(s[1..]));
      assert ReadableText(s) == [Readable(s[0])] + ReadableText(s[1..]);
    }
  }

  /** Reading a marshalled value gives it back, with the replacement character for what XML does not allow. */
  lemma ValueReadsBack(s: string)
    ensures |Unescape(Escape(s))| == |s|
    ensures forall i | 0 <= i < |s| :: Unescape(Escape(s))[i] == if Allowed(s[i]) then s[i] else '\U{FFFD}'
    ensures (forall i | 0 <= i < |s| :: Allowed(s[i])) ==> Unescape(Escape(s)) == s
  {
    EscapedReadsBack(s);
    if forall i | 0 <= i < |s| :: Allowed(s[i]) {
      assert ReadableText(s) == s;
    }
  }

  // ----- The element

  function MarshalAttrs(attrs: seq<Attr>): string {
    if attrs == [] then ""
    else (" " + attrs[0].name + "=\"" + Escape(attrs[0].value) + "\"") + MarshalAttrs(attrs[1..])
  }

  function Marshal(x: Xml): string {
    "<" + x.name + (MarshalAttrs(x.attrs) + ">" + Escape(x.text)) + MarshalAll(x.children) + ("<" + ("/" + x.name + ">"))
  }

  function MarshalAll(xs: seq<Xml>): string {
    if xs == [] then "" else Marshal(xs[0]) + MarshalAll(xs[1..])
  }

  // ----- As a sequence of tags

  /** A name of an element or an attribute. */
  predicate IsName(s: string) {
    s != "" && s[0] != '/' && '<' !in s && '>' !in s
  }

  predicate Plain(x: Xml) {
    && IsName(x.name)
    && (forall i | 0 <= i < |x.attrs| :: IsName(x.attrs[i].name))
    && forall c | c in x.children :: Plain(c)
  }

  lemma {:induction false} AttrsOpenNothing(attrs: seq<Attr>)
    requires forall i | 0 <= i < |attrs| :: IsName(attrs[i].name)
    ensures '<' !in MarshalAttrs(attrs)
  {
    if attrs != [] {
      AttrsOpenNothing(attrs[1..]);
    }
  }

  function OpenTag(x: Xml): Tag
    requires Plain(x)
  {
    AttrsOpenNothing(x.attrs);
    Tag(x.name, MarshalAttrs(x.attrs) + ">" + Escape(x.text))
  }

  function CloseTag(name: string): Tag
    requires IsName(name)
  {
    Tag("/" + name + ">", "")
  }

  function TagsOf(x: Xml): seq<Tag>
    requires Plain(x)
  {
    [OpenTag(x)] + TagsOfAll(x.children) + [CloseTag(x.name)]
  }

  function TagsOfAll(xs: seq<Xml>): seq<Tag>
    requires forall x | x in xs :: Plain(x)
  {
    if xs == [] then [] else TagsOf(xs[0]) + TagsOfAll(xs[1..])
  }

  lemma {:induction false} MarshalIsRender(x: Xml)
    requires Plain(x)
    ensures Marshal(x) == Render(TagsOf(x))
    decreases x, 1
  {
    var open, inner, close := OpenTag(x), TagsOfAll(x.children), CloseTag(x.name);
    MarshalAllIsRender(x.children);
    RenderConcat([open] + inner, [close]);
    RenderConcat([open], inner);
    RenderSingle(open);
    RenderSingle(close);
    assert RenderOne(close) == "<" + ("/" + x.name + ">");
  }

  lemma {:induction false} MarshalAllIsRender(xs: seq<Xml>)
    requires forall x | x in xs :: Plain(x)
    ensures MarshalAll(xs) == Render(TagsOfAll(xs))
    decreases xs, 0
  {
    if xs != [] {
      MarshalIsRender(xs[0]);
      MarshalAllIsRender(xs[1..]);
      RenderConcat(TagsOf(xs[0]), TagsOfAll(xs[1..]));
    }
  }

  // ----- Tags that are no closing Issuer tag, and none of a signature

  /** No element of the subtree has this name. */
  predicate NoneCalled(x: Xml, name: string) {
    x.name != name && forall c | c in x.children :: NoneCalled(c, name)
  }

  lemma OpenIsNoClose(t: Tag, q: string)
    requires t.name != "" && t.name[0] != '/' && q != "" && q[0] == '/'
    ensures Skipped(t, q)
  {
  }

  /** Closing tags of different elements differ before the shorter one ends. */
  lemma {:induction false} NamesDiffer(a: string, b: string) returns (k: nat)
    requires a != b && '>' !in a && '>' !in b
    ensures k <= |a| && k <= |b| && (a + ">")[k] != (b + ">")[k]
  {
    if a == "" || b == "" || a[0] != b[0] {
      k := 0;
    } else {
      k := NamesDiffer(a[1..], b[1..]);
      assert (a + ">")[k + 1] == (a[1..] + ">")[k];
      assert (b + ">")[k + 1] == (b[1..] + ">")[k];
      k := k + 1;
    }
  }

  lemma OtherCloseIsSkipped(name: string, other: string)
    requires IsName(name) && IsName(other) && name != other
    ensures Skipped(CloseTag(name), "/" + other + ">")
  {
    var k := NamesDiffer(name, other);
    assert ("/" + name + ">")[k + 1] == (name + ">")[k];
    assert ("/" + other + ">")[k + 1] == (other + ">")[k];
  }

  lemma SkippedConcat(a: seq<Tag>, b: seq<Tag>, q: string)
    ensures AllSkipped(a + b, q) <==> AllSkipped(a, q) && AllSkipped(b, q)
  {
    assert forall i | 0 <= i < |a| :: (a + b)[i] == a[i];
    assert forall i | 0 <= i < |b| :: (a + b)[|a| + i] == b[i];
  }

  lemma {:induction false} ClosesNone(x: Xml, name: string)
    requires Plain(x) && IsName(name) && NoneCalled(x, name)
    ensures AllSkipped(TagsOf(x), "/" + name + ">")
    decreases x, 1
  {
    var q := "/" + name + ">";
    OpenIsNoClose(OpenTag(x), q);
    ClosesNoneOf(x.children, name);
    OtherCloseIsSkipped(x.name, name);
    SkippedConcat([OpenTag(x)], TagsOfAll(x.children), q);
    SkippedConcat([OpenTag(x)] + TagsOfAll(x.children), [CloseTag(x.name)], q);
  }

  lemma {:induction false} ClosesNoneOf(xs: seq<Xml>, name: string)
    requires IsName(name) && forall x | x in xs :: Plain(x) && NoneCalled(x, name)
    ensures AllSkipped(TagsOfAll(xs), "/" + name + ">")
    decreases xs, 0
  {
    if xs != [] {
      ClosesNone(xs[0], name);
      ClosesNoneOf(xs[1..], name);
      SkippedConcat(TagsOf(xs[0]), TagsOfAll(xs[1..]), "/" + name + ">");
    }
  }

  // ----- The assertion

  const ASSERTION := "saml:Assertion"
  const ISSUER := "saml:Issuer"

  function IssuerElement(issuer: string): Xml {
    Xml(ISSUER, [], issuer, [])
  }

  /** The marshalled struct: its ID and other attributes, its Issuer, and its later fields. */
  function AssertionElement(id: string, attrs: seq<Attr>, issuer: string, later: seq<Xml>): Xml {
    Xml(ASSERTION, [Attr("ID", id)] + attrs, "", [IssuerElement(issuer)] + later)
  }

  /** The other attributes and the later fields: any proper names, no second Issuer. */
  predicate Fields(attrs: seq<Attr>, later: seq<Xml>) {
    && (forall i | 0 <= i < |attrs| :: IsName(attrs[i].name))
    && (forall x | x in later :: Plain(x) && NoneCalled(x, ISSUER))
  }

  lemma NamesAreNames()
    ensures IsName(ASSERTION) && IsName(ISSUER) && IsName("ID") && ASSERTION != ISSUER
  {
    assert |ASSERTION| == 14 && |ISSUER| == 11;
  }

  lemma AssertionIsPlain(id: string, attrs: seq<Attr>, issuer: string, later: seq<Xml>)
    requires Fields(attrs, later)
    ensures Plain(AssertionElement(id, attrs, issuer, later)) && Plain(IssuerElement(issuer))
  {
    NamesAreNames();
    var x := AssertionElement(id, attrs, issuer, later);
    assert Plain(IssuerElement(issuer));
    assert forall c | c in x.children :: c == IssuerElement(issuer) || c in later;
  }

  /** The tags up to the splice point. */
  function HeadTags(id: string, attrs: seq<Attr>, issuer: string, later: seq<Xml>): seq<Tag>
    requires Fields(attrs, later)
  {
    AssertionIsPlain(id, attrs, issuer, later);
    NamesAreNames();
    [OpenTag(AssertionElement(id, attrs, issuer, later)), OpenTag(IssuerElement(issuer)), CloseTag(ISSUER)]
  }

  function RestTags(attrs: seq<Attr>, later: seq<Xml>): seq<Tag>
    requires Fields(attrs, later)
  {
    NamesAreNames();
    TagsOfAll(later) + [CloseTag(ASSERTION)]
  }

  lemma AssertionTags(id: string, attrs: seq<Attr>, issuer: string, later: seq<Xml>)
    requires Fields(attrs, later)
    ensures Marshal(AssertionElement(id, attrs, issuer, later))
            == Render(HeadTags(id, attrs, issuer, later)) + Render(RestTags(attrs, later))
  {
    AssertionIsPlain(id, attrs, issuer, later);
    NamesAreNames();
    var x := AssertionElement(id, attrs, issuer, later);
    var head, rest := HeadTags(id, attrs, issuer, later), RestTags(attrs, later);
    MarshalIsRender(x);
    assert x.children[1..] == later;
    assert TagsOf(IssuerElement(issuer)) == [OpenTag(IssuerElement(issuer))] + [] + [CloseTag(ISSUER)];
    assert TagsOf(x) == head + rest;
    RenderConcat(head, rest);
  }

  lemma HeadEndsWithIssuer(id: string, attrs: seq<Attr>, issuer: string, later: seq<Xml>)
    requires Fields(attrs, later)
    ensures var head := HeadTags(id, attrs, issuer, later);
            Render(head) == Render(head[..2]) + SAML_ISSUER_CLOSE
  {
    var head := HeadTags(id, attrs, issuer, later);
    NamesAreNames();
    assert head == head[..2] + [head[2]];
    RenderConcat(head[..2], [head[2]]);
    RenderSingle(head[2]);
    assert RenderOne(CloseTag(ISSUER)) == SAML_ISSUER_CLOSE;
  }

  lemma RestClosesNoIssuer(attrs: seq<Attr>, later: seq<Xml>)
    requires Fields(attrs, later)
    ensures AllSkipped(RestTags(attrs, later), "/" + ISSUER + ">")
  {
    NamesAreNames();
    ClosesNoneOf(later, ISSUER);
    OtherCloseIsSkipped(ASSERTION, ISSUER);
    SkippedConcat(TagsOfAll(later), [CloseTag(ASSERTION)], "/" + ISSUER + ">");
  }

  lemma IssuerCloseIsTag()
    ensures "<" + ("/" + ISSUER + ">") == SAML_ISSUER_CLOSE && '<' !in "/" + ISSUER + ">"
  {
  }

  /** The splice point is the end of the Issuer. */
  lemma SplicedAfterIssuer(id: string, attrs: seq<Attr>, issuer: string, later: seq<Xml>)
    requires Fields(attrs, later)
    ensures var a := Marshal(AssertionElement(id, attrs, issuer, later));
            InsertionPoint(a) != -1 && Prefix(a) == Render(HeadTags(id, attrs, issuer, later))
  {
    var head, rest := HeadTags(id, attrs, issuer, later), RestTags(attrs, later);
    AssertionTags(id, attrs, issuer, later);
    HeadEndsWithIssuer(id, attrs, issuer, later);
    RestClosesNoIssuer(attrs, later);
    IssuerCloseIsTag();
    NoneInTags(rest, "/" + ISSUER + ">");
    LastBefore(Render(head[..2]), "/" + ISSUER + ">", Render(rest));
    var a := Render(head) + Render(rest);
    assert a[..|Render(head)|] == Render(head);
  }

  /** Nothing before it opens an element of a signature. */
  lemma HeadOpensNoSignature(id: string, attrs: seq<Attr>, issuer: string, later: seq<Xml>, q: Text)
    requires Fields(attrs, later) && q != "" && q[0] == 'd'
    ensures Index(Render(HeadTags(id, attrs, issuer, later)), "<" + q) == -1
  {
    var head := HeadTags(id, attrs, issuer, later);
    assert ASSERTION[0] == 's' && ISSUER[0] == 's';
    assert head[0].name[0] == 's' && head[1].name[0] == 's' && head[2].name[0] == '/';
    assert forall i | 0 <= i < 3 :: q[0] != head[i].name[0];
    assert AllSkipped(head, q);
    NoneInTags(head, q);
  }

  // ----- The ID

  lemma AttributeIsRead(front: string, value: string, rest: string)
    requires 'I' !in front && '"' !in value
    ensures ExtractID(front + ("ID=\"" + (value + ("\"" + rest)))) == value
  {
    var s := front + ("ID=\"" + (value + ("\"" + rest)));
    var start, end := |front|, |front| + 4 + |value|;
    assert s[start..start + 4] == "ID=\"" && s[start + 4..end] == value && s[end] == '"';
    assert At(s, "ID=\"", start);
    forall i: nat | i < start
      ensures !At(s, "ID=\"", i)
    {
      MatchMeans(s, "ID=\"", i);
      assert "ID=\""[0] == 'I';
      assert s[i] == front[i];
    }
    FirstIsUnique(s, "ID=\"", 0, Index(s, "ID=\""), start);
    forall i: nat | start + 4 <= i < end
      ensures !At(s, "\"", i)
    {
      MatchMeans(s, "\"", i);
      assert s[i] == value[i - start - 4];
    }
    MatchMeans(s, "\"", end);
    FirstIsUnique(s, "\"", start + 4, IndexFrom(s, "\"", start + 4), end);
  }

  lemma FirstAttribute(attrs: seq<Attr>, id: string)
    ensures MarshalAttrs([Attr("ID", id)] + attrs) == " ID=\"" + (Escape(id) + ("\"" + MarshalAttrs(attrs)))
  {
    var all := [Attr("ID", id)] + attrs;
    assert all[1..] == attrs && all[0] == Attr("ID", id);
    assert (" " + "ID" + "=\"" + Escape(id) + "\"") + MarshalAttrs(attrs)
        == " ID=\"" + (Escape(id) + ("\"" + MarshalAttrs(attrs)));
  }

  lemma Reassociate(a: string, b: string, c: string, d: string, e: string, f: string)
    ensures a + (b + c + d) + e + f == a + (b + (c + d + e + f))
  {
  }

  lemma MarshalBegins(x: Xml) returns (more: string)
    ensures Marshal(x) == "<" + x.name + (MarshalAttrs(x.attrs) + more)
  {
    var text, inner, close := Escape(x.text), MarshalAll(x.children), "<" + ("/" + x.name + ">");
    more := ">" + text + inner + close;
    Reassociate("<" + x.name, MarshalAttrs(x.attrs), ">", text, inner, close);
  }

  lemma BeforeID()
    ensures 'I' !in "<" + ASSERTION + " "
  {
  }

  /** The ID that is found is the escaped one. */
  lemma IDIsRead(id: string, attrs: seq<Attr>, issuer: string, later: seq<Xml>)
    ensures ExtractID(Marshal(AssertionElement(id, attrs, issuer, later))) == Escape(id)
  {
    var x := AssertionElement(id, attrs, issuer, later);
    var more := MarshalBegins(x);
    FirstAttribute(attrs, id);
    BeforeID();
    AttributeIsRead("<" + ASSERTION + " ", Escape(id), MarshalAttrs(attrs) + more);
    IDShape("<" + ASSERTION, Escape(id), MarshalAttrs(attrs), more);
  }

  lemma IDShape(front: string, value: string, attrs: string, more: string)
    ensures front + (" ID=\"" + (value + ("\"" + attrs)) + more)
            == (front + " ") + ("ID=\"" + (value + ("\"" + (attrs + more))))
  {
    assert " ID=\"" == " " + "ID=\"";
  }

  // ----- The round trip without hypotheses

  /** What the marshalled assertion meets. */
  lemma MarshalledIsClean(id: string, attrs: seq<Attr>, issuer: string, later: seq<Xml>)
    requires Fields(attrs, later)
    ensures var a := Marshal(AssertionElement(id, attrs, issuer, later));
            && InsertionPoint(a) != -1
            && Index(Prefix(a), SigOpen()) == -1 && Index(Prefix(a), InfoOpen()) == -1
            && Index(ExtractID(a), SigClose()) == -1 && Index(ExtractID(a), InfoClose()) == -1
  {
    SplicedAfterIssuer(id, attrs, issuer, later);
    HeadOpensNoSignature(id, attrs, issuer, later, SigName());
    HeadOpensNoSignature(id, attrs, issuer, later, InfoName());
    IDIsRead(id, attrs, issuer, later);
    CleanValue(Escape(id), SigEndName());
    CleanValue(Escape(id), InfoEndName());
  }

  /**
   For every assertion the identity provider marshals, whatever its values: cutting the emitted signature out gives it
   back byte for byte, and the bytes that were signed are read again.
   */
  lemma MarshalledIsRestored(c: Crypto, privateKey: Bytes, cert: Bytes,
                             id: string, attrs: seq<Attr>, issuer: string, later: seq<Xml>)
    requires Fields(attrs, later)
    requires SignAssertion(c, privateKey, cert, Marshal(AssertionElement(id, attrs, issuer, later))).Ok?
    ensures var a := Marshal(AssertionElement(id, attrs, issuer, later));
            var raw := SignAssertion(c, privateKey, cert, a).value;
            StripEnvelopedSignature(raw) == a && ExtractSignedInfoBytes(raw) == Some(InfoFor(c, a))
  {
    var a := Marshal(AssertionElement(id, attrs, issuer, later));
    MarshalledIsClean(id, attrs, issuer, later);
    StripRestores(c, privateKey, cert, a);
    ExtractsSignedBytes(c, privateKey, cert, a);
  }
}

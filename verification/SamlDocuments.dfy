/**
 The placement guard on every document, whatever its root: which verdict it gives, in terms of the elements in
 document order, and when an accepted Signature is a child of the first Assertion.
 */
module SamlDocuments {
  import opened Prelude
  import opened SamlPlacement

  /** An element in document order, with its depth; the root has depth one. */
  datatype Opening = Opening(name: string, depth: int)

  function Opened(n: Node, depth: int): seq<Opening> {
    match n
    case Content => []
    case Element(name, children) => [Opening(name, depth)] + OpenedAll(children, depth + 1)
  }

  function OpenedAll(ns: seq<Node>, depth: int): seq<Opening> {
    if ns == [] then [] else Opened(ns[0], depth) + OpenedAll(ns[1..], depth)
  }

  // ----- The guard over openings

  datatype Progress = Stop(verdict: Verdict) | Go(assertionDepth: int)

  function Walk(os: seq<Opening>, ad: int): Progress {
    if os == [] then Go(ad)
    else
      var o := os[0];
      var ad' := if o.name == "Assertion" && ad < 0 then o.depth else ad;
      if o.name != "Signature" then Walk(os[1..], ad')
      else if ad' < 0 || o.depth != ad' + 1 then Stop(NotDirectChild)
      else Stop(Accepted)
  }

  function Then(p: Progress, rest: seq<Token>, depth: int): Verdict {
    match p
    case Stop(v) => v
    case Go(ad) => Scan(rest, depth, ad)
  }

  lemma {:induction false} WalkConcat(a: seq<Opening>, b: seq<Opening>, ad: int)
    ensures Walk(a + b, ad) == match Walk(a, ad) case Stop(v) => Stop(v) case Go(ad') => Walk(b, ad')
  {
    if a == [] {
      assert a + b == b;
    } else {
      assert (a + b)[1..] == a[1..] + b;
      var ad' := if a[0].name == "Assertion" && ad < 0 then a[0].depth else ad;
      WalkConcat(a[1..], b, ad');
    }
  }

  lemma StartTag(name: string, rest: seq<Token>, os: seq<Opening>, after: seq<Token>, depth: int, ad: int)
    requires forall ad' :: Scan(rest, depth + 1, ad') == Then(Walk(os, ad'), after, depth + 1)
    ensures Scan([Start(name)] + rest, depth, ad) == Then(Walk([Opening(name, depth + 1)] + os, ad), after, depth + 1)
  {
    assert ([Start(name)] + rest)[1..] == rest;
    assert ([Opening(name, depth + 1)] + os)[1..] == os;
  }

  lemma EndTag(p: Progress, rest: seq<Token>, depth: int)
    ensures Then(p, [End] + rest, depth + 1) == Then(p, rest, depth)
  {
    assert ([End] + rest)[1..] == rest;
  }

  /** Scanning the tokens of a subtree is walking over its openings. */
  lemma {:induction false} ScanIsWalk(n: Node, rest: seq<Token>, depth: int, ad: int)
    ensures Scan(Tokens(n) + rest, depth, ad) == Then(Walk(Opened(n, depth + 1), ad), rest, depth)
    decreases n, 1
  {
    match n
    case Content =>
      assert (Tokens(n) + rest)[1..] == rest;
    case Element(name, children) =>
      var inner := AllTokens(children) + ([End] + rest);
      var os := OpenedAll(children, depth + 2);
      assert Tokens(n) + rest == [Start(name)] + inner;
      forall ad'
        ensures Scan(inner, depth + 1, ad') == Then(Walk(os, ad'), [End] + rest, depth + 1)
      {
        ScanIsWalkAll(children, [End] + rest, depth + 1, ad');
      }
      StartTag(name, inner, os, [End] + rest, depth, ad);
      EndTag(Walk([Opening(name, depth + 1)] + os, ad), rest, depth);
  }

  lemma {:induction false} ScanIsWalkAll(ns: seq<Node>, rest: seq<Token>, depth: int, ad: int)
    ensures Scan(AllTokens(ns) + rest, depth, ad) == Then(Walk(OpenedAll(ns, depth + 1), ad), rest, depth)
    decreases ns, 0
  {
    if ns == [] {
      assert AllTokens(ns) + rest == rest;
    } else {
      var first, others := Opened(ns[0], depth + 1), OpenedAll(ns[1..], depth + 1);
      var after := AllTokens(ns[1..]) + rest;
      assert AllTokens(ns) + rest == Tokens(ns[0]) + after;
      ScanIsWalk(ns[0], after, depth, ad);
      WalkConcat(first, others, ad);
      if Walk(first, ad).Go? {
        ScanIsWalkAll(ns[1..], rest, depth, Walk(first, ad).assertionDepth);
      }
    }
  }

  // ----- What the walk finds

  predicate NoneNamed(os: seq<Opening>, name: string) {
    forall i | 0 <= i < |os| :: os[i].name != name
  }

  /** The first element of that name, in document order. */
  function FirstNamed(os: seq<Opening>, name: string): (r: Option<Opening>)
    ensures r.None? <==> NoneNamed(os, name)
  {
    if os == [] then None
    else if os[0].name == name then Some(os[0])
    else
      assert os == [os[0]] + os[1..];
      NoneNamedConcat([os[0]], os[1..], name);
      FirstNamed(os[1..], name)
  }

  lemma {:induction false} WalkBefore(os: seq<Opening>)
    requires NoneNamed(os, "Assertion")
    ensures Walk(os, -1) == if NoneNamed(os, "Signature") then Go(-1) else Stop(NotDirectChild)
  {
    if os != [] {
      WalkBefore(os[1..]);
      assert forall i | 0 < i < |os| :: os[i] == os[1..][i - 1];
    }
  }

  lemma {:induction false} WalkAfter(os: seq<Opening>, ad: int)
    requires ad >= 0
    ensures var s := FirstNamed(os, "Signature");
            Walk(os, ad) == if s.None? then Go(ad) else Stop(if s.value.depth == ad + 1 then Accepted else NotDirectChild)
  {
    if os != [] {
      WalkAfter(os[1..], ad);
    }
  }

  // ----- The first Assertion

  function FirstAssertion(n: Node): Option<Node> {
    match n
    case Content => None
    case Element(name, children) => if name == "Assertion" then Some(n) else FirstAssertionOf(children)
  }

  function FirstAssertionOf(ns: seq<Node>): Option<Node> {
    if ns == [] then None
    else
      match FirstAssertion(ns[0])
      case Some(a) => Some(a)
      case None => FirstAssertionOf(ns[1..])
  }

  /** The subtree of the first Assertion `a`, at depth `d`, between what opens before and after it. */
  predicate Located(os: seq<Opening>, a: Node, before: seq<Opening>, d: int, after: seq<Opening>) {
    && a.Element? && a.name == "Assertion"
    && os == before + Opened(a, d) + after
    && NoneNamed(before, "Assertion")
  }

  lemma LocatedIn(os: seq<Opening>, a: Node, before: seq<Opening>, d: int, after: seq<Opening>,
                  front: seq<Opening>, back: seq<Opening>)
    requires Located(os, a, before, d, after) && NoneNamed(front, "Assertion")
    ensures Located(front + os + back, a, front + before, d, after + back)
  {
    var inner := Opened(a, d);
    assert front + (before + inner + after) + back == (front + before) + inner + (after + back);
  }

  lemma NoneNamedConcat(a: seq<Opening>, b: seq<Opening>, name: string)
    ensures NoneNamed(a + b, name) <==> NoneNamed(a, name) && NoneNamed(b, name)
  {
    assert forall i | 0 <= i < |a| :: (a + b)[i] == a[i];
    assert forall i | 0 <= i < |b| :: (a + b)[|a| + i] == b[i];
  }

  lemma {:induction false} Locate(n: Node, depth: int) returns (before: seq<Opening>, d: int, after: seq<Opening>)
    requires depth >= 1
    ensures FirstAssertion(n).None? ==> NoneNamed(Opened(n, depth), "Assertion")
    ensures FirstAssertion(n).Some? ==> d >= 1 && Located(Opened(n, depth), FirstAssertion(n).value, before, d, after)
    decreases n, 1
  {
    before, d, after := [], depth, [];
    if n.Element? {
      if n.name == "Assertion" {
        assert [] + Opened(n, depth) + [] == Opened(n, depth);
      } else {
        var front := [Opening(n.name, depth)];
        before, d, after := LocateAll(n.children, depth + 1);
        var inner := OpenedAll(n.children, depth + 1);
        if FirstAssertion(n).Some? {
          LocatedIn(inner, FirstAssertion(n).value, before, d, after, front, []);
          before, after := front + before, after + [];
          assert front + inner + [] == Opened(n, depth);
        } else {
          NoneNamedConcat(front, inner, "Assertion");
        }
      }
    }
  }

  lemma {:induction false} LocateAll(ns: seq<Node>, depth: int) returns (before: seq<Opening>, d: int, after: seq<Opening>)
    requires depth >= 1
    ensures FirstAssertionOf(ns).None? ==> NoneNamed(OpenedAll(ns, depth), "Assertion")
    ensures FirstAssertionOf(ns).Some? ==> d >= 1 && Located(OpenedAll(ns, depth), FirstAssertionOf(ns).value, before, d, after)
    decreases ns, 0
  {
    before, d, after := [], depth, [];
    if ns != [] {
      var first, others := Opened(ns[0], depth), OpenedAll(ns[1..], depth);
      before, d, after := Locate(ns[0], depth);
      if FirstAssertion(ns[0]).Some? {
        LocatedIn(first, FirstAssertion(ns[0]).value, before, d, after, [], others);
        before, after := [] + before, after + others;
        assert [] + first + others == first + others;
      } else {
        before, d, after := LocateAll(ns[1..], depth);
        if FirstAssertionOf(ns[1..]).Some? {
          LocatedIn(others, FirstAssertionOf(ns[1..]).value, before, d, after, first, []);
          before, after := first + before, after + [];
          assert first + others + [] == first + others;
        } else {
          NoneNamedConcat(first, others, "Assertion");
        }
      }
    }
  }

  // ----- Every document

  predicate AllOther(ts: seq<Token>) {
    forall i | 0 <= i < |ts| :: ts[i] == Other
  }

  /** Between a prolog and an epilog without elements, the verdict is that of the walk. */
  lemma DocumentIsWalk(pre: seq<Token>, doc: Node, post: seq<Token>)
    requires AllOther(pre) && AllOther(post)
    ensures Scan(pre + Tokens(doc) + post, 0, -1) ==
            match Walk(Opened(doc, 1), -1) case Stop(v) => v case Go(_) => NoSignature
  {
    assert pre + Tokens(doc) + post == pre + (Tokens(doc) + post);
    SkipOthers(pre, Tokens(doc) + post, 0, -1);
    ScanIsWalk(doc, post, 0, -1);
    var w := Walk(Opened(doc, 1), -1);
    if w.Go? {
      assert post + [] == post;
      SkipOthers(post, [], 0, w.assertionDepth);
    }
  }

  lemma {:induction false} OpenedSignature(n: Node, depth: int)
    ensures HasSignature(n) <==> !NoneNamed(Opened(n, depth), "Signature")
    decreases n, 1
  {
    if n.Element? {
      OpenedSignatures(n.children, depth + 1);
      var head := [Opening(n.name, depth)];
      assert head[0].name == n.name;
      assert NoneNamed(head, "Signature") <==> !IsSignature(n);
      NoneNamedConcat(head, OpenedAll(n.children, depth + 1), "Signature");
      if HasSignature(n) && !IsSignature(n) {
        var c :| c in n.children && HasSignature(c);
        var i :| 0 <= i < |n.children| && n.children[i] == c;
      }
      if AnyHasSignature(n.children) {
        var i :| 0 <= i < |n.children| && HasSignature(n.children[i]);
        assert n.children[i] in n.children;
      }
    }
  }

  lemma {:induction false} OpenedSignatures(ns: seq<Node>, depth: int)
    ensures AnyHasSignature(ns) <==> !NoneNamed(OpenedAll(ns, depth), "Signature")
    decreases ns, 0
  {
    if ns != [] {
      OpenedSignature(ns[0], depth);
      OpenedSignatures(ns[1..], depth);
      NoneNamedConcat(Opened(ns[0], depth), OpenedAll(ns[1..], depth), "Signature");
      if AnyHasSignature(ns[1..]) {
        var i :| 0 <= i < |ns[1..]| && HasSignature(ns[1..][i]);
        assert HasSignature(ns[i + 1]);
      }
      if AnyHasSignature(ns) && !HasSignature(ns[0]) {
        var i :| 0 <= i < |ns| && HasSignature(ns[i]);
        assert HasSignature(ns[1..][i - 1]);
      }
    }
  }

  /** Inside the first Assertion. */
  lemma WalkAssertion(a: Node, d: int)
    requires a.Element? && a.name == "Assertion" && d >= 0
    ensures Walk(Opened(a, d), -1) ==
            if FirstIsSibling(a.children) then Stop(Accepted)
            else if HasSignature(a) then Stop(NotDirectChild)
            else Go(d)
  {
    var inner := OpenedAll(a.children, d + 1);
    assert Opened(a, d)[1..] == inner;
    ScanIsWalkAll(a.children, [], d, d);
    ChildrenOf(a.children, [], d);
    OpenedSignatures(a.children, d + 1);
    WalkAfter(inner, d);
    SiblingIsHeld(a);
  }

  lemma SiblingIsHeld(a: Node)
    requires a.Element? && a.name == "Assertion"
    ensures HasSignature(a) <==> AnyHasSignature(a.children)
    ensures FirstIsSibling(a.children) ==> HasSignature(a)
  {
    if AnyHasSignature(a.children) {
      var i :| 0 <= i < |a.children| && HasSignature(a.children[i]);
      assert a.children[i] in a.children;
    }
    if HasSignature(a) {
      var c :| c in a.children && HasSignature(c);
      var i :| 0 <= i < |a.children| && a.children[i] == c;
    }
    if FirstIsSibling(a.children) {
      var i :| FirstAt(a.children, i);
      assert HasSignature(a.children[i]);
    }
  }

  /** The verdict once the first Assertion is located. */
  ghost function VerdictAt(before: seq<Opening>, a: Node, d: int, after: seq<Opening>): Verdict
    requires a.Element?
  {
    if !NoneNamed(before, "Signature") then NotDirectChild
    else if FirstIsSibling(a.children) then Accepted
    else if HasSignature(a) then NotDirectChild
    else
      match FirstNamed(after, "Signature")
      case None => NoSignature
      case Some(s) => if s.depth == d + 1 then Accepted else NotDirectChild
  }

  lemma WalkLocated(os: seq<Opening>, a: Node, before: seq<Opening>, d: int, after: seq<Opening>)
    requires Located(os, a, before, d, after) && d >= 0
    ensures (match Walk(os, -1) case Stop(v) => v case Go(_) => NoSignature) == VerdictAt(before, a, d, after)
  {
    assert os == before + (Opened(a, d) + after);
    WalkConcat(before, Opened(a, d) + after, -1);
    WalkConcat(Opened(a, d), after, -1);
    WalkBefore(before);
    WalkAssertion(a, d);
    WalkAfter(after, d);
    SiblingIsHeld(a);
  }

  /**
   The verdict on every document. Without an Assertion any Signature is refused. Otherwise a Signature before the
   first Assertion is refused; one inside it is accepted iff the first such is its child; and if it holds none, the
   first Signature after it is accepted iff it is exactly one level deeper.
   */
  lemma EveryDocument(pre: seq<Token>, doc: Node, post: seq<Token>)
      returns (before: seq<Opening>, d: int, after: seq<Opening>)
    requires AllOther(pre) && AllOther(post)
    ensures var v := Scan(pre + Tokens(doc) + post, 0, -1);
            match FirstAssertion(doc)
            case None => v == if HasSignature(doc) then NotDirectChild else NoSignature
            case Some(a) => Located(Opened(doc, 1), a, before, d, after) && v == VerdictAt(before, a, d, after)
  {
    DocumentIsWalk(pre, doc, post);
    before, d, after := Locate(doc, 1);
    match FirstAssertion(doc)
    case None =>
      WalkBefore(Opened(doc, 1));
      OpenedSignature(doc, 1);
    case Some(a) =>
      WalkLocated(Opened(doc, 1), a, before, d, after);
  }

  /** On every accepted document there is an Assertion, and its first Signature is a child of the first one iff that one holds a Signature. */
  lemma AcceptedChildIff(pre: seq<Token>, doc: Node, post: seq<Token>)
    requires AllOther(pre) && AllOther(post) && Scan(pre + Tokens(doc) + post, 0, -1) == Accepted
    ensures FirstAssertion(doc).Some?
    ensures var a := FirstAssertion(doc).value; a.Element? && (FirstIsSibling(a.children) <==> HasSignature(a))
  {
    var before, d, after := EveryDocument(pre, doc, post);
    SiblingIsHeld(FirstAssertion(doc).value);
  }

  /** The first element named so. */
  predicate IsFirstAt(os: seq<Opening>, name: string, i: int) {
    0 <= i < |os| && os[i].name == name && NoneNamed(os[..i], name)
  }

  /** Accepted iff the first Assertion opens before the first Signature and exactly one level above it. */
  lemma AcceptedByOrder(pre: seq<Token>, doc: Node, post: seq<Token>)
    requires AllOther(pre) && AllOther(post)
    ensures Scan(pre + Tokens(doc) + post, 0, -1) == Accepted <==>
            var os := Opened(doc, 1);
            exists i, j :: i < j && IsFirstAt(os, "Assertion", i) && IsFirstAt(os, "Signature", j)
                           && os[j].depth == os[i].depth + 1
  {
    DocumentIsWalk(pre, doc, post);
    DepthsArePositive(doc, 1);
    WalkByOrder(Opened(doc, 1));
  }

  predicate Positive(os: seq<Opening>) {
    forall i | 0 <= i < |os| :: os[i].depth >= 1
  }

  lemma {:induction false} DepthsArePositive(n: Node, depth: int)
    requires depth >= 1
    ensures Positive(Opened(n, depth))
    decreases n, 1
  {
    if n.Element? {
      AllDepthsArePositive(n.children, depth + 1);
    }
  }

  lemma {:induction false} AllDepthsArePositive(ns: seq<Node>, depth: int)
    requires depth >= 1
    ensures Positive(OpenedAll(ns, depth))
    decreases ns, 0
  {
    if ns != [] {
      DepthsArePositive(ns[0], depth);
      AllDepthsArePositive(ns[1..], depth);
    }
  }

  lemma {:induction false} FirstNamedAt(os: seq<Opening>, name: string) returns (i: int)
    requires FirstNamed(os, name).Some?
    ensures IsFirstAt(os, name, i) && os[i] == FirstNamed(os, name).value
  {
    if os[0].name == name {
      i := 0;
    } else {
      i := FirstNamedAt(os[1..], name);
      assert os[..i + 1] == [os[0]] + os[1..][..i];
      NoneNamedConcat([os[0]], os[1..][..i], name);
      i := i + 1;
    }
  }

  lemma FirstIsUnique(os: seq<Opening>, name: string, i: int, j: int)
    requires IsFirstAt(os, name, i) && IsFirstAt(os, name, j)
    ensures i == j
  {
  }

  lemma WalkFromAssertion(os: seq<Opening>, i: int)
    requires IsFirstAt(os, "Assertion", i) && Positive(os)
    ensures var s := FirstNamed(os[i + 1..], "Signature");
            Walk(os, -1) == Stop(Accepted) <==>
              NoneNamed(os[..i], "Signature") && s.Some? && s.value.depth == os[i].depth + 1
  {
    var before, rest := os[..i], os[i..];
    assert os == before + rest;
    WalkConcat(before, rest, -1);
    WalkBefore(before);
    assert rest[0] == os[i] && rest[1..] == os[i + 1..];
    WalkAfter(os[i + 1..], os[i].depth);
  }

  lemma WalkByOrder(os: seq<Opening>)
    requires Positive(os)
    ensures Walk(os, -1) == Stop(Accepted) <==>
            exists i, j :: i < j && IsFirstAt(os, "Assertion", i) && IsFirstAt(os, "Signature", j)
                           && os[j].depth == os[i].depth + 1
  {
    if NoneNamed(os, "Assertion") {
      WalkBefore(os);
    } else {
      var i := FirstNamedAt(os, "Assertion");
      WalkFromAssertion(os, i);
      var tail := os[i + 1..];
      if Walk(os, -1) == Stop(Accepted) {
        var k := FirstNamedAt(tail, "Signature");
        FirstBehind(os, i, k);
      }
      forall i', j | i' < j && IsFirstAt(os, "Assertion", i') && IsFirstAt(os, "Signature", j)
                     && os[j].depth == os[i'].depth + 1
        ensures Walk(os, -1) == Stop(Accepted)
      {
        FirstIsUnique(os, "Assertion", i, i');
        SignatureBehind(os, i, j);
      }
    }
  }

  lemma Around(os: seq<Opening>, i: nat, k: nat)
    requires i + 1 + k <= |os|
    ensures os[..i + 1 + k] == os[..i] + ([os[i]] + os[i + 1..][..k])
  {
    var a, b := os[..i + 1 + k], os[..i] + ([os[i]] + os[i + 1..][..k]);
    assert |a| == |b|;
    forall m | 0 <= m < |a|
      ensures a[m] == b[m]
    {
      assert m > i ==> b[m] == os[i + 1..][..k][m - i - 1];
    }
  }

  lemma FirstBehind(os: seq<Opening>, i: int, k: int)
    requires 0 <= i < |os| && os[i].name == "Assertion" && NoneNamed(os[..i], "Signature")
    requires IsFirstAt(os[i + 1..], "Signature", k)
    ensures IsFirstAt(os, "Signature", i + 1 + k) && os[i + 1 + k] == os[i + 1..][k]
  {
    Around(os, i, k);
    NoneNamedConcat([os[i]], os[i + 1..][..k], "Signature");
    NoneNamedConcat(os[..i], [os[i]] + os[i + 1..][..k], "Signature");
  }

  lemma SignatureBehind(os: seq<Opening>, i: int, j: int)
    requires 0 <= i < j < |os| && IsFirstAt(os, "Signature", j)
    ensures NoneNamed(os[..i], "Signature")
    ensures FirstNamed(os[i + 1..], "Signature") == Some(os[j])
  {
    var tail := os[i + 1..];
    Around(os, i, j - i - 1);
    NoneNamedConcat(os[..i], [os[i]] + tail[..j - i - 1], "Signature");
    NoneNamedConcat([os[i]], tail[..j - i - 1], "Signature");
    assert tail[j - i - 1] == os[j];
    var k := FirstNamedAt(tail, "Signature");
    FirstIsUnique(tail, "Signature", k, j - i - 1);
  }
}

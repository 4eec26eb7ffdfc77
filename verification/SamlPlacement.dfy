/**
 The guard that a SAML signature is a direct child of its assertion: one pass over the XML
 tokens that counts depth, against the element tree those tokens come from.
 */
module SamlPlacement {
  /** What the XML decoder yields; `Broken` is a syntax error in the stream. */
  datatype Token = Start(name: string) | End | Other | Broken

  datatype Verdict = Accepted | NotDirectChild | NoSignature | StreamError

  function Scan(tokens: seq<Token>, depth: int, assertionDepth: int): Verdict {
    if tokens == [] then NoSignature
    else
      match tokens[0]
      case Broken => StreamError
      case Other => Scan(tokens[1..], depth, assertionDepth)
      case End => Scan(tokens[1..], depth - 1, assertionDepth)
      case Start(name) =>
        var d := depth + 1;
        var ad := if name == "Assertion" && assertionDepth < 0 then d else assertionDepth;
        if name != "Signature" then Scan(tokens[1..], d, ad)
        else if ad < 0 || d != ad + 1 then NotDirectChild
        else Accepted
  }

  method ValidateSignaturePlacement(tokens: seq<Token>) returns (r: Verdict)
    ensures r == Scan(tokens, 0, -1)
  {
    var depth, assertionDepth := 0, -1;
    var i := 0;
    while i < |tokens|
      invariant 0 <= i <= |tokens|
      invariant Scan(tokens[i..], depth, assertionDepth) == Scan(tokens, 0, -1)
    {
      var tok := tokens[i];
      assert tokens[i..][1..] == tokens[i + 1..];
      match tok {
        case Broken => return StreamError;
        case Start(name) =>
          depth := depth + 1;
          if name == "Assertion" && assertionDepth < 0 {
            assertionDepth := depth;
          }
          if name == "Signature" {
            if assertionDepth < 0 || depth != assertionDepth + 1 {
              return NotDirectChild;
            }
            return Accepted;
          }
        case End => depth := depth - 1;
        case Other =>
      }
      i := i + 1;
    }
    return NoSignature;
  }

  // ----- Documents

  datatype Node = Element(name: string, children: seq<Node>) | Content

  function Tokens(n: Node): seq<Token> {
    match n
    case Content => [Other]
    case Element(name, children) => [Start(name)] + AllTokens(children) + [End]
  }

  function AllTokens(ns: seq<Node>): seq<Token> {
    if ns == [] then [] else Tokens(ns[0]) + AllTokens(ns[1..])
  }

  predicate IsSignature(n: Node) {
    n.Element? && n.name == "Signature"
  }

  /** Some element of the subtree, the node itself included, is a Signature. */
  predicate HasSignature(n: Node) {
    IsSignature(n) || (n.Element? && exists c | c in n.children :: HasSignature(c))
  }

  /** The first Signature in document order is one of these siblings, not an element inside one. */
  ghost predicate FirstIsSibling(ns: seq<Node>) {
    exists i :: FirstAt(ns, i)
  }

  /** Sibling `i` is a Signature and no sibling before it holds one. */
  ghost predicate FirstAt(ns: seq<Node>, i: int) {
    0 <= i < |ns| && IsSignature(ns[i]) && forall j | 0 <= j < i :: !HasSignature(ns[j])
  }

  ghost predicate AnyHasSignature(ns: seq<Node>) {
    exists i | 0 <= i < |ns| :: HasSignature(ns[i])
  }

  // ----- The scan on documents

  /** A subtree without a Signature leaves depth and verdict as they were. */
  lemma {:induction false} SkipNode(n: Node, rest: seq<Token>, depth: int, ad: int)
    requires !HasSignature(n) && 0 <= ad
    ensures Scan(Tokens(n) + rest, depth, ad) == Scan(rest, depth, ad)
    decreases n, 1
  {
    match n
    case Content =>
      assert (Tokens(n) + rest)[1..] == rest;
    case Element(name, children) =>
      assert Tokens(n) + rest == [Start(name)] + (AllTokens(children) + ([End] + rest));
      SkipAll(children, [End] + rest, depth + 1, ad);
      assert ([End] + rest)[1..] == rest;
  }

  lemma {:induction false} SkipAll(ns: seq<Node>, rest: seq<Token>, depth: int, ad: int)
    requires (forall c | c in ns :: !HasSignature(c)) && 0 <= ad
    ensures Scan(AllTokens(ns) + rest, depth, ad) == Scan(rest, depth, ad)
    decreases ns, 0
  {
    if ns == [] {
      assert AllTokens(ns) + rest == rest;
    } else {
      assert AllTokens(ns) + rest == Tokens(ns[0]) + (AllTokens(ns[1..]) + rest);
      SkipNode(ns[0], AllTokens(ns[1..]) + rest, depth, ad);
      SkipAll(ns[1..], rest, depth, ad);
    }
  }

  /** Siblings at depth `depth + 1`, below the children of the assertion: any Signature is refused. */
  lemma {:induction false} TooDeep(ns: seq<Node>, rest: seq<Token>, depth: int, ad: int)
    requires AnyHasSignature(ns) && 0 <= ad < depth
    ensures Scan(AllTokens(ns) + rest, depth, ad) == NotDirectChild
    decreases ns
  {
    var n, after := ns[0], AllTokens(ns[1..]) + rest;
    assert AllTokens(ns) + rest == Tokens(n) + after;
    if !HasSignature(n) {
      SkipNode(n, after, depth, ad);
      var i :| 0 <= i < |ns| && HasSignature(ns[i]);
      assert ns[1..][i - 1] == ns[i];
      TooDeep(ns[1..], rest, depth, ad);
    } else if !IsSignature(n) {
      assert Tokens(n) + after == [Start(n.name)] + (AllTokens(n.children) + ([End] + after));
      var c :| c in n.children && HasSignature(c);
      var i :| 0 <= i < |n.children| && n.children[i] == c;
      TooDeep(n.children, [End] + after, depth + 1, ad);
    }
  }

  lemma FirstAtCons(n: Node, ns: seq<Node>, i: nat)
    ensures FirstAt([n] + ns, i + 1) <==> !HasSignature(n) && FirstAt(ns, i)
  {
    var all := [n] + ns;
    if FirstAt(all, i + 1) {
      assert forall j | 0 <= j < i :: ns[j] == all[j + 1];
      assert all[0] == n;
    }
    if !HasSignature(n) && FirstAt(ns, i) {
      assert forall j | 0 < j < i + 1 :: all[j] == ns[j - 1];
    }
  }

  lemma SiblingCons(n: Node, ns: seq<Node>)
    ensures FirstIsSibling([n] + ns) <==> IsSignature(n) || (!HasSignature(n) && FirstIsSibling(ns))
  {
    var all := [n] + ns;
    if IsSignature(n) {
      assert FirstAt(all, 0);
    } else if FirstIsSibling(all) {
      var i :| FirstAt(all, i);
      FirstAtCons(n, ns, i - 1);
    }
    if !HasSignature(n) && FirstIsSibling(ns) {
      var i :| FirstAt(ns, i);
      FirstAtCons(n, ns, i);
    }
  }

  lemma AnyCons(n: Node, ns: seq<Node>)
    ensures AnyHasSignature([n] + ns) <==> HasSignature(n) || AnyHasSignature(ns)
  {
    var all := [n] + ns;
    if HasSignature(n) {
      assert HasSignature(all[0]);
    } else if AnyHasSignature(all) {
      var i :| 0 <= i < |all| && HasSignature(all[i]);
      assert HasSignature(ns[i - 1]);
    }
    if AnyHasSignature(ns) {
      var i :| 0 <= i < |ns| && HasSignature(ns[i]);
      assert HasSignature(all[i + 1]);
    }
  }

  /** A child that holds a Signature without being one. */
  lemma DeepChild(n: Node, after: seq<Token>, ad: int)
    requires HasSignature(n) && !IsSignature(n) && 0 <= ad
    ensures Scan(Tokens(n) + after, ad, ad) == NotDirectChild
  {
    assert Tokens(n) + after == [Start(n.name)] + (AllTokens(n.children) + ([End] + after));
    var c :| c in n.children && HasSignature(c);
    var i :| 0 <= i < |n.children| && n.children[i] == c;
    TooDeep(n.children, [End] + after, ad + 1, ad);
  }

  /** The children of the assertion. */
  lemma {:induction false} ChildrenOf(ns: seq<Node>, rest: seq<Token>, ad: int)
    requires 0 <= ad
    ensures Scan(AllTokens(ns) + rest, ad, ad) ==
            if FirstIsSibling(ns) then Accepted
            else if AnyHasSignature(ns) then NotDirectChild
            else Scan(rest, ad, ad)
  {
    if ns == [] {
      assert AllTokens(ns) + rest == rest;
    } else {
      var n, after := ns[0], AllTokens(ns[1..]) + rest;
      assert AllTokens(ns) + rest == Tokens(n) + after;
      assert ns == [n] + ns[1..];
      SiblingCons(n, ns[1..]);
      AnyCons(n, ns[1..]);
      if IsSignature(n) {
        assert (Tokens(n) + after)[0] == Start("Signature");
      } else if HasSignature(n) {
        DeepChild(n, after, ad);
      } else {
        SkipNode(n, after, ad, ad);
        ChildrenOf(ns[1..], rest, ad);
      }
    }
  }

  lemma {:induction false} SkipOthers(pre: seq<Token>, rest: seq<Token>, depth: int, ad: int)
    requires forall i | 0 <= i < |pre| :: pre[i] == Other
    ensures Scan(pre + rest, depth, ad) == Scan(rest, depth, ad)
  {
    if pre == [] {
      assert pre + rest == rest;
    } else {
      assert (pre + rest)[1..] == pre[1..] + rest;
      SkipOthers(pre[1..], rest, depth, ad);
    }
  }

  lemma OpenRoot(rest: seq<Token>)
    ensures Scan([Start("Assertion")] + rest, 0, -1) == Scan(rest, 1, 1)
  {
    assert ([Start("Assertion")] + rest)[1..] == rest;
  }

  lemma Regroup(pre: seq<Token>, start: Token, inner: seq<Token>, post: seq<Token>)
    ensures pre + ([start] + inner + [End]) + post == pre + ([start] + (inner + ([End] + post)))
  {
  }

  lemma RootScan(pre: seq<Token>, kids: seq<Node>, post: seq<Token>)
    requires forall i | 0 <= i < |pre| :: pre[i] == Other
    ensures Scan(pre + Tokens(Element("Assertion", kids)) + post, 0, -1) == Scan(AllTokens(kids) + ([End] + post), 1, 1)
  {
    var inner := AllTokens(kids) + ([End] + post);
    Regroup(pre, Start("Assertion"), AllTokens(kids), post);
    SkipOthers(pre, [Start("Assertion")] + inner, 0, -1);
    OpenRoot(inner);
  }

  lemma AfterRoot(post: seq<Token>)
    requires forall i | 0 <= i < |post| :: post[i] == Other
    ensures Scan([End] + post, 1, 1) == NoSignature
  {
    assert ([End] + post)[1..] == post == post + [];
    SkipOthers(post, [], 0, 1);
  }

  /**
   On every document whose root is an Assertion, the guard accepts exactly when the first
   Signature in document order is a child of the root, and tells a misplaced one from none.
   */
  lemma AcceptsExactlyDirectChildren(pre: seq<Token>, kids: seq<Node>, post: seq<Token>)
    requires forall i | 0 <= i < |pre| :: pre[i] == Other
    requires forall i | 0 <= i < |post| :: post[i] == Other
    ensures Scan(pre + Tokens(Element("Assertion", kids)) + post, 0, -1) ==
            if FirstIsSibling(kids) then Accepted
            else if AnyHasSignature(kids) then NotDirectChild
            else NoSignature
  {
    RootScan(pre, kids, post);
    ChildrenOf(kids, [End] + post, 1);
    AfterRoot(post);
  }

  /**
   The root matters. Under any other root the guard compares depths only, and accepts this
   signature although its parent is not the assertion.
   */
  lemma CousinIsAccepted()
    ensures var doc := Element("Response", [Element("Assertion", []), Element("Extensions", [Element("Signature", [])])]);
            Scan(Tokens(doc), 0, -1) == Accepted
  {
    var sig, assertion := Element("Signature", []), Element("Assertion", []);
    var ext := Element("Extensions", [sig]);
    var doc := Element("Response", [assertion, ext]);
    var s := [Start("Response"), Start("Assertion"), End, Start("Extensions"), Start("Signature"), End, End, End];
    assert AllTokens([assertion, ext]) == Tokens(assertion) + AllTokens([ext]) by {
      assert [assertion, ext][1..] == [ext];
    }
    assert AllTokens([ext]) == Tokens(ext);
    assert AllTokens([sig]) == [Start("Signature"), End];
    assert Tokens(doc) == s;
    assert s[1..][1..][1..][1..] == [Start("Signature"), End, End, End];
    assert Scan(s[1..][1..][1..][1..], 2, 2) == Accepted;
    assert Scan(s[1..][1..][1..], 1, 2) == Accepted;
    assert Scan(s[1..][1..], 2, 2) == Accepted;
    assert Scan(s[1..], 1, -1) == Accepted;
  }
}

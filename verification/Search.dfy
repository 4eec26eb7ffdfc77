/**
 Substring search: the three loops of the SAML identity provider, and what a match
 can and cannot do across the joint of two concatenated strings.
 */
module Search {
  /** `p` stands at offset `i` of `s`. */
  predicate At(s: string, p: string, i: int) {
    0 <= i && i + |p| <= |s| && s[i..i + |p|] == p
  }

  /** `r` is the first offset at or after `from` where `p` stands, or -1 when there is none. */
  ghost predicate IsFirst(s: string, p: string, from: int, r: int) {
    if r == -1 then forall i | from <= i :: !At(s, p, i)
    else from <= r && At(s, p, r) && forall i | from <= i < r :: !At(s, p, i)
  }

  /** `r` is the last offset where `p` stands, or -1 when there is none. */
  ghost predicate IsLast(s: string, p: string, r: int) {
    if r == -1 then forall i :: !At(s, p, i)
    else At(s, p, r) && forall i | r < i :: !At(s, p, i)
  }

  function IndexFrom(s: string, p: string, from: nat): (r: int)
    ensures IsFirst(s, p, from, r)
    decreases |s| - from
  {
    if from + |p| > |s| then -1
    else if At(s, p, from) then from
    else IndexFrom(s, p, from + 1)
  }

  function Index(s: string, p: string): (r: int)
    ensures IsFirst(s, p, 0, r)
  {
    IndexFrom(s, p, 0)
  }

  function LastFrom(s: string, p: string, from: int): (r: int)
    requires from <= |s| - |p|
    requires forall i | from < i :: !At(s, p, i)
    ensures IsLast(s, p, r)
    decreases from + 1
  {
    if from < 0 then -1
    else if At(s, p, from) then from
    else LastFrom(s, p, from - 1)
  }

  function LastIndex(s: string, p: string): (r: int)
    ensures IsLast(s, p, r)
  {
    LastFrom(s, p, |s| - |p|)
  }

  // ----- The loops

  method IndexOfFrom(s: string, substr: string, from: nat) returns (r: int)
    ensures r == IndexFrom(s, substr, from)
  {
    var i := from;
    while i <= |s| - |substr|
      invariant from <= i
      invariant forall j | from <= j < i :: !At(s, substr, j)
    {
      if s[i..i + |substr|] == substr {
        FirstIsUnique(s, substr, from, i, IndexFrom(s, substr, from));
        return i;
      }
      i := i + 1;
    }
    FirstIsUnique(s, substr, from, -1, IndexFrom(s, substr, from));
    return -1;
  }

  method IndexOf(s: string, substr: string) returns (r: int)
    ensures r == Index(s, substr)
  {
    r := IndexOfFrom(s, substr, 0);
  }

  method LastIndexOf(s: string, substr: string) returns (r: int)
    ensures r == LastIndex(s, substr)
  {
    var i := |s| - |substr|;
    while i >= 0
      invariant i <= |s| - |substr|
      invariant forall j | i < j :: !At(s, substr, j)
      decreases i + 1
    {
      if s[i..i + |substr|] == substr {
        assert At(s, substr, i);
        return i;
      }
      i := i - 1;
    }
    return -1;
  }

  /** At most one offset is the first one. */
  lemma FirstIsUnique(s: string, p: string, from: int, a: int, b: int)
    requires 0 <= from && IsFirst(s, p, from, a) && IsFirst(s, p, from, b)
    ensures a == b
  {
  }

  // ----- Matches in concatenations

  lemma AtLeft(a: string, b: string, p: string, i: int)
    requires i + |p| <= |a|
    ensures At(a + b, p, i) <==> At(a, p, i)
  {
    if 0 <= i {
      assert (a + b)[i..i + |p|] == a[i..i + |p|];
    }
  }

  lemma AtRight(a: string, b: string, p: string, i: int)
    requires |a| <= i
    ensures At(a + b, p, i) <==> At(b, p, i - |a|)
  {
    if i + |p| <= |a + b| {
      assert (a + b)[i..i + |p|] == b[i - |a|..i - |a| + |p|];
    }
  }

  /** A match over the joint of `a` and `b` contains the last character of `a` and the first of `b`. */
  lemma Straddle(a: string, b: string, p: string, i: int)
    requires At(a + b, p, i) && i < |a| < i + |p|
    ensures a[|a| - 1] in p[..|p| - 1] && b[0] in p[1..]
  {
    var k := |a| - i;
    assert p[k - 1] == (a + b)[i..i + |p|][k - 1] == a[|a| - 1];
    assert p[k] == (a + b)[i..i + |p|][k] == b[0];
    assert p[..|p| - 1][k - 1] == p[k - 1] && p[1..][k - 1] == p[k];
  }

  /** A match inside the left part stays the first one whatever follows. */
  lemma FirstInLeft(a: string, b: string, p: string)
    requires Index(a, p) >= 0
    ensures Index(a + b, p) == Index(a, p)
  {
    var r := Index(a, p);
    AtLeft(a, b, p, r);
    forall i | 0 <= i < r
      ensures !At(a + b, p, i)
    {
      AtLeft(a, b, p, i);
    }
    FirstIsUnique(a + b, p, 0, r, Index(a + b, p));
  }

  /** When the joint cannot be crossed, the first match is the first of the left part, else of the right. */
  lemma FirstInConcat(a: string, b: string, p: string)
    requires a == "" || b == "" || a[|a| - 1] !in p || b[0] !in p[1..]
    requires p != ""
    ensures Index(a + b, p) ==
            if Index(a, p) >= 0 then Index(a, p)
            else if Index(b, p) >= 0 then |a| + Index(b, p)
            else -1
  {
    var r := if Index(a, p) >= 0 then Index(a, p) else if Index(b, p) >= 0 then |a| + Index(b, p) else -1;
    forall i | 0 <= i && At(a + b, p, i)
      ensures (At(a, p, i) && i + |p| <= |a|) || (|a| <= i && At(b, p, i - |a|))
    {
      if i + |p| <= |a| {
        AtLeft(a, b, p, i);
      } else if |a| <= i {
        AtRight(a, b, p, i);
      } else {
        Straddle(a, b, p, i);
      }
    }
    if Index(a, p) >= 0 {
      AtLeft(a, b, p, r);
    } else if Index(b, p) >= 0 {
      AtRight(a, b, p, r);
    }
    assert IsFirst(a + b, p, 0, r);
    FirstIsUnique(a + b, p, 0, r, Index(a + b, p));
  }
}

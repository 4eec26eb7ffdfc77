/** Splitting strings at a separator character, joining them again, and trimming. */
module Splitting {
  /** Where the separator first stands, or the end. */
  function Cut(s: string, c: char): (i: nat)
    ensures i <= |s| && c !in s[..i] && (i < |s| ==> s[i] == c)
  {
    if s == "" || s[0] == c then 0 else Cut(s[1..], c) + 1
  }

  /** `strings.Split`, and `split` of a JavaScript string. */
  function Split(s: string, c: char): (parts: seq<string>)
    ensures parts != []
  {
    var i := Cut(s, c);
    if i == |s| then [s] else [s[..i]] + Split(s[i + 1..], c)
  }

  /** `strings.SplitN`: at most `n` parts, the last one unsplit. */
  function SplitN(s: string, c: char, n: nat): (parts: seq<string>)
    requires n > 0
    ensures 0 < |parts| <= n
  {
    var i := Cut(s, c);
    if n == 1 || i == |s| then [s] else [s[..i]] + SplitN(s[i + 1..], c, n - 1)
  }

  function Join(parts: seq<string>, c: char): string {
    if parts == [] then ""
    else if |parts| == 1 then parts[0]
    else parts[0] + [c] + Join(parts[1..], c)
  }

  predicate Free(parts: seq<string>, c: char) {
    forall i | 0 <= i < |parts| :: c !in parts[i]
  }

  lemma {:induction false} CutOfJoined(a: string, b: string, c: char)
    requires c !in a
    ensures var s := a + [c] + b; Cut(s, c) == |a| && s[..|a|] == a && s[|a| + 1..] == b
  {
    var s := a + [c] + b;
    if a != "" {
      CutOfJoined(a[1..], b, c);
      assert s[1..] == a[1..] + [c] + b;
    }
  }

  lemma CutOfFree(s: string, c: char)
    requires c !in s
    ensures Cut(s, c) == |s|
  {
  }

  /** Splitting inverts joining. */
  lemma {:induction false} SplitJoin(parts: seq<string>, c: char)
    requires parts != [] && Free(parts, c)
    ensures Split(Join(parts, c), c) == parts
  {
    if |parts| == 1 {
      CutOfFree(parts[0], c);
    } else {
      var first, rest := parts[0], Join(parts[1..], c);
      SplitJoin(parts[1..], c);
      SplitOfJoined(first, rest, c);
      assert Join(parts, c) == first + [c] + rest;
      assert parts == [first] + parts[1..];
    }
  }

  lemma SplitOfJoined(a: string, b: string, c: char)
    requires c !in a
    ensures Split(a + [c] + b, c) == [a] + Split(b, c)
  {
    CutOfJoined(a, b, c);
  }

  /** Joining inverts splitting, and no part holds the separator. */
  lemma {:induction false} JoinSplit(s: string, c: char)
    ensures Join(Split(s, c), c) == s && Free(Split(s, c), c)
    decreases |s|
  {
    var i := Cut(s, c);
    if i < |s| {
      JoinSplit(s[i + 1..], c);
      assert s == s[..i] + [c] + s[i + 1..];
    } else {
      assert s[..i] == s;
    }
  }

  /** `parts` is `full` with everything from the n-th part on joined up. */
  predicate Limited(full: seq<string>, parts: seq<string>, c: char, n: nat)
    requires n > 0
  {
    if |full| <= n then parts == full
    else |parts| == n && parts[..n - 1] == full[..n - 1] && parts[n - 1] == Join(full[n - 1..], c)
  }

  lemma LimitedCons(first: string, full: seq<string>, parts: seq<string>, c: char, n: nat)
    requires n > 0 && Limited(full, parts, c, n)
    ensures Limited([first] + full, [first] + parts, c, n + 1)
  {
    if |full| > n {
      assert ([first] + full)[n..] == full[n - 1..];
      assert ([first] + full)[..n] == [first] + full[..n - 1];
      assert ([first] + parts)[..n] == [first] + parts[..n - 1];
    }
  }

  /** A limited split is the full one with its tail joined up. */
  lemma {:induction false} SplitNMeaning(s: string, c: char, n: nat)
    requires n > 0
    ensures Limited(Split(s, c), SplitN(s, c, n), c, n)
    decreases n
  {
    var i := Cut(s, c);
    if n == 1 {
      JoinSplit(s, c);
      assert Split(s, c)[0..] == Split(s, c);
    } else if i < |s| {
      SplitNMeaning(s[i + 1..], c, n - 1);
      LimitedCons(s[..i], Split(s[i + 1..], c), SplitN(s[i + 1..], c, n - 1), c, n - 1);
    }
  }

  // ----- Trimming

  /** The white space of `strings.TrimSpace` below U+0100. */
  const SPACES: set<char> := {' ', '\t', '\n', '\U{000B}', '\U{000C}', '\r', '\U{0085}', '\U{00A0}'}

  function TrimLeft(s: string, cutset: set<char>): string {
    if s != "" && s[0] in cutset then TrimLeft(s[1..], cutset) else s
  }

  function TrimRight(s: string, cutset: set<char>): string {
    if s != "" && s[|s| - 1] in cutset then TrimRight(s[..|s| - 1], cutset) else s
  }

  /** `strings.Trim` */
  function Trim(s: string, cutset: set<char>): string {
    TrimRight(TrimLeft(s, cutset), cutset)
  }

  predicate Trimmed(s: string, cutset: set<char>) {
    s == "" || (s[0] !in cutset && s[|s| - 1] !in cutset)
  }

  lemma {:induction false} TrimRightKeeps(s: string, cutset: set<char>)
    requires s == "" || s[0] !in cutset
    ensures Trimmed(TrimRight(s, cutset), cutset)
    decreases |s|
  {
    if s != "" && s[|s| - 1] in cutset {
      TrimRightKeeps(s[..|s| - 1], cutset);
    }
  }

  lemma {:induction false} TrimLeftStops(s: string, cutset: set<char>)
    ensures TrimLeft(s, cutset) == "" || TrimLeft(s, cutset)[0] !in cutset
  {
    if s != "" && s[0] in cutset {
      TrimLeftStops(s[1..], cutset);
    }
  }

  lemma TrimIsTrimmed(s: string, cutset: set<char>)
    ensures Trimmed(Trim(s, cutset), cutset)
  {
    TrimLeftStops(s, cutset);
    TrimRightKeeps(TrimLeft(s, cutset), cutset);
  }

  predicate AllIn(s: string, cutset: set<char>) {
    forall i | 0 <= i < |s| :: s[i] in cutset
  }

  lemma {:induction false} TrimLeftCuts(a: string, s: string, cutset: set<char>)
    requires AllIn(a, cutset)
    ensures TrimLeft(a + s, cutset) == TrimLeft(s, cutset)
  {
    if a == "" {
      assert a + s == s;
    } else {
      assert (a + s)[1..] == a[1..] + s;
      TrimLeftCuts(a[1..], s, cutset);
    }
  }

  lemma {:induction false} TrimRightCuts(s: string, b: string, cutset: set<char>)
    requires AllIn(b, cutset)
    ensures TrimRight(s + b, cutset) == TrimRight(s, cutset)
  {
    if b == "" {
      assert s + b == s;
    } else {
      assert (s + b)[..|s + b| - 1] == s + b[..|b| - 1];
      TrimRightCuts(s, b[..|b| - 1], cutset);
    }
  }

  lemma {:induction false} TrimLeftUnder(s: string, b: string, cutset: set<char>)
    ensures TrimLeft(s, cutset) != "" ==> TrimLeft(s + b, cutset) == TrimLeft(s, cutset) + b
    ensures TrimLeft(s, cutset) == "" ==> TrimLeft(s + b, cutset) == TrimLeft(b, cutset)
  {
    if s == "" {
      assert s + b == b;
    } else if s[0] in cutset {
      assert (s + b)[1..] == s[1..] + b;
      TrimLeftUnder(s[1..], b, cutset);
    }
  }

  /** Characters of the cutset at either end do not count. */
  lemma TrimCuts(a: string, s: string, b: string, cutset: set<char>)
    requires AllIn(a, cutset) && AllIn(b, cutset)
    ensures Trim(a + s + b, cutset) == Trim(s, cutset)
  {
    assert a + s + b == a + (s + b);
    TrimLeftCuts(a, s + b, cutset);
    TrimLeftUnder(s, b, cutset);
    if TrimLeft(s, cutset) != "" {
      TrimRightCuts(TrimLeft(s, cutset), b, cutset);
    } else {
      TrimLeftCuts(b, "", cutset);
      assert b + "" == b;
    }
  }

  /** A trimmed text stays as it is. */
  lemma TrimKeeps(s: string, cutset: set<char>)
    requires Trimmed(s, cutset)
    ensures Trim(s, cutset) == s
  {
  }

  /** A text of any length with no separator in it. */
  function Stretch(n: nat): (s: string)
    ensures |s| == n && '/' !in s && ':' !in s
  {
    if n == 0 then "" else Stretch(n - 1) + "x"
  }
}

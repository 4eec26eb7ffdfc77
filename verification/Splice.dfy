/**
 Rewriting a page: edits sorted by descending start and spliced in one after the other, all with offsets into
 the original text, against substituting them all at once from left to right.
 */
module Splice {
  import opened Prelude
  import S = Splitting

  /** Replace `[start, end)` by `text`; offsets count characters of the original. */
  datatype Edit = Edit(start: nat, end: nat, text: string)

  // ----- All at once

  function EditAt(edits: seq<Edit>, p: nat): Option<Edit> {
    if edits == [] then None
    else if edits[0].start == p then Some(edits[0])
    else EditAt(edits[1..], p)
  }

  /** The rest of the text from `p` on, every edit in its place. */
  function Substitute(s: string, edits: seq<Edit>, p: nat): string
    decreases |s| - p
  {
    var e := EditAt(edits, p);
    if e.Some? && p < e.value.end <= |s| then e.value.text + Substitute(s, edits, e.value.end)
    else
      (if e.Some? then e.value.text else "") +
      (if p < |s| then [s[p]] + Substitute(s, edits, p + 1) else "")
  }

  predicate Disjoint(d: Edit, e: Edit) {
    d.start != e.start && (d.end <= e.start || e.end <= d.start)
  }

  /** Edits of a text of length `n`: inside it, no two overlapping or starting together. */
  predicate Separate(edits: seq<Edit>, n: nat) {
    && (forall i | 0 <= i < |edits| :: edits[i].start <= edits[i].end <= n)
    && (forall i, j | 0 <= i < j < |edits| :: Disjoint(edits[i], edits[j]))
  }

  // ----- One after the other

  function Insert(sorted: seq<Edit>, e: Edit): seq<Edit> {
    if sorted == [] || sorted[|sorted| - 1].start >= e.start then sorted + [e]
    else Insert(sorted[..|sorted| - 1], e) + [sorted[|sorted| - 1]]
  }

  lemma {:induction false} InsertPermutes(sorted: seq<Edit>, e: Edit)
    ensures multiset(Insert(sorted, e)) == multiset(sorted) + multiset{e}
  {
    if sorted != [] && sorted[|sorted| - 1].start < e.start {
      InsertPermutes(sorted[..|sorted| - 1], e);
      LastCounts(sorted);
    }
  }

  predicate AllFrom(edits: seq<Edit>, least: nat) {
    forall i | 0 <= i < |edits| :: edits[i].start >= least
  }

  lemma SnocDescends(edits: seq<Edit>, e: Edit, least: nat)
    requires Descending(edits) && AllFrom(edits, e.start) && e.start >= least
    ensures Descending(edits + [e]) && AllFrom(edits + [e], least)
  {
  }

  lemma {:induction false} InsertDescends(sorted: seq<Edit>, e: Edit, least: nat)
    requires Descending(sorted) && e.start >= least && AllFrom(sorted, least)
    ensures Descending(Insert(sorted, e)) && AllFrom(Insert(sorted, e), least)
  {
    if sorted == [] || sorted[|sorted| - 1].start >= e.start {
      SnocDescends(sorted, e, least);
    } else {
      var init, last := sorted[..|sorted| - 1], sorted[|sorted| - 1];
      InsertDescends(init, e, last.start);
      SnocDescends(Insert(init, e), last, least);
    }
  }

  predicate Descending(edits: seq<Edit>) {
    forall i, j | 0 <= i < j < |edits| :: edits[i].start >= edits[j].start
  }

  /** The stable sort by descending start. */
  function SortDescending(edits: seq<Edit>): seq<Edit> {
    if edits == [] then [] else Insert(SortDescending(edits[..|edits| - 1]), edits[|edits| - 1])
  }

  lemma LastCounts(edits: seq<Edit>)
    requires edits != []
    ensures multiset(edits) == multiset(edits[..|edits| - 1]) + multiset{edits[|edits| - 1]}
  {
    assert edits == edits[..|edits| - 1] + [edits[|edits| - 1]];
  }

  lemma {:induction false} SortPermutes(edits: seq<Edit>)
    ensures multiset(SortDescending(edits)) == multiset(edits)
  {
    if edits != [] {
      SortPermutes(edits[..|edits| - 1]);
      InsertPermutes(SortDescending(edits[..|edits| - 1]), edits[|edits| - 1]);
      LastCounts(edits);
    }
  }

  lemma {:induction false} SortDescends(edits: seq<Edit>)
    ensures Descending(SortDescending(edits))
  {
    if edits != [] {
      SortDescends(edits[..|edits| - 1]);
      InsertDescends(SortDescending(edits[..|edits| - 1]), edits[|edits| - 1], 0);
    }
  }

  lemma SortSorts(edits: seq<Edit>)
    ensures Descending(SortDescending(edits)) && multiset(SortDescending(edits)) == multiset(edits)
  {
    SortDescends(edits);
    SortPermutes(edits);
  }

  /** The edits that start at `p`, in their order. */
  function StartingAt(edits: seq<Edit>, p: nat): seq<Edit> {
    if edits == [] then []
    else StartingAt(edits[..|edits| - 1], p) + if edits[|edits| - 1].start == p then [edits[|edits| - 1]] else []
  }

  lemma {:induction false} InsertIsStable(sorted: seq<Edit>, e: Edit, p: nat)
    ensures StartingAt(Insert(sorted, e), p) == StartingAt(sorted, p) + if e.start == p then [e] else []
  {
    var r := Insert(sorted, e);
    if sorted == [] || sorted[|sorted| - 1].start >= e.start {
      assert r[..|r| - 1] == sorted;
    } else {
      InsertIsStable(sorted[..|sorted| - 1], e, p);
      assert r[..|r| - 1] == Insert(sorted[..|sorted| - 1], e);
    }
  }

  /** Edits that start together keep the order in which they were collected. */
  lemma {:induction false} SortIsStable(edits: seq<Edit>, p: nat)
    ensures StartingAt(SortDescending(edits), p) == StartingAt(edits, p)
  {
    if edits != [] {
      var init, last := edits[..|edits| - 1], edits[|edits| - 1];
      SortIsStable(init, p);
      InsertIsStable(SortDescending(init), last, p);
    }
  }

  /** `s.slice(0, n)` and `s.slice(n)` of JavaScript, which stop at the end of the string. */
  function Before(s: string, n: nat): string {
    if n <= |s| then s[..n] else s
  }

  function After(s: string, n: nat): string {
    if n <= |s| then s[n..] else ""
  }

  method Rewrite(source: string, edits: seq<Edit>) returns (r: string)
    ensures r == SpliceAll(source, SortDescending(edits))
    ensures Separate(edits, |source|) ==> r == Substitute(source, edits, 0)
  {
    var sorted := SortDescending(edits);
    r := source;
    for i := 0 to |sorted|
      invariant r == SpliceAll(source, sorted[..i])
    {
      var e := sorted[i];
      assert sorted[..i + 1][..i] == sorted[..i];
      r := Before(r, e.start) + e.text + After(r, e.end);
    }
    assert sorted[..|sorted|] == sorted;
    if Separate(edits, |source|) {
      SpliceAllIsSubstitution(source, edits);
    }
  }

  /** The splices of a list, first to last. */
  function SpliceAll(s: string, sorted: seq<Edit>): string {
    if sorted == [] then s
    else
      SpliceOne(SpliceAll(s, sorted[..|sorted| - 1]), sorted[|sorted| - 1])
  }

  function SpliceOne(s: string, e: Edit): string {
    Before(s, e.start) + e.text + After(s, e.end)
  }

  // ----- Why they agree

  lemma {:induction false} EditAtMeaning(edits: seq<Edit>, p: nat)
    ensures EditAt(edits, p).Some? ==> EditAt(edits, p).value in edits && EditAt(edits, p).value.start == p
    ensures EditAt(edits, p).None? ==> forall i | 0 <= i < |edits| :: edits[i].start != p
  {
    if edits != [] {
      EditAtMeaning(edits[1..], p);
      assert forall i | 0 < i < |edits| :: edits[i] == edits[1..][i - 1];
    }
  }

  lemma {:induction false} NoEdits(s: string, p: nat)
    requires p <= |s|
    ensures Substitute(s, [], p) == s[p..]
    decreases |s| - p
  {
    if p < |s| {
      NoEdits(s, p + 1);
    }
  }

  lemma CopyOne(s: string, edits: seq<Edit>, p: nat)
    requires p < |s| && EditAt(edits, p).None?
    ensures Substitute(s, edits, p) == [s[p]] + Substitute(s, edits, p + 1)
  {
    var rest := [s[p]] + Substitute(s, edits, p + 1);
    assert "" + rest == rest;
  }

  lemma SliceStep(s: string, p: nat, q: nat, rest: string)
    requires p < q <= |s|
    ensures s[p..q] + rest == [s[p]] + (s[p + 1..q] + rest)
  {
    assert s[p..q] == [s[p]] + s[p + 1..q];
  }

  /** Where no edit starts, the original text stands. */
  lemma {:induction false} Gap(s: string, edits: seq<Edit>, p: nat, q: nat)
    requires p <= q <= |s| && forall i | 0 <= i < |edits| :: !(p <= edits[i].start < q)
    ensures Substitute(s, edits, p) == s[p..q] + Substitute(s, edits, q)
    decreases q - p
  {
    if p < q {
      assert EditAt(edits, p).None? by {
        EditAtMeaning(edits, p);
      }
      CopyOne(s, edits, p);
      Gap(s, edits, p + 1, q);
      SliceStep(s, p, q, Substitute(s, edits, q));
    }
  }

  lemma {:induction false} EditAtSnoc(edits: seq<Edit>, e: Edit, p: nat)
    requires forall i | 0 <= i < |edits| :: edits[i].start != e.start
    ensures EditAt(edits + [e], p) == if p == e.start then Some(e) else EditAt(edits, p)
  {
    if edits != [] {
      EditAtSnoc(edits[1..], e, p);
      assert (edits + [e])[1..] == edits[1..] + [e];
    }
  }

  /** Two lists that agree at `p` and from where the text goes on agree from `p` on. */
  lemma SameStep(s: string, a: seq<Edit>, b: seq<Edit>, p: nat)
    requires EditAt(a, p) == EditAt(b, p)
    requires var e := EditAt(a, p);
             if e.Some? && p < e.value.end <= |s| then Substitute(s, a, e.value.end) == Substitute(s, b, e.value.end)
             else p < |s| ==> Substitute(s, a, p + 1) == Substitute(s, b, p + 1)
    ensures Substitute(s, a, p) == Substitute(s, b, p)
  {
  }

  /** Beyond its start an edit has no say. */
  lemma {:induction false} Behind(s: string, edits: seq<Edit>, e: Edit, p: nat)
    requires e.start < p && forall i | 0 <= i < |edits| :: edits[i].start != e.start
    ensures Substitute(s, edits + [e], p) == Substitute(s, edits, p)
    decreases |s| - p
  {
    EditAtSnoc(edits, e, p);
    var d := EditAt(edits, p);
    if d.Some? && p < d.value.end <= |s| {
      Behind(s, edits, e, d.value.end);
    } else if p < |s| {
      Behind(s, edits, e, p + 1);
    }
    SameStep(s, edits + [e], edits, p);
  }

  /** The edit's start is before all others', and its end not behind any. */
  predicate InFront(e: Edit, edits: seq<Edit>, n: nat) {
    e.start <= e.end <= n && forall i | 0 <= i < |edits| :: e.start < edits[i].start && e.end <= edits[i].start
  }

  /** An edit in front of all others, from its start on. */
  lemma FromStart(s: string, edits: seq<Edit>, e: Edit)
    requires InFront(e, edits, |s|)
    ensures Substitute(s, edits + [e], e.start) == e.text + Substitute(s, edits, e.end)
  {
    EditAtSnoc(edits, e, e.start);
    if e.start < e.end {
      Behind(s, edits, e, e.end);
    } else {
      Insertion(s, edits, e);
    }
  }

  /** What follows once an insertion at `p`, if any, is made. */
  function From(s: string, edits: seq<Edit>, p: nat): string {
    if p < |s| then [s[p]] + Substitute(s, edits, p + 1) else ""
  }

  lemma InsertHere(s: string, edits: seq<Edit>, e: Edit, p: nat)
    requires EditAt(edits, p) == Some(e) && e.end <= p
    ensures Substitute(s, edits, p) == e.text + From(s, edits, p)
  {
  }

  lemma NothingHere(s: string, edits: seq<Edit>, p: nat)
    requires EditAt(edits, p).None?
    ensures Substitute(s, edits, p) == From(s, edits, p)
  {
    assert "" + From(s, edits, p) == From(s, edits, p);
  }

  lemma NoneAt(edits: seq<Edit>, p: nat)
    requires forall i | 0 <= i < |edits| :: edits[i].start != p
    ensures EditAt(edits, p).None?
  {
    EditAtMeaning(edits, p);
  }

  lemma Insertion(s: string, edits: seq<Edit>, e: Edit)
    requires InFront(e, edits, |s|) && e.start == e.end
    requires EditAt(edits + [e], e.start) == Some(e)
    ensures Substitute(s, edits + [e], e.start) == e.text + Substitute(s, edits, e.start)
  {
    var p := e.start;
    InsertHere(s, edits + [e], e, p);
    NoneAt(edits, p);
    NothingHere(s, edits, p);
    assert From(s, edits + [e], p) == From(s, edits, p) by {
      if p < |s| {
        Behind(s, edits, e, p + 1);
      }
    }
  }

  /** Splicing in an edit in front of all those done so far is substituting it together with them. */
  lemma SpliceIsSubstitution(s: string, edits: seq<Edit>, e: Edit)
    requires InFront(e, edits, |s|)
    ensures SpliceOne(Substitute(s, edits, 0), e) == Substitute(s, edits + [e], 0)
  {
    var t := Substitute(s, edits, 0);
    Gap(s, edits, 0, e.end);
    var rest := Substitute(s, edits, e.end);
    assert t == s[..e.end] + rest;
    assert t[..e.start] == s[..e.start] && t[e.end..] == rest;
    Gap(s, edits + [e], 0, e.start);
    FromStart(s, edits, e);
  }

  lemma SortKeepsSeparate(edits: seq<Edit>, sorted: seq<Edit>, n: nat)
    requires Separate(edits, n) && Descending(sorted) && multiset(sorted) == multiset(edits)
    ensures Separate(sorted, n)
    ensures forall e :: e in sorted <==> e in edits
  {
    forall e
      ensures e in sorted <==> e in edits
    {
      assert e in sorted <==> e in multiset(sorted);
    }
    forall i | 0 <= i < |sorted|
      ensures sorted[i] in edits
    {
      assert sorted[i] in multiset(sorted);
    }
    forall i, j | 0 <= i < j < |sorted|
      ensures Disjoint(sorted[i], sorted[j])
    {
      PairComesFromPair(edits, sorted, i, j);
    }
  }

  lemma WithoutOne(s: seq<Edit>, k: nat)
    requires k < |s|
    ensures multiset(s) == multiset(s[..k] + s[k + 1..]) + multiset{s[k]}
  {
    assert s == s[..k] + [s[k]] + s[k + 1..];
  }

  lemma PairCountsTwice(s: seq<Edit>, i: nat, j: nat)
    requires i < j < |s| && s[i] == s[j]
    ensures multiset(s)[s[i]] >= 2
  {
    WithoutOne(s, i);
    var others := s[..i] + s[i + 1..];
    assert others[j - 1] == s[j];
    assert s[i] in multiset(others);
  }

  lemma TwiceMeansTwoPlaces(s: seq<Edit>, x: Edit) returns (k: nat, l: nat)
    requires multiset(s)[x] >= 2
    ensures k < |s| && l < |s| && k != l && s[k] == x && s[l] == x
  {
    assert x in multiset(s);
    k :| k < |s| && s[k] == x;
    WithoutOne(s, k);
    var others := s[..k] + s[k + 1..];
    assert x in multiset(others);
    var m: nat :| m < |others| && others[m] == x;
    l := if m < k then m else m + 1;
  }

  lemma PairComesFromPair(edits: seq<Edit>, sorted: seq<Edit>, i: nat, j: nat)
    requires i < j < |sorted| && multiset(sorted) == multiset(edits)
    ensures exists k, l | 0 <= k < |edits| && 0 <= l < |edits| && k != l :: edits[k] == sorted[i] && edits[l] == sorted[j]
  {
    var x, y := sorted[i], sorted[j];
    if x == y {
      PairCountsTwice(sorted, i, j);
      var k, l := TwiceMeansTwoPlaces(edits, x);
    } else {
      assert x in multiset(sorted) && y in multiset(sorted);
      var k :| 0 <= k < |edits| && edits[k] == x;
      var l :| 0 <= l < |edits| && edits[l] == y;
    }
  }

  lemma {:induction false} SplicePrefix(s: string, sorted: seq<Edit>, k: nat)
    requires Separate(sorted, |s|) && Descending(sorted) && k <= |sorted|
    ensures SpliceAll(s, sorted[..k]) == Substitute(s, sorted[..k], 0)
  {
    if k == 0 {
      NoEdits(s, 0);
    } else {
      var init, e := sorted[..k - 1], sorted[k - 1];
      SplicePrefix(s, sorted, k - 1);
      assert sorted[..k] == init + [e];
      assert sorted[..k][..k - 1] == init;
      forall i | 0 <= i < k - 1
        ensures e.start < init[i].start && e.end <= init[i].start
      {
        assert Disjoint(sorted[i], sorted[k - 1]);
      }
      SpliceIsSubstitution(s, init, e);
    }
  }

  /** Splicing in descending order is substituting all at once, for every list of separate edits. */
  lemma SpliceAllIsSubstitution(s: string, edits: seq<Edit>)
    requires Separate(edits, |s|)
    ensures SpliceAll(s, SortDescending(edits)) == Substitute(s, edits, 0)
  {
    var sorted := SortDescending(edits);
    SortSorts(edits);
    SortKeepsSeparate(edits, sorted, |s|);
    SplicePrefix(s, sorted, |sorted|);
    assert sorted[..|sorted|] == sorted;
    OrderDoesNotMatter(s, sorted, edits, 0);
  }

  /** Separate edits substitute alike in whatever order they are listed. */
  lemma {:induction false} OrderDoesNotMatter(s: string, a: seq<Edit>, b: seq<Edit>, p: nat)
    requires Separate(a, |s|) && Separate(b, |s|) && forall e :: e in a <==> e in b
    ensures Substitute(s, a, p) == Substitute(s, b, p)
    decreases |s| - p
  {
    EditAtUnique(a, b, |s|, p);
    var e := EditAt(a, p);
    if e.Some? && p < e.value.end <= |s| {
      OrderDoesNotMatter(s, a, b, e.value.end);
    } else if p < |s| {
      OrderDoesNotMatter(s, a, b, p + 1);
    }
    SameStep(s, a, b, p);
  }

  lemma EditAtUnique(a: seq<Edit>, b: seq<Edit>, n: nat, p: nat)
    requires Separate(a, n) && Separate(b, n) && forall e :: e in a <==> e in b
    ensures EditAt(a, p) == EditAt(b, p)
  {
    EditAtMeaning(a, p);
    EditAtMeaning(b, p);
    if EditAt(a, p).Some? {
      assert EditAt(a, p).value in b;
    }
    if EditAt(b, p).Some? {
      assert EditAt(b, p).value in a;
    }
  }

  /** Edits of nonempty ranges start together only if they overlap. */
  lemma NonemptyDisjoint(edits: seq<Edit>, n: nat)
    requires forall i | 0 <= i < |edits| :: edits[i].start < edits[i].end <= n
    requires forall i, j | 0 <= i < j < |edits| :: edits[i].end <= edits[j].start || edits[j].end <= edits[i].start
    ensures Separate(edits, n)
  {
  }

  // ----- Why they must be separate

  /** By how much an edit lengthens the text. */
  function Gain(e: Edit): int {
    |e.text| - (e.end - e.start)
  }

  /** Within a text of length `n`, and each longer than what it replaces. */
  predicate Lengthening(edits: seq<Edit>, n: nat) {
    forall i | 0 <= i < |edits| :: edits[i].start <= edits[i].end <= n && Gain(edits[i]) > 0
  }

  /** What the edits that start at `p` or later would add together. */
  function GainFrom(edits: seq<Edit>, p: nat): int {
    if edits == [] then 0
    else (if edits[0].start >= p then Gain(edits[0]) else 0) + GainFrom(edits[1..], p)
  }

  /** What the edits that the substitution makes from `p` on add together. */
  function Made(s: string, edits: seq<Edit>, p: nat): int
    decreases |s| - p
  {
    var e := EditAt(edits, p);
    if e.Some? && p < e.value.end <= |s| then Gain(e.value) + Made(s, edits, e.value.end)
    else (if e.Some? then |e.value.text| else 0) + if p < |s| then Made(s, edits, p + 1) else 0
  }

  lemma {:induction false} SubstituteLength(s: string, edits: seq<Edit>, p: nat)
    requires p <= |s| && Lengthening(edits, |s|)
    ensures |Substitute(s, edits, p)| == |s| - p + Made(s, edits, p)
    decreases |s| - p
  {
    EditAtMeaning(edits, p);
    var e := EditAt(edits, p);
    if e.Some? && p < e.value.end <= |s| {
      SubstituteLength(s, edits, e.value.end);
    } else if p < |s| {
      SubstituteLength(s, edits, p + 1);
    }
  }

  lemma {:induction false} GainFalls(edits: seq<Edit>, p: nat, q: nat)
    requires p <= q && forall i | 0 <= i < |edits| :: Gain(edits[i]) > 0
    ensures 0 <= GainFrom(edits, q) <= GainFrom(edits, p)
    ensures forall i | 0 <= i < |edits| && p <= edits[i].start < q :: GainFrom(edits, q) < GainFrom(edits, p)
  {
    if edits != [] {
      GainFalls(edits[1..], p, q);
      forall i | 0 <= i < |edits| && p <= edits[i].start < q
        ensures GainFrom(edits, q) < GainFrom(edits, p)
      {
        assert i > 0 ==> edits[1..][i - 1] == edits[i];
      }
    }
  }

  /** The first edit at `p` adds no more than all of those there, and less if it is not the only one. */
  lemma {:induction false} GainAt(edits: seq<Edit>, p: nat, k: nat)
    requires forall i | 0 <= i < |edits| :: Gain(edits[i]) > 0
    requires k < |edits| && edits[k].start == p && forall i | 0 <= i < k :: edits[i].start != p
    ensures EditAt(edits, p) == Some(edits[k])
    ensures Gain(edits[k]) + GainFrom(edits, p + 1) <= GainFrom(edits, p)
    ensures forall j | k < j < |edits| && edits[j].start == p :: Gain(edits[k]) + GainFrom(edits, p + 1) < GainFrom(edits, p)
  {
    if k == 0 {
      GainFalls(edits[1..], p, p + 1);
      forall j | k < j < |edits| && edits[j].start == p
        ensures Gain(edits[k]) + GainFrom(edits, p + 1) < GainFrom(edits, p)
      {
        assert edits[1..][j - 1] == edits[j];
      }
    } else {
      GainAt(edits[1..], p, k - 1);
      forall j | k < j < |edits| && edits[j].start == p
        ensures Gain(edits[k]) + GainFrom(edits, p + 1) < GainFrom(edits, p)
      {
        assert edits[1..][j - 1] == edits[j];
      }
    }
  }

  lemma {:induction false} FirstIndexAt(edits: seq<Edit>, p: nat) returns (k: nat)
    requires EditAt(edits, p).Some?
    ensures k < |edits| && edits[k].start == p && EditAt(edits, p) == Some(edits[k])
    ensures forall i | 0 <= i < k :: edits[i].start != p
  {
    if edits[0].start == p {
      k := 0;
    } else {
      k := FirstIndexAt(edits[1..], p);
      assert forall i | 0 < i <= k :: edits[i] == edits[1..][i - 1];
      k := k + 1;
    }
  }

  lemma {:induction false} MadeAtMost(s: string, edits: seq<Edit>, p: nat)
    requires p <= |s| && Lengthening(edits, |s|)
    ensures Made(s, edits, p) <= GainFrom(edits, p)
    decreases |s| - p
  {
    GainFalls(edits, p, p + 1);
    if EditAt(edits, p).Some? {
      var k := FirstIndexAt(edits, p);
      GainAt(edits, p, k);
      var q := edits[k].end;
      if p < q {
        GainFalls(edits, p + 1, q);
        MadeAtMost(s, edits, q);
      } else if p < |s| {
        MadeAtMost(s, edits, p + 1);
      }
    } else if p < |s| {
      MadeAtMost(s, edits, p + 1);
    }
  }

  /** Two edits from `p` on that are not disjoint. */
  predicate ClashFrom(edits: seq<Edit>, p: nat, i: nat, j: nat) {
    i < |edits| && j < |edits| && i != j && p <= edits[i].start <= edits[j].start && !Disjoint(edits[i], edits[j])
  }

  /** If two edits clash, one of them is not made. */
  lemma {:induction false} ClashIsNotMade(s: string, edits: seq<Edit>, p: nat, i: nat, j: nat)
    requires p <= |s| && Lengthening(edits, |s|) && ClashFrom(edits, p, i, j)
    ensures Made(s, edits, p) < GainFrom(edits, p)
    decreases |s| - p
  {
    GainFalls(edits, p, p + 1);
    if EditAt(edits, p).None? {
      EditAtMeaning(edits, p);
      assert edits[i].start != p;
      ClashIsNotMade(s, edits, p + 1, i, j);
    } else {
      var k := FirstIndexAt(edits, p);
      GainAt(edits, p, k);
      var q := if p < edits[k].end then edits[k].end else p + 1;
      GainFalls(edits, p + 1, q);
      if q <= |s| {
        MadeAtMost(s, edits, q);
      }
      ClashGoesOn(edits, p, i, j, k, q);
      if ClashFrom(edits, q, i, j) {
        ClashIsNotMade(s, edits, q, i, j);
      }
    }
  }

  /** A clash involves the edit at `p`, an edit inside it, or two edits behind it. */
  lemma ClashGoesOn(edits: seq<Edit>, p: nat, i: nat, j: nat, k: nat, q: nat)
    requires ClashFrom(edits, p, i, j) && k < |edits| && edits[k].start == p
    requires edits[i].start <= edits[i].end && edits[j].start <= edits[j].end
    requires q == if p < edits[k].end then edits[k].end else p + 1
    ensures || ClashFrom(edits, q, i, j)
            || (exists m | 0 <= m < |edits| :: p < edits[m].start < q)
            || (exists m | 0 <= m < |edits| && m != k :: edits[m].start == p)
  {
    if edits[i].start >= q {
    } else if edits[i].start > p {
      assert p < edits[i].start < q;
    } else if i != k {
      assert edits[i].start == p;
    } else if edits[j].start == p {
      assert j != k;
    } else {
      assert p < edits[j].start < q;
    }
  }

  lemma {:induction false} GainSnoc(edits: seq<Edit>, e: Edit)
    ensures GainFrom(edits + [e], 0) == GainFrom(edits, 0) + Gain(e)
  {
    if edits == [] {
      assert edits + [e] == [e];
    } else {
      GainSnoc(edits[1..], e);
      assert (edits + [e])[1..] == edits[1..] + [e];
    }
  }

  lemma {:induction false} GainOfInsert(sorted: seq<Edit>, e: Edit)
    ensures GainFrom(Insert(sorted, e), 0) == GainFrom(sorted, 0) + Gain(e)
  {
    if sorted == [] || sorted[|sorted| - 1].start >= e.start {
      GainSnoc(sorted, e);
    } else {
      var init, last := sorted[..|sorted| - 1], sorted[|sorted| - 1];
      GainOfInsert(init, e);
      GainSnoc(Insert(init, e), last);
      GainSnoc(init, last);
      assert sorted == init + [last];
    }
  }

  lemma {:induction false} GainOfSorted(edits: seq<Edit>)
    ensures GainFrom(SortDescending(edits), 0) == GainFrom(edits, 0)
  {
    if edits != [] {
      var init, last := edits[..|edits| - 1], edits[|edits| - 1];
      GainOfSorted(init);
      GainOfInsert(SortDescending(init), last);
      GainSnoc(init, last);
      assert edits == init + [last];
    }
  }

  lemma SortKeepsLengthening(edits: seq<Edit>, n: nat)
    requires Lengthening(edits, n)
    ensures Lengthening(SortDescending(edits), n)
  {
    var sorted := SortDescending(edits);
    SortSorts(edits);
    forall i | 0 <= i < |sorted|
      ensures sorted[i].start <= sorted[i].end <= n && Gain(sorted[i]) > 0
    {
      assert sorted[i] in multiset(sorted);
      assert sorted[i] in edits;
    }
  }

  lemma SpliceOneLength(s: string, e: Edit)
    requires e.start <= e.end <= |s|
    ensures |SpliceOne(s, e)| == |s| + Gain(e)
  {
  }

  /** Splices that lengthen the text all count: their offsets stay inside it. */
  lemma {:induction false} SpliceAllLength(s: string, es: seq<Edit>)
    requires Lengthening(es, |s|)
    ensures |SpliceAll(s, es)| == |s| + GainFrom(es, 0) >= |s|
  {
    if es != [] {
      var init, last := es[..|es| - 1], es[|es| - 1];
      SpliceAllLength(s, init);
      SpliceOneLength(SpliceAll(s, init), last);
      GainSnoc(init, last);
      assert es == init + [last];
    }
  }

  lemma NotSeparateClashes(edits: seq<Edit>, n: nat) returns (i: nat, j: nat)
    requires Lengthening(edits, n) && !Separate(edits, n)
    ensures ClashFrom(edits, 0, i, j)
  {
    var k, l :| 0 <= k < l < |edits| && !Disjoint(edits[k], edits[l]);
    if edits[k].start <= edits[l].start {
      i, j := k, l;
    } else {
      i, j := l, k;
    }
  }

  /** Edits that are not separate: the substitution leaves one out, the splices do not, and the texts differ in length. */
  lemma ClashShows(s: string, edits: seq<Edit>)
    requires Lengthening(edits, |s|) && !Separate(edits, |s|)
    ensures |SpliceAll(s, SortDescending(edits))| > |Substitute(s, edits, 0)|
  {
    var i, j := NotSeparateClashes(edits, |s|);
    ClashIsNotMade(s, edits, 0, i, j);
    SubstituteLength(s, edits, 0);
    SortKeepsLengthening(edits, |s|);
    SpliceAllLength(s, SortDescending(edits));
    GainOfSorted(edits);
  }

  /** The ranges that a list of edits replaces, whatever it puts there. */
  datatype Range = Range(start: nat, end: nat)

  function WithTexts(ranges: seq<Range>, texts: seq<string>): (edits: seq<Edit>)
    requires |texts| == |ranges|
    ensures |edits| == |ranges|
  {
    seq(|ranges|, i requires 0 <= i < |ranges| => Edit(ranges[i].start, ranges[i].end, texts[i]))
  }

  /** No two ranges overlap or start together. */
  predicate Apart(ranges: seq<Range>) {
    forall i, j | 0 <= i < j < |ranges| ::
      && ranges[i].start != ranges[j].start
      && (ranges[i].end <= ranges[j].start || ranges[j].end <= ranges[i].start)
  }

  predicate SameText(s: string, edits: seq<Edit>) {
    SpliceAll(s, SortDescending(edits)) == Substitute(s, edits, 0)
  }

  lemma ApartIsSeparate(ranges: seq<Range>, texts: seq<string>, n: nat)
    requires |texts| == |ranges| && Within(ranges, n)
    ensures Separate(WithTexts(ranges, texts), n) <==> Apart(ranges)
  {
    var edits := WithTexts(ranges, texts);
    forall i, j | 0 <= i < j < |ranges|
      ensures Disjoint(edits[i], edits[j]) <==>
              && ranges[i].start != ranges[j].start
              && (ranges[i].end <= ranges[j].start || ranges[j].end <= ranges[i].start)
    {
    }
  }

  predicate Within(ranges: seq<Range>, n: nat) {
    forall i | 0 <= i < |ranges| :: ranges[i].start <= ranges[i].end <= n
  }

  /** Texts one longer than the ranges they replace. */
  function LongTexts(ranges: seq<Range>, n: nat): (texts: seq<string>)
    requires Within(ranges, n)
    ensures |texts| == |ranges|
    ensures forall i | 0 <= i < |ranges| :: |texts[i]| == ranges[i].end - ranges[i].start + 1
  {
    seq(|ranges|, i requires 0 <= i < |ranges| => S.Stretch(ranges[i].end - ranges[i].start + 1))
  }

  lemma LongTextsLengthen(ranges: seq<Range>, n: nat)
    requires Within(ranges, n)
    ensures Lengthening(WithTexts(ranges, LongTexts(ranges, n)), n)
  {
  }

  ghost predicate AlwaysSameText(s: string, ranges: seq<Range>) {
    forall texts: seq<string> | |texts| == |ranges| :: SameText(s, WithTexts(ranges, texts))
  }

  lemma ApartSuffices(s: string, ranges: seq<Range>, texts: seq<string>)
    requires Within(ranges, |s|) && Apart(ranges) && |texts| == |ranges|
    ensures SameText(s, WithTexts(ranges, texts))
  {
    ApartIsSeparate(ranges, texts, |s|);
    SpliceAllIsSubstitution(s, WithTexts(ranges, texts));
  }

  lemma ApartIsNeeded(s: string, ranges: seq<Range>)
    requires Within(ranges, |s|) && !Apart(ranges)
    ensures !SameText(s, WithTexts(ranges, LongTexts(ranges, |s|)))
  {
    ApartIsSeparate(ranges, LongTexts(ranges, |s|), |s|);
    LongTextsLengthen(ranges, |s|);
    ClashShows(s, WithTexts(ranges, LongTexts(ranges, |s|)));
  }

  /**
   Splicing in descending order is substituting all at once for every choice of texts if and only if no two of the
   ranges overlap or start together.
   */
  lemma SpliceIff(s: string, ranges: seq<Range>)
    requires Within(ranges, |s|)
    ensures AlwaysSameText(s, ranges) <==> Apart(ranges)
  {
    if Apart(ranges) {
      forall texts: seq<string> | |texts| == |ranges|
        ensures SameText(s, WithTexts(ranges, texts))
      {
        ApartSuffices(s, ranges, texts);
      }
    } else {
      ApartIsNeeded(s, ranges);
    }
  }
}

/** Version strings: parsed into numbers field by field, and compared like numbers with trailing zeros ignored. */
module Versions {
  import D = Decimal
  import opened Splitting
  import opened Int64

  function DigitValue(c: char): (d: nat)
    requires D.IsDigit(c)
    ensures d <= 9
  {
    c as int - '0' as int
  }

  /** The number spelled by the digits of a field, whatever stands between them. */
  function FieldNumber(f: string): nat {
    if f == "" then 0
    else
      var c, n := f[|f| - 1], FieldNumber(f[..|f| - 1]);
      if D.IsDigit(c) then 10 * n + DigitValue(c) else n
  }

  function Numbers(fs: seq<string>): (parts: seq<int>)
    ensures |parts| == |fs|
  {
    seq(|fs|, i requires 0 <= i < |fs| => Wrap(FieldNumber(fs[i])))
  }

  /** One number for each dot-separated field, kept in 64 bits. */
  function VersionParts(v: string): (parts: seq<int>)
    ensures parts != []
  {
    Numbers(Split(v, '.'))
  }

  // ----- The parser

  lemma {:induction false} CutSnoc(s: string, d: char, c: char)
    ensures Cut(s + [d], c) == if Cut(s, c) < |s| || d == c then Cut(s, c) else |s| + 1
  {
    if s != "" && s[0] != c {
      CutSnoc(s[1..], d, c);
      assert (s + [d])[1..] == s[1..] + [d];
    }
  }

  /** One character more: a separator opens a new part, any other character joins the last one. */
  function Extend(fs: seq<string>, d: char, c: char): seq<string>
    requires fs != []
  {
    if d == c then fs + [""] else fs[..|fs| - 1] + [fs[|fs| - 1] + [d]]
  }

  lemma ExtendUnder(h: string, fs: seq<string>, d: char, c: char)
    requires fs != []
    ensures Extend([h] + fs, d, c) == [h] + Extend(fs, d, c)
  {
  }

  lemma SplitUncut(s: string, d: char, c: char)
    requires Cut(s, c) == |s|
    ensures Split(s + [d], c) == Extend([s], d, c)
  {
    CutSnoc(s, d, c);
    if d == c {
      assert (s + [d])[..|s|] == s && (s + [d])[|s| + 1..] == "";
      assert Split("", c) == [""];
    }
  }

  lemma SplitAtCut(s: string, c: char, head: string, tail: string)
    requires Cut(s, c) == |head| < |s| && s == head + [c] + tail
    ensures Split(s, c) == [head] + Split(tail, c)
  {
    assert s[..|head|] == head && s[|head| + 1..] == tail;
  }

  lemma CutParts(s: string, c: char) returns (head: string, tail: string)
    requires Cut(s, c) < |s|
    ensures Cut(s, c) == |head| && s == head + [c] + tail
  {
    head, tail := s[..Cut(s, c)], s[Cut(s, c) + 1..];
  }

  lemma {:induction false} SplitSnoc(s: string, d: char, c: char)
    ensures Split(s + [d], c) == Extend(Split(s, c), d, c)
    decreases |s|
  {
    if Cut(s, c) < |s| {
      var head, tail := CutParts(s, c);
      CutSnoc(s, d, c);
      SplitSnoc(tail, d, c);
      assert s + [d] == head + [c] + (tail + [d]);
      SplitAtCut(s, c, head, tail);
      SplitAtCut(s + [d], c, head, tail + [d]);
      ExtendUnder(head, Split(tail, c), d, c);
    } else {
      SplitUncut(s, d, c);
    }
  }

  /** What one character does to the number of the field it stands in. */
  function Shift(n: int, d: char): int {
    if D.IsDigit(d) then Wrap(n * 10 + DigitValue(d)) else n
  }

  lemma FieldSnoc(f: string, d: char)
    ensures Wrap(FieldNumber(f + [d])) == Shift(Wrap(FieldNumber(f)), d)
  {
    assert (f + [d])[..|f|] == f;
    if D.IsDigit(d) {
      WrapEarly(FieldNumber(f), 10, DigitValue(d));
    }
  }

  lemma PartsSnoc(s: string, d: char, parts: seq<int>, current: int)
    requires VersionParts(s) == parts + [current]
    ensures VersionParts(s + [d]) == if d == '.' then parts + [current, 0] else parts + [Shift(current, d)]
  {
    var fs := Split(s, '.');
    SplitSnoc(s, d, '.');
    var gs := Extend(fs, d, '.');
    if d == '.' {
      assert Numbers(gs) == Numbers(fs) + [0];
    } else {
      FieldSnoc(fs[|fs| - 1], d);
      assert Numbers(fs)[|fs| - 1] == current;
      assert Numbers(gs)[..|fs| - 1] == Numbers(fs)[..|fs| - 1] == parts;
      assert Numbers(gs)[|fs| - 1] == Shift(current, d);
    }
  }

  /** One turn of the loop. */
  method NextCharacter(parts: seq<int>, current: int, c: char) returns (parts': seq<int>, current': int)
    ensures parts' + [current'] == if c == '.' then parts + [current, 0] else parts + [Shift(current, c)]
  {
    parts', current' := parts, current;
    if D.IsDigit(c) {
      current' := Wrap(current * 10 + DigitValue(c));
    } else if c == '.' {
      parts' := parts + [current];
      current' := 0;
    }
  }

  lemma NothingParsed(v: string)
    ensures VersionParts(v[..0]) == [] + [0]
  {
    assert Split("", '.') == [""];
  }

  lemma CharacterParsed(v: string, i: nat, parts: seq<int>, current: int, after: seq<int>)
    requires i < |v| && VersionParts(v[..i]) == parts + [current]
    requires after == if v[i] == '.' then parts + [current, 0] else parts + [Shift(current, v[i])]
    ensures VersionParts(v[..i + 1]) == after
  {
    assert v[..i + 1] == v[..i] + [v[i]];
    PartsSnoc(v[..i], v[i], parts, current);
  }

  method ParseVersionParts(v: string) returns (parts: seq<int>)
    ensures parts == VersionParts(v)
  {
    parts := [];
    var current := 0;
    NothingParsed(v);
    for i := 0 to |v|
      invariant VersionParts(v[..i]) == parts + [current]
    {
      var nextParts, nextCurrent := NextCharacter(parts, current, v[i]);
      CharacterParsed(v, i, parts, current, nextParts + [nextCurrent]);
      parts, current := nextParts, nextCurrent;
    }
    assert v[..|v|] == v;
    parts := parts + [current];
  }

  function Printed(ns: seq<nat>): (r: seq<string>)
    ensures |r| == |ns|
  {
    seq(|ns|, i requires 0 <= i < |ns| => D.Print(ns[i]))
  }

  lemma {:induction false} NumberOfDigits(ds: string)
    requires D.AllDigits(ds)
    ensures FieldNumber(ds) == D.Value(ds)
  {
    if ds != "" {
      assert D.IsDigit(ds[|ds| - 1]);
      NumberOfDigits(ds[..|ds| - 1]);
    }
  }

  function DigitsOf(f: string): (ds: string)
    ensures D.AllDigits(ds)
  {
    if f == "" then "" else (if D.IsDigit(f[0]) then [f[0]] else "") + DigitsOf(f[1..])
  }

  lemma {:induction false} DigitsOfSnoc(f: string, c: char)
    ensures DigitsOf(f + [c]) == DigitsOf(f) + if D.IsDigit(c) then [c] else ""
  {
    if f == "" {
      assert f + [c] == [c] && [c][1..] == "";
    } else {
      assert (f + [c])[1..] == f[1..] + [c];
      DigitsOfSnoc(f[1..], c);
    }
  }

  /** A field counts as the number its digits spell; every other character in it is passed over. */
  lemma {:induction false} FieldMeaning(f: string)
    ensures FieldNumber(f) == D.Value(DigitsOf(f))
  {
    if f != "" {
      var init, c := f[..|f| - 1], f[|f| - 1];
      assert f == init + [c];
      FieldMeaning(init);
      DigitsOfSnoc(init, c);
      if D.IsDigit(c) {
        assert DigitsOf(f)[..|DigitsOf(f)| - 1] == DigitsOf(init);
      } else {
        assert DigitsOf(f) == DigitsOf(init);
      }
    }
  }

  /** Hence a version is the numbers of its dot-separated fields, so read. */
  lemma VersionMeaning(fs: seq<string>)
    requires fs != [] && Free(fs, '.')
    ensures |VersionParts(Join(fs, '.'))| == |fs|
    ensures forall i | 0 <= i < |fs| :: VersionParts(Join(fs, '.'))[i] == Wrap(D.Value(DigitsOf(fs[i])))
  {
    SplitJoin(fs, '.');
    forall i | 0 <= i < |fs|
      ensures Wrap(FieldNumber(fs[i])) == Wrap(D.Value(DigitsOf(fs[i])))
    {
      FieldMeaning(fs[i]);
    }
  }

  /** A version printed as decimal numbers between dots is parsed back into those numbers. */
  lemma PrintedVersionRoundTrip(ns: seq<nat>)
    requires ns != [] && forall i | 0 <= i < |ns| :: ns[i] < HALF
    ensures VersionParts(Join(Printed(ns), '.')) == ns
  {
    var fs := Printed(ns);
    forall i | 0 <= i < |fs|
      ensures '.' !in fs[i] && Wrap(FieldNumber(fs[i])) == ns[i]
    {
      assert D.AllDigits(fs[i]);
      NumberOfDigits(fs[i]);
      D.ValueOfPrint(ns[i]);
    }
    SplitJoin(fs, '.');
  }

  // ----- The comparison

  /** A missing part counts as zero. */
  function PartAt(a: seq<int>, i: nat): int {
    if i < |a| then a[i] else 0
  }

  function Sign(x: int, y: int): int {
    if x < y then -1 else if x > y then 1 else 0
  }

  /** `r` is the sign of the first difference, zero when there is none. */
  ghost predicate IsComparison(a: seq<int>, b: seq<int>, r: int) {
    if r == 0 then forall i: nat :: PartAt(a, i) == PartAt(b, i)
    else exists k: nat :: FirstDifference(a, b, k) && r == Sign(PartAt(a, k), PartAt(b, k))
  }

  ghost predicate FirstDifference(a: seq<int>, b: seq<int>, k: nat) {
    PartAt(a, k) != PartAt(b, k) && forall i: nat | i < k :: PartAt(a, i) == PartAt(b, i)
  }

  function CompareFrom(a: seq<int>, b: seq<int>, i: nat): (r: int)
    decreases |a| + |b| - i
  {
    if i >= |a| && i >= |b| then 0
    else if PartAt(a, i) != PartAt(b, i) then Sign(PartAt(a, i), PartAt(b, i))
    else CompareFrom(a, b, i + 1)
  }

  function CompareVersions(a: string, b: string): int {
    CompareFrom(VersionParts(a), VersionParts(b), 0)
  }

  method Compare(a: string, b: string) returns (r: int)
    ensures r == CompareVersions(a, b)
  {
    var ai := ParseVersionParts(a);
    var bi := ParseVersionParts(b);
    var maxLen := |ai|;
    if |bi| > maxLen {
      maxLen := |bi|;
    }
    for i := 0 to maxLen
      invariant CompareFrom(ai, bi, i) == CompareVersions(a, b)
    {
      var av, bv := 0, 0;
      if i < |ai| {
        av := ai[i];
      }
      if i < |bi| {
        bv := bi[i];
      }
      if av < bv {
        return -1;
      }
      if av > bv {
        return 1;
      }
    }
    return 0;
  }

  lemma {:induction false} CompareMeaning(a: seq<int>, b: seq<int>, i: nat)
    requires forall j: nat | j < i :: PartAt(a, j) == PartAt(b, j)
    ensures IsComparison(a, b, CompareFrom(a, b, i))
    decreases |a| + |b| - i
  {
    if i >= |a| && i >= |b| {
    } else if PartAt(a, i) != PartAt(b, i) {
      assert FirstDifference(a, b, i);
    } else {
      CompareMeaning(a, b, i + 1);
    }
  }

  lemma ComparisonUnique(a: seq<int>, b: seq<int>, r: int, s: int)
    requires IsComparison(a, b, r) && IsComparison(a, b, s)
    ensures r == s
  {
  }

  /** Antisymmetric: swapping the arguments changes the sign. */
  lemma CompareAntisymmetric(a: string, b: string)
    ensures CompareVersions(a, b) == -CompareVersions(b, a)
  {
    var x, y := VersionParts(a), VersionParts(b);
    CompareMeaning(x, y, 0);
    CompareMeaning(y, x, 0);
    var r := CompareVersions(a, b);
    if r != 0 {
      var k: nat :| FirstDifference(x, y, k) && r == Sign(PartAt(x, k), PartAt(y, k));
      assert FirstDifference(y, x, k);
      assert IsComparison(y, x, -r);
    } else {
      assert IsComparison(y, x, 0);
    }
    ComparisonUnique(y, x, -r, CompareVersions(b, a));
  }

  /** `x` is above `y`, first differing at `k`. */
  ghost predicate AboveAt(x: seq<int>, y: seq<int>, k: nat) {
    FirstDifference(x, y, k) && PartAt(x, k) > PartAt(y, k)
  }

  lemma AboveMeans(x: seq<int>, y: seq<int>, k: nat)
    requires AboveAt(x, y, k)
    ensures IsComparison(x, y, 1)
  {
    assert 1 == Sign(PartAt(x, k), PartAt(y, k));
  }

  lemma AboveExists(x: seq<int>, y: seq<int>, r: int) returns (k: nat)
    requires IsComparison(x, y, r) && r > 0
    ensures AboveAt(x, y, k)
  {
    k :| FirstDifference(x, y, k) && r == Sign(PartAt(x, k), PartAt(y, k));
  }

  lemma AboveTwice(x: seq<int>, y: seq<int>, z: seq<int>, j: nat, k: nat)
    requires AboveAt(x, y, j) && AboveAt(y, z, k)
    ensures AboveAt(x, z, if j < k then j else k)
  {
  }

  lemma AboveThenSame(x: seq<int>, y: seq<int>, z: seq<int>, j: nat)
    requires AboveAt(x, y, j) && forall i: nat :: PartAt(y, i) == PartAt(z, i)
    ensures AboveAt(x, z, j)
  {
  }

  lemma SameThenAbove(x: seq<int>, y: seq<int>, z: seq<int>, k: nat)
    requires AboveAt(y, z, k) && forall i: nat :: PartAt(x, i) == PartAt(y, i)
    ensures AboveAt(x, z, k)
  {
  }

  lemma PartsTransitive(x: seq<int>, y: seq<int>, z: seq<int>, r: int, s: int)
    requires IsComparison(x, y, r) && IsComparison(y, z, s) && r >= 0 && s >= 0
    ensures IsComparison(x, z, if r > 0 || s > 0 then 1 else 0)
  {
    if r > 0 && s > 0 {
      var j := AboveExists(x, y, r);
      var k := AboveExists(y, z, s);
      AboveTwice(x, y, z, j, k);
      AboveMeans(x, z, if j < k then j else k);
    } else if r > 0 {
      var j := AboveExists(x, y, r);
      AboveThenSame(x, y, z, j);
      AboveMeans(x, z, j);
    } else if s > 0 {
      var k := AboveExists(y, z, s);
      SameThenAbove(x, y, z, k);
      AboveMeans(x, z, k);
    }
  }

  /** Transitive, and strict when one of the two steps is. */
  lemma CompareTransitive(a: string, b: string, c: string)
    requires CompareVersions(a, b) >= 0 && CompareVersions(b, c) >= 0
    ensures CompareVersions(a, c) >= 0
    ensures CompareVersions(a, c) > 0 <==> CompareVersions(a, b) > 0 || CompareVersions(b, c) > 0
  {
    var x, y, z := VersionParts(a), VersionParts(b), VersionParts(c);
    CompareMeaning(x, y, 0);
    CompareMeaning(y, z, 0);
    CompareMeaning(x, z, 0);
    var r, s := CompareVersions(a, b), CompareVersions(b, c);
    PartsTransitive(x, y, z, r, s);
    ComparisonUnique(x, z, CompareVersions(a, c), if r > 0 || s > 0 then 1 else 0);
  }

  function WithoutTrailingZeros(a: seq<int>): seq<int> {
    if a != [] && a[|a| - 1] == 0 then WithoutTrailingZeros(a[..|a| - 1]) else a
  }

  lemma {:induction false} TrailingZerosDoNotShow(a: seq<int>, i: nat)
    ensures PartAt(WithoutTrailingZeros(a), i) == PartAt(a, i)
    ensures var t := WithoutTrailingZeros(a); t == [] || t[|t| - 1] != 0
  {
    if a != [] && a[|a| - 1] == 0 {
      TrailingZerosDoNotShow(a[..|a| - 1], i);
    }
  }

  /** Zero exactly when the parts agree up to trailing zeros. */
  lemma CompareZeroIff(a: string, b: string)
    ensures CompareVersions(a, b) == 0
            <==> WithoutTrailingZeros(VersionParts(a)) == WithoutTrailingZeros(VersionParts(b))
  {
    var x, y := VersionParts(a), VersionParts(b);
    var t, u := WithoutTrailingZeros(x), WithoutTrailingZeros(y);
    CompareMeaning(x, y, 0);
    forall i: nat
      ensures PartAt(t, i) == PartAt(x, i) && PartAt(u, i) == PartAt(y, i)
    {
      TrailingZerosDoNotShow(x, i);
      TrailingZerosDoNotShow(y, i);
    }
    TrailingZerosDoNotShow(x, 0);
    TrailingZerosDoNotShow(y, 0);
    if CompareVersions(a, b) == 0 {
      SameParts(t, u);
    } else {
      var k: nat :| FirstDifference(x, y, k);
      assert PartAt(t, k) != PartAt(u, k);
    }
  }

  lemma SameParts(t: seq<int>, u: seq<int>)
    requires t == [] || t[|t| - 1] != 0
    requires u == [] || u[|u| - 1] != 0
    requires forall i: nat :: PartAt(t, i) == PartAt(u, i)
    ensures t == u
  {
    assert |t| <= |u| by {
      assert t != [] ==> PartAt(u, |t| - 1) != 0;
    }
    assert |u| <= |t| by {
      assert u != [] ==> PartAt(t, |u| - 1) != 0;
    }
    forall i | 0 <= i < |t|
      ensures t[i] == u[i]
    {
      assert PartAt(t, i) == PartAt(u, i);
    }
  }
}

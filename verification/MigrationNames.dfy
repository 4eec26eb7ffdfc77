/** How a file name is read: which files count, which version they name, and which name a version gets. */
module MigrationNames {
  import opened Prelude
  import opened Decimal
  import opened Search
  import opened Migrations
  import I = Int64

  // ----- The number

  predicate Spaces(s: string) {
    forall i | 0 <= i < |s| :: s[i] == ' ' || s[i] == '\t' || s[i] == '\r'
  }

  lemma {:induction false} SpacesAreSkipped(sp: string, s: string)
    requires Spaces(sp) && (s == "" || !(Space(s[0]) || s[0] == '\n'))
    ensures SkipSpace(sp + s) == Some(s)
  {
    if sp == "" {
      assert sp + s == s;
    } else {
      assert (sp + s)[1..] == sp[1..] + s;
      SpacesAreSkipped(sp[1..], s);
    }
  }

  /** A text that starts neither with a space nor with a line break. */
  predicate Starts(s: string) {
    s != "" && s[0] !in {' ', '\t', '\r', '\n'}
  }

  lemma DigitsFirst(ds: string, rest: string)
    requires AllDigits(ds) && (rest == "" || !IsDigit(rest[0]))
    ensures Span(ds + rest) == |ds| && (ds + rest)[..|ds|] == ds
  {
    SpanOfDigits(ds, rest);
  }

  /** `sign` is empty, a minus or a plus. */
  predicate Sign(sign: string) {
    sign == "" || sign == "-" || sign == "+"
  }

  lemma SignedParts(sign: string, ds: string, rest: string)
    requires Sign(sign) && (ds + rest != "" || sign != "")
    requires sign == "" ==> (ds + rest)[0] != '-' && (ds + rest)[0] != '+'
    ensures var t := sign + (ds + rest);
            && ((t != "" && t[0] == '-') <==> sign == "-")
            && (if t != "" && (t[0] == '-' || t[0] == '+') then t[1..] else t) == ds + rest
  {
  }

  /**
   A version is read past spaces and a sign up to the first character that is no digit; a number beyond 64 bits, like
   none at all, is read as zero.
   */
  lemma VersionOfText(sp: string, sign: string, ds: string, rest: string)
    requires Spaces(sp) && Sign(sign) && AllDigits(ds) && (rest == "" || !IsDigit(rest[0])) && Starts(sign + (ds + rest))
    requires sign == "" && ds == "" ==> rest[0] != '-' && rest[0] != '+'
    ensures var v: int := if sign == "-" then 0 - Value(ds) else Value(ds);
            ScanVersion(sp + (sign + (ds + rest))) ==
              if ds != "" && -0x8000_0000_0000_0000 <= v < 0x8000_0000_0000_0000 then v else 0
  {
    SpacesAreSkipped(sp, sign + (ds + rest));
    SignedParts(sign, ds, rest);
    DigitsFirst(ds, rest);
  }

  // ----- The name

  lemma FirstUnderscore(pre: string, name: string)
    requires '_' !in pre
    ensures Index(pre + "_" + name, "_") == |pre|
    ensures (pre + "_" + name)[..|pre|] == pre && (pre + "_" + name)[|pre| + 1..] == name
  {
    var base := pre + "_" + name;
    forall i | 0 <= i < |pre|
      ensures !At(base, "_", i)
    {
      assert base[i..i + 1][0] == pre[i];
    }
    assert At(base, "_", |pre|);
    FirstIsUnique(base, "_", 0, Index(base, "_"), |pre|);
  }

  function Suffix(isUp: bool): string {
    if isUp then ".up.sql" else ".down.sql"
  }

  lemma BySuffix(base: string, isUp: bool)
    ensures Parse(Entry(base + Suffix(isUp), false)) == ParseBase(base, isUp)
  {
    SuffixOf(base, Suffix(isUp));
    if !isUp {
      DownIsNotUp(base);
    }
  }

  /** The part before the first underscore is read as the version, the part after it up to the suffix is the name. */
  lemma ParseFile(pre: string, name: string, isUp: bool)
    requires '_' !in pre
    ensures Parse(Entry(pre + "_" + name + Suffix(isUp), false)) == Some(Parsed(ScanVersion(pre), name, isUp))
  {
    FirstUnderscore(pre, name);
    BySuffix(pre + "_" + name, isUp);
  }

  predicate NamedBy(e: Entry, base: string, isUp: bool) {
    !e.isDir && e.name == base + Suffix(isUp) && '_' in base
  }

  lemma BaseParses(base: string, isUp: bool)
    ensures ParseBase(base, isUp).Some? <==> '_' in base
  {
    forall i | 0 <= i < |base|
      ensures At(base, "_", i) <==> base[i] == '_'
    {
      assert base[i..i + 1] == [base[i]];
    }
    if '_' in base {
      var i :| 0 <= i < |base| && base[i] == '_';
      assert At(base, "_", i);
    } else {
      assert forall i | 0 <= i < |base| :: !At(base, "_", i);
    }
  }

  lemma SuffixCut(s: string, suffix: string)
    requires HasSuffix(s, suffix)
    ensures s == s[..|s| - |suffix|] + suffix
  {
  }

  lemma NamedCounts(e: Entry, base: string, isUp: bool)
    requires NamedBy(e, base, isUp)
    ensures Parse(e).Some?
  {
    BySuffix(base, isUp);
    BaseParses(base, isUp);
    assert e == Entry(base + Suffix(isUp), false);
  }

  lemma CountedIsNamed(e: Entry) returns (base: string, isUp: bool)
    requires Parse(e).Some?
    ensures NamedBy(e, base, isUp)
  {
    isUp := HasSuffix(e.name, ".up.sql");
    var suffix := Suffix(isUp);
    assert HasSuffix(e.name, suffix);
    SuffixCut(e.name, suffix);
    base := e.name[..|e.name| - |suffix|];
    assert Parse(e) == ParseBase(base, isUp);
    BaseParses(base, isUp);
  }

  /** An entry counts iff it is a file with one of the two suffixes and an underscore before it. */
  lemma CountsIff(e: Entry)
    ensures Parse(e).Some? <==> exists base, isUp :: NamedBy(e, base, isUp)
  {
    if Parse(e).Some? {
      var base, isUp := CountedIsNamed(e);
    } else {
      forall base, isUp
        ensures !NamedBy(e, base, isUp)
      {
        if NamedBy(e, base, isUp) {
          NamedCounts(e, base, isUp);
        }
      }
    }
  }

  // ----- The name of a version

  /** Entry `i` is the first that names this version. */
  ghost predicate FirstNaming(entries: seq<Entry>, v: int, i: int) {
    0 <= i < |entries| && Concerns(entries[i], v) && forall j | 0 <= j < i :: !Concerns(entries[j], v)
  }

  lemma FirstNamingSnoc(entries: seq<Entry>, e: Entry, v: int, i: int)
    requires FirstNaming(entries, v, i)
    ensures FirstNaming(entries + [e], v, i)
  {
  }

  /** A version has the name of the first file that names it. */
  lemma {:induction false} NameIsOfFirst(dir: string, entries: seq<Entry>, v: int) returns (i: int)
    requires v in Group(dir, entries)
    ensures FirstNaming(entries, v, i) && Group(dir, entries)[v].name == Parse(entries[i]).value.name
  {
    var n := |entries| - 1;
    var before, e := entries[..n], entries[n];
    assert entries == before + [e];
    if v in Group(dir, before) {
      i := NameIsOfFirst(dir, before, v);
      FirstNamingSnoc(before, e, v, i);
    } else {
      i := n;
      GroupKeys(dir, before, v);
      assert forall j | 0 <= j < n :: before[j] == entries[j];
    }
  }
}

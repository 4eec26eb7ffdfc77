/**
 The schema migration engine: loading and ordering the scripts, and running them up and down
 against a table of recorded versions. The environment decides, per version, whether reading the
 file, running the script or updating the table fails.
 */
module Migrations {
  import opened Prelude
  import opened Decimal
  import opened Search
  import I = Int64

  /** An empty file name means the direction is missing. */
  datatype Migration = Migration(version: int, name: string, up: string, down: string)

  // ----- Loading

  datatype Entry = Entry(name: string, isDir: bool)

  datatype Parsed = Parsed(version: int, name: string, isUp: bool)

  function HasSuffix(s: string, suffix: string): bool {
    |suffix| <= |s| && s[|s| - |suffix|..] == suffix
  }

  /** `fmt.Sscanf(s, "%d", &version)` on a zero version: 0 when no 64-bit number can be read. */
  function ScanVersion(s: string): int {
    match SkipSpace(s)
    case None => 0
    case Some(t) =>
      var negative := t != "" && t[0] == '-';
      var digits := if t != "" && (t[0] == '-' || t[0] == '+') then t[1..] else t;
      var n := Span(digits);
      var v: int := Value(digits[..n]);
      if n == 0 || !I.Fits(if negative then -v else v) then 0
      else if negative then -v
      else v
  }

  /** `0001_name.up.sql` or `0001_name.down.sql`; anything else is skipped. */
  function Parse(e: Entry): Option<Parsed> {
    if e.isDir then None
    else if HasSuffix(e.name, ".up.sql") then ParseBase(e.name[..|e.name| - |".up.sql"|], true)
    else if HasSuffix(e.name, ".down.sql") then ParseBase(e.name[..|e.name| - |".down.sql"|], false)
    else None
  }

  function ParseBase(base: string, isUp: bool): Option<Parsed> {
    var i := Index(base, "_");
    if i < 0 then None else Some(Parsed(ScanVersion(base[..i]), base[i + 1..], isUp))
  }

  lemma SuffixOf(a: string, suffix: string)
    ensures HasSuffix(a + suffix, suffix) && (a + suffix)[..|a + suffix| - |suffix|] == a
  {
  }

  lemma DownIsNotUp(a: string)
    ensures !HasSuffix(a + ".down.sql", ".up.sql")
  {
    var s := a + ".down.sql";
    assert s[|s| - 7] == 'o';
    assert s[|s| - 7..][0] == 'o';
  }

  lemma ScanDigits(ds: string)
    requires ds != "" && AllDigits(ds) && I.Fits(Value(ds))
    ensures ScanVersion(ds) == Value(ds)
  {
    assert IsDigit(ds[0]);
    assert ds + "" == ds;
    SpanOfDigits(ds, "");
    assert ds[..|ds|] == ds;
  }

  lemma BaseOf(ds: string, name: string, isUp: bool)
    requires ds != "" && AllDigits(ds) && I.Fits(Value(ds))
    ensures ParseBase(ds + "_" + name, isUp) == Some(Parsed(Value(ds), name, isUp))
  {
    var base := ds + "_" + name;
    forall i | 0 <= i < |ds|
      ensures !At(base, "_", i)
    {
      assert base[i..i + 1][0] == ds[i];
    }
    assert At(base, "_", |ds|);
    FirstIsUnique(base, "_", 0, Index(base, "_"), |ds|);
    assert base[..|ds|] == ds && base[|ds| + 1..] == name;
    ScanDigits(ds);
  }

  /** A file named in the documented way is read as its version, its name and its direction, zeros in front or not. */
  lemma ParseNamed(ds: string, name: string, isUp: bool)
    requires ds != "" && AllDigits(ds) && I.Fits(Value(ds))
    ensures Parse(Entry(ds + "_" + name + if isUp then ".up.sql" else ".down.sql", false))
            == Some(Parsed(Value(ds), name, isUp))
  {
    var base := ds + "_" + name;
    BaseOf(ds, name, isUp);
    if isUp {
      SuffixOf(base, ".up.sql");
    } else {
      SuffixOf(base, ".down.sql");
      DownIsNotUp(base);
    }
  }

  /** What one directory entry does to the table of migrations. */
  function AddEntry(table: map<int, Migration>, dir: string, e: Entry): map<int, Migration> {
    match Parse(e)
    case None => table
    case Some(p) =>
      var m := if p.version in table then table[p.version] else Migration(p.version, p.name, "", "");
      table[p.version := if p.isUp then m.(up := dir + "/" + e.name) else m.(down := dir + "/" + e.name)]
  }

  function Group(dir: string, entries: seq<Entry>): map<int, Migration> {
    if entries == [] then map[] else AddEntry(Group(dir, entries[..|entries| - 1]), dir, entries[|entries| - 1])
  }

  predicate Increasing(ms: seq<Migration>) {
    forall i, j | 0 <= i < j < |ms| :: ms[i].version < ms[j].version
  }

  function Insert(m: Migration, ms: seq<Migration>): seq<Migration> {
    if ms == [] || m.version < ms[0].version then [m] + ms else [ms[0]] + Insert(m, ms[1..])
  }

  /** `sort.Slice` by version. */
  function SortByVersion(ms: seq<Migration>): seq<Migration> {
    if ms == [] then [] else Insert(ms[0], SortByVersion(ms[1..]))
  }

  lemma ConsIncreases(m: Migration, ms: seq<Migration>)
    requires Increasing(ms) && forall x | x in Elements(ms) :: m.version < x.version
    ensures Increasing([m] + ms) && Elements([m] + ms) == {m} + Elements(ms)
  {
    assert forall i | 0 <= i < |ms| :: ms[i] in Elements(ms);
  }

  lemma TailIsGreater(ms: seq<Migration>)
    requires ms != [] && Increasing(ms)
    ensures Increasing(ms[1..]) && Elements(ms) == {ms[0]} + Elements(ms[1..])
    ensures forall x | x in Elements(ms[1..]) :: ms[0].version < x.version
  {
    assert ms == [ms[0]] + ms[1..];
  }

  lemma {:induction false} InsertKeeps(m: Migration, ms: seq<Migration>)
    requires Increasing(ms) && forall x | x in Elements(ms) :: x.version != m.version
    ensures Increasing(Insert(m, ms)) && Elements(Insert(m, ms)) == {m} + Elements(ms)
  {
    if ms == [] {
      ConsIncreases(m, ms);
    } else {
      TailIsGreater(ms);
      if m.version < ms[0].version {
        ConsIncreases(m, ms);
      } else {
        InsertKeeps(m, ms[1..]);
        ConsIncreases(ms[0], Insert(m, ms[1..]));
      }
    }
  }

  predicate DistinctVersions(ms: seq<Migration>) {
    forall i, j | 0 <= i < j < |ms| :: ms[i].version != ms[j].version
  }

  lemma {:induction false} SortSorts(ms: seq<Migration>)
    requires DistinctVersions(ms)
    ensures Increasing(SortByVersion(ms)) && Elements(SortByVersion(ms)) == Elements(ms)
  {
    if ms != [] {
      SortSorts(ms[1..]);
      assert ms == [ms[0]] + ms[1..];
      forall x | x in SortByVersion(ms[1..])
        ensures x.version != ms[0].version
      {
        assert x in Elements(ms[1..]);
        var j :| 0 <= j < |ms[1..]| && ms[1..][j] == x;
        assert ms[j + 1] == x;
      }
      InsertKeeps(ms[0], SortByVersion(ms[1..]));
    }
  }

  /** An increasing list is determined by its elements. */
  lemma {:induction false} IncreasingUnique(a: seq<Migration>, b: seq<Migration>)
    requires Increasing(a) && Increasing(b) && Elements(a) == Elements(b)
    ensures a == b
  {
    if a != [] {
      assert a[0] in Elements(a);
    }
    if b != [] {
      assert b[0] in Elements(b);
    }
    if a != [] && b != [] {
      var i :| 0 <= i < |b| && b[i] == a[0];
      var j :| 0 <= j < |a| && a[j] == b[0];
      assert a[0] == b[0];
      assert a == [a[0]] + a[1..] && b == [b[0]] + b[1..];
      forall x
        ensures x in Elements(a[1..]) <==> x in Elements(b[1..])
      {
        assert x in a[1..] ==> x in Elements(a) && x.version != a[0].version;
        assert x in b[1..] ==> x in Elements(b) && x.version != a[0].version;
      }
      IncreasingUnique(a[1..], b[1..]);
    }
  }

  predicate Concerns(e: Entry, v: int) {
    Parse(e).Some? && Parse(e).value.version == v
  }

  predicate Gives(e: Entry, v: int, isUp: bool) {
    Concerns(e, v) && Parse(e).value.isUp == isUp
  }

  /** Entry `i` is the last that gives this direction of `v`. */
  ghost predicate LastGiver(entries: seq<Entry>, v: int, isUp: bool, i: int) {
    0 <= i < |entries| && Gives(entries[i], v, isUp) && forall j | i < j < |entries| :: !Gives(entries[j], v, isUp)
  }

  ghost predicate NoGiver(entries: seq<Entry>, v: int, isUp: bool) {
    forall i | 0 <= i < |entries| :: !Gives(entries[i], v, isUp)
  }

  /** `file` is the path of the last entry that gives this direction of `v`, or empty when none does. */
  ghost predicate LastFile(dir: string, entries: seq<Entry>, v: int, isUp: bool, file: string) {
    || (NoGiver(entries, v, isUp) && file == "")
    || exists i :: LastGiver(entries, v, isUp, i) && file == dir + "/" + entries[i].name
  }

  lemma LastGiverSnoc(entries: seq<Entry>, e: Entry, v: int, isUp: bool, i: int)
    requires LastGiver(entries, v, isUp, i) && !Gives(e, v, isUp)
    ensures LastGiver(entries + [e], v, isUp, i)
  {
  }

  /** One more entry replaces the file of its own direction and keeps the other. */
  lemma LastFileStep(dir: string, entries: seq<Entry>, e: Entry, v: int, isUp: bool, file: string)
    requires LastFile(dir, entries, v, isUp, file)
    ensures LastFile(dir, entries + [e], v, isUp, if Gives(e, v, isUp) then dir + "/" + e.name else file)
  {
    var es := entries + [e];
    if Gives(e, v, isUp) {
      assert LastGiver(es, v, isUp, |entries|);
    } else if NoGiver(entries, v, isUp) && file == "" {
      assert NoGiver(es, v, isUp);
    } else {
      var i :| LastGiver(entries, v, isUp, i) && file == dir + "/" + entries[i].name;
      LastGiverSnoc(entries, e, v, isUp, i);
      assert es[i] == entries[i];
    }
  }

  /** The file of one direction that a table holds for `v`. */
  function FileOf(table: map<int, Migration>, v: int, isUp: bool): string {
    if v !in table then "" else if isUp then table[v].up else table[v].down
  }

  lemma AddEntryAt(table: map<int, Migration>, dir: string, e: Entry, v: int, isUp: bool)
    ensures v in AddEntry(table, dir, e) <==> v in table || Concerns(e, v)
    ensures FileOf(AddEntry(table, dir, e), v, isUp) ==
            if Gives(e, v, isUp) then dir + "/" + e.name else FileOf(table, v, isUp)
    ensures (v in table ==> table[v].version == v) && v in AddEntry(table, dir, e) ==> AddEntry(table, dir, e)[v].version == v
  {
  }

  predicate Named(entries: seq<Entry>, v: int) {
    exists i | 0 <= i < |entries| :: Concerns(entries[i], v)
  }

  lemma NamedSnoc(entries: seq<Entry>, e: Entry, v: int)
    ensures Named(entries + [e], v) <==> Named(entries, v) || Concerns(e, v)
  {
    var es := entries + [e];
    assert es[|entries|] == e;
    if Named(entries, v) {
      var i :| 0 <= i < |entries| && Concerns(entries[i], v);
      assert Concerns(es[i], v);
    }
  }

  lemma {:induction false} GroupKeys(dir: string, entries: seq<Entry>, v: int)
    ensures v in Group(dir, entries) <==> Named(entries, v)
    ensures v in Group(dir, entries) ==> Group(dir, entries)[v].version == v
  {
    if entries != [] {
      var n := |entries| - 1;
      var before, e := entries[..n], entries[n];
      GroupKeys(dir, before, v);
      AddEntryAt(Group(dir, before), dir, e, v, true);
      NamedSnoc(before, e, v);
      assert entries == before + [e];
    }
  }

  lemma FileStep(dir: string, table: map<int, Migration>, entries: seq<Entry>, e: Entry, v: int, isUp: bool)
    requires LastFile(dir, entries, v, isUp, FileOf(table, v, isUp))
    ensures LastFile(dir, entries + [e], v, isUp, FileOf(AddEntry(table, dir, e), v, isUp))
  {
    AddEntryAt(table, dir, e, v, isUp);
    LastFileStep(dir, entries, e, v, isUp, FileOf(table, v, isUp));
  }

  lemma {:induction false} GroupFiles(dir: string, entries: seq<Entry>, v: int, isUp: bool)
    ensures LastFile(dir, entries, v, isUp, FileOf(Group(dir, entries), v, isUp))
  {
    if entries != [] {
      var before, e := entries[..|entries| - 1], entries[|entries| - 1];
      GroupFiles(dir, before, v, isUp);
      FileStep(dir, Group(dir, before), before, e, v, isUp);
      assert entries == before + [e];
    }
  }

  /** Each version that some file names is loaded once, with the last file of each direction. */
  lemma GroupMeaning(dir: string, entries: seq<Entry>, v: int, isUp: bool)
    ensures v in Group(dir, entries) <==> Named(entries, v)
    ensures v in Group(dir, entries) ==> Group(dir, entries)[v].version == v
    ensures LastFile(dir, entries, v, isUp, FileOf(Group(dir, entries), v, isUp))
  {
    GroupKeys(dir, entries, v);
    GroupFiles(dir, entries, v, isUp);
  }

  ghost predicate Loaded(dir: string, entries: seq<Entry>, ms: seq<Migration>) {
    Increasing(ms) && Elements(ms) == Group(dir, entries).Values
  }

  /** Whatever order the table is walked in, the migrations come out in increasing order of version. */
  method LoadMigrations(dir: string, entries: seq<Entry>) returns (ms: seq<Migration>)
    ensures Loaded(dir, entries, ms)
  {
    var table: map<int, Migration> := map[];
    for i := 0 to |entries|
      invariant table == Group(dir, entries[..i])
    {
      assert entries[..i + 1][..i] == entries[..i];
      table := AddEntry(table, dir, entries[i]);
    }
    assert entries[..|entries|] == entries;
    forall v | v in table
      ensures table[v].version == v
    {
      GroupMeaning(dir, entries, v, true);
    }
    var found: seq<Migration> := [];
    var todo := table.Keys;
    while todo != {}
      invariant todo <= table.Keys
      invariant forall m :: m in found <==> exists v | v in table && v !in todo :: m == table[v]
      invariant DistinctVersions(found)
      decreases |todo|
    {
      var v :| v in todo;
      assert forall m | m in found :: m.version != v;
      found := found + [table[v]];
      todo := todo - {v};
    }
    assert Elements(found) == table.Values;
    SortSorts(found);
    ms := SortByVersion(found);
  }

  /** The result does not depend on that order. */
  lemma LoadedUnique(dir: string, entries: seq<Entry>, a: seq<Migration>, b: seq<Migration>)
    requires Loaded(dir, entries, a) && Loaded(dir, entries, b)
    ensures a == b
  {
    IncreasingUnique(a, b);
  }
}

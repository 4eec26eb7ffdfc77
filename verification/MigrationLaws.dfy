/** What successive migration runs do to the recorded versions. */
module MigrationLaws {
  import opened Prelude
  import opened Migrations
  import opened MigrationRuns

  ghost predicate NoFailures(env: int -> Fate) {
    forall v :: env(v) == Works
  }

  predicate Decreasing(vs: seq<int>) {
    forall i, j | 0 <= i < j < |vs| :: vs[i] > vs[j]
  }

  // ----- Membership

  lemma {:induction false} PendingMeaning(ms: seq<Migration>, current: int, m: Migration)
    ensures m in Pending(ms, current) <==> m in ms && m.version > current && m.up != ""
  {
    if ms != [] {
      PendingMeaning(ms[1..], current, m);
      assert ms == [ms[0]] + ms[1..];
    }
  }

  lemma {:induction false} RollbackMeaning(desc: seq<Migration>, current: int, m: Migration)
    ensures m in Rollback(desc, current) <==> m in desc && m.version <= current && m.down != ""
  {
    if desc != [] {
      RollbackMeaning(desc[1..], current, m);
      assert desc == [desc[0]] + desc[1..];
    }
  }

  lemma {:induction false} ReverseMeaning(ms: seq<Migration>, m: Migration)
    ensures m in Reverse(ms) <==> m in ms
  {
    if ms != [] {
      ReverseMeaning(ms[1..], m);
      assert ms == [ms[0]] + ms[1..];
    }
  }

  lemma {:induction false} AddedMeaning(rec: set<int>, ps: seq<Migration>, k: nat, v: int)
    requires k <= |ps|
    ensures v in Added(rec, ps, k) <==> v in rec || v in Versions(ps)[..k]
  {
    if k > 0 {
      AddedMeaning(rec, ps, k - 1, v);
      assert Versions(ps)[..k] == Versions(ps)[..k - 1] + [ps[k - 1].version];
    }
  }

  lemma {:induction false} RemovedMeaning(rec: set<int>, ts: seq<Migration>, k: nat, v: int)
    requires k <= |ts|
    ensures v in Removed(rec, ts, k) <==> v in rec && v !in Versions(ts)[..k]
  {
    if k > 0 {
      RemovedMeaning(rec, ts, k - 1, v);
      assert Versions(ts)[..k] == Versions(ts)[..k - 1] + [ts[k - 1].version];
    }
  }

  lemma {:induction false} RollbackDecreases(desc: seq<Migration>, current: int)
    requires Decreasing(Versions(desc))
    ensures Decreasing(Versions(Rollback(desc, current)))
  {
    if desc != [] {
      assert Versions(desc)[1..] == Versions(desc[1..]);
      RollbackDecreases(desc[1..], current);
      var rest := Rollback(desc[1..], current);
      forall i | 0 <= i < |rest|
        ensures rest[i].version < desc[0].version
      {
        RollbackMeaning(desc[1..], current, rest[i]);
        var j :| 0 <= j < |desc[1..]| && desc[1..][j] == rest[i];
        assert Versions(desc)[j + 1] == rest[i].version && Versions(desc)[0] == desc[0].version;
      }
      var first := if desc[0].version <= current && desc[0].down != "" then [desc[0].version] else [];
      assert Versions(Rollback(desc, current)) == first + Versions(rest);
    }
  }

  lemma {:induction false} ReverseDecreases(ms: seq<Migration>)
    requires Increasing(ms)
    ensures Decreasing(Versions(Reverse(ms)))
  {
    if ms != [] {
      ReverseDecreases(ms[1..]);
      var r := Reverse(ms[1..]);
      forall i | 0 <= i < |r|
        ensures r[i].version > ms[0].version
      {
        ReverseMeaning(ms[1..], r[i]);
        var j :| 0 <= j < |ms[1..]| && ms[1..][j] == r[i];
        assert ms[j + 1] == r[i];
      }
      assert Versions(Reverse(ms)) == Versions(r) + [ms[0].version];
    }
  }

  /** Pending migrations run in increasing order of version. */
  lemma {:induction false} PendingIncreases(ms: seq<Migration>, current: int)
    requires Increasing(ms)
    ensures Increasing(Pending(ms, current))
  {
    if ms != [] {
      PendingIncreases(ms[1..], current);
      var rest := Pending(ms[1..], current);
      forall i | 0 <= i < |rest|
        ensures rest[i].version > ms[0].version
      {
        PendingMeaning(ms[1..], current, rest[i]);
        var j :| 0 <= j < |ms[1..]| && ms[1..][j] == rest[i];
        assert ms[j + 1] == rest[i];
      }
    }
  }

  lemma VersionIn(ms: seq<Migration>, v: int)
    ensures v in Versions(ms) <==> exists m :: m in ms && m.version == v
  {
    if v in Versions(ms) {
      var i :| 0 <= i < |ms| && Versions(ms)[i] == v;
      assert ms[i] in ms;
    }
    if m :| m in ms && m.version == v {
      var i :| 0 <= i < |ms| && ms[i] == m;
      assert Versions(ms)[i] == v;
    }
  }

  // ----- Upward runs

  /** A successful run records every loaded version above the current one that has a script, and nothing else. */
  lemma UpRecords(ms: seq<Migration>, rec: set<int>, env: int -> Fate, v: int)
    requires Working(Pending(ms, Current(rec)), env) == |Pending(ms, Current(rec))|
    ensures v in UpRecorded(ms, rec, env) <==>
            v in rec || exists m :: m in ms && m.version == v && v > Current(rec) && m.up != ""
  {
    var ps := Pending(ms, Current(rec));
    AddedMeaning(rec, ps, |ps|, v);
    assert Versions(ps)[..|ps|] == Versions(ps);
    VersionIn(ps, v);
    if m :| m in ps && m.version == v {
      PendingMeaning(ms, Current(rec), m);
    }
    if m :| m in ms && m.version == v && v > Current(rec) && m.up != "" {
      PendingMeaning(ms, Current(rec), m);
    }
  }

  lemma {:induction false} NothingPending(ms: seq<Migration>, current: int)
    requires forall i | 0 <= i < |ms| :: ms[i].up != "" ==> ms[i].version <= current
    ensures Pending(ms, current) == []
  {
    if ms != [] {
      NothingPending(ms[1..], current);
    }
  }

  /** After a success a second run with the same files has nothing to do. */
  lemma UpIsIdempotent(ms: seq<Migration>, rec: set<int>, env: int -> Fate)
    requires Working(Pending(ms, Current(rec)), env) == |Pending(ms, Current(rec))|
    ensures Pending(ms, Current(UpRecorded(ms, rec, env))) == []
  {
    var rec' := UpRecorded(ms, rec, env);
    forall v
      ensures v in rec' <==> v in rec || exists m :: m in ms && m.version == v && v > Current(rec) && m.up != ""
    {
      UpRecords(ms, rec, env, v);
    }
    assert Current(rec') >= Current(rec);
    forall i | 0 <= i < |ms| && ms[i].up != ""
      ensures ms[i].version <= Current(rec')
    {
      assert ms[i] in ms;
      assert ms[i].version > Current(rec) ==> ms[i].version in rec';
    }
    NothingPending(ms, Current(rec'));
  }

  // ----- Downward runs

  /** The versions a downward run considers, newest first. */
  function Candidates(ms: seq<Migration>, rec: set<int>): seq<int> {
    Versions(Rollback(Reverse(ms), Current(rec)))
  }

  /** The table after a failure-free run down by `steps`: untouched when its greatest version is zero. */
  lemma DownRemoves(ms: seq<Migration>, rec: set<int>, steps: int, env: int -> Fate, v: int)
    requires NoFailures(env)
    ensures var vs := Candidates(ms, rec);
            v in DownRecorded(ms, rec, steps, env) <==>
            v in rec && (Current(rec) == 0 || v !in if 0 < steps < |vs| then vs[..steps] else vs)
  {
    if Current(rec) != 0 {
      var vs, ts := Candidates(ms, rec), Targets(ms, rec, steps);
      WorkingIs(ts, env, |ts|);
      RemovedMeaning(rec, ts, |ts|, v);
      assert Versions(ts)[..|ts|] == if 0 < steps < |vs| then vs[..steps] else vs;
    }
  }

  /** With a greatest recorded version of zero nothing happens. */
  lemma ZeroStays(ms: seq<Migration>, rec: set<int>, steps: int, env: int -> Fate)
    requires Current(rec) == 0
    ensures DownRecorded(ms, rec, steps, env) == rec
  {
  }

  /** `rec` in decreasing order. */
  predicate IsListing(rec: set<int>, r: seq<int>) {
    Decreasing(r) && Elements(r) == rec
  }

  /** The `n` largest recorded versions are gone, all of them when there are fewer. */
  ghost predicate LargestGone(rec: set<int>, r: seq<int>, n: nat, after: set<int>) {
    after == Elements(if n < |r| then r[n..] else [])
  }

  lemma SplitListing(r: seq<int>, n: nat, v: int)
    requires Decreasing(r) && n <= |r|
    ensures v in r[n..] <==> v in r && v !in r[..n]
  {
    assert r == r[..n] + r[n..];
    assert forall i, j | 0 <= i < n <= j < |r| :: r[i] > r[j];
  }

  /** If the recorded versions are the newest candidates, every run down removes the largest recorded ones. */
  lemma PrefixSuffices(ms: seq<Migration>, rec: set<int>, r: seq<int>, n: nat, env: int -> Fate)
    requires Current(rec) != 0 && NoFailures(env) && IsListing(rec, r) && n > 0
    requires r <= Candidates(ms, rec)
    ensures LargestGone(rec, r, n, DownRecorded(ms, rec, n, env))
  {
    var vs := Candidates(ms, rec);
    var k := if n < |r| then n else |r|;
    var removed := if 0 < n < |vs| then vs[..n] else vs;
    forall v
      ensures v in DownRecorded(ms, rec, n, env) <==> v in r[k..]
    {
      DownRemoves(ms, rec, n, env, v);
      SplitListing(r, k, v);
      assert v in rec <==> v in Elements(r);
      assert removed[..k] == r[..k];
      if n >= |r| && v in r {
        assert v in removed by {
          var i :| 0 <= i < |r| && r[i] == v;
          assert removed[i] == v;
        }
      }
      assert n < |r| ==> removed == r[..k];
    }
  }

  lemma PrefixStep(vs: seq<int>, r: seq<int>, n: nat)
    requires 0 < n <= |r| && Decreasing(r) && r[..n - 1] <= vs
    requires r[n - 1] in if n < |vs| then vs[..n] else vs
    ensures r[..n] <= vs
  {
    var removed, v := if n < |vs| then vs[..n] else vs, r[n - 1];
    var i :| 0 <= i < |removed| && removed[i] == v;
    assert forall j | 0 <= j < n - 1 :: vs[j] == r[..n - 1][j] == r[j] > v;
    assert i == n - 1;
    assert r[..n] == r[..n - 1] + [v];
  }

  /** Conversely, if every run down removes the largest recorded versions, they are the newest candidates. */
  lemma {:induction false} PrefixNecessary(ms: seq<Migration>, rec: set<int>, r: seq<int>, n: nat, env: int -> Fate)
    requires Current(rec) != 0 && NoFailures(env) && IsListing(rec, r) && n <= |r|
    requires forall k: nat | 0 < k <= |r| :: LargestGone(rec, r, k, DownRecorded(ms, rec, k, env))
    ensures r[..n] <= Candidates(ms, rec)
  {
    if n > 0 {
      PrefixNecessary(ms, rec, r, n - 1, env);
      var v := r[n - 1];
      assert LargestGone(rec, r, n, DownRecorded(ms, rec, n, env));
      DownRemoves(ms, rec, n, env, v);
      SplitListing(r, n, v);
      assert r[..n][n - 1] == v;
      assert v in Elements(r);
      PrefixStep(Candidates(ms, rec), r, n);
    }
  }

  lemma EmptyListing(rec: set<int>, r: seq<int>)
    requires IsListing(rec, r)
    ensures rec == {} <==> r == []
  {
    assert r == [] || r[0] in Elements(r);
  }

  lemma NothingGone(rec: set<int>, r: seq<int>, n: nat)
    requires IsListing(rec, r) && n > 0
    ensures LargestGone(rec, r, n, rec) <==> rec == {}
  {
    EmptyListing(rec, r);
    if rec != {} {
      assert r[0] in Elements(r);
      if n < |r| {
        SplitListing(r, n, r[0]);
        assert r[..n][0] == r[0];
      }
    }
  }

  /**
   MigrateDown(n) removes exactly the n largest recorded versions, for every n, if and only if there are
   none, or their greatest is not zero and they are the newest of those that can be rolled back.
   */
  lemma DownRemovesLargestIff(ms: seq<Migration>, rec: set<int>, r: seq<int>, env: int -> Fate)
    requires NoFailures(env) && IsListing(rec, r)
    ensures (forall n: nat | n > 0 :: LargestGone(rec, r, n, DownRecorded(ms, rec, n, env)))
            <==> rec == {} || (Current(rec) != 0 && r <= Candidates(ms, rec))
  {
    if Current(rec) == 0 {
      forall n: nat | n > 0
        ensures LargestGone(rec, r, n, DownRecorded(ms, rec, n, env)) <==> rec == {}
      {
        ZeroStays(ms, rec, n, env);
        NothingGone(rec, r, n);
      }
      assert LargestGone(rec, r, 1, DownRecorded(ms, rec, 1, env)) <==> rec == {};
    } else {
      if r <= Candidates(ms, rec) {
        forall n: nat | n > 0
          ensures LargestGone(rec, r, n, DownRecorded(ms, rec, n, env))
        {
          PrefixSuffices(ms, rec, r, n, env);
        }
      }
      if forall n: nat | n > 0 :: LargestGone(rec, r, n, DownRecorded(ms, rec, n, env)) {
        PrefixNecessary(ms, rec, r, |r|, env);
        assert r[..|r|] == r;
      }
    }
  }

  /** Versions 1 and 2 are recorded and 2 has no down script: one step down removes version 1. */
  lemma MissingDownScriptIsSkipped(env: int -> Fate)
    requires NoFailures(env)
    ensures var ms := [Migration(1, "a", "u1", "d1"), Migration(2, "b", "u2", "")];
            DownRecorded(ms, {1, 2}, 1, env) == {2}
  {
    var one, two := Migration(1, "a", "u1", "d1"), Migration(2, "b", "u2", "");
    var rec: set<int> := {1, 2};
    assert 2 in rec && Current(rec) == 2;
    assert [one, two][1..] == [two] && [two][1..] == [];
    assert Reverse([two]) == [two];
    assert Reverse([one, two]) == [two, one];
    assert [two, one][1..] == [one] && [one][1..] == [];
    assert Rollback([one], 2) == [one];
    assert Rollback([two, one], 2) == [one];
    forall v
      ensures v in DownRecorded([one, two], rec, 1, env) <==> v == 2
    {
      DownRemoves([one, two], rec, 1, env, v);
      assert Candidates([one, two], rec) == [1];
    }
  }

  // ----- Down and up again

  /** Every migration has both scripts. */
  predicate Complete(ms: seq<Migration>) {
    forall m | m in ms :: m.up != "" && m.down != ""
  }

  /** Exactly the loaded versions up to the current one are recorded. */
  ghost predicate Tracked(ms: seq<Migration>, rec: set<int>) {
    forall v :: v in rec <==> v in Versions(ms) && v <= Current(rec)
  }

  lemma {:induction false} DecreasingUnique(a: seq<int>, b: seq<int>)
    requires Decreasing(a) && Decreasing(b) && forall v :: v in a <==> v in b
    ensures a == b
  {
    assert a != [] ==> a[0] in a;
    assert b != [] ==> b[0] in b;
    if a != [] && b != [] {
      assert a == [a[0]] + a[1..] && b == [b[0]] + b[1..];
      forall v
        ensures v in a[1..] <==> v in b[1..]
      {
        assert v in a[1..] ==> v in a && v != a[0];
        assert v in b[1..] ==> v in b && v != b[0];
      }
      DecreasingUnique(a[1..], b[1..]);
    }
  }

  /** When the recorded versions are the loaded ones up to the current one, they are all the candidates. */
  lemma TrackedIsCandidates(ms: seq<Migration>, rec: set<int>, r: seq<int>)
    requires Increasing(ms) && Complete(ms) && Tracked(ms, rec) && IsListing(rec, r)
    ensures r == Candidates(ms, rec)
  {
    ReverseDecreases(ms);
    RollbackDecreases(Reverse(ms), Current(rec));
    forall v
      ensures v in Candidates(ms, rec) <==> v in r
    {
      var ds := Rollback(Reverse(ms), Current(rec));
      VersionIn(ds, v);
      VersionIn(ms, v);
      if m :| m in ms && m.version == v {
        ReverseMeaning(ms, m);
        RollbackMeaning(Reverse(ms), Current(rec), m);
      }
      if m :| m in ds && m.version == v {
        RollbackMeaning(Reverse(ms), Current(rec), m);
        ReverseMeaning(ms, m);
      }
      assert v in r <==> v in Elements(r);
    }
    DecreasingUnique(r, Candidates(ms, rec));
  }

  /**
   In that case MigrateDown(n) removes the n largest recorded versions and MigrateDown(0) all of them, if and
   only if there are none or their greatest is not zero.
   */
  lemma TrackedDown(ms: seq<Migration>, rec: set<int>, r: seq<int>, steps: int, env: int -> Fate)
    requires Increasing(ms) && Complete(ms) && Tracked(ms, rec) && IsListing(rec, r) && NoFailures(env)
    ensures LargestGone(rec, r, if steps > 0 then steps else |r|, DownRecorded(ms, rec, steps, env))
            <==> rec == {} || Current(rec) != 0
  {
    if Current(rec) == 0 {
      ZeroStays(ms, rec, steps, env);
      EmptyListing(rec, r);
      if rec != {} {
        NothingGone(rec, r, if steps > 0 then steps else |r|);
      }
    } else {
      TrackedIsCandidates(ms, rec, r);
      if steps > 0 {
        PrefixSuffices(ms, rec, r, steps, env);
      } else {
        forall v
          ensures v !in DownRecorded(ms, rec, steps, env)
        {
          DownRemoves(ms, rec, steps, env, v);
          assert v in rec <==> v in Elements(r);
        }
      }
    }
  }

  /** Whether a run down by `steps` leaves the table empty. */
  predicate Emptied(rec: set<int>, r: seq<int>, steps: int) {
    rec == {} || (Current(rec) != 0 && !(0 < steps < |r|))
  }

  /** What is left is a tracked table again, or an empty one. */
  lemma DownStaysTracked(ms: seq<Migration>, rec: set<int>, r: seq<int>, steps: int, env: int -> Fate)
    requires Increasing(ms) && Complete(ms) && Tracked(ms, rec) && IsListing(rec, r) && NoFailures(env)
    ensures var rec' := DownRecorded(ms, rec, steps, env);
            if Emptied(rec, r, steps) then rec' == {} else rec' != {} && Tracked(ms, rec')
  {
    var rec' := DownRecorded(ms, rec, steps, env);
    TrackedDown(ms, rec, r, steps, env);
    if Current(rec) == 0 {
      ZeroStays(ms, rec, steps, env);
    } else if 0 < steps < |r| {
      CurrentOfListing(rec, r);
      assert r[steps..][0] in Elements(r[steps..]);
      CurrentOfListing(rec', r[steps..]);
      forall v
        ensures v in rec' <==> v in Versions(ms) && v <= Current(rec')
      {
        assert v in rec <==> v in Elements(r);
        SuffixMeaning(r, steps, v);
      }
    } else {
      assert Elements<int>([]) == {};
    }
  }

  lemma SuffixMeaning(r: seq<int>, n: nat, v: int)
    requires Decreasing(r) && n < |r|
    ensures v in Elements(r[n..]) <==> v in Elements(r) && v <= r[n]
  {
    assert r == r[..n] + r[n..];
    assert forall i | 0 <= i < n :: r[i] > r[n];
    assert forall i | n <= i < |r| :: r[i] == r[n..][i - n];
  }

  lemma CurrentOfListing(rec: set<int>, r: seq<int>)
    requires IsListing(rec, r) && r != []
    ensures Current(rec) == r[0]
  {
    assert r[0] in Elements(r);
    var i :| 0 <= i < |r| && r[i] == Current(rec);
  }

  /**
   Rolling back any number of steps and migrating up again records every loaded version, except that from an
   empty table only versions above zero come back.
   */
  lemma DownThenUp(ms: seq<Migration>, rec: set<int>, r: seq<int>, steps: int, env: int -> Fate, v: int)
    requires Increasing(ms) && Complete(ms) && Tracked(ms, rec) && IsListing(rec, r) && NoFailures(env)
    ensures v in UpRecorded(ms, DownRecorded(ms, rec, steps, env), env)
            <==> v in Versions(ms) && (v > 0 || !Emptied(rec, r, steps))
  {
    DownStaysTracked(ms, rec, r, steps, env);
    var rec' := DownRecorded(ms, rec, steps, env);
    var ps := Pending(ms, Current(rec'));
    WorkingIs(ps, env, |ps|);
    UpRecords(ms, rec', env, v);
    VersionIn(ms, v);
  }

  // ----- A run that failed, and one that did not

  lemma SkipFirst(ms: seq<Migration>, v: int)
    requires ms != [] && (ms[0].version <= v || ms[0].up == "")
    ensures Pending(ms, v) == Pending(ms[1..], v)
  {
  }

  lemma TakeFirst(ms: seq<Migration>, v: int)
    requires ms != [] && ms[0].version > v && ms[0].up != ""
    ensures Pending(ms, v) == [ms[0]] + Pending(ms[1..], v)
  {
  }

  lemma BehindFirst<T>(x: T, xs: seq<T>, k: nat)
    requires k <= |xs|
    ensures ([x] + xs)[k + 1..] == xs[k..]
    ensures k > 0 ==> ([x] + xs)[k] == xs[k - 1]
  {
  }

  /** What is pending after the first `k` pending migrations succeeded is the rest. */
  lemma {:induction false} PendingAfter(ms: seq<Migration>, current: int, k: nat)
    requires Increasing(ms) && k < |Pending(ms, current)|
    ensures Pending(ms, Pending(ms, current)[k].version) == Pending(ms, current)[k + 1..]
  {
    var ps, m, rest := Pending(ms, current), ms[0], Pending(ms[1..], current);
    if m.version > current && m.up != "" {
      TakeFirst(ms, current);
      BehindFirst(m, rest, k);
      if k == 0 {
        AllAbove(ms[1..], current, m.version);
        SkipFirst(ms, m.version);
        assert rest[0..] == rest;
      } else {
        PendingAfter(ms[1..], current, k - 1);
        PendingMeaning(ms[1..], current, rest[k - 1]);
        AboveFirst(ms, rest[k - 1]);
        SkipFirst(ms, rest[k - 1].version);
      }
    } else {
      SkipFirst(ms, current);
      PendingAfter(ms[1..], current, k);
      PendingMeaning(ms, current, ps[k]);
      SkipFirst(ms, ps[k].version);
    }
  }

  lemma AboveFirst(ms: seq<Migration>, m: Migration)
    requires Increasing(ms) && ms != [] && m in ms[1..]
    ensures ms[0].version < m.version
  {
    var i :| 0 <= i < |ms[1..]| && ms[1..][i] == m;
    assert ms[i + 1] == m;
  }

  /** Below all versions, the starting point does not matter. */
  lemma {:induction false} AllAbove(ms: seq<Migration>, low: int, high: int)
    requires low <= high && forall i | 0 <= i < |ms| :: ms[i].version > high
    ensures Pending(ms, low) == Pending(ms, high)
  {
    if ms != [] {
      AllAbove(ms[1..], low, high);
    }
  }

  /** The greatest recorded version after `k` pending migrations. */
  lemma {:induction false} CurrentAfter(rec: set<int>, ps: seq<Migration>, k: nat)
    requires Increasing(ps) && k <= |ps| && forall i | 0 <= i < |ps| :: ps[i].version > Current(rec)
    ensures Current(Added(rec, ps, k)) == if k == 0 then Current(rec) else ps[k - 1].version
  {
    if k > 0 {
      CurrentAfter(rec, ps, k - 1);
      CurrentOfNew(Added(rec, ps, k - 1), ps[k - 1].version);
    }
  }

  lemma {:induction false} AddedTwice(rec: set<int>, ps: seq<Migration>, k: nat, j: nat)
    requires k + j <= |ps|
    ensures Added(Added(rec, ps, k), ps[k..], j) == Added(rec, ps, k + j)
  {
    if j > 0 {
      AddedTwice(rec, ps, k, j - 1);
    }
  }

  lemma {:induction false} ScriptsTwice(ps: seq<Migration>, k: nat, j: nat)
    requires k + j <= |ps|
    ensures UpScripts(ps, k) + UpScripts(ps[k..], j) == UpScripts(ps, k + j)
  {
    if j > 0 {
      ScriptsTwice(ps, k, j - 1);
    }
  }

  /** What is still pending after a run that got as far as `k` migrations. */
  lemma StillPending(ms: seq<Migration>, rec: set<int>, k: nat)
    requires Increasing(ms) && k <= |Pending(ms, Current(rec))|
    ensures var ps := Pending(ms, Current(rec)); Pending(ms, Current(Added(rec, ps, k))) == ps[k..]
  {
    var ps := Pending(ms, Current(rec));
    PendingIncreases(ms, Current(rec));
    forall i | 0 <= i < |ps|
      ensures ps[i].version > Current(rec)
    {
      PendingMeaning(ms, Current(rec), ps[i]);
    }
    CurrentAfter(rec, ps, k);
    if k > 0 {
      PendingAfter(ms, Current(rec), k - 1);
    }
  }

  /** The script that was executed but not recorded, if any. */
  function Unrecorded(ps: seq<Migration>, k: nat, env: int -> Fate): seq<Script> {
    if k < |ps| && env(ps[k].version) == RecordFails then [Up(ps[k].version)] else []
  }

  /** `again` is `log` with at most one script, `extra`, executed once more just before its turn. */
  ghost predicate OneTwice(log: seq<Script>, extra: seq<Script>, again: seq<Script>) {
    exists i | 0 <= i <= |log| :: again == log[..i] + extra + log[i..] && |extra| <= 1 && extra <= log[i..]
  }

  lemma {:induction false} FirstScript(ps: seq<Migration>, k: nat)
    requires k <= |ps|
    ensures |UpScripts(ps, k)| == k && (k > 0 ==> UpScripts(ps, k)[0] == Up(ps[0].version))
  {
    if k > 0 {
      FirstScript(ps, k - 1);
    }
  }

  lemma LogsJoined(ps: seq<Migration>, k: nat, env: int -> Fate)
    requires k <= |ps|
    ensures OneTwice(UpScripts(ps, |ps|), Unrecorded(ps, k, env),
                     UpScripts(ps, k) + Unrecorded(ps, k, env) + UpScripts(ps[k..], |ps| - k))
  {
    var log, first, last := UpScripts(ps, |ps|), UpScripts(ps, k), UpScripts(ps[k..], |ps| - k);
    ScriptsTwice(ps, k, |ps| - k);
    FirstScript(ps, k);
    FirstScript(ps[k..], |ps| - k);
    assert log[..k] == first && log[k..] == last;
  }

  lemma CleanLog(ps: seq<Migration>, clean: int -> Fate)
    requires NoFailures(clean)
    ensures Working(ps, clean) == |ps| && UpLog(ps, Working(ps, clean), clean) == UpScripts(ps, |ps|)
  {
    WorkingIs(ps, clean, |ps|);
    assert UpScripts(ps, |ps|) + [] == UpScripts(ps, |ps|);
  }

  lemma LogsOfBoth(ps: seq<Migration>, qs: seq<Migration>, k: nat, env: int -> Fate, clean: int -> Fate)
    requires k <= |ps| && qs == ps[k..] && NoFailures(clean)
    ensures OneTwice(UpLog(ps, Working(ps, clean), clean), Unrecorded(ps, k, env),
                     UpLog(ps, k, env) + UpLog(qs, Working(qs, clean), clean))
  {
    CleanLog(ps, clean);
    CleanLog(qs, clean);
    LogsJoined(ps, k, env);
    assert UpLog(ps, k, env) == UpScripts(ps, k) + Unrecorded(ps, k, env);
  }

  lemma TablesOfBoth(rec: set<int>, ps: seq<Migration>, k: nat, clean: int -> Fate)
    requires k <= |ps| && NoFailures(clean)
    ensures Added(Added(rec, ps, k), ps[k..], Working(ps[k..], clean)) == Added(rec, ps, Working(ps, clean))
  {
    AddedTwice(rec, ps, k, |ps| - k);
    WorkingIs(ps, clean, |ps|);
    WorkingIs(ps[k..], clean, |ps| - k);
  }

  /**
   A run that failed anywhere, followed by one without failures, leaves the table that one clean run leaves. The
   scripts executed are those of the clean run in the same order, with at most one of them, the one whose record
   could not be written, executed twice in a row.
   */
  lemma FailedThenClean(ms: seq<Migration>, rec: set<int>, env: int -> Fate, clean: int -> Fate)
    requires Increasing(ms) && NoFailures(clean)
    ensures UpRecorded(ms, UpRecorded(ms, rec, env), clean) == UpRecorded(ms, rec, clean)
    ensures var ps := Pending(ms, Current(rec));
            var qs := Pending(ms, Current(UpRecorded(ms, rec, env)));
            OneTwice(UpLog(ps, Working(ps, clean), clean), Unrecorded(ps, Working(ps, env), env),
                     UpLog(ps, Working(ps, env), env) + UpLog(qs, Working(qs, clean), clean))
  {
    var ps := Pending(ms, Current(rec));
    var k := Working(ps, env);
    StillPending(ms, rec, k);
    TablesOfBoth(rec, ps, k, clean);
    LogsOfBoth(ps, ps[k..], k, env, clean);
  }
}

/** Running migrations up and down. */
module MigrationRuns {
  import opened Prelude
  import opened Migrations

  /** What the environment does to a migration: the first of its three steps that fails, if any. */
  datatype Fate = Works | ReadFails | ScriptFails | RecordFails

  datatype Script = Up(version: int) | Down(version: int)

  // ----- The table

  /** `COALESCE(MAX(version), 0)` */
  function Current(recorded: set<int>): (m: int)
    ensures recorded == {} ==> m == 0
    ensures recorded != {} ==> m in recorded && forall x | x in recorded :: x <= m
  {
    if recorded == {} then 0
    else
      MaxExists(recorded);
      var m :| m in recorded && forall x | x in recorded :: x <= m;
      m
  }

  function Versions(ms: seq<Migration>): seq<int> {
    seq(|ms|, i requires 0 <= i < |ms| => ms[i].version)
  }

  // ----- What a run does, as functions of the recorded versions

  /** The migrations an upward run goes through, in order. */
  function Pending(ms: seq<Migration>, current: int): seq<Migration> {
    if ms == [] then []
    else (if ms[0].version > current && ms[0].up != "" then [ms[0]] else []) + Pending(ms[1..], current)
  }

  /** The migrations a downward run may go through, in order. */
  function Rollback(desc: seq<Migration>, current: int): seq<Migration> {
    if desc == [] then []
    else (if desc[0].version <= current && desc[0].down != "" then [desc[0]] else []) + Rollback(desc[1..], current)
  }

  function Reverse(ms: seq<Migration>): seq<Migration> {
    if ms == [] then [] else Reverse(ms[1..]) + [ms[0]]
  }

  /** How many migrations succeed before the first failure. */
  function Working(ps: seq<Migration>, env: int -> Fate): (k: nat)
    ensures k <= |ps| && (k < |ps| ==> env(ps[k].version) != Works)
    ensures forall i | 0 <= i < k :: env(ps[i].version) == Works
  {
    if ps == [] || env(ps[0].version) != Works then 0 else 1 + Working(ps[1..], env)
  }

  /** The table after recording the first `k` of `ps`. */
  function Added(recorded: set<int>, ps: seq<Migration>, k: nat): set<int>
    requires k <= |ps|
  {
    if k == 0 then recorded else Added(recorded, ps, k - 1) + {ps[k - 1].version}
  }

  /** The table after removing the first `k` of `ts`. */
  function Removed(recorded: set<int>, ts: seq<Migration>, k: nat): set<int>
    requires k <= |ts|
  {
    if k == 0 then recorded else Removed(recorded, ts, k - 1) - {ts[k - 1].version}
  }

  function UpScripts(ps: seq<Migration>, k: nat): seq<Script>
    requires k <= |ps|
  {
    if k == 0 then [] else UpScripts(ps, k - 1) + [Up(ps[k - 1].version)]
  }

  function DownScripts(ts: seq<Migration>, k: nat): seq<Script>
    requires k <= |ts|
  {
    if k == 0 then [] else DownScripts(ts, k - 1) + [Down(ts[k - 1].version)]
  }

  function UpRecorded(ms: seq<Migration>, recorded: set<int>, env: int -> Fate): set<int> {
    var ps := Pending(ms, Current(recorded));
    Added(recorded, ps, Working(ps, env))
  }

  /** With no recorded version above or below zero there is nothing to roll back; steps of 0 or less mean all. */
  function Targets(ms: seq<Migration>, recorded: set<int>, steps: int): seq<Migration> {
    if Current(recorded) == 0 then []
    else
      var ds := Rollback(Reverse(ms), Current(recorded));
      if 0 < steps < |ds| then ds[..steps] else ds
  }

  function DownRecorded(ms: seq<Migration>, recorded: set<int>, steps: int, env: int -> Fate): set<int> {
    var ts := Targets(ms, recorded, steps);
    Removed(recorded, ts, Working(ts, env))
  }

  // ----- The runs

  /** The scripts run when the first `k` migrations succeeded and, if any is left, the next one failed. */
  function UpLog(ps: seq<Migration>, k: nat, env: int -> Fate): seq<Script>
    requires k <= |ps|
  {
    UpScripts(ps, k) + if k < |ps| && env(ps[k].version) == RecordFails then [Up(ps[k].version)] else []
  }

  function DownLog(ts: seq<Migration>, k: nat, env: int -> Fate): seq<Script>
    requires k <= |ts|
  {
    DownScripts(ts, k) + if k < |ts| && env(ts[k].version) == RecordFails then [Down(ts[k].version)] else []
  }

  class Database {
    var recorded: set<int>
    var executed: seq<Script>

    constructor ()
      ensures recorded == {} && executed == []
    {
      recorded, executed := {}, [];
    }

    /** Read, execute and record one migration. */
    method ApplyOne(v: int, fate: Fate) returns (ok: bool)
      modifies this
      ensures ok <==> fate.Works?
      ensures recorded == if ok then old(recorded) + {v} else old(recorded)
      ensures executed == old(executed) + if fate.Works? || fate.RecordFails? then [Up(v)] else []
    {
      if fate.ReadFails? || fate.ScriptFails? {
        return false;
      }
      executed := executed + [Up(v)];
      if fate.RecordFails? {
        return false;
      }
      recorded := recorded + {v};
      return true;
    }

    /** Read, execute and remove the record of one rollback. */
    method RevertOne(v: int, fate: Fate) returns (ok: bool)
      modifies this
      ensures ok <==> fate.Works?
      ensures recorded == if ok then old(recorded) - {v} else old(recorded)
      ensures executed == old(executed) + if fate.Works? || fate.RecordFails? then [Down(v)] else []
    {
      if fate.ReadFails? || fate.ScriptFails? {
        return false;
      }
      executed := executed + [Down(v)];
      if fate.RecordFails? {
        return false;
      }
      recorded := recorded - {v};
      return true;
    }

    /**
     The newly recorded versions are a prefix of the pending ones, the executed scripts are the
     same prefix and at most one more, whose record could not be written.
     */
    method MigrateUp(ms: seq<Migration>, env: int -> Fate) returns (applied: nat, ok: bool)
      requires Increasing(ms)
      modifies this
      ensures UpDone(ms, env, old(recorded), old(executed), applied, ok, recorded, executed)
    {
      var currentVersion := Current(recorded);
      applied := 0;
      UpStarts(ms, env, recorded, executed);
      for i := 0 to |ms|
        invariant UpSoFar(ms, env, old(recorded), old(executed), i, applied, currentVersion, recorded, executed)
      {
        var mig := ms[i];
        UpMoves(ms, env, old(recorded), old(executed), i, applied, currentVersion, recorded, executed);
        if mig.version <= currentVersion || mig.up == "" {
          continue;
        }
        var worked := ApplyOne(mig.version, env(mig.version));
        if !worked {
          return applied, false;
        }
        applied := applied + 1;
        currentVersion := mig.version;
      }
      UpEnds(ms, env, old(recorded), old(executed), applied, currentVersion, recorded, executed);
      return applied, true;
    }

    /** The same downwards, over at most `steps` migrations from the newest. */
    method MigrateDown(ms: seq<Migration>, steps: int, env: int -> Fate) returns (rolledBack: nat, ok: bool)
      requires Increasing(ms)
      modifies this
      ensures DownDone(ms, steps, env, old(recorded), old(executed), rolledBack, ok, recorded, executed)
    {
      var currentVersion := Current(recorded);
      rolledBack := 0;
      if currentVersion == 0 {
        return 0, true;
      }
      var desc := Reverse(ms);
      DownStarts(ms, steps, env, recorded, executed);
      for i := 0 to |desc|
        invariant DownSoFar(ms, steps, env, old(recorded), old(executed), i, rolledBack, recorded, executed)
      {
        var mig := desc[i];
        if mig.version > currentVersion {
          DownSkips(ms, steps, env, old(recorded), old(executed), i, rolledBack, recorded, executed);
          continue;
        }
        if steps > 0 && rolledBack >= steps {
          DownStops(ms, steps, env, old(recorded), old(executed), i, rolledBack, recorded, executed);
          return rolledBack, true;
        }
        if mig.down == "" {
          DownSkips(ms, steps, env, old(recorded), old(executed), i, rolledBack, recorded, executed);
          continue;
        }
        DownReverts(ms, steps, env, old(recorded), old(executed), i, rolledBack, recorded, executed);
        var worked := RevertOne(mig.version, env(mig.version));
        if !worked {
          return rolledBack, false;
        }
        rolledBack := rolledBack + 1;
      }
      DownEnds(ms, steps, env, old(recorded), old(executed), rolledBack, recorded, executed);
      return rolledBack, true;
    }
  }

  // ----- What the loops maintain

  /** The result of an upward run from the table `rec` and the log `log`. */
  ghost predicate UpDone(ms: seq<Migration>, env: int -> Fate, rec: set<int>, log: seq<Script>,
                         applied: nat, ok: bool, rec': set<int>, log': seq<Script>) {
    var ps := Pending(ms, Current(rec));
    && applied == Working(ps, env) && ok == (applied == |ps|)
    && rec' == UpRecorded(ms, rec, env)
    && log' == log + UpLog(ps, applied, env)
  }

  ghost predicate DownDone(ms: seq<Migration>, steps: int, env: int -> Fate, rec: set<int>, log: seq<Script>,
                           rolledBack: nat, ok: bool, rec': set<int>, log': seq<Script>) {
    var ts := Targets(ms, rec, steps);
    && rolledBack == Working(ts, env) && ok == (rolledBack == |ts|)
    && rec' == DownRecorded(ms, rec, steps, env)
    && log' == log + DownLog(ts, rolledBack, env)
  }

  /** Before migration `i`: `applied` pending ones are done, and `current` is the largest recorded version. */
  ghost predicate UpSoFar(ms: seq<Migration>, env: int -> Fate, rec: set<int>, log: seq<Script>,
                          i: nat, applied: nat, current: int, rec': set<int>, log': seq<Script>) {
    var start := Current(rec);
    var ps := Pending(ms, start);
    && i <= |ms|
    && current == Current(rec')
    && start <= current && (current > start ==> i > 0 && current <= ms[i - 1].version)
    && UpTo(ps, applied, Pending(ms[i..], start), env)
    && rec' == Added(rec, ps, applied)
    && log' == log + UpScripts(ps, applied)
  }

  lemma UpStarts(ms: seq<Migration>, env: int -> Fate, rec: set<int>, log: seq<Script>)
    ensures UpSoFar(ms, env, rec, log, 0, 0, Current(rec), rec, log)
  {
    assert ms[0..] == ms;
    assert log + [] == log;
  }

  lemma UpMoves(ms: seq<Migration>, env: int -> Fate, rec: set<int>, log: seq<Script>,
                i: nat, applied: nat, current: int, rec': set<int>, log': seq<Script>)
    requires Increasing(ms) && i < |ms|
    requires UpSoFar(ms, env, rec, log, i, applied, current, rec', log')
    ensures ms[i].version <= current || ms[i].up == "" ==>
              UpSoFar(ms, env, rec, log, i + 1, applied, current, rec', log')
    ensures ms[i].version > current && ms[i].up != "" && env(ms[i].version) == Works ==>
              UpSoFar(ms, env, rec, log, i + 1, applied + 1, ms[i].version, rec' + {ms[i].version}, log' + [Up(ms[i].version)])
    ensures ms[i].version > current && ms[i].up != "" && env(ms[i].version) != Works ==>
              UpDone(ms, env, rec, log, applied, false, rec',
                     log' + if env(ms[i].version) == RecordFails then [Up(ms[i].version)] else [])
  {
    var start := Current(rec);
    var ps, rest, v := Pending(ms, start), Pending(ms[i..], start), ms[i].version;
    assert ms[i..][1..] == ms[i + 1..];
    assert i > 0 ==> ms[i - 1].version < v;
    if v > current && ms[i].up != "" {
      NextIs(ps, applied, rest, env);
      CurrentOfNew(rec', v);
      assert rest[1..] == Pending(ms[i + 1..], start);
      assert (log + UpScripts(ps, applied)) + [Up(v)] == log + (UpScripts(ps, applied) + [Up(v)]);
      assert (log + UpScripts(ps, applied)) + [] == log + (UpScripts(ps, applied) + []);
    }
  }

  lemma UpEnds(ms: seq<Migration>, env: int -> Fate, rec: set<int>, log: seq<Script>,
               applied: nat, current: int, rec': set<int>, log': seq<Script>)
    requires UpSoFar(ms, env, rec, log, |ms|, applied, current, rec', log')
    ensures UpDone(ms, env, rec, log, applied, true, rec', log')
  {
    assert ms[|ms|..] == [];
    DoneIs(Pending(ms, Current(rec)), applied, env);
  }

  ghost predicate DownSoFar(ms: seq<Migration>, steps: int, env: int -> Fate, rec: set<int>, log: seq<Script>,
                            i: nat, rolledBack: nat, rec': set<int>, log': seq<Script>) {
    var desc, current := Reverse(ms), Current(rec);
    var ts := Targets(ms, rec, steps);
    && current != 0 && i <= |desc| && rolledBack <= |ts|
    && UpTo(Rollback(desc, current), rolledBack, Rollback(desc[i..], current), env)
    && rec' == Removed(rec, ts, rolledBack)
    && log' == log + DownScripts(ts, rolledBack)
  }

  lemma DownStarts(ms: seq<Migration>, steps: int, env: int -> Fate, rec: set<int>, log: seq<Script>)
    requires Current(rec) != 0
    ensures DownSoFar(ms, steps, env, rec, log, 0, 0, rec, log)
  {
    assert Reverse(ms)[0..] == Reverse(ms);
    assert log + [] == log;
  }

  /** A version that is too new or has no down script is passed over. */
  lemma DownSkips(ms: seq<Migration>, steps: int, env: int -> Fate, rec: set<int>, log: seq<Script>,
                  i: nat, rolledBack: nat, rec': set<int>, log': seq<Script>)
    requires i < |Reverse(ms)| && DownSoFar(ms, steps, env, rec, log, i, rolledBack, rec', log')
    requires Reverse(ms)[i].version > Current(rec) || Reverse(ms)[i].down == ""
    ensures DownSoFar(ms, steps, env, rec, log, i + 1, rolledBack, rec', log')
  {
    var desc := Reverse(ms);
    assert desc[i..][1..] == desc[i + 1..];
  }

  /** Enough steps: the run is done. */
  lemma DownStops(ms: seq<Migration>, steps: int, env: int -> Fate, rec: set<int>, log: seq<Script>,
                  i: nat, rolledBack: nat, rec': set<int>, log': seq<Script>)
    requires DownSoFar(ms, steps, env, rec, log, i, rolledBack, rec', log') && 0 < steps <= rolledBack
    ensures DownDone(ms, steps, env, rec, log, rolledBack, true, rec', log')
  {
    var ts := Targets(ms, rec, steps);
    assert rolledBack == |ts|;
    WorkingIs(ts, env, rolledBack);
    assert log' == log + (DownScripts(ts, rolledBack) + []);
  }

  /** The migration that is tried next is the next target. */
  lemma NextTarget(ms: seq<Migration>, steps: int, env: int -> Fate, rec: set<int>, i: nat, rolledBack: nat)
    requires i < |Reverse(ms)| && Current(rec) != 0
    requires UpTo(Rollback(Reverse(ms), Current(rec)), rolledBack, Rollback(Reverse(ms)[i..], Current(rec)), env)
    requires Reverse(ms)[i].version <= Current(rec) && !(0 < steps <= rolledBack) && Reverse(ms)[i].down != ""
    ensures var ts, v := Targets(ms, rec, steps), Reverse(ms)[i].version;
            && rolledBack < |ts| && ts[rolledBack] == Reverse(ms)[i]
            && (env(v) != Works ==> Working(ts, env) == rolledBack)
            && (env(v) == Works ==>
                  UpTo(Rollback(Reverse(ms), Current(rec)), rolledBack + 1, Rollback(Reverse(ms)[i + 1..], Current(rec)), env))
  {
    var desc, current := Reverse(ms), Current(rec);
    var rest, ts := Rollback(desc[i..], current), Targets(ms, rec, steps);
    assert desc[i..][1..] == desc[i + 1..];
    NextIs(Rollback(desc, current), rolledBack, rest, env);
    assert rest[1..] == Rollback(desc[i + 1..], current);
    WorkingIs(ts, env, rolledBack);
  }

  lemma Reassociate<T>(a: seq<T>, b: seq<T>, c: seq<T>)
    ensures (a + b) + c == a + (b + c)
  {
  }

  /** The next target is tried: it is done, or the run ends there. */
  lemma DownReverts(ms: seq<Migration>, steps: int, env: int -> Fate, rec: set<int>, log: seq<Script>,
                    i: nat, rolledBack: nat, rec': set<int>, log': seq<Script>)
    requires i < |Reverse(ms)| && DownSoFar(ms, steps, env, rec, log, i, rolledBack, rec', log')
    requires Reverse(ms)[i].version <= Current(rec) && !(0 < steps <= rolledBack) && Reverse(ms)[i].down != ""
    ensures var v := Reverse(ms)[i].version;
            if env(v) == Works
            then DownSoFar(ms, steps, env, rec, log, i + 1, rolledBack + 1, rec' - {v}, log' + [Down(v)])
            else DownDone(ms, steps, env, rec, log, rolledBack, false, rec', log' + if env(v) == RecordFails then [Down(v)] else [])
  {
    NextTarget(ms, steps, env, rec, i, rolledBack);
    var v := Reverse(ms)[i].version;
    var done := DownScripts(Targets(ms, rec, steps), rolledBack);
    Reassociate(log, done, [Down(v)]);
    Reassociate(log, done, []);
  }

  lemma DownEnds(ms: seq<Migration>, steps: int, env: int -> Fate, rec: set<int>, log: seq<Script>,
                 rolledBack: nat, rec': set<int>, log': seq<Script>)
    requires DownSoFar(ms, steps, env, rec, log, |Reverse(ms)|, rolledBack, rec', log')
    ensures DownDone(ms, steps, env, rec, log, rolledBack, true, rec', log')
  {
    var desc, ts := Reverse(ms), Targets(ms, rec, steps);
    assert desc[|desc|..] == [];
    assert rolledBack == |ts|;
    WorkingIs(ts, env, rolledBack);
    assert log' == log + (DownScripts(ts, rolledBack) + []);
  }

  /** The first `k` of `ps` have worked and `rest` is what is left. */
  ghost predicate UpTo(ps: seq<Migration>, k: nat, rest: seq<Migration>, env: int -> Fate) {
    k <= |ps| && ps[k..] == rest && forall j | 0 <= j < k :: env(ps[j].version) == Works
  }

  lemma NextIs(ps: seq<Migration>, k: nat, rest: seq<Migration>, env: int -> Fate)
    requires UpTo(ps, k, rest, env) && rest != []
    ensures k < |ps| && ps[k] == rest[0]
    ensures env(ps[k].version) != Works ==> Working(ps, env) == k
    ensures env(ps[k].version) == Works ==> UpTo(ps, k + 1, rest[1..], env)
  {
    WorkingIs(ps, env, k);
    assert ps[k] == ps[k..][0];
    assert ps[k..][1..] == ps[k + 1..];
  }

  lemma DoneIs(ps: seq<Migration>, k: nat, env: int -> Fate)
    requires UpTo(ps, k, [], env)
    ensures k == |ps| == Working(ps, env)
  {
    WorkingIs(ps, env, k);
  }

  lemma {:induction false} WorkingIs(ps: seq<Migration>, env: int -> Fate, k: nat)
    requires k <= |ps| && forall i | 0 <= i < k :: env(ps[i].version) == Works
    ensures Working(ps, env) >= k
    ensures k == |ps| || env(ps[k].version) != Works ==> Working(ps, env) == k
  {
  }

  lemma CurrentOfNew(recorded: set<int>, v: int)
    requires Current(recorded) < v
    ensures Current(recorded + {v}) == v
  {
  }
}

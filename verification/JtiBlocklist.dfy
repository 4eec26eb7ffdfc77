/** Revoked token identifiers in a scored set that is swept of expired entries, against a list that never forgets. */
module JtiBlocklist {
  import opened Prelude

  /** What has taken effect on the set: an identifier recorded with its expiry, or a sweep. */
  datatype Event = Added(jti: string, exp: int) | Swept(now: int)

  /** Redis's sorted set; sweeping takes out scores up to and including `now`. */
  type Scores = map<string, int>

  function Apply(z: Scores, e: Event): Scores {
    match e
    case Added(jti, exp) => z[jti := exp]
    case Swept(now) => map j | j in z && z[j] > now :: z[j]
  }

  function Replay(events: seq<Event>): Scores {
    if events == [] then map[] else Apply(Replay(events[..|events| - 1]), events[|events| - 1])
  }

  predicate Reported(z: Scores, jti: string) {
    jti != "" && jti in z && z[jti] > 0
  }

  // ----- The list that never forgets

  /** The expiry recorded last for an identifier. */
  function Latest(events: seq<Event>, jti: string): Option<int> {
    if events == [] then None
    else
      var last := events[|events| - 1];
      if last.Added? && last.jti == jti then Some(last.exp) else Latest(events[..|events| - 1], jti)
  }

  predicate ReportedForever(events: seq<Event>, jti: string) {
    jti != "" && Latest(events, jti).Some? && Latest(events, jti).value > 0
  }

  predicate Ever(events: seq<Event>, jti: string) {
    exists i | 0 <= i < |events| :: events[i].Added? && events[i].jti == jti
  }

  lemma {:induction false} LatestIffEver(events: seq<Event>, jti: string)
    ensures Latest(events, jti).Some? <==> Ever(events, jti)
  {
    if events != [] {
      var init := events[..|events| - 1];
      LatestIffEver(init, jti);
      if Ever(init, jti) {
        var i :| 0 <= i < |init| && init[i].Added? && init[i].jti == jti;
        assert events[i] == init[i];
      }
      if Ever(events, jti) {
        var i :| 0 <= i < |events| && events[i].Added? && events[i].jti == jti;
        assert i < |init| ==> init[i] == events[i];
      }
    }
  }

  // ----- Refinement

  /** Event `i` is the last record of the identifier. */
  predicate LastRecord(events: seq<Event>, jti: string, i: int) {
    && 0 <= i < |events|
    && events[i].Added? && events[i].jti == jti
    && forall k | i < k < |events| :: !(events[k].Added? && events[k].jti == jti)
  }

  /** A sweep at or after its expiry followed the last record of the identifier. */
  predicate Forgotten(events: seq<Event>, jti: string) {
    exists i, k | 0 <= i < k < |events| ::
      LastRecord(events, jti, i) && events[k].Swept? && events[k].now >= events[i].exp
  }

  /** The same, event by event. */
  function ForgottenSince(events: seq<Event>, jti: string): bool {
    if events == [] then false
    else
      var init, last := events[..|events| - 1], events[|events| - 1];
      match last
      case Added(j, _) => j != jti && ForgottenSince(init, jti)
      case Swept(now) => ForgottenSince(init, jti) || (Latest(init, jti).Some? && now >= Latest(init, jti).value)
  }

  lemma LastRecordSnoc(events: seq<Event>, jti: string, i: int)
    requires events != []
    ensures var init, last := events[..|events| - 1], events[|events| - 1];
            LastRecord(events, jti, i) <==>
              if last.Added? && last.jti == jti then i == |events| - 1 else LastRecord(init, jti, i)
  {
    var init := events[..|events| - 1];
    assert forall k | 0 <= k < |init| :: init[k] == events[k];
  }

  lemma {:induction false} LatestIsLastRecord(events: seq<Event>, jti: string, i: int)
    requires LastRecord(events, jti, i)
    ensures Latest(events, jti) == Some(events[i].exp)
  {
    LastRecordSnoc(events, jti, i);
    if i < |events| - 1 {
      LatestIsLastRecord(events[..|events| - 1], jti, i);
    }
  }

  lemma {:induction false} LastRecordExists(events: seq<Event>, jti: string) returns (i: int)
    requires Latest(events, jti).Some?
    ensures LastRecord(events, jti, i)
  {
    var last := events[|events| - 1];
    if last.Added? && last.jti == jti {
      i := |events| - 1;
    } else {
      i := LastRecordExists(events[..|events| - 1], jti);
      LastRecordSnoc(events, jti, i);
    }
  }

  lemma {:induction false} ForgottenByEvents(events: seq<Event>, jti: string)
    ensures ForgottenSince(events, jti) <==> Forgotten(events, jti)
  {
    if events != [] {
      var init, last := events[..|events| - 1], events[|events| - 1];
      ForgottenByEvents(init, jti);
      assert forall k | 0 <= k < |init| :: init[k] == events[k];
      if ForgottenSince(events, jti) {
        if ForgottenSince(init, jti) {
          var i, k :| 0 <= i < k < |init| && LastRecord(init, jti, i) && init[k].Swept? && init[k].now >= init[i].exp;
          LastRecordSnoc(events, jti, i);
          assert LastRecord(events, jti, i) && events[k].Swept? && events[k].now >= events[i].exp;
        } else {
          var i := LastRecordExists(init, jti);
          LatestIsLastRecord(init, jti, i);
          LastRecordSnoc(events, jti, i);
          assert LastRecord(events, jti, i) && events[|init|].Swept? && events[|init|].now >= events[i].exp;
        }
      }
      if Forgotten(events, jti) {
        var i, k :| 0 <= i < k < |events| && LastRecord(events, jti, i) && events[k].Swept? && events[k].now >= events[i].exp;
        LastRecordSnoc(events, jti, i);
        LatestIsLastRecord(init, jti, i);
        if k < |init| {
          assert LastRecord(init, jti, i) && init[k].Swept? && init[k].now >= init[i].exp;
        }
      }
    }
  }

  lemma {:induction false} ReplayByEvents(events: seq<Event>, jti: string)
    ensures var z := Replay(events);
            && (jti in z <==> Latest(events, jti).Some? && !ForgottenSince(events, jti))
            && (jti in z ==> Latest(events, jti) == Some(z[jti]))
  {
    if events != [] {
      ReplayByEvents(events[..|events| - 1], jti);
    }
  }

  /** The set holds exactly the identifiers not swept since their last record, each with that record's expiry. */
  lemma ReplayMeaning(events: seq<Event>, jti: string)
    ensures var z := Replay(events);
            && (jti in z <==> Ever(events, jti) && !Forgotten(events, jti))
            && (jti in z ==> Latest(events, jti) == Some(z[jti]))
  {
    ReplayByEvents(events, jti);
    ForgottenByEvents(events, jti);
    LatestIffEver(events, jti);
  }

  /** A token is reported iff it has a name, its last record has a positive expiry, and no sweep has forgotten it. */
  lemma ReportedIff(events: seq<Event>, jti: string)
    ensures Reported(Replay(events), jti) <==>
            jti != "" && Latest(events, jti).Some? && Latest(events, jti).value > 0 && !Forgotten(events, jti)
  {
    ReplayMeaning(events, jti);
    LatestIffEver(events, jti);
  }

  /** The two lists give the same answer if and only if the sweeps have not forgotten a token the other still reports. */
  lemma AgreesIff(events: seq<Event>, jti: string)
    ensures (Reported(Replay(events), jti) <==> ReportedForever(events, jti))
            <==> !(ReportedForever(events, jti) && Forgotten(events, jti))
  {
    ReplayMeaning(events, jti);
    LatestIffEver(events, jti);
  }

  /** The clock never ran back: sweep times rise and are all past. */
  predicate Clocked(events: seq<Event>, now: int) {
    && (forall i, k | 0 <= i < k < |events| && events[i].Swept? && events[k].Swept? :: events[i].now <= events[k].now)
    && (forall k | 0 <= k < |events| && events[k].Swept? :: events[k].now <= now)
  }

  /** Until its recorded expiry a token is reported exactly as if nothing were ever deleted. */
  lemma AgreesUntilExpiry(events: seq<Event>, jti: string, now: int)
    requires Clocked(events, now) && Latest(events, jti).Some? && Latest(events, jti).value > now
    ensures Reported(Replay(events), jti) <==> ReportedForever(events, jti)
  {
    AgreesIff(events, jti);
    forall i, k | 0 <= i < k < |events| && LastRecord(events, jti, i) && events[k].Swept?
      ensures events[k].now < events[i].exp
    {
      LatestIsLastRecord(events, jti, i);
    }
  }

  /** A token that was never revoked is never reported. */
  lemma NeverFalselyReported(events: seq<Event>, jti: string)
    requires !Ever(events, jti)
    ensures !Reported(Replay(events), jti)
  {
    ReplayMeaning(events, jti);
  }

  /** Revoking again with an earlier expiry replaces the record: the token is forgotten before its first expiry. */
  lemma EarlierExpiryForgetsEarly()
    ensures var events := [Added("a", 10), Added("a", 1), Swept(5)];
            !Reported(Replay(events), "a") && ReportedForever(events, "a")
  {
    var events := [Added("a", 10), Added("a", 1), Swept(5)];
    assert LastRecord(events, "a", 1);
    LatestIsLastRecord(events, "a", 1);
    assert Forgotten(events, "a") by {
      assert LastRecord(events, "a", 1) && events[2].Swept? && events[2].now >= events[1].exp;
    }
    AgreesIff(events, "a");
  }

  // ----- The blocklist

  function Records(jtis: seq<string>, exp: int): seq<Event> {
    seq(|jtis|, i requires 0 <= i < |jtis| => Added(jtis[i], exp))
  }

  lemma {:induction false} ReplayConcat(events: seq<Event>, more: seq<Event>, z: Scores)
    requires z == Replay(events)
    ensures Replay(events + more) == ApplyAll(z, more)
  {
    if more == [] {
      assert events + more == events;
    } else {
      ReplayConcat(events, more[..|more| - 1], z);
      assert (events + more)[..|events + more| - 1] == events + more[..|more| - 1];
    }
  }

  function ApplyAll(z: Scores, events: seq<Event>): Scores {
    if events == [] then z else Apply(ApplyAll(z, events[..|events| - 1]), events[|events| - 1])
  }

  class JTIBlocklist {
    const connected: bool // whether there is a Redis client
    var zset: Scores
    ghost var history: seq<Event>

    ghost predicate Valid()
      reads this
    {
      zset == Replay(history)
    }

    constructor (connected: bool)
      ensures Valid() && history == [] && this.connected == connected
    {
      this.connected := connected;
      zset := map[];
      history := [];
    }

    /** `applied`: the command took effect; `ok`: the reply arrived. */
    method Revoke(jti: string, exp: int, applied: bool, ok: bool) returns (err: bool)
      requires Valid() && (ok ==> applied)
      modifies this
      ensures Valid()
      ensures history == if connected && applied then old(history) + [Added(jti, exp)] else old(history)
      ensures err <==> connected && !ok
    {
      if !connected {
        return false;
      }
      if applied {
        zset := zset[jti := exp];
        history := history + [Added(jti, exp)];
      }
      err := !ok;
    }

    /** `applied` commands of the pipeline took effect; without an error all of them did. */
    method RevokeAll(jtis: seq<string>, exp: int, applied: nat, ok: bool) returns (err: bool)
      requires Valid() && applied <= |jtis| && (ok ==> applied == |jtis|)
      modifies this
      ensures Valid()
      ensures history == if connected then old(history) + Records(jtis, exp)[..applied] else old(history)
      ensures err <==> connected && jtis != [] && !ok
    {
      if !connected || |jtis| == 0 {
        assert |jtis| == 0 ==> Records(jtis, exp)[..applied] == [];
        return false;
      }
      var pipe: seq<Event> := [];
      for i := 0 to |jtis|
        invariant pipe == Records(jtis, exp)[..i]
      {
        pipe := pipe + [Added(jtis[i], exp)];
      }
      Exec(pipe[..applied]);
      assert pipe == Records(jtis, exp);
      err := !ok;
    }

    method Exec(commands: seq<Event>)
      requires Valid()
      modifies this
      ensures Valid() && history == old(history) + commands
    {
      ReplayConcat(history, commands, zset);
      zset := ApplyAll(zset, commands);
      history := history + commands;
    }

    /** Without a reply from Redis the token counts as revoked. */
    method IsRevoked(jti: string, ok: bool) returns (r: bool)
      requires Valid()
      ensures !connected || jti == "" ==> !r
      ensures connected && jti != "" && !ok ==> r
      ensures connected && ok ==> (r <==> Reported(Replay(history), jti))
    {
      if !connected || jti == "" {
        return false;
      }
      if !ok {
        return true;
      }
      if jti !in zset {
        return false;
      }
      return zset[jti] > 0;
    }

    method CleanupExpired(now: int, applied: bool, ok: bool) returns (err: bool)
      requires Valid() && (ok ==> applied)
      modifies this
      ensures Valid()
      ensures history == if connected && applied then old(history) + [Swept(now)] else old(history)
      ensures err <==> connected && !ok
    {
      if !connected {
        return false;
      }
      if applied {
        zset := map j | j in zset && zset[j] > now :: zset[j];
        history := history + [Swept(now)];
      }
      err := !ok;
    }
  }
}

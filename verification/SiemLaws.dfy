/** What the status of a batch tells of its attempts, and what starts, admits and ends a flush. */
module SiemLaws {
  import opened Prelude
  import opened SiemForwarder

  // ----- The attempts made for a batch

  /** One thing that happened to a batch after it was taken. */
  datatype Try = Unformatted | Failed | Succeeded

  function TryOf(s: State, a: Action, b: nat): seq<Try> {
    match a
    case FormatFails(who) => if BatchOf(s, who) == Some(b) then [Unformatted] else []
    case SendFails(who) => if BatchOf(s, who) == Some(b) then [Failed] else []
    case SendSucceeds(who) => if BatchOf(s, who) == Some(b) then [Succeeded] else []
    case _ => []
  }

  /** What the actions of a run give to batch `b`, in order. */
  function Tries(c: Config, s: State, acts: seq<Action>, b: nat): seq<Try>
    decreases acts
  {
    if acts == [] || !Enabled(c, s, acts[0]) then []
    else TryOf(s, acts[0], b) + Tries(c, Step(c, s, acts[0]), acts[1..], b)
  }

  predicate AllFailed(tries: seq<Try>) {
    forall i | 0 <= i < |tries| :: tries[i] == Failed
  }

  /** The status tells exactly what happened. */
  predicate Tells(max: nat, status: Status, tries: seq<Try>) {
    match status
    case Sending(n) => n == |tries| && AllFailed(tries)
    case Sent(n) => n == |tries| >= 1 && AllFailed(tries[..n - 1]) && tries[n - 1] == Succeeded
    case Dropped(n) => (n == 0 && tries == [Unformatted]) || (n == max == |tries| && AllFailed(tries))
  }

  /** The status that one more try gives to a batch still being sent. */
  function After(max: nat, status: Status, x: Try): Status {
    match x
    case Unformatted => Dropped(0)
    case Succeeded => Sent(status.attempts + 1)
    case Failed => if status.attempts + 1 >= max then Dropped(status.attempts + 1) else Sending(status.attempts + 1)
  }

  lemma TryTells(max: nat, n: nat, tries: seq<Try>, x: Try)
    requires n < max && Tells(max, Sending(n), tries) && (x.Unformatted? ==> n == 0)
    ensures Tells(max, After(max, Sending(n), x), tries + [x])
  {
    var now := tries + [x];
    assert now[..n] == tries && now[n] == x;
  }

  lemma TriedStatus(c: Config, s: State, a: Action, b: nat)
    requires Enabled(c, s, a) && TryOf(s, a, b) != []
    ensures InProgress(s, a.who) && BatchOf(s, a.who) == Some(b)
    ensures TryOf(s, a, b) == [TryOf(s, a, b)[0]]
    ensures TryOf(s, a, b)[0].Unformatted? ==> s.batches[b].status == Sending(0)
    ensures |Step(c, s, a).batches| == |s.batches|
    ensures Step(c, s, a).batches[b].status == After(c.maxRetries, s.batches[b].status, TryOf(s, a, b)[0])
  {
  }

  lemma UntriedStatus(c: Config, s: State, a: Action, b: nat)
    requires Enabled(c, s, a) && TryOf(s, a, b) == []
    ensures |s.batches| <= |Step(c, s, a).batches|
    ensures b < |s.batches| ==> Step(c, s, a).batches[b].status == s.batches[b].status
    ensures |s.batches| <= b < |Step(c, s, a).batches| ==> Step(c, s, a).batches[b].status == Sending(0)
  {
  }

  lemma StepTells(c: Config, s: State, a: Action, b: nat, tries: seq<Try>)
    requires Enabled(c, s, a) && Bounded(c, s) && c.maxRetries >= 1
    requires if b < |s.batches| then Tells(c.maxRetries, s.batches[b].status, tries) else tries == []
    ensures var t, now := Step(c, s, a), tries + TryOf(s, a, b);
            if b < |t.batches| then Tells(c.maxRetries, t.batches[b].status, now) else now == []
  {
    if TryOf(s, a, b) == [] {
      UntriedStatus(c, s, a, b);
      assert tries + [] == tries;
    } else {
      TriedStatus(c, s, a, b);
      assert Fine(c, s.batches[b].status);
      TryTells(c.maxRetries, s.batches[b].status.attempts, tries, TryOf(s, a, b)[0]);
    }
  }

  lemma Associative(a: seq<Try>, b: seq<Try>, c: seq<Try>)
    ensures (a + b) + c == a + (b + c)
  {
  }

  lemma {:induction false} RunTells(c: Config, s: State, acts: seq<Action>, b: nat, tries: seq<Try>)
    requires Run(c, s, acts).Some? && Inv(c, s)
    requires if b < |s.batches| then Tells(c.maxRetries, s.batches[b].status, tries) else tries == []
    ensures var t, now := Run(c, s, acts).value, tries + Tries(c, s, acts, b);
            if b < |t.batches| then Tells(c.maxRetries, t.batches[b].status, now) else now == []
    decreases acts
  {
    if acts == [] {
      assert tries + [] == tries;
    } else {
      var t := Step(c, s, acts[0]);
      StepTells(c, s, acts[0], b, tries);
      StepKeepsInv(c, s, acts[0]);
      RunTells(c, t, acts[1..], b, tries + TryOf(s, acts[0], b));
      Associative(tries, TryOf(s, acts[0], b), Tries(c, t, acts[1..], b));
    }
  }

  lemma StatusTells(c: Config, acts: seq<Action>, b: nat, s: State)
    requires c.maxRetries >= 1 && Run(c, Init(), acts) == Some(s) && b < |s.batches|
    ensures Tells(c.maxRetries, s.batches[b].status, Tries(c, Init(), acts, b))
  {
    RunTells(c, Init(), acts, b, []);
    assert [] + Tries(c, Init(), acts, b) == Tries(c, Init(), acts, b);
  }

  lemma TellsIff(max: nat, status: Status, tries: seq<Try>, n: nat)
    requires max >= 1 && Tells(max, status, tries) && (status.Sending? ==> status.attempts < max)
    ensures status == Sent(n) <==> |tries| == n >= 1 && AllFailed(tries[..n - 1]) && tries[n - 1] == Succeeded
    ensures status == Dropped(0) <==> tries == [Unformatted]
    ensures status == Dropped(max) <==> |tries| == max && AllFailed(tries)
    ensures status == Sending(n) <==> |tries| == n < max && AllFailed(tries)
  {
    if tries != [] {
      assert tries == [Unformatted] ==> tries[0] == Unformatted;
      assert status.Sent? ==> tries[|tries| - 1] == Succeeded;
      assert AllFailed(tries) ==> tries[0] == Failed && tries[|tries| - 1] == Failed;
    }
    if status == Dropped(0) && tries == [Unformatted] {
      assert tries[0] != Failed;
    }
  }

  /**
   For every run and every batch: sent at attempt n iff n - 1 attempts failed and then one succeeded; dropped at once
   iff it could not be formatted; dropped after MaxRetries attempts iff all of them failed.
   */
  lemma StatusIff(c: Config, acts: seq<Action>, b: nat, s: State, n: nat)
    requires c.maxRetries >= 1 && Run(c, Init(), acts) == Some(s) && b < |s.batches|
    ensures var tries := Tries(c, Init(), acts, b);
            var status := s.batches[b].status;
            && (status == Sent(n) <==> |tries| == n >= 1 && AllFailed(tries[..n - 1]) && tries[n - 1] == Succeeded)
            && (status == Dropped(0) <==> tries == [Unformatted])
            && (status == Dropped(c.maxRetries) <==> |tries| == c.maxRetries && AllFailed(tries))
            && (status == Sending(n) <==> |tries| == n < c.maxRetries && AllFailed(tries))
  {
    StatusTells(c, acts, b, s);
    RunKeepsInv(c, Init(), acts);
    assert Fine(c, s.batches[b].status);
    TellsIff(c.maxRetries, s.batches[b].status, Tries(c, Init(), acts, b), n);
  }

  lemma ToldIsDelivered(max: nat, status: Status, tries: seq<Try>, formatted: bool, succeeds: nat -> bool)
    requires Tells(max, status, tries) && Unformatted !in tries && !status.Sending? && 1 <= status.attempts <= max
    requires formatted && forall k: nat :: succeeds(k) == (k < |tries| && tries[k] == Succeeded)
    ensures Delivered(max, formatted, succeeds, status)
  {
    match status
    case Sent(n) =>
      assert succeeds(n - 1);
      forall k: nat | k < n - 1
        ensures !succeeds(k)
      {
        assert tries[..n - 1][k] == tries[k];
      }
    case Dropped(n) =>
  }

  /** A settled batch has the status that the delivery loop returns on what happened to it. */
  lemma SettledAsDelivered(c: Config, acts: seq<Action>, b: nat, s: State, formatted: bool, succeeds: nat -> bool)
    requires c.maxRetries >= 1 && Run(c, Init(), acts) == Some(s) && b < |s.batches| && !s.batches[b].status.Sending?
    requires var tries := Tries(c, Init(), acts, b);
             && formatted == (Unformatted !in tries)
             && forall k: nat :: succeeds(k) == (k < |tries| && tries[k] == Succeeded)
    ensures Delivered(c.maxRetries, formatted, succeeds, s.batches[b].status)
  {
    var tries, status := Tries(c, Init(), acts, b), s.batches[b].status;
    StatusTells(c, acts, b, s);
    RunKeepsInv(c, Init(), acts);
    assert Fine(c, status);
    if tries == [Unformatted] {
      assert Unformatted in tries;
    } else {
      SettledIsFormatted(c.maxRetries, status, tries);
      ToldIsDelivered(c.maxRetries, status, tries, formatted, succeeds);
    }
  }

  lemma SettledIsFormatted(max: nat, status: Status, tries: seq<Try>)
    requires max >= 1 && Tells(max, status, tries) && tries != [Unformatted]
    ensures Unformatted !in tries && (status.Dropped? ==> status.attempts == max)
  {
    match status
    case Sending(_) =>
    case Sent(n) =>
      forall k | 0 <= k < |tries|
        ensures tries[k] != Unformatted
      {
        assert k < n - 1 ==> tries[..n - 1][k] == tries[k];
      }
    case Dropped(_) =>
  }

  // ----- What starts, admits and ends a flush

  /** Forward starts a flush, last in line, iff the buffer has reached the batch size. */
  lemma ForwardTriggers(c: Config, s: State, e: Event)
    ensures var t := Step(c, s, Forward(e));
            && t.buffer == s.buffer + [e]
            && (if |t.buffer| >= c.batchSize then t.tasks == s.tasks + [Spawned] else t.tasks == s.tasks)
            && t.batches == s.batches && t.loop == s.loop && t.semaphore == s.semaphore
  {
  }

  /** In every reachable state a triggered flush is admitted iff no other one is past the semaphore, else it ends. */
  lemma AdmittedIff(c: Config, acts: seq<Action>, s: State, k: nat)
    requires c.maxRetries >= 1 && Run(c, Init(), acts) == Some(s) && Enabled(c, s, TryAcquire(k))
    ensures var t := Step(c, s, TryAcquire(k)).tasks[k];
            && (t.Acquired? <==> forall j | 0 <= j < |s.tasks| :: !Holds(s.tasks[j]))
            && (!t.Acquired? ==> t.Ended?)
  {
    RunKeepsInv(c, Init(), acts);
  }

  /** An admitted flush, and the timer, take the whole buffer as one batch, or nothing of an empty one. */
  lemma FlushTakesAll(c: Config, s: State, a: Action)
    requires Enabled(c, s, a) && (a.Swap? || a.Tick?)
    ensures var t := Step(c, s, a);
            && t.buffer == [] && t.forwarded == s.forwarded
            && t.batches == s.batches + (if s.buffer == [] then [] else [Batch(s.buffer, Sending(0))])
            && (a.Swap? && s.buffer == [] ==> t.tasks[a.task].Ended? && !t.semaphore)
            && (s.buffer != [] ==> BatchOf(t, if a.Swap? then Some(a.task) else None) == Some(|s.batches|))
  {
  }

  predicate Closing(loop: Loop) {
    loop.Stopped? || (loop.Busy? && loop.last)
  }

  /** After the last flush of the timer loop there is no other. */
  lemma {:induction false} LastTickIsLast(c: Config, s: State, acts: seq<Action>, i: nat)
    requires Run(c, s, acts).Some? && Closing(s.loop) && i < |acts|
    ensures !acts[i].Tick?
    decreases acts
  {
    if i > 0 {
      LastTickIsLast(c, Step(c, s, acts[0]), acts[1..], i - 1);
    }
  }

  /** The loop goes on after any other flush, and stops after the last one. */
  lemma LoopAfterTick(c: Config, s: State, last: bool)
    requires Enabled(c, s, Tick(last))
    ensures Closing(Step(c, s, Tick(last)).loop) <==> last
    ensures s.buffer == [] && !last ==> Step(c, s, Tick(last)).loop.Waiting?
  {
  }

  lemma LoopAfterSettling(c: Config, s: State, a: Action)
    requires Enabled(c, s, a) && (a == FormatFails(None) || a == SendSucceeds(None))
    ensures Step(c, s, a).loop == if s.loop.last then Stopped else Waiting
  {
  }

  /** A triggered flush that is done frees the semaphore. */
  lemma SettlingFreesSemaphore(c: Config, s: State, a: Action, k: nat)
    requires Enabled(c, s, a) && (a == FormatFails(Some(k)) || a == SendSucceeds(Some(k)))
    ensures !Step(c, s, a).semaphore && Step(c, s, a).tasks[k].Ended?
  {
  }
}

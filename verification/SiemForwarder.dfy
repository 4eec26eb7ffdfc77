/**
 The SIEM forwarder: events are appended to a buffer, whole buffers are taken as batches by the
 timer loop or by a flush that a full buffer triggers, and each batch is sent with retries. Each
 critical section and each send attempt is one atomic step; a run is any interleaving.
 */
module SiemForwarder {
  import opened Prelude

  type Event = string

  /** What has happened to a batch; the number counts send attempts. */
  datatype Status = Sending(attempts: nat) | Sent(attempts: nat) | Dropped(attempts: nat)

  /** Not formatted, sent at the first successful attempt, or dropped after all of them failed. */
  ghost predicate Delivered(maxRetries: nat, formatted: bool, succeeds: nat -> bool, status: Status) {
    if !formatted then status == Dropped(0)
    else if exists k: nat :: k < maxRetries && succeeds(k) then
      && status.Sent? && 1 <= status.attempts <= maxRetries && succeeds(status.attempts - 1)
      && forall k: nat | k < status.attempts - 1 :: !succeeds(k)
    else status == Dropped(maxRetries)
  }

  /** That determines the status. */
  lemma DeliveredUnique(maxRetries: nat, formatted: bool, succeeds: nat -> bool, a: Status, b: Status)
    requires Delivered(maxRetries, formatted, succeeds, a) && Delivered(maxRetries, formatted, succeeds, b)
    ensures a == b
  {
    if formatted && a.Sent? && b.Sent? {
      assert !(a.attempts < b.attempts) && !(b.attempts < a.attempts);
    }
  }

  // ----- The object

  datatype Config = Config(batchSize: nat, maxRetries: nat)

  class Forwarder {
    const batchSize: nat
    const maxRetries: nat
    var buffer: seq<Event>

    constructor (batchSize: int, maxRetries: int)
      ensures buffer == []
      ensures this.batchSize == (if batchSize <= 0 then 100 else batchSize) >= 1
      ensures this.maxRetries == (if maxRetries <= 0 then 3 else maxRetries) >= 1
    {
      this.batchSize := if batchSize <= 0 then 100 else batchSize;
      this.maxRetries := if maxRetries <= 0 then 3 else maxRetries;
      buffer := [];
    }

    /** The critical section of Forward; the result says whether a flush is to be started. */
    method Append(event: Event) returns (shouldFlush: bool)
      modifies this
      ensures buffer == old(buffer) + [event]
      ensures shouldFlush <==> |buffer| >= batchSize
    {
      buffer := buffer + [event];
      shouldFlush := |buffer| >= batchSize;
    }

    /** The critical section of flush: take the whole buffer and leave an empty one. */
    method TakeBatch() returns (batch: seq<Event>)
      modifies this
      ensures batch + buffer == old(buffer) && buffer == []
    {
      batch := buffer;
      buffer := [];
    }

    /** The rest of flush, given whether formatting and each attempt succeed. */
    method Deliver(formatted: bool, succeeds: nat -> bool) returns (status: Status)
      ensures Delivered(maxRetries, formatted, succeeds, status)
    {
      if !formatted {
        return Dropped(0);
      }
      var attempt: nat := 0;
      while attempt < maxRetries
        invariant attempt <= maxRetries
        invariant forall k: nat | k < attempt :: !succeeds(k)
      {
        if succeeds(attempt) {
          return Sent(attempt + 1);
        }
        attempt := attempt + 1;
      }
      return Dropped(maxRetries);
    }
  }

  // ----- The system

  datatype Batch = Batch(events: seq<Event>, status: Status)

  /** A flush started by a full buffer, or the timer loop. */
  datatype Task =
    | Spawned            // a triggered flush before it tries the semaphore
    | Acquired           // a triggered flush that holds the semaphore
    | Flushing(batch: nat)
    | Ended

  datatype Loop = Waiting | Busy(batch: nat, last: bool) | Stopped

  datatype State = State(
    buffer: seq<Event>,
    forwarded: seq<Event>,
    batches: seq<Batch>,
    semaphore: bool,
    tasks: seq<Task>,
    loop: Loop)

  /** `who` is the index of a triggered flush, or nothing for the timer loop. */
  datatype Action =
    | Forward(event: Event)
    | TryAcquire(task: nat)
    | Swap(task: nat)
    | Tick(last: bool)
    | FormatFails(who: Option<nat>)
    | SendSucceeds(who: Option<nat>)
    | SendFails(who: Option<nat>)

  function Init(): State {
    State([], [], [], false, [], Waiting)
  }

  /** The batch that a task or the loop is busy with. */
  function BatchOf(s: State, who: Option<nat>): Option<nat> {
    match who
    case None => if s.loop.Busy? then Some(s.loop.batch) else None
    case Some(t) => if t < |s.tasks| && s.tasks[t].Flushing? then Some(s.tasks[t].batch) else None
  }

  predicate Enabled(c: Config, s: State, a: Action) {
    match a
    case Forward(_) => true
    case TryAcquire(t) => t < |s.tasks| && s.tasks[t].Spawned?
    case Swap(t) => t < |s.tasks| && s.tasks[t].Acquired?
    case Tick(_) => s.loop.Waiting?
    case FormatFails(who) => InProgress(s, who) && s.batches[BatchOf(s, who).value].status == Sending(0)
    case SendSucceeds(who) => InProgress(s, who)
    case SendFails(who) => InProgress(s, who)
  }

  predicate InProgress(s: State, who: Option<nat>) {
    BatchOf(s, who).Some? && BatchOf(s, who).value < |s.batches| && s.batches[BatchOf(s, who).value].status.Sending?
  }

  /** The batch reaches a final status and its sender is done; a triggered flush frees the semaphore. */
  function Settle(s: State, who: Option<nat>, status: Status): State
    requires InProgress(s, who)
  {
    var b := BatchOf(s, who).value;
    var t := s.(batches := s.batches[b := s.batches[b].(status := status)]);
    match who
    case None => t.(loop := if s.loop.last then Stopped else Waiting)
    case Some(i) => t.(tasks := s.tasks[i := Ended], semaphore := false)
  }

  function Step(c: Config, s: State, a: Action): State
    requires Enabled(c, s, a)
  {
    match a
    case Forward(e) =>
      s.(buffer := s.buffer + [e],
         forwarded := s.forwarded + [e],
         tasks := s.tasks + if |s.buffer| + 1 >= c.batchSize then [Spawned] else [])
    case TryAcquire(t) =>
      if s.semaphore then s.(tasks := s.tasks[t := Ended])
      else s.(tasks := s.tasks[t := Acquired], semaphore := true)
    case Swap(t) =>
      if s.buffer == [] then s.(tasks := s.tasks[t := Ended], semaphore := false)
      else s.(batches := s.batches + [Batch(s.buffer, Sending(0))], buffer := [],
              tasks := s.tasks[t := Flushing(|s.batches|)])
    case Tick(last) =>
      if s.buffer == [] then s.(loop := if last then Stopped else Waiting)
      else s.(batches := s.batches + [Batch(s.buffer, Sending(0))], buffer := [],
              loop := Busy(|s.batches|, last))
    case FormatFails(who) => Settle(s, who, Dropped(0))
    case SendSucceeds(who) => Settle(s, who, Sent(s.batches[BatchOf(s, who).value].status.attempts + 1))
    case SendFails(who) =>
      var b := BatchOf(s, who).value;
      var n := s.batches[b].status.attempts + 1;
      if n >= c.maxRetries then Settle(s, who, Dropped(n))
      else s.(batches := s.batches[b := s.batches[b].(status := Sending(n))])
  }

  function Run(c: Config, s: State, acts: seq<Action>): Option<State>
    decreases acts
  {
    if acts == [] then Some(s)
    else if !Enabled(c, s, acts[0]) then None
    else Run(c, Step(c, s, acts[0]), acts[1..])
  }

  // ----- The invariant

  function Events(bs: seq<Batch>): seq<Event> {
    if bs == [] then [] else Events(bs[..|bs| - 1]) + bs[|bs| - 1].events
  }

  /** Batches in the order they were taken, then the buffer, are exactly what was forwarded. */
  predicate Conserved(s: State) {
    Events(s.batches) + s.buffer == s.forwarded
  }

  predicate Holds(t: Task) {
    t.Acquired? || t.Flushing?
  }

  /** The semaphore is held by exactly one triggered flush. */
  ghost predicate OneTriggered(s: State) {
    && (s.semaphore <==> exists t | 0 <= t < |s.tasks| :: Holds(s.tasks[t]))
    && forall i, j | 0 <= i < |s.tasks| && 0 <= j < |s.tasks| && Holds(s.tasks[i]) && Holds(s.tasks[j]) :: i == j
  }

  /** Triggered flush `k` is sending batch `b`. */
  predicate Sender(s: State, k: int, b: nat) {
    0 <= k < |s.tasks| && s.tasks[k] == Flushing(b)
  }

  /** Somebody is sending batch `b`. */
  ghost predicate HasSender(s: State, b: nat) {
    (s.loop.Busy? && s.loop.batch == b) || exists k :: Sender(s, k, b)
  }

  /** Every batch still being sent has exactly one sender, and every sender such a batch. */
  ghost predicate Owned(s: State) {
    && (forall t | 0 <= t < |s.tasks| && s.tasks[t].Flushing? ::
          s.tasks[t].batch < |s.batches| && s.batches[s.tasks[t].batch].status.Sending?)
    && (s.loop.Busy? ==> s.loop.batch < |s.batches| && s.batches[s.loop.batch].status.Sending?)
    && (forall t | 0 <= t < |s.tasks| && s.tasks[t].Flushing? && s.loop.Busy? :: s.tasks[t].batch != s.loop.batch)
    && (forall b | 0 <= b < |s.batches| && s.batches[b].status.Sending? :: HasSender(s, b))
  }

  /** Attempts within the limit; a dropped batch could not be formatted or used them all. */
  predicate Fine(c: Config, status: Status) {
    match status
    case Sending(n) => n < c.maxRetries
    case Sent(n) => 1 <= n <= c.maxRetries
    case Dropped(n) => n == 0 || n == c.maxRetries
  }

  ghost predicate Bounded(c: Config, s: State) {
    forall b | 0 <= b < |s.batches| :: Fine(c, s.batches[b].status)
  }

  ghost predicate Inv(c: Config, s: State) {
    c.maxRetries >= 1 && Conserved(s) && OneTriggered(s) && Owned(s) && Bounded(c, s)
  }

  lemma {:induction false} EventsKeep(bs: seq<Batch>, b: nat, status: Status)
    requires b < |bs|
    ensures Events(bs[b := bs[b].(status := status)]) == Events(bs)
  {
    var cs, n := bs[b := bs[b].(status := status)], |bs| - 1;
    if b < n {
      EventsKeep(bs[..n], b, status);
      assert cs[..n] == bs[..n][b := bs[..n][b].(status := status)];
    } else {
      assert cs[..n] == bs[..n];
    }
  }

  lemma StepConserves(c: Config, s: State, a: Action)
    requires Enabled(c, s, a) && Conserved(s)
    ensures Conserved(Step(c, s, a))
  {
    match a
    case Forward(e) =>
      assert Events(s.batches) + (s.buffer + [e]) == (Events(s.batches) + s.buffer) + [e];
    case TryAcquire(_) =>
    case Swap(_) => TakenConserves(s);
    case Tick(_) => TakenConserves(s);
    case FormatFails(who) => EventsKeep(s.batches, BatchOf(s, who).value, Dropped(0));
    case SendSucceeds(who) =>
      var b := BatchOf(s, who).value;
      EventsKeep(s.batches, b, Sent(s.batches[b].status.attempts + 1));
    case SendFails(who) =>
      var b := BatchOf(s, who).value;
      var n := s.batches[b].status.attempts + 1;
      EventsKeep(s.batches, b, if n >= c.maxRetries then Dropped(n) else Sending(n));
  }

  lemma TakenConserves(s: State)
    ensures Events(s.batches + [Batch(s.buffer, Sending(0))]) + [] == Events(s.batches) + s.buffer
  {
    var bs := s.batches + [Batch(s.buffer, Sending(0))];
    assert bs[..|bs| - 1] == s.batches;
  }

  lemma SettleKeepsTriggered(s: State, who: Option<nat>, status: Status)
    requires OneTriggered(s) && InProgress(s, who)
    ensures OneTriggered(Settle(s, who, status))
  {
    var t := Settle(s, who, status);
    if t.semaphore {
      var k :| 0 <= k < |s.tasks| && Holds(s.tasks[k]);
      assert Holds(t.tasks[k]);
    }
  }

  lemma StepKeepsTriggered(c: Config, s: State, a: Action)
    requires Enabled(c, s, a) && OneTriggered(s)
    ensures OneTriggered(Step(c, s, a))
  {
    var t := Step(c, s, a);
    match a
    case FormatFails(who) => SettleKeepsTriggered(s, who, Dropped(0));
    case SendSucceeds(who) => SettleKeepsTriggered(s, who, Sent(s.batches[BatchOf(s, who).value].status.attempts + 1));
    case SendFails(who) => SettleKeepsTriggered(s, who, Dropped(s.batches[BatchOf(s, who).value].status.attempts + 1));
    case TryAcquire(k) =>
      if !s.semaphore {
        assert Holds(t.tasks[k]);
      } else {
        var k' :| 0 <= k' < |s.tasks| && Holds(s.tasks[k']);
        assert Holds(t.tasks[k']);
      }
    case Swap(k) => assert |s.buffer| > 0 ==> Holds(t.tasks[k]);
    case Tick(_) =>
    case Forward(_) =>
      if t.semaphore {
        var k :| 0 <= k < |s.tasks| && Holds(s.tasks[k]);
        assert Holds(t.tasks[k]);
      }
  }

  lemma SettleKeepsBounds(c: Config, s: State, who: Option<nat>, status: Status)
    requires Bounded(c, s) && InProgress(s, who) && Fine(c, status)
    ensures Bounded(c, Settle(s, who, status))
  {
    var b := BatchOf(s, who).value;
    assert Settle(s, who, status).batches == s.batches[b := s.batches[b].(status := status)];
  }

  lemma StepKeepsBounds(c: Config, s: State, a: Action)
    requires Enabled(c, s, a) && Inv(c, s)
    ensures Bounded(c, Step(c, s, a))
  {
    match a
    case FormatFails(who) => SettleKeepsBounds(c, s, who, Dropped(0));
    case SendSucceeds(who) =>
      var n := s.batches[BatchOf(s, who).value].status.attempts;
      assert Fine(c, Sending(n));
      SettleKeepsBounds(c, s, who, Sent(n + 1));
    case SendFails(who) =>
      var n := s.batches[BatchOf(s, who).value].status.attempts;
      assert Fine(c, Sending(n));
      if n + 1 >= c.maxRetries {
        SettleKeepsBounds(c, s, who, Dropped(n + 1));
      }
    case _ =>
  }

  /** A sender that is not `who` is busy with another batch. */
  lemma OthersDiffer(c: Config, s: State, who: Option<nat>, other: Option<nat>)
    requires Inv(c, s) && who != other && BatchOf(s, who).Some? && BatchOf(s, other).Some?
    ensures BatchOf(s, who) != BatchOf(s, other)
  {
  }

  lemma SettleKeepsOwners(c: Config, s: State, who: Option<nat>, status: Status)
    requires Inv(c, s) && InProgress(s, who) && !status.Sending?
    ensures Owned(Settle(s, who, status))
  {
    var b, t := BatchOf(s, who).value, Settle(s, who, status);
    forall k | 0 <= k < |t.tasks| && t.tasks[k].Flushing?
      ensures t.tasks[k].batch < |t.batches| && t.batches[t.tasks[k].batch].status.Sending?
    {
      OthersDiffer(c, s, who, Some(k));
    }
    if t.loop.Busy? {
      OthersDiffer(c, s, who, None);
    }
    forall d | 0 <= d < |t.batches| && t.batches[d].status.Sending?
      ensures HasSender(t, d)
    {
      assert HasSender(s, d);
      if !(s.loop.Busy? && s.loop.batch == d) {
        var k :| Sender(s, k, d);
        assert Sender(t, k, d);
      }
    }
  }

  lemma TakeKeepsOwners(c: Config, s: State, a: Action)
    requires Inv(c, s) && Enabled(c, s, a) && (a.Swap? || a.Tick?)
    ensures Owned(Step(c, s, a))
  {
    var t := Step(c, s, a);
    forall d | 0 <= d < |t.batches| && t.batches[d].status.Sending?
      ensures HasSender(t, d)
    {
      if d == |s.batches| {
        assert a.Swap? ==> Sender(t, a.task, d);
      } else {
        assert HasSender(s, d);
        if !(s.loop.Busy? && s.loop.batch == d) {
          var k :| Sender(s, k, d);
          assert Sender(t, k, d);
        }
      }
    }
  }

  /** The same senders are busy with the same batches, and no batch has been settled. */
  ghost predicate SameSenders(s: State, t: State) {
    && s.loop == t.loop && |s.batches| == |t.batches|
    && (forall b | 0 <= b < |s.batches| :: s.batches[b].status.Sending? <==> t.batches[b].status.Sending?)
    && (forall k, b: nat :: Sender(s, k, b) <==> Sender(t, k, b))
  }

  lemma SameSendersKeepOwners(s: State, t: State)
    requires Owned(s) && SameSenders(s, t)
    ensures Owned(t)
  {
    forall k | 0 <= k < |t.tasks| && t.tasks[k].Flushing?
      ensures k < |s.tasks| && s.tasks[k] == t.tasks[k]
    {
      assert Sender(t, k, t.tasks[k].batch);
      assert Sender(s, k, t.tasks[k].batch);
    }
    forall b | 0 <= b < |t.batches| && t.batches[b].status.Sending?
      ensures HasSender(t, b)
    {
      assert HasSender(s, b);
      if !(s.loop.Busy? && s.loop.batch == b) {
        var k :| Sender(s, k, b);
        assert Sender(t, k, b);
      }
    }
  }

  lemma OtherStepsKeepOwners(c: Config, s: State, a: Action)
    requires Inv(c, s) && Enabled(c, s, a)
    requires a.Forward? || a.TryAcquire? || (a.SendFails? && s.batches[BatchOf(s, a.who).value].status.attempts + 1 < c.maxRetries)
    ensures Owned(Step(c, s, a))
  {
    var t := Step(c, s, a);
    assert SameSenders(s, t);
    SameSendersKeepOwners(s, t);
  }

  lemma SendFailsKeepsOwners(c: Config, s: State, who: Option<nat>)
    requires Inv(c, s) && Enabled(c, s, SendFails(who))
    ensures Owned(Step(c, s, SendFails(who)))
  {
    var n := s.batches[BatchOf(s, who).value].status.attempts + 1;
    if n >= c.maxRetries {
      SettleKeepsOwners(c, s, who, Dropped(n));
    } else {
      OtherStepsKeepOwners(c, s, SendFails(who));
    }
  }

  lemma StepKeepsOwners(c: Config, s: State, a: Action)
    requires Inv(c, s) && Enabled(c, s, a)
    ensures Owned(Step(c, s, a))
  {
    match a
    case Swap(_) => TakeKeepsOwners(c, s, a);
    case Tick(_) => TakeKeepsOwners(c, s, a);
    case FormatFails(who) => SettleKeepsOwners(c, s, who, Dropped(0));
    case SendSucceeds(who) => SettleKeepsOwners(c, s, who, Sent(s.batches[BatchOf(s, who).value].status.attempts + 1));
    case SendFails(who) => SendFailsKeepsOwners(c, s, who);
    case _ => OtherStepsKeepOwners(c, s, a);
  }

  lemma StepKeepsInv(c: Config, s: State, a: Action)
    requires Inv(c, s) && Enabled(c, s, a)
    ensures Inv(c, Step(c, s, a))
  {
    StepConserves(c, s, a);
    StepKeepsTriggered(c, s, a);
    StepKeepsBounds(c, s, a);
    StepKeepsOwners(c, s, a);
  }

  lemma {:induction false} RunKeepsInv(c: Config, s: State, acts: seq<Action>)
    requires Inv(c, s) && Run(c, s, acts).Some?
    ensures Inv(c, Run(c, s, acts).value)
    decreases acts
  {
    if acts != [] {
      StepKeepsInv(c, s, acts[0]);
      RunKeepsInv(c, Step(c, s, acts[0]), acts[1..]);
    }
  }

  // ----- Results for every run

  /** No event is lost, duplicated or reordered on its way into the batches. */
  lemma NothingLost(c: Config, acts: seq<Action>)
    requires c.maxRetries >= 1 && Run(c, Init(), acts).Some?
    ensures var s := Run(c, Init(), acts).value; Events(s.batches) + s.buffer == s.forwarded
  {
    RunKeepsInv(c, Init(), acts);
  }

  /** At most one flush that a full buffer triggered is past the semaphore. */
  lemma OneTriggeredFlush(c: Config, acts: seq<Action>, i: nat, j: nat)
    requires c.maxRetries >= 1 && Run(c, Init(), acts).Some?
    requires var s := Run(c, Init(), acts).value;
             i < |s.tasks| && j < |s.tasks| && Holds(s.tasks[i]) && Holds(s.tasks[j])
    ensures i == j
  {
    RunKeepsInv(c, Init(), acts);
  }

  /** Attempts stay within the limit; a dropped batch could not be formatted or used them all. */
  lemma AttemptsBounded(c: Config, acts: seq<Action>, b: nat)
    requires c.maxRetries >= 1 && Run(c, Init(), acts).Some? && b < |Run(c, Init(), acts).value.batches|
    ensures match Run(c, Init(), acts).value.batches[b].status
            case Sending(n) => n < c.maxRetries
            case Sent(n) => 1 <= n <= c.maxRetries
            case Dropped(n) => n == 0 || n == c.maxRetries
  {
    RunKeepsInv(c, Init(), acts);
  }

  /** Whatever happens later, a batch keeps its events and a final status stays final. */
  lemma {:induction false} FinalStays(c: Config, s: State, acts: seq<Action>, b: nat)
    requires Run(c, s, acts).Some? && b < |s.batches|
    ensures var t := Run(c, s, acts).value;
            && b < |t.batches| && t.batches[b].events == s.batches[b].events
            && (!s.batches[b].status.Sending? ==> t.batches[b] == s.batches[b])
    decreases acts
  {
    if acts != [] {
      FinalStays(c, Step(c, s, acts[0]), acts[1..], b);
    }
  }

  /** When no flush is running and the buffer is empty, every forwarded event is in a sent or dropped batch. */
  lemma AllSettled(c: Config, acts: seq<Action>)
    requires c.maxRetries >= 1 && Run(c, Init(), acts).Some?
    requires var s := Run(c, Init(), acts).value;
             && s.buffer == [] && !s.loop.Busy?
             && forall t | 0 <= t < |s.tasks| :: !s.tasks[t].Flushing?
    ensures var s := Run(c, Init(), acts).value;
            Events(s.batches) == s.forwarded && forall b | 0 <= b < |s.batches| :: !s.batches[b].status.Sending?
  {
    RunKeepsInv(c, Init(), acts);
    var s := Run(c, Init(), acts).value;
    assert Events(s.batches) + [] == Events(s.batches);
  }
}

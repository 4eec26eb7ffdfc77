/**
 The Go client's token refresh (section 6 of RFC 6749): one caller performs the request, callers
 that arrive meanwhile poll for its outcome. Each critical section under `refreshMu` is one atomic
 step; a run is any interleaving of the steps of any number of callers.
 */
module RefreshSingleFlight {
  import opened Prelude

  type TokenSet = string

  /** How one refresh request ended. */
  datatype Outcome = Success(tokens: TokenSet) | Failure(err: string)

  /** What RefreshToken returns: a token pointer without error, an error, or the polling timeout. */
  datatype Return = Tokens(tokens: Option<TokenSet>) | Error(err: string) | TimedOut

  const MAX_POLLS: nat := 100

  // ----- The critical sections, on the three guarded fields

  datatype Shared = Shared(inFlight: bool, result: Option<TokenSet>, err: Option<string>)

  function Complete(s: Shared, o: Outcome): Shared {
    match o
    case Success(ts) => Shared(false, Some(ts), None)
    case Failure(e) => Shared(false, s.result, Some(e))
  }

  /** What a waiter returns when it finds no refresh in flight. */
  function Observed(s: Shared): Return {
    if s.err.Some? then Error(s.err.value) else Tokens(s.result)
  }

  function ReturnOf(o: Outcome): Return {
    match o
    case Success(ts) => Tokens(Some(ts))
    case Failure(e) => Error(e)
  }

  class Client {
    var refreshInFlight: bool
    var refreshResult: Option<TokenSet>
    var refreshErr: Option<string>

    function View(): Shared
      reads this
    {
      Shared(refreshInFlight, refreshResult, refreshErr)
    }

    constructor ()
      ensures View() == Shared(false, None, None)
    {
      refreshInFlight := false;
      refreshResult := None;
      refreshErr := None;
    }

    /** The first critical section: become the leader unless a refresh is in flight. */
    method TryLead() returns (lead: bool)
      modifies this
      ensures lead == !old(refreshInFlight)
      ensures View() == old(View()).(inFlight := true)
    {
      if refreshInFlight {
        return false;
      }
      refreshInFlight := true;
      return true;
    }

    /** The leader's last critical section, after the request ended. */
    method Finish(o: Outcome) returns (r: Return)
      modifies this
      ensures View() == Complete(old(View()), o) && r == ReturnOf(o)
    {
      match o
      case Failure(e) =>
        refreshInFlight := false;
        refreshErr := Some(e);
        return Error(e);
      case Success(ts) =>
        refreshInFlight := false;
        refreshResult := Some(ts);
        refreshErr := None;
        return Tokens(Some(ts));
    }

    /** One poll: the outcome, or nothing while the refresh is still in flight. */
    method Poll() returns (r: Option<Return>)
      ensures r == if refreshInFlight then None else Some(Observed(View()))
    {
      if !refreshInFlight {
        var ts, err := refreshResult, refreshErr;
        if err.Some? {
          return Some(Error(err.value));
        }
        return Some(Tokens(ts));
      }
      return None;
    }
  }

  /** What a waiter returns that has seen these states, nothing if it is to poll on. */
  function Awaited(seen: seq<Shared>): Option<Return> {
    if seen == [] then None
    else if !seen[0].inFlight then Some(Observed(seen[0]))
    else Awaited(seen[1..])
  }

  predicate AllInFlight(seen: seq<Shared>) {
    forall i | 0 <= i < |seen| :: seen[i].inFlight
  }

  /** The first state without a refresh in flight decides. */
  lemma {:induction false} AwaitedMeaning(seen: seq<Shared>, k: nat)
    requires k < |seen| && !seen[k].inFlight && AllInFlight(seen[..k])
    ensures Awaited(seen) == Some(Observed(seen[k]))
  {
    if k > 0 {
      assert seen[..k][0] == seen[0];
      assert seen[1..][..k - 1] == seen[..k][1..];
      AwaitedMeaning(seen[1..], k - 1);
    }
  }

  lemma {:induction false} AwaitedNone(seen: seq<Shared>)
    ensures AllInFlight(seen) <==> Awaited(seen) == None
  {
    if seen != [] {
      AwaitedNone(seen[1..]);
      assert forall i | 0 < i < |seen| :: seen[i] == seen[1..][i - 1];
      assert AllInFlight(seen) ==> forall i | 0 <= i < |seen| - 1 :: seen[1..][i] == seen[i + 1];
    }
  }

  /** The polling loop, over the hundred states of the guarded fields it gets to see. */
  method Await(seen: seq<Shared>) returns (r: Return)
    requires |seen| == 100
    ensures r == if Awaited(seen).Some? then Awaited(seen).value else TimedOut
    ensures (forall i | 0 <= i < 100 :: seen[i].inFlight) ==> r == TimedOut
    ensures forall i | 0 <= i < 100 ::
              !seen[i].inFlight && (forall j | 0 <= j < i :: seen[j].inFlight) ==> r == Observed(seen[i])
  {
    for i := 0 to MAX_POLLS
      invariant forall j | 0 <= j < i :: seen[j].inFlight
    {
      if !seen[i].inFlight {
        AwaitedMeaning(seen, i);
        return Observed(seen[i]);
      }
    }
    AwaitedNone(seen);
    return TimedOut;
  }

  // ----- The system

  /** `since` and `at` count the refreshes completed when the call entered and when it returned. */
  datatype Caller =
    | Leading
    | Waiting(polls: nat, since: nat)
    | Led(r: Return, at: nat)
    | Joined(r: Return, since: nat, at: nat)

  datatype State = State(shared: Shared, calls: map<nat, Caller>, history: seq<Outcome>)

  datatype Action = Enter(id: nat) | End(id: nat, outcome: Outcome) | PollOnce(id: nat) | GiveUp(id: nat)

  function Init(): State {
    State(Shared(false, None, None), map[], [])
  }

  predicate Enabled(s: State, a: Action) {
    match a
    case Enter(id) => id !in s.calls
    case End(id, _) => id in s.calls && s.calls[id].Leading?
    case PollOnce(id) => id in s.calls && s.calls[id].Waiting? && s.calls[id].polls < MAX_POLLS
    case GiveUp(id) => id in s.calls && s.calls[id].Waiting? && s.calls[id].polls == MAX_POLLS
  }

  function Step(s: State, a: Action): State
    requires Enabled(s, a)
  {
    match a
    case Enter(id) =>
      s.(calls := s.calls[id := if s.shared.inFlight then Waiting(0, |s.history|) else Leading],
         shared := s.shared.(inFlight := true))
    case End(id, o) =>
      s.(calls := s.calls[id := Led(ReturnOf(o), |s.history| + 1)],
         shared := Complete(s.shared, o),
         history := s.history + [o])
    case PollOnce(id) =>
      var w := s.calls[id];
      s.(calls := s.calls[id := if s.shared.inFlight then Waiting(w.polls + 1, w.since)
                                else Joined(Observed(s.shared), w.since, |s.history|)])
    case GiveUp(id) =>
      s.(calls := s.calls[id := Joined(TimedOut, s.calls[id].since, |s.history|)])
  }

  /** The state after a list of actions, if each was enabled in turn. */
  function Run(s: State, acts: seq<Action>): Option<State>
    decreases acts
  {
    if acts == [] then Some(s)
    else if !Enabled(s, acts[0]) then None
    else Run(Step(s, acts[0]), acts[1..])
  }

  // ----- The invariant

  ghost predicate OneLeader(s: State) {
    && (s.shared.inFlight <==> exists id :: id in s.calls && s.calls[id].Leading?)
    && forall i, j | i in s.calls && j in s.calls && s.calls[i].Leading? && s.calls[j].Leading? :: i == j
  }

  /** The guarded fields describe the latest completed refresh. */
  predicate Latest(s: State) {
    if s.history == [] then s.shared.result.None? && s.shared.err.None?
    else Observed(s.shared) == ReturnOf(s.history[|s.history| - 1])
  }

  /** Once no refresh is in flight, one has completed since any waiter entered. */
  ghost predicate Fresh(s: State) {
    forall id | id in s.calls && s.calls[id].Waiting? ::
      && s.calls[id].polls <= MAX_POLLS
      && s.calls[id].since <= |s.history|
      && (!s.shared.inFlight ==> s.calls[id].since < |s.history|)
  }

  /** A waiter that did not time out returned the latest outcome of its time, completed after it entered. */
  ghost predicate Honest(s: State) {
    forall id | id in s.calls ::
      match s.calls[id]
      case Joined(r, since, at) =>
        at <= |s.history| && (r != TimedOut ==> since < at && r == ReturnOf(s.history[at - 1]))
      case Led(r, at) => 1 <= at <= |s.history| && r == ReturnOf(s.history[at - 1])
      case _ => true
  }

  ghost predicate Inv(s: State) {
    OneLeader(s) && Latest(s) && Fresh(s) && Honest(s)
  }

  lemma StepKeepsLeader(s: State, a: Action)
    requires Inv(s) && Enabled(s, a)
    ensures OneLeader(Step(s, a))
  {
    var t := Step(s, a);
    if t.shared.inFlight {
      if a.Enter? && !s.shared.inFlight {
        assert a.id in t.calls && t.calls[a.id].Leading?;
      } else {
        var id :| id in s.calls && s.calls[id].Leading?;
        assert id in t.calls && t.calls[id].Leading?;
      }
    }
  }

  lemma StepKeepsHonest(s: State, a: Action)
    requires Inv(s) && Enabled(s, a)
    ensures Honest(Step(s, a)) && Fresh(Step(s, a)) && Latest(Step(s, a))
  {
  }

  lemma {:induction false} RunKeepsInv(s: State, acts: seq<Action>)
    requires Inv(s) && Run(s, acts).Some?
    ensures Inv(Run(s, acts).value)
    decreases acts
  {
    if acts != [] {
      StepKeepsLeader(s, acts[0]);
      StepKeepsHonest(s, acts[0]);
      RunKeepsInv(Step(s, acts[0]), acts[1..]);
    }
  }

  /** In every interleaving, at most one refresh request is in flight. */
  lemma AtMostOneInFlight(acts: seq<Action>, i: nat, j: nat)
    requires Run(Init(), acts).Some?
    requires var s := Run(Init(), acts).value;
             i in s.calls && j in s.calls && s.calls[i].Leading? && s.calls[j].Leading?
    ensures i == j
  {
    RunKeepsInv(Init(), acts);
  }

  /**
   In every interleaving, a waiter that returns before its polls run out returns the outcome of
   the refresh completed last before its return, and that one completed after the waiter entered.
   In particular a success is never returned once a later refresh has failed.
   */
  lemma WaitersReturnLatest(acts: seq<Action>, id: nat)
    requires Run(Init(), acts).Some?
    requires var s := Run(Init(), acts).value; id in s.calls && s.calls[id].Joined? && s.calls[id].r != TimedOut
    ensures var s := Run(Init(), acts).value;
            && s.calls[id].since < s.calls[id].at <= |s.history|
            && s.calls[id].r == ReturnOf(s.history[s.calls[id].at - 1])
  {
    RunKeepsInv(Init(), acts);
  }

  /** Nobody who returns without an error returns a missing token. */
  lemma NoNilTokens(acts: seq<Action>, id: nat)
    requires Run(Init(), acts).Some?
    requires var s := Run(Init(), acts).value; id in s.calls && (s.calls[id].Joined? || s.calls[id].Led?)
    ensures Run(Init(), acts).value.calls[id].r != Tokens(None)
  {
    RunKeepsInv(Init(), acts);
  }

  // ----- What each call saw

  /** The states of the guarded fields that the polls of call `id` see. */
  function SeenBy(s: State, acts: seq<Action>, id: nat): seq<Shared>
    decreases acts
  {
    if acts == [] || !Enabled(s, acts[0]) then []
    else (if acts[0] == PollOnce(id) then [s.shared] else []) + SeenBy(Step(s, acts[0]), acts[1..], id)
  }

  /** How a call stands after its polls have seen these states. */
  predicate Accounts(caller: Caller, seen: seq<Shared>) {
    match caller
    case Leading => seen == []
    case Led(_, _) => seen == []
    case Waiting(polls, _) => polls == |seen| <= 100 && AllInFlight(seen)
    case Joined(r, _, _) =>
      if r == TimedOut then |seen| == 100 && AllInFlight(seen)
      else 1 <= |seen| <= 100 && AllInFlight(seen[..|seen| - 1]) && !seen[|seen| - 1].inFlight && r == Observed(seen[|seen| - 1])
  }

  lemma StepAccounts(s: State, a: Action, id: nat, seen: seq<Shared>)
    requires Enabled(s, a)
    requires if id in s.calls then Accounts(s.calls[id], seen) else seen == []
    ensures var now := seen + if a == PollOnce(id) then [s.shared] else [];
            var t := Step(s, a);
            if id in t.calls then Accounts(t.calls[id], now) else now == []
  {
    if a == PollOnce(id) {
      assert (seen + [s.shared])[..|seen|] == seen;
    } else {
      assert seen + [] == seen;
    }
  }

  lemma {:induction false} RunAccounts(s: State, acts: seq<Action>, id: nat, seen: seq<Shared>)
    requires Run(s, acts).Some?
    requires if id in s.calls then Accounts(s.calls[id], seen) else seen == []
    ensures var t := Run(s, acts).value; var now := seen + SeenBy(s, acts, id);
            if id in t.calls then Accounts(t.calls[id], now) else now == []
    decreases acts
  {
    if acts == [] {
      assert seen + [] == seen;
    } else {
      var first := if acts[0] == PollOnce(id) then [s.shared] else [];
      StepAccounts(s, acts[0], id, seen);
      RunAccounts(Step(s, acts[0]), acts[1..], id, seen + first);
      Associative(seen, first, SeenBy(Step(s, acts[0]), acts[1..], id));
    }
  }

  lemma Associative(a: seq<Shared>, b: seq<Shared>, c: seq<Shared>)
    ensures (a + b) + c == a + (b + c)
  {
  }

  /**
   In every interleaving a call that joined returns what the polling loop returns on the states it saw: a timeout
   exactly after a hundred polls that each found a refresh in flight, else the outcome at the first poll that did not.
   */
  lemma JoinedReturnsAwaited(acts: seq<Action>, id: nat)
    requires Run(Init(), acts).Some?
    requires id in Run(Init(), acts).value.calls && Run(Init(), acts).value.calls[id].Joined?
    ensures var r, seen := Run(Init(), acts).value.calls[id].r, SeenBy(Init(), acts, id);
            && (r == TimedOut <==> |seen| == 100 && forall i | 0 <= i < 100 :: seen[i].inFlight)
            && (r != TimedOut ==> Awaited(seen) == Some(r) && |seen| <= 100 && !seen[|seen| - 1].inFlight)
  {
    var r, seen := Run(Init(), acts).value.calls[id].r, SeenBy(Init(), acts, id);
    RunAccounts(Init(), acts, id, []);
    assert [] + seen == seen;
    if r != TimedOut {
      AwaitedMeaning(seen, |seen| - 1);
    }
  }

  /** In every reachable state a poll that finds no refresh in flight returns the outcome completed last. */
  lemma PollReturnsLast(acts: seq<Action>, id: nat, s: State)
    requires Run(Init(), acts) == Some(s) && Enabled(s, PollOnce(id))
    ensures var t := Step(s, PollOnce(id)).calls[id];
            if s.shared.inFlight then t == s.calls[id].(polls := s.calls[id].polls + 1)
            else s.history != [] && t.Joined? && t.r == ReturnOf(s.history[|s.history| - 1])
  {
    RunKeepsInv(Init(), acts);
  }

  /** In every reachable state a call that enters leads iff no other call does, and waits otherwise. */
  lemma EntersAsLeaderIff(acts: seq<Action>, id: nat, s: State)
    requires Run(Init(), acts) == Some(s) && Enabled(s, Enter(id))
    ensures var t := Step(s, Enter(id)).calls[id];
            && (t.Leading? <==> !exists j :: j in s.calls && s.calls[j].Leading?)
            && (!t.Leading? ==> t == Waiting(0, |s.history|))
  {
    RunKeepsInv(Init(), acts);
  }

  /** The outcome of the request that call `id` led. */
  function OutcomeFor(acts: seq<Action>, id: nat): Option<Outcome> {
    if acts == [] then None
    else if acts[0].End? && acts[0].id == id then Some(acts[0].outcome)
    else OutcomeFor(acts[1..], id)
  }

  lemma {:induction false} LedStays(s: State, acts: seq<Action>, id: nat)
    requires Run(s, acts).Some? && id in s.calls && s.calls[id].Led?
    ensures id in Run(s, acts).value.calls && Run(s, acts).value.calls[id] == s.calls[id]
    decreases acts
  {
    if acts != [] {
      LedStays(Step(s, acts[0]), acts[1..], id);
    }
  }

  /** In every run a leader returns the outcome of its own request. */
  lemma {:induction false} LeadersReturnTheirs(s: State, acts: seq<Action>, id: nat)
    requires Run(s, acts).Some? && !(id in s.calls && s.calls[id].Led?)
    requires id in Run(s, acts).value.calls && Run(s, acts).value.calls[id].Led?
    ensures OutcomeFor(acts, id).Some? && Run(s, acts).value.calls[id].r == ReturnOf(OutcomeFor(acts, id).value)
    decreases acts
  {
    if acts != [] {
      var t := Step(s, acts[0]);
      if acts[0].End? && acts[0].id == id {
        LedStays(t, acts[1..], id);
      } else {
        LeadersReturnTheirs(t, acts[1..], id);
      }
    }
  }
}

/** Which connections are closed and which are pooled, decided by what happened to them in a run. */
module LdapPoolLaws {
  import opened Prelude
  import opened LdapPool

  /** The connections that an action gives a reason to close. */
  function Dooms(size: nat, s: State, a: Action): set<Conn>
    requires Enabled(s, a)
  {
    match a
    case Check(id, closing) => if closing then {s.calls[id].conn} else {}
    case DialFirst(_, dial) => if dial.TlsFailed? then {s.dialed} else {}
    case DialSecond(_, dial) => if dial.TlsFailed? then {s.dialed} else {}
    case Serve(id, result) => if result.Broken? then {s.calls[id].conn} else {}
    case Bind(id, ok) => if ok then {} else {s.calls[id].user}
    case ReleaseOne(id, closing) => if closing || |s.pool| >= size then {s.calls[id].todo[0].conn} else {}
    case Drain(_) => if s.pool == [] then {} else {s.pool[0]}
    case _ => {}
  }

  /** All that a run gives a reason to close. */
  function Doomed(size: nat, s: State, acts: seq<Action>): set<Conn>
    decreases acts
  {
    if acts == [] || !Enabled(s, acts[0]) then {}
    else Dooms(size, s, acts[0]) + Doomed(size, Step(size, s, acts[0]), acts[1..])
  }

  /** The call is about to close the connection. */
  predicate DueIn(call: Call, c: Conn) {
    || call == Drained(c)
    || (call.Releasing? && (Put(c, false) in call.todo || Discard(c) in call.todo))
  }

  ghost predicate Due(s: State, c: Conn) {
    exists id :: id in s.calls && DueIn(s.calls[id], c)
  }

  ghost predicate ClosedOrDue(s: State, c: Conn) {
    c in s.closed || Due(s, c)
  }

  /** Only the call that moved can have become due, or have ceased to be. */
  lemma DueAfter(s: State, t: State, id: nat, call: Call, c: Conn)
    requires t.calls == s.calls[id := call]
    ensures Due(t, c) <==> DueIn(call, c) || exists i :: i in s.calls && i != id && DueIn(s.calls[i], c)
  {
    if DueIn(call, c) {
      assert id in t.calls && DueIn(t.calls[id], c);
    }
    if i :| i in s.calls && i != id && DueIn(s.calls[i], c) {
      assert i in t.calls && DueIn(t.calls[i], c);
    }
    if i :| i in t.calls && DueIn(t.calls[i], c) {
      assert i != id ==> i in s.calls && DueIn(s.calls[i], c);
    }
  }

  lemma DueSplit(s: State, id: nat, c: Conn)
    ensures Due(s, c) <==> (id in s.calls && DueIn(s.calls[id], c)) || exists i :: i in s.calls && i != id && DueIn(s.calls[i], c)
  {
    if i :| i in s.calls && DueIn(s.calls[i], c) {
      assert i != id ==> i in s.calls && i != id && DueIn(s.calls[i], c);
    }
  }

  /** The call moved by an action, and where it goes. */
  lemma Moves(size: nat, s: State, a: Action)
    requires Enabled(s, a)
    ensures Step(size, s, a).calls == s.calls[a.id := Step(size, s, a).calls[a.id]]
  {
  }

  lemma ReleaseDooms(size: nat, s: State, id: nat, closing: bool, c: Conn)
    requires Enabled(s, ReleaseOne(id, closing))
    ensures var a := ReleaseOne(id, closing);
            var t := Step(size, s, a);
            c in t.closed || DueIn(t.calls[id], c) <==> c in s.closed || DueIn(s.calls[id], c) || c in Dooms(size, s, a)
  {
    var todo := s.calls[id].todo;
    assert todo == [todo[0]] + todo[1..];
  }

  lemma OwnDooms(size: nat, s: State, a: Action, c: Conn)
    requires Enabled(s, a)
    ensures var t := Step(size, s, a);
            c in t.closed || DueIn(t.calls[a.id], c) <==>
            c in s.closed || (a.id in s.calls && DueIn(s.calls[a.id], c)) || c in Dooms(size, s, a)
  {
    if a.ReleaseOne? {
      ReleaseDooms(size, s, a.id, a.closing, c);
    }
  }

  lemma StepDooms(size: nat, s: State, a: Action, c: Conn)
    requires Enabled(s, a)
    ensures ClosedOrDue(Step(size, s, a), c) <==> ClosedOrDue(s, c) || c in Dooms(size, s, a)
  {
    var t := Step(size, s, a);
    Moves(size, s, a);
    DueAfter(s, t, a.id, t.calls[a.id], c);
    DueSplit(s, a.id, c);
    OwnDooms(size, s, a, c);
  }

  lemma {:induction false} RunDooms(size: nat, s: State, acts: seq<Action>, c: Conn)
    requires Run(size, s, acts).Some?
    ensures ClosedOrDue(Run(size, s, acts).value, c) <==> ClosedOrDue(s, c) || c in Doomed(size, s, acts)
    decreases acts
  {
    if acts != [] {
      StepDooms(size, s, acts[0], c);
      RunDooms(size, Step(size, s, acts[0]), acts[1..], c);
    }
  }

  /**
   In every run, a connection is closed or about to be iff something happened to it: TLS failed, it was found closing,
   its bind or search failed, the pool had no room for it, or Close took it out. Such a one is never pooled.
   */
  lemma DoomedIff(size: nat, acts: seq<Action>, c: Conn, s: State)
    requires Run(size, Init(), acts) == Some(s)
    ensures c in Doomed(size, Init(), acts) <==> c in s.closed || Due(s, c)
    ensures c in Doomed(size, Init(), acts) ==> c !in s.pool
  {
    RunDooms(size, Init(), acts, c);
    RunKeepsInv(size, Init(), acts);
    if i :| i in s.calls && DueIn(s.calls[i], c) {
      DueIsHeld(s.calls[i], c);
      assert Holds(s, i, c);
    }
  }

  lemma DueIsHeld(call: Call, c: Conn)
    requires DueIn(call, c)
    ensures c in Held(call)
  {
    if call.Releasing? {
      var r := if Put(c, false) in call.todo then Put(c, false) else Discard(c);
      var k :| 0 <= k < |call.todo| && call.todo[k] == r;
      assert Conns(call.todo)[k] == c;
    }
  }

  /** Once every call has returned: closed iff doomed, and pooled iff dialled and not doomed. */
  lemma SettledIff(size: nat, acts: seq<Action>, c: Conn, s: State)
    requires Run(size, Init(), acts) == Some(s) && forall id | id in s.calls :: s.calls[id].Finished?
    ensures c in s.closed <==> c in Doomed(size, Init(), acts)
    ensures c in s.pool <==> c < s.dialed && c !in Doomed(size, Init(), acts)
  {
    DoomedIff(size, acts, c, s);
    assert !Due(s, c);
    RunKeepsInv(size, Init(), acts);
    if c < s.dialed {
      assert Placed(s, c);
    }
  }

  /** The call only has to close this connection. */
  predicate OnlyCloses(s: State, id: nat, c: Conn) {
    id in s.calls && s.calls[id] == Releasing([Put(c, false)])
  }

  lemma {:induction false} ClosesInTheEnd(size: nat, s: State, acts: seq<Action>, id: nat, c: Conn)
    requires Run(size, s, acts).Some? && (c in s.closed || OnlyCloses(s, id, c))
    ensures var t := Run(size, s, acts).value; c in t.closed || OnlyCloses(t, id, c)
    decreases acts
  {
    if acts != [] {
      Moves(size, s, acts[0]);
      ClosesInTheEnd(size, Step(size, s, acts[0]), acts[1..], id, c);
    }
  }

  lemma {:induction false} RunConcat(size: nat, s: State, acts: seq<Action>, more: seq<Action>)
    requires Run(size, s, acts).Some?
    ensures Run(size, s, acts + more) == Run(size, Run(size, s, acts).value, more)
    decreases acts
  {
    if acts == [] {
      assert acts + more == more;
    } else {
      assert (acts + more)[1..] == acts[1..] + more;
      RunConcat(size, Step(size, s, acts[0]), acts[1..], more);
    }
  }

  /** A connection whose service bind or search failed is never pooled again, and is closed once its call has returned. */
  lemma BrokenIsClosed(size: nat, acts: seq<Action>, id: nat, more: seq<Action>, s: State, t: State)
    requires Run(size, Init(), acts) == Some(s) && Enabled(s, Serve(id, Broken))
    requires Run(size, Init(), acts + ([Serve(id, Broken)] + more)) == Some(t)
    ensures var c := s.calls[id].conn;
            c !in t.pool && id in t.calls && (t.calls[id].Finished? ==> c in t.closed)
  {
    var a, c := Serve(id, Broken), s.calls[id].conn;
    assert ([a] + more)[0] == a && ([a] + more)[1..] == more;
    RunConcat(size, Init(), acts, [a] + more);
    ClosesInTheEnd(size, Step(size, s, a), more, id, c);
    CallsStay(size, Step(size, s, a), more, id);
    DoomedConcat(size, Init(), acts, [a] + more);
    DoomedIff(size, acts + ([a] + more), c, t);
  }

  lemma {:induction false} CallsStay(size: nat, s: State, acts: seq<Action>, id: nat)
    requires Run(size, s, acts).Some? && id in s.calls
    ensures id in Run(size, s, acts).value.calls
    decreases acts
  {
    if acts != [] {
      Moves(size, s, acts[0]);
      CallsStay(size, Step(size, s, acts[0]), acts[1..], id);
    }
  }

  lemma {:induction false} DoomedConcat(size: nat, s: State, acts: seq<Action>, more: seq<Action>)
    requires Run(size, s, acts).Some?
    ensures Doomed(size, s, acts + more) == Doomed(size, s, acts) + Doomed(size, Run(size, s, acts).value, more)
    decreases acts
  {
    if acts == [] {
      assert acts + more == more;
    } else {
      assert (acts + more)[1..] == acts[1..] + more;
      DoomedConcat(size, Step(size, s, acts[0]), acts[1..], more);
    }
  }

  // ----- The steps of the methods

  /** The steps of getting a connection that nothing interrupts. */
  function GetSteps(s: State, id: nat, closing: bool, d: Dial): seq<Action> {
    if s.pool == [] then [Receive(id), DialFirst(id, d)]
    else if closing then [Receive(id), Check(id, closing), DialFirst(id, d)]
    else [Receive(id), Check(id, closing)]
  }

  lemma TwoSteps(size: nat, s: State, a: Action, b: Action)
    requires Enabled(s, a) && Enabled(Step(size, s, a), b)
    ensures Run(size, s, [a, b]) == Some(Step(size, Step(size, s, a), b))
  {
    var t := Step(size, s, a);
    assert [a, b][1..] == [b];
    assert Run(size, t, [b]) == Run(size, Step(size, t, b), [b][1..]);
  }

  lemma ThreeSteps(size: nat, s: State, a: Action, b: Action, c: Action)
    requires Enabled(s, a) && Enabled(Step(size, s, a), b) && Enabled(Step(size, Step(size, s, a), b), c)
    ensures Run(size, s, [a, b, c]) == Some(Step(size, Step(size, Step(size, s, a), b), c))
  {
    assert [a, b, c][1..] == [b, c];
    TwoSteps(size, Step(size, s, a), b, c);
  }

  /** They have the effect of the method GetConn, and the call goes on with the connection or ends without one. */
  lemma GetRuns(size: nat, s: State, id: nat, closing: bool, d: Dial) returns (t: State)
    requires id in s.calls && s.calls[id].Getting?
    ensures Run(size, s, GetSteps(s, id, closing, d)) == Some(t) && id in t.calls
    ensures t.pool == if s.pool == [] then [] else s.pool[1..]
    ensures s.pool != [] && !closing ==>
              t.calls[id] == Serving(s.pool[0]) && t.closed == s.closed && t.dialed == s.dialed
    ensures s.pool == [] || closing ==>
              && t.calls[id] == (if d.Connected? then Serving(s.dialed) else Finished)
              && t.dialed == s.dialed + (if d.Refused? then 0 else 1)
              && t.closed == s.closed + (if s.pool == [] then {} else {s.pool[0]}) + (if d.TlsFailed? then {s.dialed} else {})
  {
    var u := Step(size, s, Receive(id));
    if s.pool == [] {
      TwoSteps(size, s, Receive(id), DialFirst(id, d));
      t := Step(size, u, DialFirst(id, d));
    } else if closing {
      ThreeSteps(size, s, Receive(id), Check(id, true), DialFirst(id, d));
      t := Step(size, Step(size, u, Check(id, true)), DialFirst(id, d));
    } else {
      TwoSteps(size, s, Receive(id), Check(id, false));
      t := Step(size, u, Check(id, false));
    }
  }

  /** A release has the effect of the method PutConn, or of closing the connection, and the call goes on with the others. */
  lemma ReleaseRuns(size: nat, s: State, id: nat, closing: bool)
    requires Enabled(s, ReleaseOne(id, closing))
    ensures var t, r := Step(size, s, ReleaseOne(id, closing)), s.calls[id].todo[0];
            && (if r.Put? && r.healthy && !closing && |s.pool| < size
                then t.pool == s.pool + [r.conn] && t.closed == s.closed
                else t.pool == s.pool && t.closed == s.closed + {r.conn})
            && Held(t.calls[id]) == Held(s.calls[id])[1..] && t.dialed == s.dialed
            && (t.calls[id].Finished? <==> |s.calls[id].todo| == 1)
  {
    var todo := s.calls[id].todo;
    assert Conns(todo)[1..] == Conns(todo[1..]);
  }

  /** A second connection is asked for iff a user was found; a call that needs no more only releases what it holds. */
  lemma AfterServing(size: nat, s: State, id: nat, result: Search)
    requires Enabled(s, Serve(id, result))
    ensures var t := Step(size, s, Serve(id, result));
            && (Enabled(t, DialSecond(id, Connected)) <==> result.Found?)
            && (Enabled(t, ReleaseOne(id, false)) <==> !result.Found?)
            && Held(t.calls[id]) == Held(s.calls[id]) && t.pool == s.pool && t.closed == s.closed
  {
  }

  /** The user's own bind needs that second connection, and afterwards both are released. */
  lemma AfterBinding(size: nat, s: State, id: nat, dial: Dial, ok: bool)
    requires Enabled(s, DialSecond(id, dial))
    ensures var t := Step(size, s, DialSecond(id, dial));
            && (Enabled(t, Bind(id, ok)) <==> dial.Connected?)
            && (Enabled(t, ReleaseOne(id, false)) <==> !dial.Connected?)
            && (dial.Connected? ==> Held(Step(size, t, Bind(id, ok)).calls[id]) == [s.calls[id].conn, s.dialed])
  {
  }
}

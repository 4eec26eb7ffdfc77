/**
 The LDAP provider's connection pool under concurrent Authenticate and Close calls. Connections
 are numbered in the order they are dialled; the environment decides which dials, binds and
 searches succeed and which connections are found closing.
 */
module LdapPool {
  import opened Prelude

  type Conn = nat

  datatype Dial = Connected | Refused | TlsFailed

  // ----- The object

  class Provider {
    const poolSize: nat
    var pool: seq<Conn>
    var closed: set<Conn>
    var dialed: nat

    constructor (poolSize: int)
      ensures pool == [] && closed == {} && dialed == 0
      ensures this.poolSize == (if poolSize <= 0 then 5 else poolSize) >= 1
    {
      this.poolSize := if poolSize <= 0 then 5 else poolSize;
      pool, closed, dialed := [], {}, 0;
    }

    method DialConn(d: Dial) returns (conn: Option<Conn>)
      modifies this
      ensures pool == old(pool)
      ensures dialed == old(dialed) + (if d.Refused? then 0 else 1)
      ensures closed == old(closed) + (if d.TlsFailed? then {old(dialed)} else {})
      ensures conn == if d.Connected? then Some(old(dialed)) else None
    {
      match d
      case Refused => conn := None;
      case TlsFailed =>
        closed := closed + {dialed};
        dialed := dialed + 1;
        conn := None;
      case Connected =>
        conn := Some(dialed);
        dialed := dialed + 1;
    }

    /** A pooled connection, or a new one when the pool is empty or yields one that is closing. */
    method GetConn(isClosing: Conn -> bool, d: Dial) returns (conn: Option<Conn>)
      modifies this
      ensures pool == if old(pool) == [] then [] else old(pool)[1..]
      ensures old(pool) != [] && !isClosing(old(pool)[0]) ==>
                conn == Some(old(pool)[0]) && closed == old(closed) && dialed == old(dialed)
      ensures old(pool) == [] || isClosing(old(pool)[0]) ==>
                && conn == (if d.Connected? then Some(old(dialed)) else None)
                && dialed == old(dialed) + (if d.Refused? then 0 else 1)
                && closed == old(closed) + (if old(pool) == [] then {} else {old(pool)[0]})
                             + (if d.TlsFailed? then {old(dialed)} else {})
    {
      if pool != [] {
        var c := pool[0];
        pool := pool[1..];
        if isClosing(c) {
          closed := closed + {c};
          conn := DialConn(d);
        } else {
          conn := Some(c);
        }
      } else {
        conn := DialConn(d);
      }
    }

    /** A healthy connection goes back to the pool if there is room; any other one is closed. */
    method PutConn(conn: Conn, healthy: bool, isClosing: bool)
      modifies this
      ensures dialed == old(dialed)
      ensures if healthy && !isClosing && |old(pool)| < poolSize
              then pool == old(pool) + [conn] && closed == old(closed)
              else pool == old(pool) && closed == old(closed) + {conn}
    {
      if !healthy || isClosing {
        closed := closed + {conn};
        return;
      }
      if |pool| < poolSize {
        pool := pool + [conn];
      } else {
        closed := closed + {conn};
      }
    }

    /** Close drains the pool, closing what it takes out. */
    method Close()
      modifies this
      ensures pool == [] && dialed == old(dialed)
      ensures closed == old(closed) + Elements(old(pool))
    {
      while pool != []
        invariant closed + Elements(pool) == old(closed) + Elements(old(pool))
        invariant dialed == old(dialed)
        decreases |pool|
      {
        ghost var before := pool;
        var c := pool[0];
        pool := pool[1..];
        assert before == [c] + pool;
        closed := closed + {c};
      }
      assert Elements(pool) == {};
    }
  }

  // ----- The system

  datatype Release = Put(conn: Conn, healthy: bool) | Discard(conn: Conn)

  /** Where a call stands, with the connections it holds. */
  datatype Call =
    | Getting
    | Checking(conn: Conn)             // received from the pool, IsClosing not yet asked
    | Dialing
    | Serving(conn: Conn)              // service bind and search
    | DialingUser(conn: Conn)
    | BindingUser(conn: Conn, user: Conn)
    | Releasing(todo: seq<Release>)
    | Draining                         // a Close call
    | Drained(conn: Conn)              // taken out by Close, not yet closed
    | Finished

  datatype State = State(pool: seq<Conn>, closed: set<Conn>, dialed: nat, calls: map<nat, Call>)

  datatype Search = Broken | NotFound | Found

  datatype Action =
    | Begin(id: nat)
    | BeginClose(id: nat)
    | Receive(id: nat)
    | Check(id: nat, closing: bool)
    | DialFirst(id: nat, dial: Dial)
    | Serve(id: nat, result: Search)
    | DialSecond(id: nat, dial: Dial)
    | Bind(id: nat, ok: bool)
    | ReleaseOne(id: nat, closing: bool)
    | Drain(id: nat)
    | CloseDrained(id: nat)

  function Init(): State {
    State([], {}, 0, map[])
  }

  predicate Enabled(s: State, a: Action) {
    match a
    case Begin(id) => id !in s.calls
    case BeginClose(id) => id !in s.calls
    case Receive(id) => id in s.calls && s.calls[id].Getting?
    case Check(id, _) => id in s.calls && s.calls[id].Checking?
    case DialFirst(id, _) => id in s.calls && s.calls[id].Dialing?
    case Serve(id, _) => id in s.calls && s.calls[id].Serving?
    case DialSecond(id, _) => id in s.calls && s.calls[id].DialingUser?
    case Bind(id, _) => id in s.calls && s.calls[id].BindingUser?
    case ReleaseOne(id, _) => id in s.calls && s.calls[id].Releasing? && s.calls[id].todo != []
    case Drain(id) => id in s.calls && s.calls[id].Draining?
    case CloseDrained(id) => id in s.calls && s.calls[id].Drained?
  }

  function Goto(s: State, id: nat, call: Call): State {
    s.(calls := s.calls[id := call])
  }

  /** A dial that connects hands out the next number; one that fails after connecting closes it again. */
  function DialStep(s: State, id: nat, dial: Dial, connected: Call, failed: Call): State {
    match dial
    case Connected => Goto(s, id, connected).(dialed := s.dialed + 1)
    case Refused => Goto(s, id, failed)
    case TlsFailed => Goto(s, id, failed).(dialed := s.dialed + 1, closed := s.closed + {s.dialed})
  }

  function Step(size: nat, s: State, a: Action): State
    requires Enabled(s, a)
  {
    match a
    case Begin(id) => Goto(s, id, Getting)
    case BeginClose(id) => Goto(s, id, Draining)
    case Receive(id) =>
      if s.pool == [] then Goto(s, id, Dialing)
      else Goto(s, id, Checking(s.pool[0])).(pool := s.pool[1..])
    case Check(id, closing) =>
      var c := s.calls[id].conn;
      if closing then Goto(s, id, Dialing).(closed := s.closed + {c}) else Goto(s, id, Serving(c))
    case DialFirst(id, dial) => DialStep(s, id, dial, Serving(s.dialed), Finished)
    case Serve(id, result) =>
      var c := s.calls[id].conn;
      (match result
       case Broken => Goto(s, id, Releasing([Put(c, false)]))
       case NotFound => Goto(s, id, Releasing([Put(c, true)]))
       case Found => Goto(s, id, DialingUser(c)))
    case DialSecond(id, dial) =>
      var c := s.calls[id].conn;
      DialStep(s, id, dial, BindingUser(c, s.dialed), Releasing([Put(c, true)]))
    case Bind(id, ok) =>
      var c, u := s.calls[id].conn, s.calls[id].user;
      Goto(s, id, Releasing(if ok then [Put(c, true), Put(u, true)] else [Put(c, true), Discard(u)]))
    case ReleaseOne(id, closing) =>
      var r := s.calls[id].todo[0];
      var rest := s.calls[id].todo[1..];
      var t := Goto(s, id, if rest == [] then Finished else Releasing(rest));
      if r.Put? && r.healthy && !closing && |s.pool| < size then t.(pool := s.pool + [r.conn])
      else t.(closed := s.closed + {r.conn})
    case Drain(id) =>
      if s.pool == [] then Goto(s, id, Finished)
      else Goto(s, id, Drained(s.pool[0])).(pool := s.pool[1..])
    case CloseDrained(id) => Goto(s, id, Draining).(closed := s.closed + {s.calls[id].conn})
  }

  function Run(size: nat, s: State, acts: seq<Action>): Option<State>
    decreases acts
  {
    if acts == [] then Some(s)
    else if !Enabled(s, acts[0]) then None
    else Run(size, Step(size, s, acts[0]), acts[1..])
  }

  // ----- The invariant

  /** The connections a call holds. */
  function Held(call: Call): seq<Conn> {
    match call
    case Checking(c) => [c]
    case Serving(c) => [c]
    case DialingUser(c) => [c]
    case BindingUser(c, u) => [c, u]
    case Releasing(todo) => Conns(todo)
    case Drained(c) => [c]
    case _ => []
  }

  function Conns(todo: seq<Release>): seq<Conn> {
    seq(|todo|, i requires 0 <= i < |todo| => todo[i].conn)
  }

  ghost predicate Distinct(s: seq<Conn>) {
    forall i, j | 0 <= i < j < |s| :: s[i] != s[j]
  }

  /** Call `id` holds connection `c`. */
  predicate Holds(s: State, id: nat, c: Conn) {
    id in s.calls && c in Held(s.calls[id])
  }

  /** Every connection dialled is pooled once, held by one call, or closed, and no two of these. */
  ghost predicate Inv(size: nat, s: State) {
    && |s.pool| <= size
    && Distinct(s.pool)
    && (forall c: Conn | c in s.pool :: c < s.dialed && c !in s.closed)
    && (forall id | id in s.calls :: Distinct(Held(s.calls[id])))
    && (forall id: nat, c: Conn | Holds(s, id, c) :: c < s.dialed && c !in s.closed && c !in s.pool)
    && (forall i: nat, j: nat, c: Conn | Holds(s, i, c) && Holds(s, j, c) :: i == j)
    && (forall c: Conn | c in s.closed :: c < s.dialed)
    && (forall c: Conn | c < s.dialed :: Placed(s, c))
  }

  ghost predicate Placed(s: State, c: Conn) {
    c in s.closed || c in s.pool || exists id :: Holds(s, id, c)
  }

  /** One call changes what it holds; everything else is as before. */
  lemma HoldsAfter(s: State, t: State, id: nat, call: Call)
    requires t.calls == s.calls[id := call]
    ensures forall i: nat, c: Conn :: Holds(t, i, c) <==> if i == id then c in Held(call) else Holds(s, i, c)
  {
  }

  /** A call moves on with the same connections. */
  lemma SameHoldings(size: nat, s: State, id: nat, call: Call)
    requires Inv(size, s) && Held(call) == if id in s.calls then Held(s.calls[id]) else []
    ensures Inv(size, Goto(s, id, call))
  {
    var t := Goto(s, id, call);
    HoldsAfter(s, t, id, call);
    forall i: nat, c: Conn
      ensures Holds(t, i, c) <==> Holds(s, i, c)
    {
    }
    forall c: Conn | c < t.dialed
      ensures Placed(t, c)
    {
      assert Placed(s, c);
      if c !in s.closed && c !in s.pool {
        var i :| Holds(s, i, c);
        assert Holds(t, i, c);
      }
    }
  }

  lemma TakeFirst(pool: seq<Conn>)
    requires pool != [] && Distinct(pool)
    ensures Distinct(pool[1..]) && pool[0] in pool && pool[0] !in pool[1..]
    ensures forall c | c in pool[1..] :: c in pool
    ensures forall c | c in pool && c != pool[0] :: c in pool[1..]
  {
    assert pool == [pool[0]] + pool[1..];
  }

  lemma TakenIsHeld(s: State, t: State, id: nat, call: Call, taken: Conn)
    requires t.calls == s.calls[id := call] && Held(call) == [taken]
    requires id in s.calls ==> Held(s.calls[id]) == []
    ensures forall i: nat, c: Conn :: Holds(t, i, c) <==> Holds(s, i, c) || (i == id && c == taken)
  {
    HoldsAfter(s, t, id, call);
  }

  /** Whoever held a connection still does, so it is still placed. */
  lemma StillPlaced(s: State, t: State, c: Conn)
    requires Placed(s, c) && (c in s.closed ==> c in t.closed)
    requires c in s.pool ==> c in t.pool
    requires forall i: nat | Holds(s, i, c) :: Holds(t, i, c)
    ensures Placed(t, c)
  {
    if c !in s.closed && c !in s.pool {
      var i :| Holds(s, i, c);
      assert Holds(t, i, c);
    }
  }

  /** A call without connections takes the oldest one from the pool. */
  lemma TakesFromPool(size: nat, s: State, id: nat, call: Call)
    requires Inv(size, s) && s.pool != [] && Held(call) == [s.pool[0]]
    requires id in s.calls ==> Held(s.calls[id]) == []
    ensures Inv(size, Goto(s, id, call).(pool := s.pool[1..]))
  {
    var t, taken := Goto(s, id, call).(pool := s.pool[1..]), s.pool[0];
    TakenIsHeld(s, t, id, call, taken);
    TakeFirst(s.pool);
    forall c: Conn | c < t.dialed
      ensures Placed(t, c)
    {
      assert Placed(s, c);
      if c == taken {
        assert Holds(t, id, c);
      } else {
        StillPlaced(s, t, c);
      }
    }
  }

  lemma DropFirst(xs: seq<Conn>)
    requires xs != [] && Distinct(xs)
    ensures Distinct(xs[1..]) && xs[0] !in xs[1..] && forall c | c in xs[1..] :: c in xs
    ensures forall c | c in xs && c != xs[0] :: c in xs[1..]
  {
    assert xs == [xs[0]] + xs[1..];
  }

  lemma AddLast(xs: seq<Conn>, c: Conn)
    requires Distinct(xs) && forall x | x in xs :: x < c
    ensures Distinct(xs + [c])
  {
    assert forall i | 0 <= i < |xs| :: xs[i] in xs;
  }

  /** Giving up its first connection, a call leaves it with no holder and all others where they were. */
  lemma GivesOne(size: nat, s: State, t: State, id: nat, call: Call)
    requires Inv(size, s) && id in s.calls && Held(s.calls[id]) != [] && Held(call) == Held(s.calls[id])[1..]
    requires t.calls == s.calls[id := call]
    ensures Distinct(Held(call)) && Holds(s, id, Held(s.calls[id])[0])
    ensures forall i: nat, c: Conn :: Holds(t, i, c) <==> Holds(s, i, c) && c != Held(s.calls[id])[0]
  {
    DropFirst(Held(s.calls[id]));
    HoldsAfter(s, t, id, call);
    assert Holds(s, id, Held(s.calls[id])[0]);
  }

  /** A call gives up its first connection, which is closed. */
  lemma ClosesOne(size: nat, s: State, id: nat, call: Call)
    requires Inv(size, s) && id in s.calls && Held(s.calls[id]) != [] && Held(call) == Held(s.calls[id])[1..]
    ensures Inv(size, Goto(s, id, call).(closed := s.closed + {Held(s.calls[id])[0]}))
  {
    var given := Held(s.calls[id])[0];
    var t := Goto(s, id, call).(closed := s.closed + {given});
    GivesOne(size, s, t, id, call);
    forall c: Conn | c < t.dialed
      ensures Placed(t, c)
    {
      assert Placed(s, c);
      if c !in t.closed && c !in t.pool {
        var i :| Holds(s, i, c);
        assert Holds(t, i, c);
      }
    }
  }

  /** A call gives up its first connection, which goes back to the pool. */
  lemma ReturnsOne(size: nat, s: State, id: nat, call: Call)
    requires Inv(size, s) && id in s.calls && Held(s.calls[id]) != [] && Held(call) == Held(s.calls[id])[1..]
    requires |s.pool| < size
    ensures Inv(size, Goto(s, id, call).(pool := s.pool + [Held(s.calls[id])[0]]))
  {
    var given := Held(s.calls[id])[0];
    var t := Goto(s, id, call).(pool := s.pool + [given]);
    GivesOne(size, s, t, id, call);
    assert forall c :: c in t.pool <==> c in s.pool || c == given;
    forall c: Conn | c < t.dialed
      ensures Placed(t, c)
    {
      assert Placed(s, c);
      if c !in t.closed && c !in t.pool {
        var i :| Holds(s, i, c);
        assert Holds(t, i, c);
      }
    }
  }

  /** A dial that connects: the new connection joins what the call holds. */
  lemma Connects(size: nat, s: State, id: nat, call: Call)
    requires Inv(size, s) && id in s.calls && Held(call) == Held(s.calls[id]) + [s.dialed]
    ensures Inv(size, Goto(s, id, call).(dialed := s.dialed + 1))
  {
    var t := Goto(s, id, call).(dialed := s.dialed + 1);
    HoldsAfter(s, t, id, call);
    forall c | c in Held(s.calls[id])
      ensures c < s.dialed
    {
      assert Holds(s, id, c);
    }
    AddLast(Held(s.calls[id]), s.dialed);
    forall i: nat, c: Conn
      ensures Holds(t, i, c) <==> Holds(s, i, c) || (i == id && c == s.dialed)
    {
    }
    forall c: Conn | c < t.dialed
      ensures Placed(t, c)
    {
      if c == s.dialed {
        assert Holds(t, id, c);
      } else {
        assert Placed(s, c);
        if c !in s.closed && c !in s.pool {
          var i :| Holds(s, i, c);
          assert Holds(t, i, c);
        }
      }
    }
  }

  /** A connection that is closed as soon as it is dialled. */
  lemma DiesAtOnce(size: nat, s: State)
    requires Inv(size, s)
    ensures Inv(size, s.(dialed := s.dialed + 1, closed := s.closed + {s.dialed}))
  {
    var t := s.(dialed := s.dialed + 1, closed := s.closed + {s.dialed});
    assert forall i: nat, c: Conn :: Holds(t, i, c) <==> Holds(s, i, c);
    forall c: Conn | c < t.dialed
      ensures Placed(t, c)
    {
      if c < s.dialed {
        assert Placed(s, c);
        if c !in s.closed && c !in s.pool {
          var i :| Holds(s, i, c);
          assert Holds(t, i, c);
        }
      }
    }
  }

  /** A dial: the new connection joins what the call holds, or is closed at once. */
  lemma Dials(size: nat, s: State, id: nat, dial: Dial, connected: Call, failed: Call)
    requires Inv(size, s) && id in s.calls
    requires Held(connected) == Held(s.calls[id]) + [s.dialed] && Held(failed) == Held(s.calls[id])
    ensures Inv(size, DialStep(s, id, dial, connected, failed))
  {
    match dial
    case Connected => Connects(size, s, id, connected);
    case Refused => SameHoldings(size, s, id, failed);
    case TlsFailed =>
      SameHoldings(size, s, id, failed);
      DiesAtOnce(size, Goto(s, id, failed));
  }

  lemma StepKeepsInv(size: nat, s: State, a: Action)
    requires Inv(size, s) && Enabled(s, a)
    ensures Inv(size, Step(size, s, a))
  {
    match a
    case Begin(id) => SameHoldings(size, s, id, Getting);
    case BeginClose(id) => SameHoldings(size, s, id, Draining);
    case Receive(id) =>
      if s.pool == [] {
        SameHoldings(size, s, id, Dialing);
      } else {
        TakesFromPool(size, s, id, Checking(s.pool[0]));
      }
    case Check(id, closing) =>
      if closing {
        ClosesOne(size, s, id, Dialing);
      } else {
        SameHoldings(size, s, id, Serving(s.calls[id].conn));
      }
    case DialFirst(id, dial) => Dials(size, s, id, dial, Serving(s.dialed), Finished);
    case Serve(id, result) =>
      var c := s.calls[id].conn;
      SameHoldings(size, s, id, if result.Found? then DialingUser(c) else Releasing([Put(c, result.NotFound?)]));
    case DialSecond(id, dial) =>
      var c := s.calls[id].conn;
      Dials(size, s, id, dial, BindingUser(c, s.dialed), Releasing([Put(c, true)]));
    case Bind(id, ok) =>
      var c, u := s.calls[id].conn, s.calls[id].user;
      SameHoldings(size, s, id, Releasing(if ok then [Put(c, true), Put(u, true)] else [Put(c, true), Discard(u)]));
    case ReleaseOne(id, closing) => ReleaseKeepsInv(size, s, id, closing);
    case Drain(id) =>
      if s.pool == [] {
        SameHoldings(size, s, id, Finished);
      } else {
        TakesFromPool(size, s, id, Drained(s.pool[0]));
      }
    case CloseDrained(id) => ClosesOne(size, s, id, Draining);
  }

  lemma ReleaseKeepsInv(size: nat, s: State, id: nat, closing: bool)
    requires Inv(size, s) && Enabled(s, ReleaseOne(id, closing))
    ensures Inv(size, Step(size, s, ReleaseOne(id, closing)))
  {
    var todo := s.calls[id].todo;
    var r, rest := todo[0], todo[1..];
    var next := if rest == [] then Finished else Releasing(rest);
    assert Held(next) == Held(s.calls[id])[1..];
    if r.Put? && r.healthy && !closing && |s.pool| < size {
      ReturnsOne(size, s, id, next);
    } else {
      ClosesOne(size, s, id, next);
    }
  }

  lemma {:induction false} RunKeepsInv(size: nat, s: State, acts: seq<Action>)
    requires Inv(size, s) && Run(size, s, acts).Some?
    ensures Inv(size, Run(size, s, acts).value)
    decreases acts
  {
    if acts != [] {
      StepKeepsInv(size, s, acts[0]);
      RunKeepsInv(size, Step(size, s, acts[0]), acts[1..]);
    }
  }

  // ----- Results for every run

  /** In every interleaving each dialled connection is in exactly one place, and the pool respects its size. */
  lemma ExactlyOnePlace(size: nat, acts: seq<Action>, c: Conn)
    requires Run(size, Init(), acts).Some? && c < Run(size, Init(), acts).value.dialed
    ensures var s := Run(size, Init(), acts).value;
            && |s.pool| <= size && Distinct(s.pool)
            && (c in s.closed ==> c !in s.pool && forall id :: !Holds(s, id, c))
            && (c in s.pool ==> c !in s.closed && forall id :: !Holds(s, id, c))
            && (c !in s.closed && c !in s.pool ==> exists id :: Holds(s, id, c) && forall j :: Holds(s, j, c) ==> j == id)
  {
    RunKeepsInv(size, Init(), acts);
    var s := Run(size, Init(), acts).value;
    assert Placed(s, c);
  }

  /** In a state that keeps the invariant, with no call running and the pool empty, all connections are closed. */
  lemma AllClosed(size: nat, s: State)
    requires Inv(size, s) && s.pool == [] && forall id | id in s.calls :: s.calls[id].Finished?
    ensures forall c: Conn :: c in s.closed <==> c < s.dialed
  {
    forall c: Conn | c < s.dialed
      ensures c in s.closed
    {
      assert Placed(s, c);
    }
  }

  /** The next step of Close call `id` returns, and every other call has returned. */
  ghost predicate CloseReturnsLast(s: State, id: nat) {
    && Enabled(s, Drain(id))
    && s.pool == []
    && forall j: nat | j in s.calls && j != id :: s.calls[j].Finished?
  }

  /** In every run, when a Close call returns and every other call has returned, every connection ever dialled is closed. */
  lemma CloseLeavesNothingOpen(size: nat, acts: seq<Action>, id: nat, s: State)
    requires Run(size, Init(), acts) == Some(s) && CloseReturnsLast(s, id)
    ensures Step(size, s, Drain(id)).calls[id].Finished?
    ensures forall c: Conn :: c in Step(size, s, Drain(id)).closed <==> c < Step(size, s, Drain(id)).dialed
  {
    RunKeepsInv(size, Init(), acts);
    StepKeepsInv(size, s, Drain(id));
    AllClosed(size, Step(size, s, Drain(id)));
  }

  /** The steps of one Close call that nothing interrupts, with `n` connections in the pool. */
  function CloseSteps(id: nat, n: nat): seq<Action> {
    if n == 0 then [Drain(id)] else [Drain(id), CloseDrained(id)] + CloseSteps(id, n - 1)
  }

  function Closed(s: State, id: nat): State {
    Goto(s, id, Finished).(pool := [], closed := s.closed + Elements(s.pool))
  }

  /** They have the effect of the method Close: the pool is empty and what it held is closed. */
  lemma {:induction false} CloseRuns(size: nat, s: State, id: nat)
    requires id in s.calls && s.calls[id].Draining?
    ensures Run(size, s, CloseSteps(id, |s.pool|)) == Some(Closed(s, id))
    decreases |s.pool|
  {
    var acts := CloseSteps(id, |s.pool|);
    if s.pool == [] {
      assert Run(size, Step(size, s, Drain(id)), acts[1..]) == Some(Step(size, s, Drain(id)));
      assert s.closed + Elements(s.pool) == s.closed;
    } else {
      var c := s.pool[0];
      var t := Step(size, s, Drain(id));
      var u := Step(size, t, CloseDrained(id));
      assert acts[1..][1..] == CloseSteps(id, |s.pool| - 1);
      assert Run(size, s, acts) == Run(size, t, acts[1..]);
      assert Run(size, t, acts[1..]) == Run(size, u, acts[1..][1..]);
      CloseRuns(size, u, id);
      assert s.pool == [c] + s.pool[1..];
      assert s.closed + Elements(s.pool) == u.closed + Elements(u.pool);
      assert u.calls[id := Finished] == s.calls[id := Finished];
    }
  }
}

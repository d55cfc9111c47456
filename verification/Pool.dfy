// The client's connection pool and many callers using it at once (npc/client.go).
module Pool {
  import opened Bytes
  import opened Values
  import opened Frames
  import opened Server

  type ConnId = nat
  type CallerId = nat
  type Addr = nat

  const MAX_IDLE_CONNS_PER_ADDR := 2

  // ---- The idle lists ---------------------------------------------------------------

  type FreeConn = map<Addr, seq<ConnId>>

  function FreeList(free: FreeConn, addr: Addr): seq<ConnId> {
    if addr in free then free[addr] else []
  }

  // The most recently released connection to the address, if there is one.
  function TakeFree(free: FreeConn, addr: Addr): (Option<ConnId>, FreeConn) {
    var list := FreeList(free, addr);
    if list == [] then (None, free) else (Some(list[|list| - 1]), free[addr := list[..|list| - 1]])
  }

  // The connection becomes idle unless its address has enough idle ones; then it is closed.
  function PutFree(free: FreeConn, closed: set<ConnId>, addr: Addr, cn: ConnId): (FreeConn, set<ConnId>) {
    var list := FreeList(free, addr);
    if |list| >= MAX_IDLE_CONNS_PER_ADDR then (free, closed + {cn}) else (free[addr := list + [cn]], closed)
  }

  // A connection put back is the next to be taken, the others staying as they are; beyond two idle
  // ones for an address it is closed instead.
  lemma PutThenTake(free: FreeConn, closed: set<ConnId>, addr: Addr, cn: ConnId)
    ensures var (free', closed') := PutFree(free, closed, addr, cn);
            var (taken, free'') := TakeFree(free', addr);
            if |FreeList(free, addr)| < 2
            then closed' == closed && taken == Some(cn) && forall a :: FreeList(free'', a) == FreeList(free, a)
            else closed' == closed + {cn} && free' == free
    ensures TakeFree(free, addr).0.None? <==> FreeList(free, addr) == []
  {
  }

  // The client's idle connections, and the connections it has closed.
  class Client {
    var freeconn: FreeConn
    var closed: set<ConnId>

    constructor ()
      ensures freeconn == map[] && closed == {}
    {
      freeconn, closed := map[], {};
    }

    method GetFreeConn(addr: Addr) returns (cn: Option<ConnId>)
      modifies this`freeconn
      ensures (cn, freeconn) == TakeFree(old(freeconn), addr)
    {
      if addr !in freeconn || |freeconn[addr]| == 0 {
        return None;
      }
      var list := freeconn[addr];
      cn := Some(list[|list| - 1]);
      freeconn := freeconn[addr := list[..|list| - 1]];
    }

    method PutFreeConn(addr: Addr, cn: ConnId)
      modifies this
      ensures (freeconn, closed) == PutFree(old(freeconn), old(closed), addr, cn)
    {
      var list := if addr in freeconn then freeconn[addr] else [];
      if |list| >= MAX_IDLE_CONNS_PER_ADDR {
        closed := closed + {cn};
        return;
      }
      freeconn := freeconn[addr := list + [cn]];
    }

    // condRelease: no error is resumable, so only a successful exchange releases.
    method CondRelease(addr: Addr, cn: ConnId, failed: bool)
      modifies this
      ensures (freeconn, closed) ==
              if failed then (old(freeconn), old(closed) + {cn}) else PutFree(old(freeconn), old(closed), addr, cn)
    {
      if failed {
        closed := closed + {cn};
      } else {
        PutFreeConn(addr, cn);
      }
    }
  }

  // ---- The whole system ---------------------------------------------------------------

  // A dialled connection: the messages sent on it in full, everything written to it, the headers
  // without body that wait in its write buffer, how much of the server's output has arrived, and
  // how much of that has been read.
  datatype Link = Link(
    addr: Addr, sent: seq<Message>, written: bytes, buffered: seq<Message>, arrived: nat, read: nat)

  // Where a caller is in Do.
  datatype Phase =
    | Holding(cn: ConnId)                               // has a connection
    | Awaiting(cn: ConnId, req: Message)                // has sent its request
    | Answered(cn: ConnId, req: Message, resp: Message) // has read a response

  datatype State = State(
    links: map<ConnId, Link>, free: FreeConn, closed: set<ConnId>, callers: map<CallerId, Phase>)

  // Each step is one atomic action: what a call does under the lock, or on its own connection.
  datatype Step =
    | Take(c: CallerId, addr: Addr)
    | Dial(c: CallerId, addr: Addr, cn: ConnId)
    | Send(c: CallerId, req: Message)
    | SendPart(c: CallerId, part: bytes)   // an interrupted write; the caller can only fail now
    | NilBody(c: CallerId, h: Header)      // a request without a body reader: Do panics halfway
    | Arrive(cn: ConnId, n: nat)           // n more bytes of the server's output arrive
    | Receive(c: CallerId)
    | Release(c: CallerId)                 // the exchange succeeded
    | Fail(c: CallerId)                    // any error, at any point
    | CloseIdle                            // Client.Close

  const START := State(map[], map[], {}, map[])

  // The handler behind each connection.
  type Servers = ConnId -> Handler

  // What the server loop on a connection has produced for what was written to it.
  function ServerOutput(servers: Servers, cn: ConnId, l: Link): bytes {
    Output(servers(cn), l.written)
  }

  // The part of it that has arrived.
  function Inbox(servers: Servers, cn: ConnId, l: Link): bytes {
    FirstOf(ServerOutput(servers, cn, l), l.arrived)
  }

  function FirstOf(out: bytes, n: nat): bytes {
    if n <= |out| then out[..n] else out
  }

  // Idle connections of all addresses.
  ghost predicate IsIdle(s: State, cn: ConnId) {
    exists a | a in s.free :: cn in s.free[a]
  }

  ghost predicate Enabled(servers: Servers, s: State, step: Step) {
    match step
    case Take(c, a) => c !in s.callers && FreeList(s.free, a) != []
    case Dial(c, a, cn) => c !in s.callers && cn !in s.links
    case Send(c, req) =>
      c in s.callers && s.callers[c].Holding? && s.callers[c].cn in s.links - s.closed && WellFormed(req)
    case SendPart(c, _) => c in s.callers && s.callers[c].Holding? && s.callers[c].cn in s.links - s.closed
    case NilBody(c, h) =>
      c in s.callers && s.callers[c].Holding? && s.callers[c].cn in s.links - s.closed && HeaderOk(h)
    case Arrive(cn, n) => cn in s.links && s.links[cn].arrived + n <= |ServerOutput(servers, cn, s.links[cn])|
    case Receive(c) =>
      && c in s.callers && s.callers[c].Awaiting? && s.callers[c].cn in s.links - s.closed
      && var l := s.links[s.callers[c].cn]; ResponseAt(Inbox(servers, s.callers[c].cn, l), l.read).Some?
    case Release(c) => c in s.callers && s.callers[c].Answered? && s.callers[c].cn in s.links
    case Fail(c) => c in s.callers
    case CloseIdle => true
  }

  // The request goes out behind whatever is in the write buffer.
  function SendOn(l: Link, req: Message): Link {
    l.(sent := l.sent + l.buffered + [req], written := l.written + Sent(l.buffered) + FrameBytes(req),
       buffered := [])
  }

  // The header of a request without a body stays in the write buffer.
  function LeaveOn(l: Link, h: Header): Link {
    l.(buffered := l.buffered + [Message(h, [])])
  }

  function Released(s: State, c: CallerId): State
    requires c in s.callers && s.callers[c].cn in s.links
  {
    var cn := s.callers[c].cn;
    var (free, closed) := PutFree(s.free, s.closed, s.links[cn].addr, cn);
    s.(free := free, closed := closed, callers := s.callers - {c})
  }

  ghost function Apply(servers: Servers, s: State, step: Step): State
    requires Enabled(servers, s, step)
  {
    match step
    case Take(c, a) =>
      var (cn, free) := TakeFree(s.free, a);
      s.(free := free, callers := s.callers[c := Holding(cn.value)])
    case Dial(c, a, cn) =>
      s.(links := s.links[cn := Link(a, [], [], [], 0, 0)], callers := s.callers[c := Holding(cn)])
    case Send(c, req) =>
      var cn := s.callers[c].cn;
      var l := s.links[cn];
      s.(links := s.links[cn := SendOn(l, req)],
         callers := s.callers[c := Awaiting(cn, req)])
    case SendPart(c, part) =>
      var cn := s.callers[c].cn;
      var l := s.links[cn];
      s.(links := s.links[cn := l.(written := l.written + part)], closed := s.closed + {cn},
         callers := s.callers - {c})
    case Arrive(cn, n) =>
      var l := s.links[cn];
      s.(links := s.links[cn := l.(arrived := l.arrived + n)])
    case Receive(c) =>
      var cn := s.callers[c].cn;
      var l := s.links[cn];
      var (resp, end) := ResponseAt(Inbox(servers, cn, l), l.read).value;
      s.(links := s.links[cn := l.(read := end)], callers := s.callers[c := Answered(cn, s.callers[c].req, resp)])
    case NilBody(c, h) =>
      // The deferred condRelease sees no error.
      var cn := s.callers[c].cn;
      Released(s.(links := s.links[cn := LeaveOn(s.links[cn], h)]), c)
    case Release(c) => Released(s, c)
    case Fail(c) => s.(closed := s.closed + {s.callers[c].cn}, callers := s.callers - {c})
    case CloseIdle => s.(closed := s.closed + set cn | cn in s.links && IsIdle(s, cn))
  }

  // What becomes of a connection that a caller gives up: after an exchange that succeeded, or a request
  // without a body, it can be taken next, unless two are idle; otherwise it is closed.
  lemma GivenUp(servers: Servers, s: State, step: Step, d: CallerId)
    requires step.Release? || step.NilBody? || step.Fail? || step.SendPart?
    requires Enabled(servers, s, step) && s.callers[step.c].cn in s.links && d !in s.callers
    ensures var s', cn := Apply(servers, s, step), s.callers[step.c].cn;
            var addr := s.links[cn].addr;
            && s'.callers == s.callers - {step.c}
            && if (step.Release? || step.NilBody?) && |FreeList(s.free, addr)| < 2
               then Enabled(servers, s', Take(d, addr)) && s'.closed == s.closed
                    && Apply(servers, s', Take(d, addr)).callers[d] == Holding(cn)
               else s'.closed == s.closed + {cn} && s'.free == s.free
  {
    hide HeaderOk, PutFree, TakeFree;
    var cn := s.callers[step.c].cn;
    PutThenTake(s.free, s.closed, s.links[cn].addr, cn);
    match step
    case Release(_) =>
      TakenNext(servers, Apply(servers, s, step), d, s.links[cn].addr);
    case NilBody(_, _) =>
      TakenNext(servers, Apply(servers, s, step), d, s.links[cn].addr);
    case _ =>
  }

  lemma TakenNext(servers: Servers, s: State, d: CallerId, addr: Addr)
    requires d !in s.callers
    ensures var cn := TakeFree(s.free, addr).0;
            && (cn.Some? <==> Enabled(servers, s, Take(d, addr)))
            && (cn.Some? ==> Apply(servers, s, Take(d, addr)).callers[d] == Holding(cn.value))
  {
  }

  // What callers can do at any time: dial, fail and close; and with an open connection, send any request
  // whole, in part, or without its body.
  lemma AtAnyTime(servers: Servers, s: State, c: CallerId)
    ensures Enabled(servers, s, CloseIdle) && (c in s.callers ==> Enabled(servers, s, Fail(c)))
    ensures forall a, cn | c !in s.callers && cn !in s.links :: Enabled(servers, s, Dial(c, a, cn))
    ensures c in s.callers && s.callers[c].Holding? && s.callers[c].cn in s.links && s.callers[c].cn !in s.closed ==>
              && (forall req | WellFormed(req) :: Enabled(servers, s, Send(c, req)))
              && (forall part :: Enabled(servers, s, SendPart(c, part)))
              && (forall h | HeaderOk(h) :: Enabled(servers, s, NilBody(c, h)))
    ensures c in s.callers && s.callers[c].Answered? && s.callers[c].cn in s.links ==> Enabled(servers, s, Release(c))
  {
    hide WellFormed, HeaderOk;
  }

  // Close closes exactly the idle connections.
  lemma ClosesIdle(servers: Servers, s: State)
    ensures var s' := Apply(servers, s, CloseIdle);
            && s'.callers == s.callers && s'.links == s.links && s'.free == s.free
            && forall cn :: cn in s'.closed <==>
                 cn in s.closed || (cn in s.links && exists a | a in s.free :: cn in s.free[a])
  {
  }

  // The state after a run from s0, if every step in it was possible.
  ghost function ExecFrom(servers: Servers, s0: State, steps: seq<Step>): Option<State>
    decreases |steps|
  {
    if steps == [] then Some(s0)
    else
      var last := |steps| - 1;
      match ExecFrom(servers, s0, steps[..last])
      case None => None
      case Some(s) => if Enabled(servers, s, steps[last]) then Some(Apply(servers, s, steps[last])) else None
  }

  ghost function Exec(servers: Servers, steps: seq<Step>): Option<State> {
    ExecFrom(servers, START, steps)
  }

  // ---- Ownership ------------------------------------------------------------------------

  ghost predicate Holds(s: State, c: CallerId, cn: ConnId) {
    c in s.callers && s.callers[c].cn == cn
  }

  ghost predicate Slot(s: State, a: Addr, i: int, cn: ConnId) {
    a in s.free && 0 <= i < |s.free[a]| && s.free[a][i] == cn
  }

  // Every dialled connection is held by one caller, or idle in one slot of its own address's
  // list, or closed.
  ghost predicate Owned(s: State) {
    && s.closed <= s.links.Keys
    && (forall c, cn | Holds(s, c, cn) :: cn in s.links)
    && (forall a, i, cn | Slot(s, a, i, cn) :: cn in s.links && s.links[cn].addr == a)
    && (forall a | a in s.free :: |s.free[a]| <= MAX_IDLE_CONNS_PER_ADDR)
    && (forall c, c', cn | Holds(s, c, cn) && Holds(s, c', cn) :: c == c')
    && (forall a, i, j, cn | Slot(s, a, i, cn) && Slot(s, a, j, cn) :: i == j)
    && (forall c, a, i, cn | Holds(s, c, cn) :: !Slot(s, a, i, cn))
    && (forall cn | cn in s.links ::
          cn in s.closed || (exists c :: Holds(s, c, cn)) || exists a, i :: Slot(s, a, i, cn))
  }

  // Closed connections are neither held nor idle; so it is as long as the client is not closed.
  ghost predicate NoneClosedInUse(s: State) {
    && (forall c, cn | Holds(s, c, cn) :: cn !in s.closed)
    && (forall a, i, cn | Slot(s, a, i, cn) :: cn !in s.closed)
  }

  lemma OwnedTake(servers: Servers, s: State, c: CallerId, a: Addr)
    requires Enabled(servers, s, Take(c, a)) && Owned(s)
    ensures Owned(Apply(servers, s, Take(c, a)))
    ensures NoneClosedInUse(s) ==> NoneClosedInUse(Apply(servers, s, Take(c, a)))
  {
    var s' := Apply(servers, s, Take(c, a));
    var n := |s.free[a]| - 1;
    var x := s.free[a][n];
    assert Slot(s, a, n, x);
    forall b, i, cn ensures Slot(s', b, i, cn) <==> Slot(s, b, i, cn) && !(b == a && i == n) {
    }
    forall d, cn ensures Holds(s', d, cn) <==> Holds(s, d, cn) || (d == c && cn == x) {
    }
    forall cn | cn in s'.links
      ensures cn in s'.closed || (exists d :: Holds(s', d, cn)) || exists b, i :: Slot(s', b, i, cn)
    {
      if cn == x {
        assert Holds(s', c, cn);
      } else if cn !in s.closed {
        if d :| Holds(s, d, cn) {
          assert Holds(s', d, cn);
        } else {
          var b, i :| Slot(s, b, i, cn);
          assert Slot(s', b, i, cn);
        }
      }
    }
  }

  lemma OwnedDial(servers: Servers, s: State, c: CallerId, a: Addr, x: ConnId)
    requires Enabled(servers, s, Dial(c, a, x)) && Owned(s)
    ensures Owned(Apply(servers, s, Dial(c, a, x)))
    ensures NoneClosedInUse(s) ==> NoneClosedInUse(Apply(servers, s, Dial(c, a, x)))
  {
    var s' := Apply(servers, s, Dial(c, a, x));
    forall b, i, cn ensures Slot(s', b, i, cn) <==> Slot(s, b, i, cn) {
    }
    forall d, cn ensures Holds(s', d, cn) <==> Holds(s, d, cn) || (d == c && cn == x) {
    }
    forall cn | cn in s'.links
      ensures cn in s'.closed || (exists d :: Holds(s', d, cn)) || exists b, i :: Slot(s', b, i, cn)
    {
      if cn == x {
        assert Holds(s', c, cn);
      } else if cn !in s.closed {
        if d :| Holds(s, d, cn) {
          assert Holds(s', d, cn);
        } else {
          var b, i :| Slot(s, b, i, cn);
          assert Slot(s', b, i, cn);
        }
      }
    }
  }

  lemma OwnedRelease(s: State, c: CallerId)
    requires c in s.callers && s.callers[c].cn in s.links && Owned(s)
    ensures Owned(Released(s, c))
    ensures NoneClosedInUse(s) ==> NoneClosedInUse(Released(s, c))
  {
    var s' := Released(s, c);
    var x := s.callers[c].cn;
    var a := s.links[x].addr;
    var list := FreeList(s.free, a);
    var kept := |list| < MAX_IDLE_CONNS_PER_ADDR;
    assert Holds(s, c, x);
    forall b, i, cn ensures Slot(s', b, i, cn) <==> Slot(s, b, i, cn) || (kept && b == a && i == |list| && cn == x) {
    }
    forall d, cn ensures Holds(s', d, cn) <==> Holds(s, d, cn) && d != c {
    }
    forall cn | cn in s'.links
      ensures cn in s'.closed || (exists d :: Holds(s', d, cn)) || exists b, i :: Slot(s', b, i, cn)
    {
      if cn == x {
        assert cn in s'.closed || Slot(s', a, |list|, cn);
      } else if cn !in s.closed {
        if d :| Holds(s, d, cn) {
          assert Holds(s', d, cn);
        } else {
          var b, i :| Slot(s, b, i, cn);
          assert Slot(s', b, i, cn);
        }
      }
    }
  }

  // A caller gives up its connection, which is closed.
  lemma OwnedDrop(s: State, s': State, c: CallerId)
    requires Owned(s) && c in s.callers
    requires s'.links.Keys == s.links.Keys && forall cn | cn in s.links :: s'.links[cn].addr == s.links[cn].addr
    requires s'.free == s.free && s'.closed == s.closed + {s.callers[c].cn} && s'.callers == s.callers - {c}
    ensures Owned(s')
    ensures NoneClosedInUse(s) ==> NoneClosedInUse(s')
  {
    var x := s.callers[c].cn;
    assert Holds(s, c, x);
    forall b, i, cn ensures Slot(s', b, i, cn) <==> Slot(s, b, i, cn) {
    }
    forall d, cn ensures Holds(s', d, cn) <==> Holds(s, d, cn) && d != c {
    }
    forall cn | cn in s'.links
      ensures cn in s'.closed || (exists d :: Holds(s', d, cn)) || exists b, i :: Slot(s', b, i, cn)
    {
      if cn !in s'.closed {
        if d :| Holds(s, d, cn) {
          assert Holds(s', d, cn);
        } else {
          var b, i :| Slot(s, b, i, cn);
          assert Slot(s', b, i, cn);
        }
      }
    }
  }

  // Nobody's connection changes hands.
  lemma OwnedSame(s: State, s': State)
    requires Owned(s) && s'.callers.Keys == s.callers.Keys
    requires forall c | c in s.callers :: s'.callers[c].cn == s.callers[c].cn
    requires s'.links.Keys == s.links.Keys && forall cn | cn in s.links :: s'.links[cn].addr == s.links[cn].addr
    requires s'.free == s.free && s.closed <= s'.closed <= s.links.Keys
    ensures Owned(s')
    ensures NoneClosedInUse(s) && s'.closed == s.closed ==> NoneClosedInUse(s')
  {
    forall b, i, cn ensures Slot(s', b, i, cn) <==> Slot(s, b, i, cn) {
    }
    forall d, cn ensures Holds(s', d, cn) <==> Holds(s, d, cn) {
    }
    forall cn | cn in s'.links
      ensures cn in s'.closed || (exists d :: Holds(s', d, cn)) || exists b, i :: Slot(s', b, i, cn)
    {
      if cn !in s'.closed {
        if d :| Holds(s, d, cn) {
          assert Holds(s', d, cn);
        } else {
          var b, i :| Slot(s, b, i, cn);
          assert Slot(s', b, i, cn);
        }
      }
    }
  }

  lemma OwnedStep(servers: Servers, s: State, step: Step)
    requires Enabled(servers, s, step) && Owned(s)
    ensures Owned(Apply(servers, s, step))
    ensures NoneClosedInUse(s) && !step.CloseIdle? ==> NoneClosedInUse(Apply(servers, s, step))
  {
    hide Owned, NoneClosedInUse, Output, ResponseAt;
    ClosedKnown(s);
    match step
    case Take(c, a) => OwnedTake(servers, s, c, a);
    case Dial(c, a, x) => OwnedDial(servers, s, c, a, x);
    case Release(c) => OwnedRelease(s, c);
    case NilBody(c, h) =>
      var cn := s.callers[c].cn;
      var s1 := s.(links := s.links[cn := LeaveOn(s.links[cn], h)]);
      OwnedSame(s, s1);
      OwnedRelease(s1, c);
    case Fail(c) => OwnedDrop(s, Apply(servers, s, step), c);
    case SendPart(c, _) => OwnedDrop(s, Apply(servers, s, step), c);
    case Send(_, _) => OwnedSame(s, Apply(servers, s, step));
    case Arrive(_, _) => OwnedSame(s, Apply(servers, s, step));
    case Receive(_) => OwnedSame(s, Apply(servers, s, step));
    case CloseIdle => OwnedSame(s, Apply(servers, s, step));
  }

  lemma ClosedKnown(s: State)
    requires Owned(s)
    ensures s.closed <= s.links.Keys
  {
  }

  // ---- Conservation -----------------------------------------------------------------------

  ghost function HeldSet(s: State): set<ConnId> {
    set c | c in s.callers :: s.callers[c].cn
  }

  ghost function IdleSet(s: State): set<ConnId> {
    set cn | cn in s.links && exists a, i :: Slot(s, a, i, cn)
  }

  lemma {:induction false} OwnedAlways(servers: Servers, steps: seq<Step>)
    requires Exec(servers, steps).Some?
    ensures Owned(Exec(servers, steps).value)
    ensures (forall i | 0 <= i < |steps| :: !steps[i].CloseIdle?) ==> NoneClosedInUse(Exec(servers, steps).value)
    decreases |steps|
  {
    if steps != [] {
      var before := steps[..|steps| - 1];
      OwnedAlways(servers, before);
      OwnedStep(servers, Exec(servers, before).value, steps[|steps| - 1]);
    }
  }

  // In every run without a Close: dialled = held + idle + closed, and no connection that
  // getConn could hand out, or has handed out, is closed.
  lemma Conservation(servers: Servers, steps: seq<Step>)
    requires Exec(servers, steps).Some? && forall i | 0 <= i < |steps| :: !steps[i].CloseIdle?
    ensures var s := Exec(servers, steps).value;
            && s.links.Keys == HeldSet(s) + IdleSet(s) + s.closed
            && HeldSet(s) !! IdleSet(s) !! s.closed
            && |s.links| == |HeldSet(s)| + |IdleSet(s)| + |s.closed|
            && forall a | a in s.free :: |s.free[a]| <= MAX_IDLE_CONNS_PER_ADDR
  {
    hide Exec, HeldSet, IdleSet, NoneClosedInUse, Owned;
    OwnedAlways(servers, steps);
    Partition(Exec(servers, steps).value);
    Cardinalities(Exec(servers, steps).value);
  }

  lemma Partition(s: State)
    requires Owned(s) && NoneClosedInUse(s)
    ensures s.links.Keys == HeldSet(s) + IdleSet(s) + s.closed
    ensures HeldSet(s) !! IdleSet(s) !! s.closed
    ensures forall a | a in s.free :: |s.free[a]| <= MAX_IDLE_CONNS_PER_ADDR
  {
    forall cn ensures cn in HeldSet(s) <==> exists c :: Holds(s, c, cn) {
      if c :| Holds(s, c, cn) {
        assert s.callers[c].cn in HeldSet(s);
      }
      if cn in HeldSet(s) {
        var c :| c in s.callers && s.callers[c].cn == cn;
        assert Holds(s, c, cn);
      }
    }
  }

  lemma Cardinalities(s: State)
    requires s.links.Keys == HeldSet(s) + IdleSet(s) + s.closed && HeldSet(s) !! IdleSet(s) !! s.closed
    ensures |s.links| == |HeldSet(s)| + |IdleSet(s)| + |s.closed|
  {
    hide HeldSet, IdleSet;
    assert |s.links| == |s.links.Keys|;
    assert |HeldSet(s) + IdleSet(s)| == |HeldSet(s)| + |IdleSet(s)|;
  }

  // ---- No crossed responses -----------------------------------------------------------------

  // Well-formed requests are answered with less than 2^32 bytes, in headers that keep to the Go
  // field types, or not at all.
  ghost predicate HandlersFit(servers: Servers) {
    forall cn: ConnId, k: nat, q: Message | WellFormed(q) :: FitReply(servers(cn), k, q)
  }

  predicate FitReply(handler: Handler, k: nat, q: Message) {
    var m := ReplyTo(handler, k, q); m.Some? ==> HeaderOk(m.value.header) && W32.Unsigned(|m.value.body|)
  }

  // So it is for all handlers that write less than 2^32 bytes, whether they leave the header of
  // the request alone or set any that Go's types allow.
  lemma HandlersFitIf(servers: Servers)
    requires forall cn: ConnId, k: nat, q: Message | WellFormed(q) :: ActsFit(servers(cn)(k, q.header, q.body))
    ensures HandlersFit(servers)
  {
    hide ActsFit, HeaderOk, ReplyMessage;
    forall cn: ConnId, k: nat, q: Message | WellFormed(q) ensures FitReply(servers(cn), k, q) {
      EmptyBodyOk(q);
      if ReplyTo(servers(cn), k, q).Some? {
        ActsGiveFit(servers(cn)(k, q.header, q.body), q.header.(bodyLen := 0));
      }
    }
  }

  lemma EmptyBodyOk(q: Message)
    requires WellFormed(q)
    ensures HeaderOk(q.header.(bodyLen := 0))
  {
  }

  ghost predicate IsAwaited(s: State, cn: ConnId) {
    exists c :: Holds(s, c, cn) && s.callers[c].Awaiting?
  }

  // The handler sends nothing in reply to any of the messages.
  predicate Ignored(handler: Handler, k: nat, qs: seq<Message>) {
    forall i | 0 <= i < |qs| :: WellFormed(qs[i]) && ReplyTo(handler, k + i, qs[i]) == None
  }

  // Everything sent is whole frames, and nothing that waits will be answered. The client has read
  // the replies to all that was sent, or to all but the last while a caller waits for it.
  predicate LinkInSync(handler: Handler, l: Link, awaited: bool) {
    && (awaited ==> l.sent != [])
    && (forall i | 0 <= i < |l.sent| :: WellFormed(l.sent[i]))
    && l.written == Sent(l.sent) && Ignored(handler, |l.sent|, l.buffered)
    && l.arrived <= |Replies(handler, 0, l.sent)|
    && l.read == |Replies(handler, 0, if awaited then l.sent[..|l.sent| - 1] else l.sent)|
  }

  // Whatever is written to the connection from now on, no response will ever be read from it.
  ghost predicate Dead(handler: Handler, l: Link) {
    forall more: bytes, n: nat :: NothingAt(handler, l.written + Sent(l.buffered) + more, n, l.read)
  }

  // In the first n bytes that the server writes there is no response at off.
  predicate NothingAt(handler: Handler, input: bytes, n: nat, off: nat) {
    ResponseAt(FirstOf(Output(handler, input), n), off).None?
  }

  // What holds of every open connection; kept tells whether headers without body may have stayed
  // in its write buffer.
  ghost predicate LinkFine(handler: Handler, l: Link, awaited: bool, kept: bool) {
    && (awaited || !kept ==> l.buffered == [])
    && (LinkInSync(handler, l, awaited) || (kept && Dead(handler, l)))
  }

  predicate LastSent(l: Link, req: Message) {
    l.sent != [] && l.sent[|l.sent| - 1] == req
  }

  // The server's last call on the connection is on the request, the response is what its handler
  // sent in reply, and the client has read all of the server's output.
  predicate OwnReply(handler: Handler, l: Link, req: Message, resp: Message) {
    var (calls, out) := Served(handler, 0, l.written, 0);
    && calls != [] && calls[|calls| - 1] == req && ReplyTo(handler, |calls| - 1, req) == Some(resp)
    && l.read == |out|
  }

  ghost predicate CallerInSync(servers: Servers, s: State, c: CallerId)
    requires c in s.callers
  {
    match s.callers[c]
    case Holding(_) => true
    case Awaiting(cn, req) => cn in s.links && LastSent(s.links[cn], req)
    case Answered(cn, req, resp) => cn in s.links && OwnReply(servers(cn), s.links[cn], req, resp)
  }

  ghost predicate InSync(servers: Servers, s: State, kept: bool) {
    && (forall cn | cn in s.links && cn !in s.closed :: LinkFine(servers(cn), s.links[cn], IsAwaited(s, cn), kept))
    && (forall c | c in s.callers :: CallerInSync(servers, s, c))
  }

  // ---- One connection ---------------------------------------------------------------------------

  lemma {:induction false} IgnoredReplies(handler: Handler, k: nat, qs: seq<Message>)
    requires Ignored(handler, k, qs)
    ensures Replies(handler, k, qs) == []
    decreases |qs|
  {
    hide ReplyTo, WellFormed, FrameBytes, Reply;
    if qs != [] {
      ReplyIsMessage(handler, k, qs[0]);
      assert ReplyTo(handler, k + 0, qs[0]) == None;
      forall i | 0 <= i < |qs[1..]|
        ensures WellFormed(qs[1..][i]) && ReplyTo(handler, k + 1 + i, qs[1..][i]) == None
      {
        assert qs[1..][i] == qs[i + 1] && k + 1 + i == k + (i + 1);
      }
      IgnoredReplies(handler, k + 1, qs[1..]);
    }
  }

  // The calls the server will have made once the write buffer is flushed.
  function Calls(l: Link): seq<Message> {
    l.sent + l.buffered
  }

  lemma CallsInSync(handler: Handler, l: Link)
    requires LinkInSync(handler, l, false)
    ensures forall i | 0 <= i < |Calls(l)| :: WellFormed(Calls(l)[i])
    ensures l.written + Sent(l.buffered) == Sent(Calls(l))
    ensures l.arrived <= |Replies(handler, 0, Calls(l))| && l.read == |Replies(handler, 0, Calls(l))|
  {
    hide WellFormed, ReplyTo, Sent, Replies;
    SentConcat(l.sent, l.buffered);
    RepliesConcat(handler, 0, l.sent, l.buffered);
    IgnoredReplies(handler, |l.sent|, l.buffered);
  }

  lemma SendInSync(handler: Handler, l: Link, req: Message)
    requires LinkInSync(handler, l, false) && WellFormed(req)
    ensures LinkInSync(handler, SendOn(l, req), true)
  {
    CallsInSync(handler, l);
    hide WellFormed, Reply, FrameBytes, Sent, Replies;
    FramesAppend(Calls(l), req);
    RepliesAppend(handler, 0, Calls(l), req);
    assert (Calls(l) + [req])[..|Calls(l)|] == Calls(l);
  }

  lemma SentGood(handler: Handler, l: Link, req: Message)
    requires LinkInSync(handler, l, true) && LastSent(l, req)
    ensures WellFormed(req)
  {
  }

  lemma ReceiveInSync(handler: Handler, l: Link, req: Message, inbox: bytes)
    requires LinkInSync(handler, l, true) && LastSent(l, req) && FitReply(handler, |l.sent| - 1, req)
    requires l.read <= l.arrived <= |Output(handler, l.written)| && inbox == Output(handler, l.written)[..l.arrived]
    requires ResponseAt(inbox, l.read).Some?
    ensures var (resp, end) := ResponseAt(inbox, l.read).value;
            && OwnReply(handler, l.(read := end), req, resp) && LinkInSync(handler, l.(read := end), false)
            && ReplyTo(handler, |l.sent| - 1, req) == Some(resp)
  {
    hide WellFormed, ReplyTo, ResponseAt, Output, Sent, Reply, Replies;
    var prev := l.sent[..|l.sent| - 1];
    assert l.sent == prev + [req];
    OutputOfFrames(handler, l.sent);
    RepliesAppend(handler, 0, prev, req);
    TailOfPrefix(Replies(handler, 0, prev), Reply(handler, |prev|, req), l.arrived, inbox);
    ResponseIsReply(handler, |prev|, req, inbox, l.read);
  }

  lemma TailOfPrefix(a: bytes, b: bytes, n: nat, p: bytes)
    requires |a| <= n <= |a + b| && p == (a + b)[..n]
    ensures |a| <= |p| && p[|a|..] <= b
    ensures p[|a|..] == b ==> n == |a + b|
  {
    assert p[|a|..] == b[..n - |a|];
  }

  // A dead connection stays dead.
  lemma DeadSince(handler: Handler, l: Link, l': Link, extra: bytes)
    requires Dead(handler, l) && l'.read == l.read
    requires l'.written + Sent(l'.buffered) == l.written + Sent(l.buffered) + extra
    ensures Dead(handler, l')
  {
    hide NothingAt, Sent;
    forall more: bytes, n: nat ensures NothingAt(handler, l'.written + Sent(l'.buffered) + more, n, l'.read) {
      assert l'.written + Sent(l'.buffered) + more == l.written + Sent(l.buffered) + (extra + more);
    }
  }

  lemma DeadIsDumb(servers: Servers, cn: ConnId, l: Link)
    requires Dead(servers(cn), l) && l.buffered == []
    ensures ResponseAt(Inbox(servers, cn, l), l.read).None?
  {
    hide Output, ResponseAt;
    assert l.written + Sent(l.buffered) + [] == l.written;
    assert NothingAt(servers(cn), l.written + Sent(l.buffered) + [], l.arrived, l.read);
  }

  lemma SendFine(handler: Handler, l: Link, req: Message, kept: bool)
    requires LinkFine(handler, l, false, kept) && WellFormed(req)
    ensures LinkFine(handler, SendOn(l, req), true, kept)
  {
    hide Dead, LinkInSync, WellFormed, FrameBytes;
    if LinkInSync(handler, l, false) {
      SendInSync(handler, l, req);
    } else {
      var l' := SendOn(l, req);
      assert l'.written + Sent(l'.buffered) == l.written + Sent(l.buffered) + FrameBytes(req);
      DeadSince(handler, l, l', FrameBytes(req));
    }
  }

  lemma ArriveFine(handler: Handler, l: Link, awaited: bool, kept: bool, n: nat)
    requires LinkFine(handler, l, awaited, kept) && l.arrived + n <= |Output(handler, l.written)|
    ensures LinkFine(handler, l.(arrived := l.arrived + n), awaited, kept)
  {
    hide NothingAt, WellFormed, Output, Replies, Sent, Ignored;
    if LinkInSync(handler, l, awaited) {
      OutputOfFrames(handler, l.sent);
    }
  }

  lemma ReadArrived(data: bytes, off: nat)
    requires ResponseAt(data, off).Some?
    ensures off <= |data|
  {
  }

  lemma Arrived(handler: Handler, l: Link)
    requires LinkInSync(handler, l, true)
    ensures l.arrived <= |Output(handler, l.written)|
  {
    hide WellFormed, Output, Replies;
    OutputOfFrames(handler, l.sent);
  }

  lemma ReceiveFine(servers: Servers, cn: ConnId, l: Link, req: Message, kept: bool)
    requires HandlersFit(servers) && LinkFine(servers(cn), l, true, kept) && LastSent(l, req)
    requires ResponseAt(Inbox(servers, cn, l), l.read).Some?
    ensures var (resp, end) := ResponseAt(Inbox(servers, cn, l), l.read).value;
            && OwnReply(servers(cn), l.(read := end), req, resp)
            && LinkFine(servers(cn), l.(read := end), false, kept)
  {
    hide Dead, LinkInSync, ResponseAt, Output, FitReply, WellFormed, OwnReply;
    if !LinkInSync(servers(cn), l, true) {
      DeadIsDumb(servers, cn, l);
    }
    SentGood(servers(cn), l, req);
    Arrived(servers(cn), l);
    ReadArrived(Inbox(servers, cn, l), l.read);
    ReceiveInSync(servers(cn), l, req, Inbox(servers, cn, l));
  }

  // ---- A header without body ----------------------------------------------------------------------

  // The server would answer the header, and the client could read the answer.
  predicate Responds(handler: Handler, l: Link, h: Header) {
    var q := Message(h, []);
    WellFormed(q) && var m := ReplyTo(handler, |Calls(l)|, q); m.Some? && WellFormed(m.value)
  }

  lemma NotAHeader(data: bytes, off: nat, h: Header)
    requires HeaderOk(h) && h.magicNum != HEADER_MAGICNUM
    requires off + HEADER_SIZE <= |data| ==> data[off..off + HEADER_SIZE] == HeaderBytes(h)
    ensures HeaderAt(data, off).None? && ResponseAt(data, off).None?
  {
    hide HeaderBytes, ParseHeader;
    HeaderRoundTrip(h);
  }

  lemma SentInFront(qs: seq<Message>, more: bytes)
    ensures At(Sent(qs) + more, 0, Sent(qs))
  {
    hide Sent;
    assert (Sent(qs) + more)[0..|Sent(qs)|] == Sent(qs);
  }

  // The server's output starts with its replies to all calls in front.
  lemma OutputThen(handler: Handler, qs: seq<Message>, more: bytes) returns (rest: (seq<Message>, bytes))
    requires forall i | 0 <= i < |qs| :: WellFormed(qs[i])
    ensures rest == Served(handler, |qs|, Sent(qs) + more, |Sent(qs)|)
    ensures Output(handler, Sent(qs) + more) == Replies(handler, 0, qs) + rest.1
  {
    hide At, Served, Replies, Sent, WellFormed;
    SentInFront(qs, more);
    InStepThen(handler, 0, Sent(qs) + more, 0, qs);
    rest := Served(handler, |qs|, Sent(qs) + more, |Sent(qs)|);
  }

  // Under another magic number, the server stops reading at it.
  lemma OtherMagicDead(handler: Handler, l: Link, h: Header)
    requires LinkInSync(handler, l, false) && HeaderOk(h) && h.magicNum != HEADER_MAGICNUM
    ensures Dead(handler, LeaveOn(l, h))
  {
    hide LinkInSync, WellFormed, Sent, Replies, HeaderAt, HeaderBytes, ResponseAt, Output;
    CallsInSync(handler, l);
    var qs, l' := Calls(l), LeaveOn(l, h);
    SentConcat(l.buffered, [Message(h, [])]);
    OneSent(Message(h, []));
    HeaderRoundTrip(h);
    forall more: bytes, n: nat ensures NothingAt(handler, l'.written + Sent(l'.buffered) + more, n, l'.read) {
      var tail := HeaderBytes(h) + more;
      var input := Sent(qs) + tail;
      assert l'.written + Sent(l'.buffered) + more == input;
      assert input[|Sent(qs)|..|Sent(qs)| + HEADER_SIZE] == HeaderBytes(h);
      NotAHeader(input, |Sent(qs)|, h);
      ServedStep(handler, |qs|, input, |Sent(qs)|);
      var rest := OutputThen(handler, qs, tail);
      assert Output(handler, input) == Replies(handler, 0, qs);
      NoResponse(FirstOf(Output(handler, input), n), l.read);
    }
  }

  lemma OneSent(q: Message)
    ensures Sent([q]) == FrameBytes(q)
  {
    assert [q][1..] == [];
  }

  // An answer under another magic number cannot be read.
  lemma OtherReplyDead(handler: Handler, l: Link, h: Header)
    requires LinkInSync(handler, l, false)
    requires WellFormed(Message(h, [])) && FitReply(handler, |Calls(l)|, Message(h, []))
    requires var m := ReplyTo(handler, |Calls(l)|, Message(h, [])); m.Some? && !WellFormed(m.value)
    ensures Dead(handler, LeaveOn(l, h))
  {
    hide LinkInSync, ReplyTo, Sent, Replies, HeaderBytes, ResponseAt, Output, Reply;
    CallsInSync(handler, l);
    var q, l' := Message(h, []), LeaveOn(l, h);
    var qs, m := Calls(l), ReplyTo(handler, |Calls(l)|, q).value;
    SentConcat(l.buffered, [q]);
    SentConcat(qs, [q]);
    ReplyBodyLen(handler, |qs|, q);
    ReplyIsMessage(handler, |qs|, q);
    RepliesAppend(handler, 0, qs, q);
    HeaderRoundTrip(m.header);
    forall more: bytes, n: nat ensures NothingAt(handler, l'.written + Sent(l'.buffered) + more, n, l'.read) {
      var input := Sent(qs + [q]) + more;
      assert l'.written + Sent(l'.buffered) + more == input;
      var rest := OutputThen(handler, qs + [q], more);
      var out := Output(handler, input);
      assert out == Replies(handler, 0, qs) + (HeaderBytes(m.header) + m.body) + rest.1;
      assert out[l.read..l.read + HEADER_SIZE] == HeaderBytes(m.header);
      FirstSlice(out, n, l.read, l.read + HEADER_SIZE);
      NotAHeader(FirstOf(out, n), l.read, m.header);
    }
  }

  lemma FirstSlice(out: bytes, n: nat, i: nat, j: nat)
    requires i <= j <= |out|
    ensures j <= |FirstOf(out, n)| ==> FirstOf(out, n)[i..j] == out[i..j]
  {
  }

  // A header that is not answered can stay in the write buffer.
  lemma IgnoredInSync(handler: Handler, l: Link, h: Header)
    requires LinkInSync(handler, l, false) && WellFormed(Message(h, []))
    requires ReplyTo(handler, |Calls(l)|, Message(h, [])) == None
    ensures LinkInSync(handler, LeaveOn(l, h), false)
  {
    hide WellFormed, ReplyTo, Sent, Replies;
  }

  lemma LeaveFine(handler: Handler, l: Link, h: Header)
    requires LinkFine(handler, l, false, true) && HeaderOk(h) && (h.magicNum == HEADER_MAGICNUM ==> h.bodyLen == 0)
    requires WellFormed(Message(h, [])) ==> FitReply(handler, |Calls(l)|, Message(h, []))
    requires !(LinkInSync(handler, l, false) && Responds(handler, l, h))
    ensures LinkFine(handler, LeaveOn(l, h), false, true)
  {
    hide LinkInSync, Dead, FitReply, ReplyTo, HeaderOk, FrameBytes;
    var q := Message(h, []);
    if !LinkInSync(handler, l, false) {
      SentConcat(l.buffered, [q]);
      assert l.written + Sent(l.buffered + [q]) == l.written + Sent(l.buffered) + Sent([q]);
      DeadSince(handler, l, LeaveOn(l, h), Sent([q]));
    } else if h.magicNum != HEADER_MAGICNUM {
      OtherMagicDead(handler, l, h);
    } else if ReplyTo(handler, |Calls(l)|, q).None? {
      IgnoredInSync(handler, l, h);
    } else {
      OtherReplyDead(handler, l, h);
    }
  }

  // ---- Steps --------------------------------------------------------------------------------------

  // Other connections are not affected by what one caller does with its own.
  lemma OthersAwaited(s: State, s': State, c: CallerId, cn: ConnId)
    requires forall d | d != c ::
               (d in s'.callers <==> d in s.callers) && (d in s.callers ==> s'.callers[d] == s.callers[d])
    requires !Holds(s, c, cn) && !Holds(s', c, cn)
    ensures IsAwaited(s', cn) == IsAwaited(s, cn)
  {
    if d :| Holds(s, d, cn) && s.callers[d].Awaiting? {
      assert Holds(s', d, cn);
    }
    if d :| Holds(s', d, cn) && s'.callers[d].Awaiting? {
      assert Holds(s, d, cn);
    }
  }

  // A held connection is awaited exactly when its holder awaits.
  lemma HolderAwaits(s: State, c: CallerId, cn: ConnId)
    requires Owned(s) && Holds(s, c, cn)
    ensures IsAwaited(s, cn) == s.callers[c].Awaiting?
  {
  }

  lemma TakeSync(servers: Servers, s: State, c: CallerId, a: Addr, kept: bool)
    requires Enabled(servers, s, Take(c, a)) && Owned(s) && InSync(servers, s, kept)
    ensures InSync(servers, Apply(servers, s, Take(c, a)), kept)
  {
    hide LinkFine, OwnReply;
    var s' := Apply(servers, s, Take(c, a));
    var n := |s.free[a]| - 1;
    var x := s.free[a][n];
    assert Slot(s, a, n, x) && Holds(s', c, x);
    forall cn | cn in s'.links && cn !in s'.closed ensures IsAwaited(s', cn) == IsAwaited(s, cn) {
      if cn != x {
        OthersAwaited(s, s', c, cn);
      } else {
        assert forall d :: Holds(s', d, x) ==> d == c || Holds(s, d, x);
      }
    }
    forall d | d in s'.callers ensures CallerInSync(servers, s', d) {
      assert d == c || CallerInSync(servers, s, d);
    }
  }

  lemma DialSync(servers: Servers, s: State, c: CallerId, a: Addr, x: ConnId, kept: bool)
    requires Enabled(servers, s, Dial(c, a, x)) && Owned(s) && InSync(servers, s, kept)
    ensures InSync(servers, Apply(servers, s, Dial(c, a, x)), kept)
  {
    hide LinkFine, OwnReply;
    var s' := Apply(servers, s, Dial(c, a, x));
    NewFine(servers(x), a, kept);
    forall cn | cn in s'.links && cn !in s'.closed
      ensures LinkFine(servers(cn), s'.links[cn], IsAwaited(s', cn), kept)
    {
      if cn != x {
        OthersAwaited(s, s', c, cn);
      } else {
        assert forall d :: Holds(s', d, x) ==> d == c || Holds(s, d, x);
      }
    }
    forall d | d in s'.callers ensures CallerInSync(servers, s', d) {
      if d != c {
        assert CallerInSync(servers, s, d) && Holds(s, d, s.callers[d].cn);
      }
    }
  }

  lemma NewFine(handler: Handler, a: Addr, kept: bool)
    ensures LinkFine(handler, Link(a, [], [], [], 0, 0), false, kept)
  {
  }

  lemma SendSync(servers: Servers, s: State, c: CallerId, req: Message, kept: bool)
    requires Enabled(servers, s, Send(c, req)) && Owned(s) && InSync(servers, s, kept)
    ensures InSync(servers, Apply(servers, s, Send(c, req)), kept)
  {
    hide LinkFine, OwnReply, WellFormed, FrameBytes;
    var s' := Apply(servers, s, Send(c, req));
    var x := s.callers[c].cn;
    assert Holds(s, c, x) && Holds(s', c, x);
    HolderAwaits(s, c, x);
    SendFine(servers(x), s.links[x], req, kept);
    forall cn | cn in s'.links && cn !in s'.closed
      ensures LinkFine(servers(cn), s'.links[cn], IsAwaited(s', cn), kept)
    {
      if cn != x {
        OthersAwaited(s, s', c, cn);
      }
    }
    OthersCallers(servers, s, s', c, x, kept);
  }

  // Callers on other connections stay in step when only x and its holder change.
  lemma OthersCallers(servers: Servers, s: State, s': State, c: CallerId, x: ConnId, kept: bool)
    requires Owned(s) && InSync(servers, s, kept) && Holds(s, c, x)
    requires forall d | d in s'.callers && d != c :: d in s.callers && s'.callers[d] == s.callers[d]
    requires s'.links.Keys == s.links.Keys && forall cn | cn in s.links && cn != x :: s'.links[cn] == s.links[cn]
    ensures forall d | d in s'.callers && d != c :: CallerInSync(servers, s', d)
  {
    hide LinkFine, OwnReply;
    forall d | d in s'.callers && d != c ensures CallerInSync(servers, s', d) {
      assert CallerInSync(servers, s, d);
      assert Holds(s, d, s.callers[d].cn);
    }
  }

  lemma ArriveSync(servers: Servers, s: State, x: ConnId, n: nat, kept: bool)
    requires Enabled(servers, s, Arrive(x, n)) && Owned(s) && InSync(servers, s, kept)
    ensures InSync(servers, Apply(servers, s, Arrive(x, n)), kept)
  {
    hide LinkFine, ReplyTo, Output, Served;
    var s' := Apply(servers, s, Arrive(x, n));
    forall cn | cn in s'.links && cn !in s'.closed
      ensures LinkFine(servers(cn), s'.links[cn], IsAwaited(s', cn), kept)
    {
      SameAwaited(s, s', cn);
      if cn == x {
        ArriveFine(servers(x), s.links[x], IsAwaited(s, x), kept, n);
      }
    }
    forall d | d in s'.callers ensures CallerInSync(servers, s', d) {
      assert CallerInSync(servers, s, d);
    }
  }

  lemma SameAwaited(s: State, s': State, cn: ConnId)
    requires s'.callers == s.callers
    ensures IsAwaited(s', cn) == IsAwaited(s, cn)
  {
    if d :| Holds(s, d, cn) && s.callers[d].Awaiting? {
      assert Holds(s', d, cn);
    }
    if d :| Holds(s', d, cn) && s'.callers[d].Awaiting? {
      assert Holds(s, d, cn);
    }
  }

  lemma ReceiveSync(servers: Servers, s: State, c: CallerId, kept: bool)
    requires Enabled(servers, s, Receive(c)) && Owned(s) && InSync(servers, s, kept) && HandlersFit(servers)
    ensures InSync(servers, Apply(servers, s, Receive(c)), kept)
  {
    hide LinkFine, OwnReply, ResponseAt, Output, HandlersFit, LastSent;
    var s' := Apply(servers, s, Receive(c));
    var x, req := s.callers[c].cn, s.callers[c].req;
    var l := s.links[x];
    assert Holds(s, c, x) && Holds(s', c, x);
    HolderAwaits(s, c, x);
    assert CallerInSync(servers, s, c);
    ReceiveFine(servers, x, l, req, kept);
    forall cn | cn in s'.links && cn !in s'.closed
      ensures LinkFine(servers(cn), s'.links[cn], IsAwaited(s', cn), kept)
    {
      if cn != x {
        OthersAwaited(s, s', c, cn);
      } else {
        assert forall d :: Holds(s', d, x) ==> Holds(s, d, x);
      }
    }
    OthersCallers(servers, s, s', c, x, kept);
  }

  lemma ReleaseSync(servers: Servers, s: State, c: CallerId, kept: bool)
    requires c in s.callers && s.callers[c].cn in s.links && !s.callers[c].Awaiting?
    requires Owned(s) && InSync(servers, s, kept)
    ensures InSync(servers, Released(s, c), kept)
  {
    hide LinkFine, OwnReply;
    var s' := Released(s, c);
    var x := s.callers[c].cn;
    assert Holds(s, c, x);
    HolderAwaits(s, c, x);
    forall cn | cn in s'.links && cn !in s'.closed ensures IsAwaited(s', cn) == IsAwaited(s, cn) {
      if cn != x {
        OthersAwaited(s, s', c, cn);
      } else {
        assert forall d :: Holds(s', d, x) ==> d != c && Holds(s, d, x);
      }
    }
    OthersCallers(servers, s, s', c, x, kept);
  }

  lemma DropSync(servers: Servers, s: State, s': State, c: CallerId, kept: bool)
    requires Owned(s) && InSync(servers, s, kept) && c in s.callers
    requires s'.closed == s.closed + {s.callers[c].cn} && s'.callers == s.callers - {c}
    requires s'.links.Keys == s.links.Keys
    requires forall cn | cn in s.links && cn != s.callers[c].cn :: s'.links[cn] == s.links[cn]
    ensures InSync(servers, s', kept)
  {
    hide LinkFine, OwnReply;
    var x := s.callers[c].cn;
    assert Holds(s, c, x);
    forall cn | cn in s'.links && cn !in s'.closed
      ensures LinkFine(servers(cn), s'.links[cn], IsAwaited(s', cn), kept)
    {
      OthersAwaited(s, s', c, cn);
    }
    OthersCallers(servers, s, s', c, x, kept);
  }

  lemma CloseSync(servers: Servers, s: State, s': State, kept: bool)
    requires InSync(servers, s, kept) && s'.callers == s.callers && s'.links == s.links && s.closed <= s'.closed
    ensures InSync(servers, s', kept)
  {
    hide LinkFine, OwnReply;
    forall cn | cn in s'.links && cn !in s'.closed
      ensures LinkFine(servers(cn), s'.links[cn], IsAwaited(s', cn), kept)
    {
      SameAwaited(s, s', cn);
    }
    forall d | d in s'.callers ensures CallerInSync(servers, s', d) {
      assert CallerInSync(servers, s, d);
    }
  }

  // The address of the caller's connection has as many idle connections as it may have.
  predicate Full(s: State, c: CallerId)
    requires c in s.callers && s.callers[c].cn in s.links
  {
    |FreeList(s.free, s.links[s.callers[c].cn].addr)| >= MAX_IDLE_CONNS_PER_ADDR
  }

  // The connection of a request without a body is kept and is in step, and the server will answer
  // the header as a request of its own.
  predicate KeptAndAnswered(servers: Servers, s: State, c: CallerId, h: Header)
    requires c in s.callers && s.callers[c].cn in s.links
  {
    var cn := s.callers[c].cn;
    !Full(s, c) && LinkInSync(servers(cn), s.links[cn], false) && Responds(servers(cn), s.links[cn], h)
  }

  // A request without a body is harmless if its connection is closed instead of being kept; or if
  // headers may be kept, when the server will not answer this one.
  predicate MayTake(servers: Servers, s: State, step: Step, kept: bool)
    requires step.NilBody? ==> step.c in s.callers && s.callers[step.c].cn in s.links
  {
    step.NilBody? ==>
      || Full(s, step.c)
      || (kept && Unannounced(step.h) && !KeptAndAnswered(servers, s, step.c, step.h))
  }

  // The header announces no body, as that of NewRequest does when it has none to announce.
  predicate Unannounced(h: Header) {
    h.magicNum == HEADER_MAGICNUM ==> h.bodyLen == 0
  }

  lemma NilBodySync(servers: Servers, s: State, c: CallerId, h: Header, kept: bool)
    requires Enabled(servers, s, NilBody(c, h)) && Owned(s) && InSync(servers, s, kept) && HandlersFit(servers)
    requires MayTake(servers, s, NilBody(c, h), kept)
    ensures InSync(servers, Apply(servers, s, NilBody(c, h)), kept)
  {
    hide LinkFine, OwnReply, LinkInSync, Responds, FitReply, WellFormed, HeaderOk;
    var s' := Apply(servers, s, NilBody(c, h));
    var x := s.callers[c].cn;
    if Full(s, c) {
      DropSync(servers, s, s', c, kept);
    } else {
      var s1 := s.(links := s.links[x := LeaveOn(s.links[x], h)]);
      assert Holds(s, c, x);
      HolderAwaits(s, c, x);
      LeaveFine(servers(x), s.links[x], h);
      OwnedSame(s, s1);
      forall cn | cn in s1.links && cn !in s1.closed
        ensures LinkFine(servers(cn), s1.links[cn], IsAwaited(s1, cn), kept)
      {
        SameAwaited(s, s1, cn);
      }
      OthersCallers(servers, s, s1, c, x, kept);
      ReleaseSync(servers, s1, c, kept);
    }
  }

  // No header may be kept: a request without a body whose connection is kept breaks this.
  lemma NilBodyBreaks(servers: Servers, s: State, c: CallerId, h: Header)
    requires Enabled(servers, s, NilBody(c, h)) && Owned(s) && !Full(s, c)
    ensures !InSync(servers, Apply(servers, s, NilBody(c, h)), false)
  {
    hide LinkInSync, Dead, HeaderOk;
    var s' := Apply(servers, s, NilBody(c, h));
    var x := s.callers[c].cn;
    assert x in s'.links && x !in s'.closed && s'.links[x].buffered != [];
  }

  // Every step leaves everything in step, except for a request without a body that is not
  // harmless; so it is if and only if the step is harmless where no header may be kept.
  lemma SyncStep(servers: Servers, s: State, step: Step, kept: bool)
    requires Enabled(servers, s, step) && Owned(s) && InSync(servers, s, kept) && HandlersFit(servers)
    ensures MayTake(servers, s, step, kept) ==> InSync(servers, Apply(servers, s, step), kept)
    ensures !kept && InSync(servers, Apply(servers, s, step), kept) ==> MayTake(servers, s, step, kept)
  {
    hide LinkInSync, OwnReply, ReplyTo, ResponseAt, Output, WellFormed, Owned, IsAwaited, InSync, HeaderBytes, Responds;
    hide HandlersFit, Full, KeptAndAnswered;
    var s' := Apply(servers, s, step);
    match step
    case Take(c, a) => TakeSync(servers, s, c, a, kept);
    case Dial(c, a, cn) => DialSync(servers, s, c, a, cn, kept);
    case Send(c, req) => SendSync(servers, s, c, req, kept);
    case SendPart(c, _) => DropSync(servers, s, s', c, kept);
    case NilBody(c, h) =>
      if MayTake(servers, s, step, kept) {
        NilBodySync(servers, s, c, h, kept);
      } else if !kept {
        NilBodyBreaks(servers, s, c, h);
      }
    case Arrive(cn, n) => ArriveSync(servers, s, cn, n, kept);
    case Receive(c) => ReceiveSync(servers, s, c, kept);
    case Release(c) => ReleaseSync(servers, s, c, kept);
    case Fail(c) => DropSync(servers, s, s', c, kept);
    case CloseIdle => CloseSync(servers, s, s', kept);
  }

  // ---- Runs ---------------------------------------------------------------------------------------

  // Every step of the run is harmless.
  ghost predicate Harmless(servers: Servers, s0: State, steps: seq<Step>, kept: bool)
    decreases |steps|
  {
    steps == [] ||
    var last := |steps| - 1;
    && Harmless(servers, s0, steps[..last], kept)
    && match ExecFrom(servers, s0, steps[..last])
       case None => true
       case Some(s) => Enabled(servers, s, steps[last]) ==> MayTake(servers, s, steps[last], kept)
  }

  // So it is when every request has a body, as those have that NewRequest makes from one.
  lemma {:induction false} BodiesAreHarmless(servers: Servers, s0: State, steps: seq<Step>, kept: bool)
    requires forall i | 0 <= i < |steps| :: !steps[i].NilBody?
    ensures Harmless(servers, s0, steps, kept)
    decreases |steps|
  {
    hide ExecFrom, Enabled;
    if steps != [] {
      BodiesAreHarmless(servers, s0, steps[..|steps| - 1], kept);
    }
  }

  lemma {:induction false} StaysInSync(servers: Servers, s0: State, steps: seq<Step>, kept: bool)
    requires HandlersFit(servers) && Owned(s0) && InSync(servers, s0, kept)
    requires ExecFrom(servers, s0, steps).Some? && Harmless(servers, s0, steps, kept)
    ensures var s := ExecFrom(servers, s0, steps).value; Owned(s) && InSync(servers, s, kept)
    decreases |steps|
  {
    hide InSync, Owned, HandlersFit, Apply, Enabled, MayTake;
    if steps != [] {
      var before := steps[..|steps| - 1];
      StaysInSync(servers, s0, before, kept);
      OwnedStep(servers, ExecFrom(servers, s0, before).value, steps[|steps| - 1]);
      SyncStep(servers, ExecFrom(servers, s0, before).value, steps[|steps| - 1], kept);
    }
  }

  lemma StartInSync(servers: Servers, kept: bool)
    ensures Owned(START) && InSync(servers, START, kept)
  {
  }

  // The caller has read something else than the server's reply to its own request.
  ghost predicate Crossed(servers: Servers, s: State, c: CallerId) {
    && c in s.callers && s.callers[c].Answered?
    && var Answered(cn, req, resp) := s.callers[c];
       !(cn in s.links && OwnReply(servers(cn), s.links[cn], req, resp))
  }

  // In every interleaving of callers, failures and closes: a response that a caller has read is
  // what the server's handler sent in reply to that caller's own request, as the last call on
  // the connection.
  lemma NoCrossedResponses(servers: Servers, steps: seq<Step>, s: State, c: CallerId)
    requires HandlersFit(servers) && Harmless(servers, START, steps, true) && Exec(servers, steps) == Some(s)
    requires c in s.callers && s.callers[c].Answered?
    ensures var Answered(cn, req, resp) := s.callers[c];
            && cn in s.links && OwnReply(servers(cn), s.links[cn], req, resp)
            && var k := |Served(servers(cn), 0, s.links[cn].written, 0).0| - 1;
               Answers(servers(cn)(k, req.header, req.body), req.header, resp)
  {
    hide ExecFrom, LinkFine, HandlersFit, Harmless, Served, Answers, ReplyTo;
    StartInSync(servers, true);
    StaysInSync(servers, START, steps, true);
    assert CallerInSync(servers, s, c);
    var Answered(cn, req, resp) := s.callers[c];
    ReplyToIs(servers(cn), |Served(servers(cn), 0, s.links[cn].written, 0).0| - 1, req, resp);
  }

  // The header comes back as it was sent, log id included, if the handler leaves it alone; only the
  // body length is that of the response.
  lemma HeaderComesBack(servers: Servers, steps: seq<Step>, s: State, c: CallerId)
    requires HandlersFit(servers) && Harmless(servers, START, steps, true) && Exec(servers, steps) == Some(s)
    requires c in s.callers && s.callers[c].Answered?
    requires forall k: nat, q: Message, act | act in servers(s.callers[c].cn)(k, q.header, q.body) :: !act.SetHeader?
    ensures var Answered(cn, req, resp) := s.callers[c];
            && resp.header.id == req.header.id && resp.header.version == req.header.version
            && resp.header.logId == req.header.logId && resp.header.provider == req.header.provider
            && resp.header.magicNum == req.header.magicNum && resp.header.reserved == req.header.reserved
            && resp.header.bodyLen == |resp.body| % 0x1_0000_0000 && resp.body != []
  {
    hide ExecFrom, HandlersFit, Harmless, Served, ReplyTo;
    NoCrossedResponses(servers, steps, s, c);
    var Answered(cn, req, resp) := s.callers[c];
    var k := |Served(servers(cn), 0, s.links[cn].written, 0).0| - 1;
    var acts := servers(cn)(k, req.header, req.body);
    var j: nat :| FirstWrite(acts, j, resp.body) && resp.body != []
                  && var h := HeaderAfter(acts[..j], req.header);
                     resp.header == Header(h.id, h.version, h.logId, h.provider, h.magicNum, h.reserved,
                                           |resp.body| % 0x1_0000_0000);
    forall i | 0 <= i < j ensures !acts[..j][i].SetHeader? {
      assert acts[i] in acts;
    }
    HeaderLeft(acts[..j], req.header);
  }

  // Every open idle connection is on a frame boundary: all that was sent on it was answered, all
  // of that has arrived and been read, and nothing waits in the write buffer.
  lemma IdleOnBoundary(servers: Servers, steps: seq<Step>, s: State, a: Addr, i: int, cn: ConnId)
    requires HandlersFit(servers) && Harmless(servers, START, steps, false) && Exec(servers, steps) == Some(s)
    requires Slot(s, a, i, cn) && cn !in s.closed
    ensures cn in s.links && s.links[cn].written == Sent(s.links[cn].sent) && s.links[cn].buffered == []
    ensures s.links[cn].read == |ServerOutput(servers, cn, s.links[cn])|
  {
    hide ExecFrom, ReplyTo, Output, Replies, HandlersFit, Harmless;
    StartInSync(servers, false);
    StaysInSync(servers, START, steps, false);
    assert !IsAwaited(s, cn);
    OutputOfFrames(servers(cn), s.links[cn].sent);
  }

  // ---- Requests without a body ---------------------------------------------------------------

  // The connection is in step but for a header that comes last in its write buffer, and whoever
  // holds it has not sent anything. The server is to make the calls before it comes to the header.
  ghost predicate Stained(servers: Servers, s: State, cn: ConnId, calls: seq<Message>, stale: Header) {
    && cn in s.links && StainedLink(servers(cn), s.links[cn], calls, stale)
    && forall c | Holds(s, c, cn) :: s.callers[c].Holding?
  }

  predicate StainedLink(handler: Handler, l: Link, calls: seq<Message>, stale: Header) {
    l.buffered != [] &&
    var front := l.(buffered := l.buffered[..|l.buffered| - 1]);
    && l == LeaveOn(front, stale) && Calls(front) == calls && LinkInSync(handler, front, false)
  }

  lemma LeaveStains(handler: Handler, l: Link, stale: Header)
    requires LinkInSync(handler, l, false)
    ensures StainedLink(handler, LeaveOn(l, stale), Calls(l), stale)
  {
    hide LinkInSync;
    var q := Message(stale, []);
    assert (l.buffered + [q])[..|l.buffered|] == l.buffered;
    assert LeaveOn(l, stale).(buffered := l.buffered) == l;
  }

  // A request without a body stains the connection, which is the next one to be taken.
  lemma NilBodyStains(servers: Servers, s: State, c: CallerId, stale: Header)
    requires Enabled(servers, s, NilBody(c, stale)) && Owned(s) && !Full(s, c)
    requires LinkInSync(servers(s.callers[c].cn), s.links[s.callers[c].cn], false)
    ensures var s', cn := Apply(servers, s, NilBody(c, stale)), s.callers[c].cn;
            && Stained(servers, s', cn, Calls(s.links[cn]), stale) && cn !in s'.closed
            && TakeFree(s'.free, s.links[cn].addr).0 == Some(cn)
  {
    hide LinkInSync, StainedLink, HeaderOk;
    var s', cn := Apply(servers, s, NilBody(c, stale)), s.callers[c].cn;
    assert Holds(s, c, cn);
    LeaveStains(servers(cn), s.links[cn], stale);
    assert forall d :: Holds(s', d, cn) ==> Holds(s, d, cn) && d != c;
  }

  // The step writes to the connection.
  predicate WritesTo(s: State, step: Step, cn: ConnId) {
    (step.Send? || step.SendPart? || step.NilBody?) && step.c in s.callers && s.callers[step.c].cn == cn
  }

  lemma StainStays(servers: Servers, s: State, step: Step, cn: ConnId, calls: seq<Message>, stale: Header)
    requires Enabled(servers, s, step) && Stained(servers, s, cn, calls, stale) && !WritesTo(s, step, cn)
    ensures Stained(servers, Apply(servers, s, step), cn, calls, stale)
  {
    hide StainedLink, HeaderOk, WellFormed, Output, ResponseAt, Sent, FrameBytes;
    var s' := Apply(servers, s, step);
    if step.Arrive? && step.cn == cn {
      ArriveStained(servers(cn), s.links[cn], step.n, calls, stale);
    }
    if step.Receive? {
      assert Holds(s, step.c, s.callers[step.c].cn);
    }
    assert forall d :: Holds(s', d, cn) ==> Holds(s, d, cn) || s'.callers[d].Holding?;
  }

  lemma ArriveStained(handler: Handler, l: Link, n: nat, calls: seq<Message>, stale: Header)
    requires StainedLink(handler, l, calls, stale) && l.arrived + n <= |Output(handler, l.written)|
    ensures StainedLink(handler, l.(arrived := l.arrived + n), calls, stale)
  {
    hide Output, WellFormed, Replies, Sent, Ignored;
    OutputOfFrames(handler, l.sent);
  }

  // No step of the run writes to the connection.
  ghost predicate LeavesAlone(servers: Servers, s0: State, steps: seq<Step>, cn: ConnId)
    decreases |steps|
  {
    steps == [] ||
    var last := |steps| - 1;
    && LeavesAlone(servers, s0, steps[..last], cn)
    && match ExecFrom(servers, s0, steps[..last])
       case None => true
       case Some(s) => !WritesTo(s, steps[last], cn)
  }

  lemma {:induction false} StainStaysOn(servers: Servers, s0: State, steps: seq<Step>, cn: ConnId, calls: seq<Message>,
                                        stale: Header)
    requires Stained(servers, s0, cn, calls, stale) && LeavesAlone(servers, s0, steps, cn)
    requires ExecFrom(servers, s0, steps).Some?
    ensures Stained(servers, ExecFrom(servers, s0, steps).value, cn, calls, stale)
    decreases |steps|
  {
    hide Stained, Apply, Enabled, WritesTo;
    if steps != [] {
      var before := steps[..|steps| - 1];
      StainStaysOn(servers, s0, before, cn, calls, stale);
      StainStays(servers, ExecFrom(servers, s0, before).value, steps[|steps| - 1], cn, calls, stale);
    }
  }

  // What the server answers to a stale header that goes out in front of a frame: its own reply is
  // there to be read, and the frame is the last call.
  lemma StaleHeaderAnswered(handler: Handler, calls: seq<Message>, stale: Header, req: Message)
    requires (forall i | 0 <= i < |calls| :: WellFormed(calls[i])) && WellFormed(Message(stale, [])) && WellFormed(req)
    requires var m := ReplyTo(handler, |calls|, Message(stale, [])); m.Some? && WellFormed(m.value)
    ensures var q := Message(stale, []);
            var m, before := ReplyTo(handler, |calls|, q).value, |Replies(handler, 0, calls)|;
            var (made, out) := Served(handler, 0, Sent(calls + [q] + [req]), 0);
            && made == calls + [q] + [req]
            && |out| == before + |FrameBytes(m)| + |Reply(handler, |calls| + 1, req)|
            && ResponseAt(out[..before + |FrameBytes(m)|], before) == Some((m, before + |FrameBytes(m)|))
  {
    hide WellFormed, ReplyTo, Reply, Served, HeaderBytes, ResponseAt, Sent, Replies;
    var q := Message(stale, []);
    OutputOfFrames(handler, calls + [q] + [req]);
    RepliesAppend(handler, 0, calls, q);
    RepliesAppend(handler, 0, calls + [q], req);
    ReplyIsMessage(handler, |calls|, q);
    var before, m := Replies(handler, 0, calls), ReplyTo(handler, |calls|, q).value;
    var inbox := before + FrameBytes(m);
    var out := Served(handler, 0, Sent(calls + [q] + [req]), 0).1;
    assert out == inbox + Reply(handler, |calls| + 1, req);
    assert out[..|inbox|] == inbox;
    assert At(inbox, |before|, FrameBytes(m));
    ResponseRoundTrip(inbox, |before|, m);
  }

  // The response that ends before the server's reply to the request is not that reply.
  lemma EarlierReply(handler: Handler, l: Link, req: Message, resp: Message)
    requires var (calls, out) := Served(handler, 0, l.written, 0);
             calls != [] && l.read + |Reply(handler, |calls| - 1, req)| == |out|
    ensures !OwnReply(handler, l, req, resp)
  {
    hide Served, Reply, ReplyTo;
    var calls := Served(handler, 0, l.written, 0).0;
    ReplyIsMessage(handler, |calls| - 1, req);
    if ReplyTo(handler, |calls| - 1, req).Some? {
      FrameNotEmpty(ReplyTo(handler, |calls| - 1, req).value);
    }
  }

  lemma FrameNotEmpty(m: Message)
    ensures FrameBytes(m) != []
  {
  }

  // The next steps of the caller that takes the stained connection.
  function NextDo(d: CallerId, req: Message, cn: ConnId, n: nat): seq<Step> {
    [Send(d, req), Arrive(cn, n), Receive(d)]
  }

  lemma StainedAnswer(servers: Servers, s: State, cn: ConnId, calls: seq<Message>, stale: Header, d: CallerId,
                      req: Message)
    returns (n: nat)
    requires Stained(servers, s, cn, calls, stale) && cn !in s.closed
    requires d in s.callers && s.callers[d] == Holding(cn)
    requires WellFormed(Message(stale, [])) && WellFormed(req)
    requires var m := ReplyTo(servers(cn), |calls|, Message(stale, [])); m.Some? && WellFormed(m.value)
    ensures var m := ReplyTo(servers(cn), |calls|, Message(stale, [])).value;
            var s' := ExecFrom(servers, s, NextDo(d, req, cn, n));
            && s'.Some? && d in s'.value.callers && s'.value.callers[d] == Answered(cn, req, m)
            && Crossed(servers, s'.value, d)
  {
    hide WellFormed, ReplyTo, Served, ResponseAt, ExecFrom, Sent, Replies, StainedLink, OwnReply, Reply, FrameBytes;
    var l := s.links[cn];
    StainedSend(servers(cn), l, calls, stale, req);
    StaleHeaderAnswered(servers(cn), calls, stale, req);
    var m := ReplyTo(servers(cn), |calls|, Message(stale, [])).value;
    n := |Replies(servers(cn), 0, calls)| + |FrameBytes(m)| - l.arrived;
    var run := NextDo(d, req, cn, n);
    RunStarts(servers, s, run);
    var s1 := RunOn(servers, s, run, 0, s);
    var s2 := RunOn(servers, s, run, 1, s1);
    var s3 := RunOn(servers, s, run, 2, s2);
    assert run[..3] == run;
    EarlierReply(servers(cn), s3.links[cn], req, m);
  }

  lemma StainedSend(handler: Handler, l: Link, calls: seq<Message>, stale: Header, req: Message)
    requires StainedLink(handler, l, calls, stale)
    ensures SendOn(l, req).written == Sent(calls + [Message(stale, [])] + [req])
    ensures l.arrived <= |Replies(handler, 0, calls)| && l.read == |Replies(handler, 0, calls)|
    ensures forall i | 0 <= i < |calls| :: WellFormed(calls[i])
  {
    hide LinkInSync, Sent, Replies, WellFormed, FrameBytes;
    var q, front := Message(stale, []), l.(buffered := l.buffered[..|l.buffered| - 1]);
    CallsInSync(handler, front);
    SentConcat(front.buffered, [q]);
    OneSent(q);
    FramesAppend(calls, q);
    FramesAppend(calls + [q], req);
  }

  // In any state in step in which the idle list has room and the server answers the header, a
  // request without a body stains the connection. Whatever happens then, whichever caller takes
  // the connection can do a Do that succeeds and returns the server's reply to that header, not to
  // the caller's request.
  lemma NilBodyCrosses(servers: Servers, s: State, c: CallerId, stale: Header, later: seq<Step>, s': State,
                       d: CallerId, req: Message)
    returns (n: nat)
    requires Enabled(servers, s, NilBody(c, stale)) && Owned(s) && KeptAndAnswered(servers, s, c, stale)
    requires WellFormed(req)
    requires var cn := s.callers[c].cn;
             && ExecFrom(servers, Apply(servers, s, NilBody(c, stale)), later) == Some(s')
             && LeavesAlone(servers, Apply(servers, s, NilBody(c, stale)), later, cn)
             && cn !in s'.closed && d in s'.callers && s'.callers[d] == Holding(cn)
    ensures var cn := s.callers[c].cn;
            var m := ReplyTo(servers(cn), |Calls(s.links[cn])|, Message(stale, [])).value;
            var last := ExecFrom(servers, s', NextDo(d, req, cn, n));
            && last.Some? && d in last.value.callers && last.value.callers[d] == Answered(cn, req, m)
            && Crossed(servers, last.value, d)
  {
    hide WellFormed, ReplyTo, HeaderOk, ExecFrom, LeavesAlone, Stained, Owned, LinkInSync, Full, Crossed;
    var cn := s.callers[c].cn;
    NilBodyStains(servers, s, c, stale);
    StainStaysOn(servers, Apply(servers, s, NilBody(c, stale)), later, cn, Calls(s.links[cn]), stale);
    n := StainedAnswer(servers, s', cn, Calls(s.links[cn]), stale, d, req);
  }

  // Some harmless run leads to a crossed response.
  ghost predicate CanCross(servers: Servers, s: State) {
    exists later, d :: CrossesAfter(servers, s, later, d)
  }

  ghost predicate CrossesAfter(servers: Servers, s: State, later: seq<Step>, d: CallerId) {
    && Harmless(servers, s, later, true)
    && match ExecFrom(servers, s, later) case None => false case Some(s') => Crossed(servers, s', d)
  }

  // Why requests must have a body reader: after a request without one, a response can cross if and
  // only if its connection is kept and the server answers the header.
  lemma CrossesIff(servers: Servers, s: State, c: CallerId, stale: Header)
    requires Enabled(servers, s, NilBody(c, stale)) && Owned(s) && InSync(servers, s, true) && HandlersFit(servers)
    requires Unannounced(stale)
    ensures CanCross(servers, Apply(servers, s, NilBody(c, stale))) <==> KeptAndAnswered(servers, s, c, stale)
  {
    hide Apply, Owned, InSync, HandlersFit, KeptAndAnswered, Harmless, ExecFrom, Crossed, HeaderOk;
    var s1 := Apply(servers, s, NilBody(c, stale));
    if KeptAndAnswered(servers, s, c, stale) {
      var later := TakesBack(servers, s, c, stale);
      assert CrossesAfter(servers, s1, later, c);
    } else {
      OwnedStep(servers, s, NilBody(c, stale));
      SyncStep(servers, s, NilBody(c, stale), true);
      forall later, d ensures !CrossesAfter(servers, s1, later, d) {
        NeverCrosses(servers, s1, later, d);
      }
    }
  }

  lemma NeverCrosses(servers: Servers, s: State, later: seq<Step>, d: CallerId)
    requires Owned(s) && InSync(servers, s, true) && HandlersFit(servers)
    ensures !CrossesAfter(servers, s, later, d)
  {
    hide Owned, InSync, HandlersFit, Harmless, ExecFrom, Crossed;
    if Harmless(servers, s, later, true) && ExecFrom(servers, s, later).Some? {
      StaysInSync(servers, s, later, true);
      OwnAnswer(servers, ExecFrom(servers, s, later).value, d);
    }
  }

  lemma OwnAnswer(servers: Servers, s: State, d: CallerId)
    requires InSync(servers, s, true)
    ensures !Crossed(servers, s, d)
  {
    hide LinkFine, OwnReply;
    assert d in s.callers ==> CallerInSync(servers, s, d);
  }

  // The caller takes its connection back and sends a request.
  lemma TakesBack(servers: Servers, s: State, c: CallerId, stale: Header) returns (later: seq<Step>)
    requires Enabled(servers, s, NilBody(c, stale)) && Owned(s) && KeptAndAnswered(servers, s, c, stale)
    ensures CrossesAfter(servers, Apply(servers, s, NilBody(c, stale)), later, c)
  {
    hide Owned, LinkInSync, ReplyTo, HeaderOk, ExecFrom, LeavesAlone, Harmless, Crossed, Stained, FrameBytes;
    var s1, cn, a := Apply(servers, s, NilBody(c, stale)), s.callers[c].cn, s.links[s.callers[c].cn].addr;
    var req := Message(stale, []);
    NilBodyStains(servers, s, c, stale);
    var s2 := Apply(servers, s1, Take(c, a));
    TakeAlone(servers, s1, c, a, cn);
    var n := NilBodyCrosses(servers, s, c, stale, [Take(c, a)], s2, c, req);
    later := [Take(c, a)] + NextDo(c, req, cn, n);
    RunThen(servers, s1, [Take(c, a)], s2, NextDo(c, req, cn, n));
    BodiesAreHarmless(servers, s1, later, true);
  }

  lemma TakeAlone(servers: Servers, s: State, c: CallerId, a: Addr, cn: ConnId)
    requires Enabled(servers, s, Take(c, a))
    ensures ExecFrom(servers, s, [Take(c, a)]) == Some(Apply(servers, s, Take(c, a)))
    ensures LeavesAlone(servers, s, [Take(c, a)], cn)
  {
    hide Enabled, Apply;
    assert [Take(c, a)][..0] == [];
    assert ExecFrom(servers, s, []) == Some(s);
  }

  lemma RunStarts(servers: Servers, s0: State, run: seq<Step>)
    ensures ExecFrom(servers, s0, run[..0]) == Some(s0)
  {
  }

  lemma RunOn(servers: Servers, s0: State, run: seq<Step>, k: nat, s: State) returns (s': State)
    requires k < |run| && ExecFrom(servers, s0, run[..k]) == Some(s) && Enabled(servers, s, run[k])
    ensures s' == Apply(servers, s, run[k]) && ExecFrom(servers, s0, run[..k + 1]) == Some(s')
  {
    hide Apply, Enabled;
    s' := Apply(servers, s, run[k]);
    assert run[..k + 1][..k] == run[..k] && run[..k + 1][k] == run[k];
  }

  // One run after another.
  lemma {:induction false} RunThen(servers: Servers, s0: State, a: seq<Step>, s: State, b: seq<Step>)
    requires ExecFrom(servers, s0, a) == Some(s)
    ensures ExecFrom(servers, s0, a + b) == ExecFrom(servers, s, b)
    decreases |b|
  {
    hide Apply, Enabled;
    if b == [] {
      assert a + b == a;
    } else {
      var last := |b| - 1;
      RunThen(servers, s0, a, s, b[..last]);
      assert (a + b)[..|a + b| - 1] == a + b[..last] && (a + b)[|a + b| - 1] == b[last];
    }
  }
}

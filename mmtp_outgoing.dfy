/** The outgoing side of MMTPAsyncServer (lib/mixminion/server/MMTPServer.py):
    reuse of an open client connection to the same (ip, port, keyID), the
    maxClientConnections limit, the FIFO list pendingPackets of delayed
    sends, and the DNS results queue drained by _sendQueuedPackets.  The
    client connection objects are reduced to the packets queued on them;
    whether a connection is still active and whether opening one succeeds
    are parameters. */
module MMTPOutgoing {
  import opened Common

  /** A client connection object, by identity. */
  type ConnId = nat
  /** A DeliverableMessage object, by identity. */
  type Packet = nat

  /** The key of clientConByAddr. */
  datatype Addr = Addr(ip: string, port: int, keyID: seq<byte>)

  /** The arguments of one _sendPackets call. */
  datatype Request = Request(family: int, ip: string, port: int, keyID: seq<byte>,
                             deliverable: seq<Packet>, serverName: string)

  function AddrOf(req: Request): Addr
  {
    Addr(req.ip, req.port, req.keyID)
  }

  /** Which of its paths a _sendPackets call took. */
  datatype SendPath =
    | AddedToExisting(con: ConnId)   // an active connection to the address took them
    | Delayed                        // too many client connections: appended to pendingPackets
    | ConnectFailed                  // opening a connection raised: every packet failed(1)
    | Opened(con: ConnId)            // a new connection was registered for the address

  /** The outgoing state: clientConByAddr, the packets queued on each
      connection, pendingPackets, the packets told failed(1), the
      connections registered with the select loop, and the next fresh
      connection. */
  datatype Outgoing = Outgoing(byAddr: map<Addr, ConnId>, queued: map<ConnId, seq<Packet>>,
                               pending: seq<Request>, failed: seq<Packet>,
                               registered: seq<ConnId>, nextCon: ConnId)

  /** Every mapped connection exists, and no connection is newer than
      nextCon. */
  ghost predicate Linked(st: Outgoing)
  {
    (forall a :: a in st.byAddr ==> st.byAddr[a] in st.queued) &&
    (forall c :: c in st.queued ==> c < st.nextCon)
  }

  /** Whether the address already has a connection that is sending. */
  predicate HasActive(st: Outgoing, req: Request, active: ConnId -> bool)
  {
    AddrOf(req) in st.byAddr && active(st.byAddr[AddrOf(req)])
  }

  /** _sendPackets(req). */
  function SendStep(st: Outgoing, max: nat, req: Request, active: ConnId -> bool,
                    canConnect: Request -> bool): (r: (Outgoing, SendPath))
    requires Linked(st)
    ensures Linked(r.0)
    // exactly one of the paths, chosen in this order
    ensures r.1.AddedToExisting? <==> HasActive(st, req, active)
    ensures r.1.Delayed? <==> !HasActive(st, req, active) && |st.byAddr| >= max
    ensures r.1.ConnectFailed? <==> !HasActive(st, req, active) && |st.byAddr| < max && !canConnect(req)
    // the packets go to exactly one place
    ensures r.1.AddedToExisting? ==>
              r.1.con == st.byAddr[AddrOf(req)] &&
              r.0 == st.(queued := st.queued[r.1.con := st.queued[r.1.con] + req.deliverable])
    ensures r.1.Delayed? ==> r.0 == st.(pending := st.pending + [req])
    ensures r.1.ConnectFailed? ==> r.0 == st.(failed := st.failed + req.deliverable)
    ensures r.1.Opened? ==>
              r.1.con == st.nextCon && r.1.con !in st.queued &&
              r.0 == st.(byAddr := st.byAddr[AddrOf(req) := r.1.con],
                         queued := st.queued[r.1.con := req.deliverable],
                         registered := st.registered + [r.1.con], nextCon := st.nextCon + 1)
    // below the limit, nothing is delayed
    ensures |st.byAddr| < max ==> r.0.pending == st.pending
    // the limit on client connections is kept
    ensures |st.byAddr| <= max ==> |r.0.byAddr| <= max
  {
    var addr := AddrOf(req);
    if HasActive(st, req, active) then
      var c := st.byAddr[addr];
      (st.(queued := st.queued[c := st.queued[c] + req.deliverable]), AddedToExisting(c))
    else if |st.byAddr| >= max then
      (st.(pending := st.pending + [req]), Delayed)
    else if !canConnect(req) then
      (st.(failed := st.failed + req.deliverable), ConnectFailed)
    else
      var c := st.nextCon;
      (st.(byAddr := st.byAddr[addr := c], queued := st.queued[c := req.deliverable],
           registered := st.registered + [c], nextCon := c + 1), Opened(c))
  }

  /** The first loop of _sendQueuedPackets: while fewer than max client
      connections exist, pop the oldest pending request and send it. */
  function DrainPending(st: Outgoing, max: nat, active: ConnId -> bool, canConnect: Request -> bool)
    : (r: Outgoing)
    requires Linked(st)
    ensures Linked(r)
    // it stops only at the limit or with nothing pending
    ensures |r.byAddr| >= max || r.pending == []
    ensures |st.byAddr| <= max ==> |r.byAddr| <= max
    decreases |st.pending|
  {
    if |st.byAddr| < max && st.pending != [] then
      var next := SendStep(st.(pending := st.pending[1..]), max, st.pending[0], active, canConnect).0;
      DrainPending(next, max, active, canConnect)
    else st
  }

  /** The second loop of _sendQueuedPackets: send every queued DNS result,
      oldest first. */
  function DrainQueue(st: Outgoing, msgs: seq<Request>, max: nat, active: ConnId -> bool,
                      canConnect: Request -> bool): (r: Outgoing)
    requires Linked(st)
    ensures Linked(r)
    ensures |st.byAddr| <= max ==> |r.byAddr| <= max
    decreases |msgs|
  {
    if msgs == [] then st
    else DrainQueue(SendStep(st, max, msgs[0], active, canConnect).0, msgs[1..], max, active, canConnect)
  }

  /** Only the oldest pending requests are replayed, and none is added. */
  lemma {:induction false} DrainPendingFifo(st: Outgoing, max: nat, active: ConnId -> bool, canConnect: Request -> bool)
    requires Linked(st)
    ensures var r := DrainPending(st, max, active, canConnect);
            |r.pending| <= |st.pending| && r.pending == st.pending[|st.pending| - |r.pending|..]
    decreases |st.pending|
  {
    if |st.byAddr| < max && st.pending != [] {
      var popped := st.(pending := st.pending[1..]);
      var next := SendStep(popped, max, st.pending[0], active, canConnect).0;
      DrainPendingStep(st, max, active, canConnect);
      DrainPendingFifo(next, max, active, canConnect);
    }
  }

  lemma DrainPendingStep(st: Outgoing, max: nat, active: ConnId -> bool, canConnect: Request -> bool)
    requires Linked(st) && |st.byAddr| < max && st.pending != []
    ensures var popped := st.(pending := st.pending[1..]);
            DrainPending(st, max, active, canConnect) ==
              DrainPending(SendStep(popped, max, st.pending[0], active, canConnect).0, max, active, canConnect)
  {
  }

  lemma DrainQueueStep(st: Outgoing, msgs: seq<Request>, max: nat, active: ConnId -> bool,
                       canConnect: Request -> bool)
    requires Linked(st) && msgs != []
    ensures DrainQueue(st, msgs, max, active, canConnect) ==
              DrainQueue(SendStep(st, max, msgs[0], active, canConnect).0, msgs[1..], max, active, canConnect)
  {
  }

  /** All packets the connections hold, for connections numbered below n. */
  ghost function QueuedBelow(queued: map<ConnId, seq<Packet>>, n: nat): multiset<Packet>
  {
    if n == 0 then multiset{}
    else QueuedBelow(queued, n - 1) + (if n - 1 in queued then multiset(queued[n - 1]) else multiset{})
  }

  ghost function PendingPackets(reqs: seq<Request>): multiset<Packet>
  {
    if reqs == [] then multiset{} else PendingPackets(reqs[..|reqs| - 1]) + multiset(reqs[|reqs| - 1].deliverable)
  }

  /** Every packet the outgoing side is responsible for: queued on a
      connection, waiting in pendingPackets, or failed. */
  ghost function Accounted(st: Outgoing): multiset<Packet>
  {
    QueuedBelow(st.queued, st.nextCon) + PendingPackets(st.pending) + multiset(st.failed)
  }

  lemma {:induction false} QueuedBelowUpdate(queued: map<ConnId, seq<Packet>>, n: nat, c: ConnId, d: seq<Packet>)
    requires c in queued && c < n
    ensures QueuedBelow(queued[c := queued[c] + d], n) == QueuedBelow(queued, n) + multiset(d)
  {
    if n - 1 != c {
      QueuedBelowUpdate(queued, n - 1, c, d);
    } else {
      QueuedBelowSame(queued, queued[c := queued[c] + d], n - 1);
    }
  }

  lemma {:induction false} QueuedBelowSame(q1: map<ConnId, seq<Packet>>, q2: map<ConnId, seq<Packet>>, n: nat)
    requires forall c :: c < n ==> (c in q1 <==> c in q2) && (c in q1 ==> q1[c] == q2[c])
    ensures QueuedBelow(q1, n) == QueuedBelow(q2, n)
  {
    if n > 0 {
      QueuedBelowSame(q1, q2, n - 1);
    }
  }

  /** One _sendPackets call accounts for exactly the packets it was given. */
  lemma SendStepConserves(st: Outgoing, max: nat, req: Request, active: ConnId -> bool,
                          canConnect: Request -> bool)
    requires Linked(st)
    ensures Accounted(SendStep(st, max, req, active, canConnect).0) == Accounted(st) + multiset(req.deliverable)
  {
    var r := SendStep(st, max, req, active, canConnect);
    match r.1
    case AddedToExisting(c) =>
      AddedConserves(st, c, req.deliverable);
    case Delayed =>
      DelayedConserves(st, req);
    case ConnectFailed =>
      assert multiset(st.failed + req.deliverable) == multiset(st.failed) + multiset(req.deliverable);
    case Opened(c) =>
      OpenedConserves(st, AddrOf(req), req.deliverable);
  }

  lemma AddedConserves(st: Outgoing, c: ConnId, d: seq<Packet>)
    requires Linked(st) && c in st.queued
    ensures Accounted(st.(queued := st.queued[c := st.queued[c] + d])) == Accounted(st) + multiset(d)
  {
    QueuedBelowUpdate(st.queued, st.nextCon, c, d);
  }

  lemma DelayedConserves(st: Outgoing, req: Request)
    ensures Accounted(st.(pending := st.pending + [req])) == Accounted(st) + multiset(req.deliverable)
  {
    assert (st.pending + [req])[..|st.pending|] == st.pending;
  }

  lemma OpenedConserves(st: Outgoing, addr: Addr, d: seq<Packet>)
    requires Linked(st)
    ensures var c := st.nextCon;
            Accounted(st.(byAddr := st.byAddr[addr := c], queued := st.queued[c := d],
                          registered := st.registered + [c], nextCon := c + 1)) ==
            Accounted(st) + multiset(d)
  {
    var c := st.nextCon;
    QueuedBelowSame(st.queued, st.queued[c := d], c);
  }

  /** Replaying pending requests loses and invents no packet. */
  lemma {:induction false} DrainPendingConserves(st: Outgoing, max: nat, active: ConnId -> bool,
                                                 canConnect: Request -> bool)
    requires Linked(st)
    ensures Accounted(DrainPending(st, max, active, canConnect)) == Accounted(st)
    decreases |st.pending|
  {
    if |st.byAddr| < max && st.pending != [] {
      var popped := st.(pending := st.pending[1..]);
      var next := SendStep(popped, max, st.pending[0], active, canConnect).0;
      DrainPendingStep(st, max, active, canConnect);
      PendingFront(st.pending);
      assert Accounted(popped) + multiset(st.pending[0].deliverable) == Accounted(st);
      SendStepConserves(popped, max, st.pending[0], active, canConnect);
      DrainPendingConserves(next, max, active, canConnect);
    }
  }

  lemma {:induction false} PendingFront(reqs: seq<Request>)
    requires reqs != []
    ensures PendingPackets(reqs) == multiset(reqs[0].deliverable) + PendingPackets(reqs[1..])
  {
    if |reqs| > 1 {
      var init := reqs[..|reqs| - 1];
      var tail := reqs[1..];
      var last := multiset(reqs[|reqs| - 1].deliverable);
      PendingFront(init);
      assert init[1..] == tail[..|tail| - 1];
      assert tail[|tail| - 1] == reqs[|reqs| - 1];
      assert PendingPackets(tail) == PendingPackets(init[1..]) + last;
      assert PendingPackets(reqs) == PendingPackets(init) + last;
    } else {
      assert reqs[..0] == [];
    }
  }

  /** Sending the queued DNS results accounts for exactly their packets. */
  lemma {:induction false} DrainQueueConserves(st: Outgoing, msgs: seq<Request>, max: nat,
                                               active: ConnId -> bool, canConnect: Request -> bool)
    requires Linked(st)
    ensures Accounted(DrainQueue(st, msgs, max, active, canConnect)) == Accounted(st) + PendingPackets(msgs)
    decreases |msgs|
  {
    if msgs != [] {
      var next := SendStep(st, max, msgs[0], active, canConnect).0;
      DrainQueueStep(st, msgs, max, active, canConnect);
      PendingFront(msgs);
      SendStepConserves(st, max, msgs[0], active, canConnect);
      DrainQueueConserves(next, msgs[1..], max, active, canConnect);
      AccountedChain(st, next, DrainQueue(next, msgs[1..], max, active, canConnect),
                     multiset(msgs[0].deliverable), PendingPackets(msgs[1..]), PendingPackets(msgs));
    }
  }

  lemma AccountedChain(x: Outgoing, y: Outgoing, z: Outgoing, m: multiset<Packet>, m': multiset<Packet>,
                       total: multiset<Packet>)
    requires Accounted(y) == Accounted(x) + m && Accounted(z) == Accounted(y) + m' && total == m + m'
    ensures Accounted(z) == Accounted(x) + total
  {
  }

  class MMTPAsyncServer {
    var byAddr: map<Addr, ConnId>
    var queued: map<ConnId, seq<Packet>>
    var pendingPackets: seq<Request>
    var failed: seq<Packet>
    var registered: seq<ConnId>
    var nextCon: ConnId
    var maxClientConnections: nat
    var msgQueue: seq<Request>

    function State(): Outgoing
      reads this
    {
      Outgoing(byAddr, queued, pendingPackets, failed, registered, nextCon)
    }

    /** The connections are linked and there are never more client
        connections than the limit. */
    ghost predicate Valid()
      reads this
    {
      Linked(State()) && |byAddr| <= maxClientConnections
    }

    /** The outgoing part of __init__: MaxConnections from the
        configuration, 16 when absent. */
    constructor (maxConnections: Option<nat>)
      ensures Valid()
      ensures maxClientConnections == (if maxConnections.Some? then maxConnections.value else 16)
      ensures byAddr == map[] && queued == map[] && pendingPackets == [] && failed == []
      ensures registered == [] && msgQueue == []
    {
      byAddr, queued := map[], map[];
      pendingPackets, failed, registered, msgQueue := [], [], [], [];
      nextCon := 0;
      maxClientConnections := if maxConnections.Some? then maxConnections.value else 16;
    }

    /** _queueSendablePackets: a DNS result joins the message queue. */
    method QueueSendablePackets(req: Request)
      modifies this
      ensures msgQueue == old(msgQueue) + [req]
      ensures State() == old(State()) && maxClientConnections == old(maxClientConnections)
    {
      msgQueue := msgQueue + [req];
    }

    /** _sendPackets(family, ip, port, keyID, deliverable, serverName). */
    method SendPackets(req: Request, active: ConnId -> bool, canConnect: Request -> bool)
      returns (path: SendPath)
      requires Valid()
      modifies this
      ensures Valid()
      ensures (State(), path) == SendStep(old(State()), maxClientConnections, req, active, canConnect)
      ensures maxClientConnections == old(maxClientConnections) && msgQueue == old(msgQueue)
    {
      var addr := AddrOf(req);
      if addr in byAddr {
        var con := byAddr[addr];
        if active(con) {
          QueueOn(con, req.deliverable);
          return AddedToExisting(con);
        }
      }
      if |byAddr| >= maxClientConnections {
        pendingPackets := pendingPackets + [req];
        return Delayed;
      }
      if !canConnect(req) {
        failed := failed + req.deliverable;
        return ConnectFailed;
      }
      var con := OpenConnection(req);
      return Opened(con);
    }

    /** Queue packets on an existing connection (con.addPackets). */
    method QueueOn(con: ConnId, deliverable: seq<Packet>)
      requires con in queued
      modifies this
      ensures State() == old(State()).(queued := old(queued)[con := old(queued)[con] + deliverable])
      ensures maxClientConnections == old(maxClientConnections) && msgQueue == old(msgQueue)
    {
      queued := queued[con := queued[con] + deliverable];
    }

    /** A new client connection for the request's address, registered with
        the select loop and holding the request's packets. */
    method OpenConnection(req: Request) returns (con: ConnId)
      modifies this
      ensures con == old(nextCon)
      ensures State() == old(State()).(byAddr := old(byAddr)[AddrOf(req) := con],
                                       queued := old(queued)[con := req.deliverable],
                                       registered := old(registered) + [con], nextCon := con + 1)
      ensures maxClientConnections == old(maxClientConnections) && msgQueue == old(msgQueue)
    {
      con := nextCon;
      nextCon := nextCon + 1;
      queued := queued[con := req.deliverable];
      registered := registered + [con];
      byAddr := byAddr[AddrOf(req) := con];
    }

    /** __clientFinished(addr): forget the address; an absent one is only
        logged (found == false). */
    method ClientFinished(addr: Addr) returns (found: bool)
      requires Valid()
      modifies this
      ensures Valid()
      ensures found <==> addr in old(byAddr)
      ensures byAddr == old(byAddr) - {addr}
      ensures queued == old(queued) && pendingPackets == old(pendingPackets) && failed == old(failed)
      ensures registered == old(registered) && nextCon == old(nextCon)
      ensures maxClientConnections == old(maxClientConnections) && msgQueue == old(msgQueue)
    {
      found := addr in byAddr;
      byAddr := byAddr - {addr};
    }

    /** The first loop of _sendQueuedPackets. */
    method ReplayPending(active: ConnId -> bool, canConnect: Request -> bool)
      requires Valid()
      modifies this
      ensures Valid()
      ensures State() == DrainPending(old(State()), maxClientConnections, active, canConnect)
      ensures msgQueue == old(msgQueue) && maxClientConnections == old(maxClientConnections)
    {
      while |byAddr| < maxClientConnections && pendingPackets != []
        invariant Valid()
        invariant DrainPending(State(), maxClientConnections, active, canConnect) ==
                  DrainPending(old(State()), maxClientConnections, active, canConnect)
        invariant msgQueue == old(msgQueue) && maxClientConnections == old(maxClientConnections)
        decreases |pendingPackets|
      {
        ghost var before := State();
        DrainPendingStep(before, maxClientConnections, active, canConnect);
        var args := pendingPackets[0];
        pendingPackets := pendingPackets[1..];
        assert State() == before.(pending := before.pending[1..]);
        var _ := SendPackets(args, active, canConnect);
      }
    }

    /** The second loop of _sendQueuedPackets. */
    method SendAllQueued(active: ConnId -> bool, canConnect: Request -> bool)
      requires Valid()
      modifies this
      ensures Valid()
      ensures State() == DrainQueue(old(State()), old(msgQueue), maxClientConnections, active, canConnect)
      ensures msgQueue == [] && maxClientConnections == old(maxClientConnections)
    {
      while msgQueue != []
        invariant Valid()
        invariant DrainQueue(State(), msgQueue, maxClientConnections, active, canConnect) ==
                  DrainQueue(old(State()), old(msgQueue), maxClientConnections, active, canConnect)
        invariant maxClientConnections == old(maxClientConnections)
        decreases |msgQueue|
      {
        ghost var before := State();
        DrainQueueStep(before, msgQueue, maxClientConnections, active, canConnect);
        var req := msgQueue[0];
        msgQueue := msgQueue[1..];
        assert State() == before;
        var _ := SendPackets(req, active, canConnect);
      }
    }

    /** _sendQueuedPackets: replay pending requests oldest first while below
        the limit, then send every queued DNS result. */
    method SendQueuedPackets(active: ConnId -> bool, canConnect: Request -> bool)
      requires Valid()
      modifies this
      ensures Valid()
      ensures State() == DrainQueue(DrainPending(old(State()), maxClientConnections, active, canConnect),
                                    old(msgQueue), maxClientConnections, active, canConnect)
      ensures msgQueue == [] && maxClientConnections == old(maxClientConnections)
    {
      ReplayPending(active, canConnect);
      SendAllQueued(active, canConnect);
    }
  }
}

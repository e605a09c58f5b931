/** The select-based connection registry of lib/mixminion/server/MMTPServer.py
    (SelectAsyncServer): the fd -> connection and fd -> (wantRead, wantWrite)
    maps, the token-bucket bandwidth limit, and one round of 'process'.
    select() and the connections' own process/tryTimeout methods are
    parameters: the ready sets select reports, and functions giving each
    connection's answer. */
module MMTPAsync {
  import opened Common

  /** A connection object, by identity. */
  type ConnId = nat

  /** What c.process(r, w, 0, cap) returns: (wantRead, wantWrite, isOpen,
      bytes used).  wantWrite is 0, 1, or 2 (2: also watch for exceptions). */
  datatype ProcResult = ProcResult(wr: bool, ww: int, isOpen: bool, nbytes: int)

  /** One call c.process(r, w, 0, cap) made by 'process'. */
  datatype ProcCall = ProcCall(fd: int, r: bool, w: bool, cap: Option<int>)

  /** The active entries of one round, in the dictionary's iteration order
      'order': an fd is active when select reports it ready for something
      it asked for.  'writable' is select's writable and exceptional
      results together. */
  function ActiveCalls(order: seq<int>, state: map<int, (bool, int)>,
                       readable: set<int>, writable: set<int>, cap: Option<int>): (calls: seq<ProcCall>)
    requires forall k :: 0 <= k < |order| ==> order[k] in state
    ensures |calls| <= |order|
    ensures forall c :: c in calls ==>
              c.fd in order && c.cap == cap &&
              c.r == (c.fd in readable && state[c.fd].0) &&
              c.w == (c.fd in writable && state[c.fd].1 != 0) &&
              (c.r || c.w)
  {
    if order == [] then []
    else
      var fd := order[0];
      var r := fd in readable && state[fd].0;
      var w := fd in writable && state[fd].1 != 0;
      var rest := ActiveCalls(order[1..], state, readable, writable, cap);
      assert forall k :: 1 <= k < |order| ==> order[k] == order[1..][k - 1];
      if r || w then [ProcCall(fd, r, w, cap)] + rest else rest
  }

  /** Conversely, every listed fd that select reports ready for something
      it asked for is called, with what it is ready for. */
  lemma {:induction false} ActiveCallsComplete(order: seq<int>, state: map<int, (bool, int)>,
                                               readable: set<int>, writable: set<int>, cap: Option<int>, k: nat)
    requires forall k :: 0 <= k < |order| ==> order[k] in state
    requires k < |order|
    requires (order[k] in readable && state[order[k]].0) || (order[k] in writable && state[order[k]].1 != 0)
    ensures ProcCall(order[k], order[k] in readable && state[order[k]].0,
                     order[k] in writable && state[order[k]].1 != 0, cap)
              in ActiveCalls(order, state, readable, writable, cap)
  {
    if k > 0 {
      assert forall j :: 1 <= j < |order| ==> order[j] == order[1..][j - 1];
      ActiveCallsComplete(order[1..], state, readable, writable, cap, k - 1);
    }
  }

  /** No two calls are for the same fd. */
  predicate DistinctFds(calls: seq<ProcCall>)
  {
    forall i, j :: 0 <= i < j < |calls| ==> calls[i].fd != calls[j].fd
  }

  /** The order of the active calls follows 'order', so distinct fds give
      distinct calls. */
  lemma {:induction false} ActiveCallsDistinct(order: seq<int>, state: map<int, (bool, int)>,
                                               readable: set<int>, writable: set<int>, cap: Option<int>)
    requires forall k :: 0 <= k < |order| ==> order[k] in state
    requires forall i, j :: 0 <= i < j < |order| ==> order[i] != order[j]
    ensures DistinctFds(ActiveCalls(order, state, readable, writable, cap))
  {
    if order != [] {
      var tail := order[1..];
      assert forall k :: 0 <= k < |tail| ==> tail[k] == order[k + 1];
      ActiveCallsDistinct(tail, state, readable, writable, cap);
      var rest := ActiveCalls(tail, state, readable, writable, cap);
      forall c | c in rest
        ensures c.fd != order[0]
      {
        var k :| 0 <= k < |tail| && tail[k] == c.fd;
        assert order[k + 1] == c.fd;
      }
      var fd := order[0];
      var r := fd in readable && state[fd].0;
      var w := fd in writable && state[fd].1 != 0;
      if r || w {
        DistinctCons(ProcCall(fd, r, w, cap), rest);
      }
    }
  }

  /** A call for an fd no later call has keeps the fds distinct. */
  lemma DistinctCons(head: ProcCall, rest: seq<ProcCall>)
    requires DistinctFds(rest) && forall c :: c in rest ==> c.fd != head.fd
    ensures DistinctFds([head] + rest)
  {
    var calls := [head] + rest;
    forall i, j | 0 <= i < j < |calls|
      ensures calls[i].fd != calls[j].fd
    {
      assert calls[j] == rest[j - 1];
      if i > 0 {
        assert calls[i] == rest[i - 1];
      }
    }
  }

  /** The answer of the connection behind a call. */
  function Respond(respond: (int, bool, bool, Option<int>) -> ProcResult, c: ProcCall): ProcResult
  {
    respond(c.fd, c.r, c.w, c.cap)
  }

  /** The bytes the called connections report using. */
  function BytesUsed(calls: seq<ProcCall>, respond: (int, bool, bool, Option<int>) -> ProcResult): int
  {
    if calls == [] then 0
    else BytesUsed(calls[..|calls| - 1], respond) + Respond(respond, calls[|calls| - 1]).nbytes
  }

  /** The registry after one connection's answer: closed connections are
      deleted from both maps, open ones get their new wants. */
  function ApplyResult(conns: map<int, ConnId>, st: map<int, (bool, int)>, fd: int, res: ProcResult)
    : (r: (map<int, ConnId>, map<int, (bool, int)>))
  {
    if !res.isOpen then (conns - {fd}, st - {fd}) else (conns, st[fd := (res.wr, res.ww)])
  }

  /** The registry after the answers to 'calls', in order. */
  function ApplyAll(conns: map<int, ConnId>, st: map<int, (bool, int)>, calls: seq<ProcCall>,
                    respond: (int, bool, bool, Option<int>) -> ProcResult)
    : (r: (map<int, ConnId>, map<int, (bool, int)>))
  {
    if calls == [] then (conns, st)
    else
      var prev := ApplyAll(conns, st, calls[..|calls| - 1], respond);
      var c := calls[|calls| - 1];
      ApplyResult(prev.0, prev.1, c.fd, Respond(respond, c))
  }

  /** One more answer extends the registry of a round step by step. */
  lemma ApplyAllSnoc(conns: map<int, ConnId>, st: map<int, (bool, int)>, calls: seq<ProcCall>, i: nat,
                     respond: (int, bool, bool, Option<int>) -> ProcResult)
    requires i < |calls|
    ensures var prev := ApplyAll(conns, st, calls[..i], respond);
            ApplyAll(conns, st, calls[..i + 1], respond) ==
              ApplyResult(prev.0, prev.1, calls[i].fd, Respond(respond, calls[i]))
    ensures BytesUsed(calls[..i + 1], respond) ==
              BytesUsed(calls[..i], respond) + Respond(respond, calls[i]).nbytes
  {
    assert calls[..i + 1][..i] == calls[..i];
  }

  /** The calls before the last one still have distinct fds, none of them
      the last one's. */
  lemma DistinctInit(calls: seq<ProcCall>)
    requires DistinctFds(calls) && calls != []
    ensures DistinctFds(calls[..|calls| - 1])
    ensures forall c :: c in calls[..|calls| - 1] ==> c in calls && c.fd != calls[|calls| - 1].fd
  {
    var init := calls[..|calls| - 1];
    forall c | c in init
      ensures c in calls && c.fd != calls[|calls| - 1].fd
    {
      var i :| 0 <= i < |init| && init[i] == c;
      assert calls[i] == c;
    }
  }

  /** A registered connection that is not called keeps its object and its
      wants through the round. */
  lemma {:induction false} ApplyAllUntouched(conns: map<int, ConnId>, st: map<int, (bool, int)>,
                                             calls: seq<ProcCall>,
                                             respond: (int, bool, bool, Option<int>) -> ProcResult, fd: int)
    requires fd in conns && fd in st
    requires forall c :: c in calls ==> c.fd != fd
    ensures var r := ApplyAll(conns, st, calls, respond);
            fd in r.0 && fd in r.1 && r.0[fd] == conns[fd] && r.1[fd] == st[fd]
  {
    if calls != [] {
      var init := calls[..|calls| - 1];
      assert forall c :: c in init ==> c in calls;
      ApplyAllUntouched(conns, st, init, respond, fd);
    }
  }

  /** The two maps keep the same keys through a round, and only lose some. */
  lemma {:induction false} ApplyAllKeys(conns: map<int, ConnId>, st: map<int, (bool, int)>,
                                        calls: seq<ProcCall>,
                                        respond: (int, bool, bool, Option<int>) -> ProcResult)
    requires conns.Keys == st.Keys
    requires DistinctFds(calls)
    requires forall c :: c in calls ==> c.fd in conns
    ensures var r := ApplyAll(conns, st, calls, respond);
            r.0.Keys == r.1.Keys && r.0.Keys <= conns.Keys
  {
    if calls != [] {
      var init := calls[..|calls| - 1];
      var last := calls[|calls| - 1];
      DistinctInit(calls);
      ApplyAllKeys(conns, st, init, respond);
      ApplyAllUntouched(conns, st, init, respond, last.fd);
    }
  }

  /** A called connection is gone after the round exactly when it reported
      itself closed; otherwise it keeps its object and records the wants it
      answered. */
  lemma {:induction false} ApplyAllCalled(conns: map<int, ConnId>, st: map<int, (bool, int)>,
                                          calls: seq<ProcCall>,
                                          respond: (int, bool, bool, Option<int>) -> ProcResult)
    requires conns.Keys == st.Keys
    requires DistinctFds(calls)
    requires forall c :: c in calls ==> c.fd in conns
    ensures var r := ApplyAll(conns, st, calls, respond);
            forall c :: c in calls ==>
              (Respond(respond, c).isOpen <==> c.fd in r.0) &&
              (Respond(respond, c).isOpen ==>
                 c.fd in r.1 && r.0[c.fd] == conns[c.fd] && r.1[c.fd] == (Respond(respond, c).wr, Respond(respond, c).ww))
  {
    if calls != [] {
      var init := calls[..|calls| - 1];
      var last := calls[|calls| - 1];
      DistinctInit(calls);
      ApplyAllCalled(conns, st, init, respond);
      ApplyAllUntouched(conns, st, init, respond, last.fd);
      var r := ApplyAll(conns, st, calls, respond);
      forall c | c in calls
        ensures Respond(respond, c).isOpen <==> c.fd in r.0
        ensures Respond(respond, c).isOpen ==>
                  c.fd in r.1 && r.0[c.fd] == conns[c.fd] && r.1[c.fd] == (Respond(respond, c).wr, Respond(respond, c).ww)
      {
        if c != last {
          assert c in init;
        }
      }
    }
  }

  lemma {:induction false} BytesUsedBlocks(calls: seq<ProcCall>, respond: (int, bool, bool, Option<int>) -> ProcResult,
                                          cap: nat)
    requires forall c :: c in calls ==> Respond(respond, c).nbytes <= cap
    ensures BytesUsed(calls, respond) <= Blocks(|calls|, cap)
  {
    if calls != [] {
      var init := calls[..|calls| - 1];
      assert forall c :: c in init ==> c in calls;
      BytesUsedBlocks(init, respond, cap);
      assert Respond(respond, calls[|calls| - 1]).nbytes <= cap;
    }
  }

  /** floorDiv(bucket, n) shares a positive bucket so that connections that
      each stay within their cap never overdraw it. */
  lemma CapNeverOverdraws(calls: seq<ProcCall>, bucket: int,
                          respond: (int, bool, bool, Option<int>) -> ProcResult, n: nat)
    requires bucket > 0 && n > 0 && |calls| <= n
    requires forall c :: c in calls ==> Respond(respond, c).nbytes <= bucket / n
    ensures BytesUsed(calls, respond) <= |calls| * (bucket / n)
    ensures BytesUsed(calls, respond) <= bucket
  {
    BytesUsedBlocks(calls, respond, bucket / n);
    BlocksIsProduct(|calls|, bucket / n);
    MulDivBound(|calls|, bucket, n);
  }

  lemma {:induction false} MulDivBound(m: nat, b: nat, n: nat)
    requires 0 < n && m <= n
    ensures m * (b / n) <= b
  {
    var q := b / n;
    assert n * q <= b;
    BlocksIsProduct(m, q);
    BlocksIsProduct(n, q);
    BlocksMono(m, n, q);
  }

  lemma {:induction false} BlocksMono(m: nat, n: nat, len: nat)
    requires m <= n
    ensures Blocks(m, len) <= Blocks(n, len)
    decreases n
  {
    if m < n {
      BlocksMono(m, n - 1, len);
    }
  }

  class SelectAsyncServer {
    var connections: map<int, ConnId>
    var state: map<int, (bool, int)>
    var bandwidthPerTick: Option<int>
    var maxBucket: Option<int>
    var bucket: Option<int>
    var timeout: Option<int>

    /** Every connection has a recorded (wantRead, wantWrite), and the two
        bandwidth settings are set and cleared together. */
    ghost predicate Valid()
      reads this
    {
      connections.Keys == state.Keys &&
      (bandwidthPerTick.Some? <==> maxBucket.Some?)
    }

    constructor ()
      ensures Valid()
      ensures connections == map[] && state == map[]
      ensures bandwidthPerTick.None? && maxBucket.None? && bucket.None? && timeout.None?
    {
      connections := map[];
      state := map[];
      bandwidthPerTick, maxBucket, bucket := None, None, None;
      timeout := None;
    }

    /** register(c): a connection whose getStatus() says it is closed is
        ignored; otherwise it is recorded with its wants. */
    method Register(fd: int, c: ConnId, wr: bool, ww: int, isOpen: bool)
      requires Valid()
      modifies this
      ensures Valid()
      ensures !isOpen ==> connections == old(connections) && state == old(state)
      ensures isOpen ==> connections == old(connections)[fd := c] && state == old(state)[fd := (wr, ww)]
      ensures bucket == old(bucket) && bandwidthPerTick == old(bandwidthPerTick)
      ensures maxBucket == old(maxBucket) && timeout == old(timeout)
    {
      if !isOpen {
        return;
      }
      connections := connections[fd := c];
      state := state[fd := (wr, ww)];
    }

    /** remove(c, fd): forget the fd in both maps; an unknown fd raises
        KeyError (ok == false) and changes nothing. */
    method Remove(fd: int) returns (ok: bool)
      requires Valid()
      modifies this
      ensures Valid()
      ensures ok <==> fd in old(connections)
      ensures ok ==> connections == old(connections) - {fd} && state == old(state) - {fd}
      ensures !ok ==> connections == old(connections) && state == old(state)
      ensures bucket == old(bucket) && bandwidthPerTick == old(bandwidthPerTick)
      ensures maxBucket == old(maxBucket) && timeout == old(timeout)
    {
      if fd !in connections {
        return false;
      }
      connections := connections - {fd};
      state := state - {fd};
      ok := true;
    }

    /** tryTimeout(now): without a timeout nothing happens; otherwise every
        connection whose tryTimeout(now - timeout) says so is removed.
        'order' is the snapshot of connections.items() the loop walks, and
        'timesOut' is the connections' own answer. */
    method TryTimeout(now: Option<int>, clock: int, order: seq<int>, timesOut: (ConnId, int) -> bool)
      requires Valid()
      requires forall fd :: fd in order <==> fd in connections
      requires forall i, j :: 0 <= i < j < |order| ==> order[i] != order[j]
      modifies this
      ensures Valid()
      ensures old(timeout).None? ==> connections == old(connections) && state == old(state)
      ensures old(timeout).Some? ==>
                var cutoff := (if now.None? then clock else now.value) - old(timeout).value;
                (forall fd :: fd in connections <==>
                   fd in old(connections) && !timesOut(old(connections)[fd], cutoff)) &&
                (forall fd :: fd in connections ==>
                   connections[fd] == old(connections)[fd] && state[fd] == old(state)[fd])
      ensures bucket == old(bucket) && bandwidthPerTick == old(bandwidthPerTick)
      ensures maxBucket == old(maxBucket) && timeout == old(timeout)
    {
      if timeout.None? {
        return;
      }
      var cutoff := (if now.None? then clock else now.value) - timeout.value;
      for i := 0 to |order|
        invariant Valid()
        invariant forall fd :: fd in connections <==>
                    fd in old(connections) && (fd in order[i..] || !timesOut(old(connections)[fd], cutoff))
        invariant forall fd :: fd in connections ==>
                    connections[fd] == old(connections)[fd] && state[fd] == old(state)[fd]
        invariant bucket == old(bucket) && bandwidthPerTick == old(bandwidthPerTick)
        invariant maxBucket == old(maxBucket) && timeout == old(timeout)
      {
        var fd := order[i];
        assert forall x :: x in order[i..] <==> x == fd || x in order[i + 1..];
        ghost var before := connections;
        if fd in connections && timesOut(connections[fd], cutoff) {
          var _ := Remove(fd);
        }
        forall x
          ensures x in connections <==>
                    x in old(connections) && (x in order[i + 1..] || !timesOut(old(connections)[x], cutoff))
        {
          if x != fd {
            assert x in connections <==> x in before;
          } else {
            assert x !in order[i + 1..] by {
              forall k | i + 1 <= k < |order|
                ensures order[k] != x
              {
                assert order[i] != order[k];
              }
            }
          }
        }
      }
    }

    /** setBandwidth(n, maxBucket): None lifts the limit; otherwise n bytes
        per tick, with a burst of maxBucket, by default five ticks' worth. */
    method SetBandwidth(n: Option<int>, maxBurst: Option<int>)
      requires Valid()
      modifies this
      ensures Valid()
      ensures n.None? ==> bandwidthPerTick.None? && maxBucket.None?
      ensures n.Some? ==> bandwidthPerTick == n
      ensures n.Some? && maxBurst.None? ==> maxBucket == Some(5 * n.value)
      ensures n.Some? && maxBurst.Some? ==> maxBucket == maxBurst
      ensures bucket == old(bucket) && connections == old(connections) && state == old(state)
      ensures timeout == old(timeout)
    {
      if n.None? {
        bandwidthPerTick := None;
        maxBucket := None;
      } else {
        bandwidthPerTick := n;
        if maxBurst.None? {
          maxBucket := Some(n.value * 5);
        } else {
          maxBucket := maxBurst;
        }
      }
    }

    /** tick(): without a limit the bucket is None; otherwise it gains one
        tick's bandwidth (starting from 0 when it was None), capped at
        maxBucket. */
    method Tick()
      requires Valid()
      modifies this
      ensures Valid()
      ensures old(bandwidthPerTick).None? ==> bucket.None?
      ensures old(bandwidthPerTick).Some? ==>
                var filled := (if old(bucket).Some? then old(bucket).value else 0) + old(bandwidthPerTick).value;
                bucket == Some(if filled > old(maxBucket).value then old(maxBucket).value else filled)
      ensures old(bandwidthPerTick).Some? ==> bucket.Some? && maxBucket.Some? && bucket.value <= maxBucket.value
      ensures bandwidthPerTick == old(bandwidthPerTick) && maxBucket == old(maxBucket)
      ensures connections == old(connections) && state == old(state) && timeout == old(timeout)
    {
      if bandwidthPerTick.None? {
        bucket := None;
      } else {
        var b := (if bucket.Some? then bucket.value else 0) + bandwidthPerTick.value;
        if b > maxBucket.value {
          bucket := Some(maxBucket.value);
        } else {
          bucket := Some(b);
        }
      }
    }

    /** Whether any connection wants to read or write. */
    predicate AnyInterest()
      reads this
    {
      exists fd :: fd in state && (state[fd].0 || state[fd].1 != 0)
    }

    /** The body of process's loop for one active connection and its
        answer: the bucket is charged when there is a cap, and the registry
        forgets a closed connection or records an open one's wants. */
    method Answer(c: ProcCall, res: ProcResult, charge: bool)
      requires charge ==> bucket.Some?
      modifies this
      ensures (connections, state) == ApplyResult(old(connections), old(state), c.fd, res)
      ensures charge ==> bucket == Some(old(bucket).value - res.nbytes)
      ensures !charge ==> bucket == old(bucket)
      ensures bandwidthPerTick == old(bandwidthPerTick) && maxBucket == old(maxBucket)
      ensures timeout == old(timeout)
    {
      if charge {
        bucket := Some(bucket.value - res.nbytes);
      }
      if !res.isOpen {
        connections := connections - {c.fd};
        state := state - {c.fd};
      } else {
        state := state[c.fd := (res.wr, res.ww)];
      }
    }

    /** The loop of process over its active calls, in order, each with the
        answer 'respond' gives. */
    method AnswerAll(calls: seq<ProcCall>, respond: (int, bool, bool, Option<int>) -> ProcResult,
                     charge: bool)
      requires charge ==> bucket.Some?
      modifies this
      ensures (connections, state) == ApplyAll(old(connections), old(state), calls, respond)
      ensures charge ==> bucket == Some(old(bucket).value - BytesUsed(calls, respond))
      ensures !charge ==> bucket == old(bucket)
      ensures bandwidthPerTick == old(bandwidthPerTick) && maxBucket == old(maxBucket)
      ensures timeout == old(timeout)
    {
      for i := 0 to |calls|
        invariant charge ==> bucket.Some? && bucket.value == old(bucket).value - BytesUsed(calls[..i], respond)
        invariant !charge ==> bucket == old(bucket)
        invariant connections == ApplyAll(old(connections), old(state), calls[..i], respond).0
        invariant state == ApplyAll(old(connections), old(state), calls[..i], respond).1
        invariant bandwidthPerTick == old(bandwidthPerTick) && maxBucket == old(maxBucket)
        invariant timeout == old(timeout)
      {
        ApplyAllSnoc(old(connections), old(state), calls, i, respond);
        Answer(calls[i], respond(calls[i].fd, calls[i].r, calls[i].w, calls[i].cap), charge);
      }
      assert calls[..|calls|] == calls;
    }

    /** process(timeout), one round.  Nothing is touched when no connection
        wants anything, when the bucket is empty or overdrawn, or when select
        was interrupted.  Otherwise each ready connection (in dictionary
        order 'order') is processed once with cap = floorDiv(bucket, number
        of ready connections), or no cap without a limit; the bucket drops
        by the bytes they used, and the registry takes their answers
        (ApplyAllKeys, ApplyAllUntouched and ApplyAllCalled say what that
        does). */
    method Process(readable: set<int>, writable: set<int>, interrupted: bool, order: seq<int>,
                   respond: (int, bool, bool, Option<int>) -> ProcResult)
      returns (calls: seq<ProcCall>)
      requires Valid()
      requires forall fd :: fd in order <==> fd in connections
      requires forall i, j :: 0 <= i < j < |order| ==> order[i] != order[j]
      modifies this
      ensures Valid()
      ensures (!old(AnyInterest()) || (old(bucket).Some? && old(bucket).value <= 0) || interrupted) ==>
                calls == [] && connections == old(connections) && state == old(state) && bucket == old(bucket)
      ensures !(!old(AnyInterest()) || (old(bucket).Some? && old(bucket).value <= 0) || interrupted) ==>
                var n := |ActiveCalls(order, old(state), readable, writable, None)|;
                var cap := if old(bucket).None? || n == 0 then None else Some(old(bucket).value / n);
                calls == ActiveCalls(order, old(state), readable, writable, cap) &&
                bucket == (if cap.None? then old(bucket) else Some(old(bucket).value - BytesUsed(calls, respond)))
      ensures DistinctFds(calls)
      ensures (connections, state) == ApplyAll(old(connections), old(state), calls, respond)
      ensures bandwidthPerTick == old(bandwidthPerTick) && maxBucket == old(maxBucket)
      ensures timeout == old(timeout)
    {
      calls := [];
      if !AnyInterest() || (bucket.Some? && bucket.value <= 0) || interrupted {
        return;
      }
      var n := |ActiveCalls(order, state, readable, writable, None)|;
      if n == 0 {
        NoActiveNoCalls(order, state, readable, writable, None);
        return;
      }
      var cap := if bucket.None? then None else Some(bucket.value / n);
      SameActiveCalls(order, state, readable, writable, cap);
      calls := ActiveCalls(order, state, readable, writable, cap);
      ActiveCallsDistinct(order, state, readable, writable, cap);
      AnswerAll(calls, respond, cap.Some?);
      ApplyAllKeys(old(connections), old(state), calls, respond);
    }
  }

  /** Which connections are active does not depend on the cap passed along. */
  lemma {:induction false} SameActiveCalls(order: seq<int>, state: map<int, (bool, int)>,
                                           readable: set<int>, writable: set<int>, cap: Option<int>)
    requires forall k :: 0 <= k < |order| ==> order[k] in state
    ensures |ActiveCalls(order, state, readable, writable, cap)| == |ActiveCalls(order, state, readable, writable, None)|
  {
    if order != [] {
      assert forall k :: 1 <= k < |order| ==> order[k] == order[1..][k - 1];
      SameActiveCalls(order[1..], state, readable, writable, cap);
    }
  }

  lemma NoActiveNoCalls(order: seq<int>, state: map<int, (bool, int)>,
                        readable: set<int>, writable: set<int>, cap: Option<int>)
    requires forall k :: 0 <= k < |order| ==> order[k] in state
    requires |ActiveCalls(order, state, readable, writable, cap)| == 0
    ensures ActiveCalls(order, state, readable, writable, cap) == []
  {
  }
}

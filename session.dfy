/** One pooled connection of the refactored server (`ClientSession.h` and
    `ClientSession.cpp`). The class carries both receive abstractions the
    sources use: the linear `recvBuf`/`accumulatedSize` pair of the header,
    which the packet handler reads, and the `RingBuffer` of the `.cpp` file,
    which the completion worker fills. The send side is a FIFO of packets
    with a single-flight `isSending` flag.

    The ghost log `history` holds every packet ever queued and `retired`
    counts those that left the queue, so the queue is `history[retired..]`;
    `issued` lists, in order, the positions in `history` that were handed
    to `WSASend`. */
module Session {
  import opened Bytes
  import opened Os
  import opened RingBuf

  const MAX_SOCKBUF: nat := 2048

  datatype SessionState = Connected | Authenticated | Disconnecting

  datatype IOOperation = Recv | Send

  predicate Increasing(s: seq<nat>)
  {
    forall i, j :: 0 <= i < j < |s| ==> s[i] < s[j]
  }

  /** Every position of `s` moved on by `offset`. */
  function Shifted(s: seq<nat>, offset: nat): (r: seq<nat>)
    ensures |r| == |s|
    ensures forall k :: 0 <= k < |s| ==> r[k] == s[k] + offset
  {
    seq(|s|, k requires 0 <= k < |s| => s[k] + offset)
  }

  /** The `WSASend` calls for the packets of `queue` at positions `at`. */
  function Calls(socket: Socket, queue: seq<seq<Byte>>, at: seq<nat>): seq<Call>
    requires forall k :: 0 <= k < |at| ==> at[k] < |queue|
  {
    seq(|at|, k requires 0 <= k < |at| => Call(socket, queue[at[k]]))
  }

  /** What one `ProcessSend` does to a queue: how many packets it pops, the
      script it leaves, and the queue positions it hands to `WSASend`.
      `ProcessSend` pops a front packet larger than `MAX_SOCKBUF` without
      sending it, pops one whose `WSASend` fails at once and goes on, and
      stops at the first packet `WSASend` accepts, which stays queued. */
  datatype Drained = Drained(popped: nat, script: seq<bool>, issued: seq<nat>)

  lemma ShiftedIncreasing(s: seq<nat>, offset: nat)
    requires Increasing(s)
    ensures Increasing(Shifted(s, offset))
    ensures Increasing([0] + Shifted(s, offset + 1))
  {
    var t := Shifted(s, offset + 1);
    forall i, j | 0 <= i < j < |[0] + t|
      ensures ([0] + t)[i] < ([0] + t)[j]
    {
      if i > 0 {
        assert ([0] + t)[i] == s[i - 1] + offset + 1;
      }
    }
  }

  lemma ShiftedTwice(s: seq<nat>, a: nat, b: nat)
    ensures Shifted(Shifted(s, a), b) == Shifted(s, a + b)
    ensures [b] + Shifted(s, a + b) == Shifted([0] + Shifted(s, a), b)
  {
  }

  /** Positions into `queue[1..]` are positions into `queue` moved on by one. */
  lemma CallsOfTail(socket: Socket, queue: seq<seq<Byte>>, at: seq<nat>)
    requires queue != []
    requires forall k :: 0 <= k < |at| ==> at[k] < |queue| - 1
    ensures Calls(socket, queue[1..], at) == Calls(socket, queue, Shifted(at, 1))
    ensures [Call(socket, queue[0])] + Calls(socket, queue[1..], at)
         == Calls(socket, queue, [0] + Shifted(at, 1))
  {
    var t := [0] + Shifted(at, 1);
    assert forall k :: 0 < k < |t| ==> t[k] == at[k - 1] + 1;
  }

  function Drain(socket: Socket, queue: seq<seq<Byte>>, script: seq<bool>): (d: Drained)
    ensures d.popped <= |queue|
    ensures forall k :: 0 <= k < |d.issued| ==> d.issued[k] < |queue|
    decreases |queue|
  {
    if queue == [] then Drained(0, script, [])
    else if |queue[0]| > MAX_SOCKBUF then
      var d := Drain(socket, queue[1..], script);
      Drained(d.popped + 1, d.script, Shifted(d.issued, 1))
    else
      var outcome := SendOutcome(socket, script);
      if outcome.0 then Drained(0, outcome.1, [0])
      else
        var d := Drain(socket, queue[1..], outcome.1);
        Drained(d.popped + 1, d.script, [0] + Shifted(d.issued, 1))
  }

  /** The packets `Drain` hands to `WSASend` come in queue order, each fits
      `sendBuf`, and none lies beyond the new front; the new front, if any,
      is the last one handed over. */
  predicate DrainShape(queue: seq<seq<Byte>>, d: Drained)
  {
    && d.popped <= |queue|
    && Increasing(d.issued)
    && (forall k :: 0 <= k < |d.issued| ==>
          d.issued[k] <= d.popped && d.issued[k] < |queue| && |queue[d.issued[k]]| <= MAX_SOCKBUF)
    && (d.popped < |queue| <==> d.issued != [] && d.issued[|d.issued| - 1] == d.popped)
  }

  /** `ProcessSend` on a queue holding one packet: a packet that fits the
      send buffer is handed to `WSASend` once, whatever the outcome, and one
      that does not is dropped unsent. */
  lemma DrainOne(socket: Socket, data: seq<Byte>, script: seq<bool>)
    ensures var d := Drain(socket, [data], script);
            && Calls(socket, [data], d.issued) == (if |data| <= MAX_SOCKBUF then [Call(socket, data)] else [])
            && d.script == ScriptAfter(script, Calls(socket, [data], d.issued))
  {
    assert [data][1..] == [];
    var calls := if |data| <= MAX_SOCKBUF then [Call(socket, data)] else [];
    assert calls != [] ==> calls[..0] == [];
  }

  lemma {:induction false} DrainInOrder(socket: Socket, queue: seq<seq<Byte>>, script: seq<bool>)
    ensures DrainShape(queue, Drain(socket, queue, script))
    decreases |queue|
  {
    if queue == [] {
    } else if |queue[0]| > MAX_SOCKBUF {
      var d := Drain(socket, queue[1..], script);
      DrainInOrder(socket, queue[1..], script);
      DrainShapeAfterSkip(queue, d);
      assert Drain(socket, queue, script) == Drained(d.popped + 1, d.script, Shifted(d.issued, 1));
    } else {
      var outcome := SendOutcome(socket, script);
      if !outcome.0 {
        var d := Drain(socket, queue[1..], outcome.1);
        DrainInOrder(socket, queue[1..], outcome.1);
        DrainShapeAfterFailure(queue, d);
        assert Drain(socket, queue, script) == Drained(d.popped + 1, d.script, [0] + Shifted(d.issued, 1));
      } else {
        assert Drain(socket, queue, script) == Drained(0, outcome.1, [0]);
      }
    }
  }

  /** One step of `Drain`: the shape of the rest of the queue, seen from the
      whole queue once its front is popped without being handed over. */
  lemma DrainShapeAfterSkip(queue: seq<seq<Byte>>, d: Drained)
    requires queue != [] && DrainShape(queue[1..], d)
    ensures DrainShape(queue, Drained(d.popped + 1, d.script, Shifted(d.issued, 1)))
  {
    ShiftedIncreasing(d.issued, 1);
    var t := Shifted(d.issued, 1);
    forall k | 0 <= k < |t|
      ensures t[k] <= d.popped + 1 && t[k] < |queue| && |queue[t[k]]| <= MAX_SOCKBUF
    {
      assert queue[t[k]] == queue[1..][d.issued[k]];
    }
  }

  /** The same when the popped front was handed over first. */
  lemma DrainShapeAfterFailure(queue: seq<seq<Byte>>, d: Drained)
    requires queue != [] && DrainShape(queue[1..], d) && |queue[0]| <= MAX_SOCKBUF
    ensures DrainShape(queue, Drained(d.popped + 1, d.script, [0] + Shifted(d.issued, 1)))
  {
    ShiftedIncreasing(d.issued, 0);
    var t := [0] + Shifted(d.issued, 1);
    forall k | 0 <= k < |t|
      ensures t[k] <= d.popped + 1 && t[k] < |queue| && |queue[t[k]]| <= MAX_SOCKBUF
    {
      if k > 0 {
        assert t[k] == d.issued[k - 1] + 1;
        assert queue[t[k]] == queue[1..][d.issued[k - 1]];
      }
    }
    if d.issued == [] {
      assert t == [0];
      assert d.popped + 1 == |queue|;
    } else {
      assert t[|t| - 1] == d.issued[|d.issued| - 1] + 1;
    }
  }

  /** The part of a session and of the network that sending works on: the
      queue, the outcomes still scripted, the calls issued so far, and the
      ghost counters `retired` and `issued`. */
  datatype SendState = SendState(queue: seq<seq<Byte>>, script: seq<bool>, calls: seq<Call>,
                                 retired: nat, issued: seq<nat>)

  /** The send state one `ProcessSend` on `socket` leaves behind. */
  function AfterProcessSend(socket: Socket, s: SendState): SendState
  {
    var d := Drain(socket, s.queue, s.script);
    SendState(s.queue[d.popped..], d.script, s.calls + Calls(socket, s.queue, d.issued),
              s.retired + d.popped, s.issued + Shifted(d.issued, s.retired))
  }

  /** `OnSendCompleted`'s pop of the packet in flight, if any. */
  function PopFront(s: SendState): (r: SendState)
  {
    if s.queue == [] then s else s.(queue := s.queue[1..], retired := s.retired + 1)
  }

  /** An oversized front is dropped and the rest is processed. */
  lemma AfterSkip(socket: Socket, s: SendState)
    requires s.queue != [] && |s.queue[0]| > MAX_SOCKBUF
    ensures AfterProcessSend(socket, s)
         == AfterProcessSend(socket, s.(queue := s.queue[1..], retired := s.retired + 1))
  {
    var d := Drain(socket, s.queue[1..], s.script);
    var whole, rest := AfterProcessSend(socket, s),
                       AfterProcessSend(socket, s.(queue := s.queue[1..], retired := s.retired + 1));
    assert Drain(socket, s.queue, s.script) == Drained(d.popped + 1, d.script, Shifted(d.issued, 1));
    assert whole.queue == rest.queue by {
      assert s.queue[1..][d.popped..] == s.queue[d.popped + 1..];
    }
    assert whole.calls == rest.calls by {
      CallsOfTail(socket, s.queue, d.issued);
    }
    assert whole.issued == rest.issued by {
      ShiftedTwice(d.issued, 1, s.retired);
    }
  }

  /** A front whose `WSASend` fails at once is dropped after its call. */
  lemma AfterFailure(socket: Socket, s: SendState)
    requires s.queue != [] && |s.queue[0]| <= MAX_SOCKBUF && !SendOutcome(socket, s.script).0
    ensures AfterProcessSend(socket, s)
         == AfterProcessSend(socket, SendState(s.queue[1..], SendOutcome(socket, s.script).1,
                                               s.calls + [Call(socket, s.queue[0])],
                                               s.retired + 1, s.issued + [s.retired]))
  {
    var d := Drain(socket, s.queue[1..], SendOutcome(socket, s.script).1);
    var tail := SendState(s.queue[1..], SendOutcome(socket, s.script).1, s.calls + [Call(socket, s.queue[0])],
                          s.retired + 1, s.issued + [s.retired]);
    var whole, rest := AfterProcessSend(socket, s), AfterProcessSend(socket, tail);
    assert Drain(socket, s.queue, s.script) == Drained(d.popped + 1, d.script, [0] + Shifted(d.issued, 1));
    assert whole.queue == rest.queue by {
      assert s.queue[1..][d.popped..] == s.queue[d.popped + 1..];
    }
    assert whole.calls == rest.calls by {
      CallsOfTail(socket, s.queue, d.issued);
      Assoc(s.calls, [Call(socket, s.queue[0])], Calls(socket, s.queue[1..], d.issued));
    }
    assert whole.issued == rest.issued by {
      ShiftedTwice(d.issued, 1, s.retired);
      Assoc(s.issued, [s.retired], Shifted(d.issued, 1 + s.retired));
    }
  }

  /** A front that `WSASend` accepts stays queued, in flight. */
  lemma AfterAccept(socket: Socket, s: SendState)
    requires s.queue != [] && |s.queue[0]| <= MAX_SOCKBUF && SendOutcome(socket, s.script).0
    ensures AfterProcessSend(socket, s)
         == SendState(s.queue, SendOutcome(socket, s.script).1, s.calls + [Call(socket, s.queue[0])],
                      s.retired, s.issued + [s.retired])
  {
    assert Calls(socket, s.queue, [0]) == [Call(socket, s.queue[0])];
  }

  /** With every `WSASend` accepted, `ProcessSend` sends the first packet
      that fits and leaves it at the front; only oversized packets before
      it are dropped. */
  lemma {:induction false} DrainAllAccepted(socket: Socket, queue: seq<seq<Byte>>, k: nat)
    requires socket.Handle?
    requires k < |queue| && |queue[k]| <= MAX_SOCKBUF
    requires forall j :: 0 <= j < k ==> |queue[j]| > MAX_SOCKBUF
    ensures Drain(socket, queue, []) == Drained(k, [], [k])
  {
    if k > 0 {
      DrainAllAccepted(socket, queue[1..], k - 1);
      assert Shifted([k - 1], 1) == [k];
    }
  }

  /** `s` has kept the fields a send leaves alone: its socket, id, name,
      state, token and accumulated size. */
  twostate predicate IdentityKept(s: ClientSession)
    reads s
  {
    && s.socket == old(s.socket) && s.sessionId == old(s.sessionId)
    && s.username == old(s.username) && s.state == old(s.state)
    && s.token == old(s.token) && s.accumulatedSize == old(s.accumulatedSize)
  }

  /** The `WSASend` that `SendPacket(data)` starts at once on a session
      with socket `socket` and a send in flight when `sending`: one when the
      socket is valid, no send is in flight and the packet fits the send
      buffer; otherwise the packet only waits in the queue. */
  function Kickoff(socket: Socket, sending: bool, data: seq<Byte>): seq<Call>
  {
    if socket.Handle? && !sending && |data| <= MAX_SOCKBUF then [Call(socket, data)] else []
  }

  class ClientSession {
    // Session
    var sessionId: U32
    var socket: Socket
    var username: CString
    var state: SessionState
    var token: seq<Byte>

    // Linear receive state of `ClientSession.h`, used by the packet handler
    const recvBuf: array<Byte>
    var accumulatedSize: U32

    // Receive state of `ClientSession.cpp`
    const recvBuffer: RingBuffer
    const tempRecvBuf: array<Byte>
    /** `wsaBuf.len` of the receive overlapped structure. */
    var recvLen: nat
    var recvOperation: IOOperation

    // Send state
    const sendBuf: array<Byte>
    /** `wsaBuf.len` of the send overlapped structure. */
    var sendLen: nat
    var sendOperation: IOOperation
    var sendQueue: seq<seq<Byte>>
    var isSending: bool

    ghost var history: seq<seq<Byte>>
    ghost var retired: nat
    ghost var issued: seq<nat>

    ghost function Repr(): set<object>
    {
      {this, recvBuf, tempRecvBuf, sendBuf, recvBuffer, recvBuffer.buffer}
    }

    /** The invariant every operation keeps, except the link between
        `isSending` and the queue, which `SendPacket` breaks for the span of
        its call to `ProcessSend`. */
    ghost predicate Core()
      reads this`sendQueue, this`history, this`retired, this`issued, recvBuffer, recvBuffer.buffer
    {
      && recvBuf.Length == MAX_SOCKBUF && tempRecvBuf.Length == MAX_SOCKBUF
      && sendBuf.Length == MAX_SOCKBUF
      && recvBuffer.Valid() && recvBuffer.Capacity() == 2 * MAX_SOCKBUF
      && recvBuf != tempRecvBuf && recvBuf != sendBuf && tempRecvBuf != sendBuf
      && recvBuffer.buffer != recvBuf && recvBuffer.buffer != tempRecvBuf
      && recvBuffer.buffer != sendBuf
      && retired <= |history| && sendQueue == history[retired..]
      && Increasing(issued)
      && (forall k :: 0 <= k < |issued| ==> issued[k] <= retired && issued[k] < |history|)
    }

    /** `isSending` exactly when a packet is queued; that packet is the one
        in flight: it was the last handed to `WSASend`, it sits in `sendBuf`
        and `sendLen` is its length. */
    ghost predicate Valid()
      reads this`sendQueue, this`history, this`retired, this`issued, this`isSending, this`sendLen
      reads sendBuf, recvBuffer, recvBuffer.buffer
    {
      && Core()
      && (isSending <==> sendQueue != [])
      && (isSending ==>
            && issued != [] && issued[|issued| - 1] == retired
            && sendLen == |sendQueue[0]| <= MAX_SOCKBUF
            && sendBuf[..sendLen] == sendQueue[0])
    }

    /** `ClientSession()`: invalid socket, `DISCONNECTING`, not sending, and
        a receive ring of `MAX_SOCKBUF * 2` bytes. `mRecvBuf` and
        `mAccumulatedSize` have no initialiser, so they start out holding
        whatever the allocation held. */
    constructor ()
      ensures Valid() && fresh(Repr() - {this})
      ensures sessionId == 0 && socket == InvalidSocket && state == Disconnecting
      ensures !isSending && sendQueue == [] && username == [] && token == []
      ensures recvBuffer.Capacity() == 4096 && recvBuffer.Contents == []
      ensures recvLen == 0 && sendLen == 0
      ensures tempRecvBuf[..] == Zeros(MAX_SOCKBUF) && sendBuf[..] == Zeros(MAX_SOCKBUF)
      ensures history == [] && issued == []
    {
      sessionId := 0;
      socket := InvalidSocket;
      username := [];
      state := Disconnecting;
      token := [];
      recvBuf := new Byte[MAX_SOCKBUF];
      var indeterminate: U32 :| 0 <= indeterminate < U32_LIMIT;
      accumulatedSize := indeterminate;
      recvBuffer := new RingBuffer.WithCapacity(MAX_SOCKBUF * 2);
      tempRecvBuf := new Byte[MAX_SOCKBUF](_ => 0);
      recvLen := 0;
      recvOperation := Recv;
      sendBuf := new Byte[MAX_SOCKBUF](_ => 0);
      sendLen := 0;
      sendOperation := Recv;
      sendQueue := [];
      isSending := false;
      history := [];
      retired := 0;
      issued := [];
      new;
      assert tempRecvBuf[..] == Zeros(MAX_SOCKBUF);
      assert sendBuf[..] == Zeros(MAX_SOCKBUF);
    }

    /** The `while (!mSendQueue.empty()) mSendQueue.pop();` loop. */
    method ClearSendQueue()
      requires Core()
      modifies this`sendQueue, this`retired
      ensures Core() && sendQueue == [] && retired == |history|
    {
      while sendQueue != []
        invariant Core()
        decreases |sendQueue|
      {
        sendQueue := sendQueue[1..];
        retired := retired + 1;
      }
    }

    /** `Initialize(socket, sessionId)`: a connected session with an empty
        name and queue. The receive ring is left as it was. */
    method Initialize(s: Socket, id: U32)
      requires Valid()
      modifies this`socket, this`sessionId, this`state, this`username, this`recvLen, this`recvOperation
      modifies this`sendQueue, this`retired, this`isSending, this`sendLen, this`sendOperation, tempRecvBuf, sendBuf
      ensures Valid()
      ensures socket == s && sessionId == id && state == Connected
      ensures !isSending && sendQueue == [] && username == []
      ensures recvLen == 0 && sendLen == 0
      ensures tempRecvBuf[..] == Zeros(MAX_SOCKBUF) && sendBuf[..] == Zeros(MAX_SOCKBUF)
    {
      SetIdentity(s, id, Connected);
      ResetSend();
      ResetRecv();
    }

    /** The identity fields `Initialize` and `Reset` assign. */
    method SetIdentity(s: Socket, id: U32, st: SessionState)
      modifies this`socket, this`sessionId, this`state, this`username
      ensures socket == s && sessionId == id && state == st && username == []
    {
      socket := s;
      sessionId := id;
      state := st;
      username := [];
    }

    /** Empties the send queue, clears `isSending` and the send overlapped
        structure, and zeroes `sendBuf`. */
    method ResetSend()
      requires Valid()
      modifies this`sendQueue, this`retired, this`isSending, this`sendLen, this`sendOperation, sendBuf
      ensures Valid() && !isSending && sendQueue == [] && retired == |history|
      ensures sendLen == 0 && sendOperation == Recv && sendBuf[..] == Zeros(MAX_SOCKBUF)
    {
      isSending := false;
      ClearSendQueue();
      sendLen := 0;
      sendOperation := Recv;
      FillZero(sendBuf);
    }

    /** Clears the receive overlapped structure and zeroes `tempRecvBuf`. */
    method ResetRecv()
      requires tempRecvBuf.Length == MAX_SOCKBUF
      modifies this`recvLen, this`recvOperation, tempRecvBuf
      ensures recvLen == 0 && recvOperation == Recv && tempRecvBuf[..] == Zeros(MAX_SOCKBUF)
    {
      recvLen := 0;
      recvOperation := Recv;
      FillZero(tempRecvBuf);
    }

    /** `Reset()`: closes the socket if open and returns the session to its
        idle values. Everything it sets is a constant, so a second `Reset`
        changes nothing more; the receive ring is left as it was. */
    method Reset()
      requires Valid()
      modifies this`socket, this`sessionId, this`state, this`username, this`token
      modifies this`sendQueue, this`retired, this`isSending
      ensures Valid()
      ensures socket == InvalidSocket && sessionId == 0 && state == Disconnecting
      ensures username == [] && token == [] && sendQueue == [] && !isSending
    {
      SetIdentity(InvalidSocket, 0, Disconnecting);
      token := [];
      ClearSendQueue();
      isSending := false;
    }

    /** The send state of this session as seen over `net`. */
    ghost function SendView(net: Network): SendState
      reads this, net
    {
      SendState(sendQueue, net.script, net.calls, retired, issued)
    }

    /** The private `ProcessSend()`: works through the queue as `Drain`
        describes, one `WSASend` per packet that fits. A packet that is
        accepted stays at the front until its completion. */
    method ProcessSend(net: Network)
      requires Core() && forall k :: 0 <= k < |issued| ==> issued[k] < retired
      modifies this`sendQueue, this`retired, this`isSending, this`sendLen, this`sendOperation, this`issued, sendBuf, net
      ensures Valid()
      ensures SendView(net) == AfterProcessSend(old(socket), old(SendView(net)))
      decreases |sendQueue|, 1
    {
      ghost var start := SendView(net);
      if sendQueue == [] {
        isSending := false;
        return;
      }
      isSending := true;
      var packet := sendQueue[0];
      if |packet| > MAX_SOCKBUF {
        SkipFront(net);
        return;
      }
      var accepted := IssueFront(net);
      if !accepted {
        DropFailed(net, start);
      } else {
        AfterAccept(socket, start);
      }
    }

    /** The branch of `ProcessSend` for a front packet that does not fit in
        `sendBuf`: it is popped without a call and the rest is processed. */
    method SkipFront(net: Network)
      requires Core() && forall k :: 0 <= k < |issued| ==> issued[k] < retired
      requires sendQueue != [] && |sendQueue[0]| > MAX_SOCKBUF
      modifies this`sendQueue, this`retired, this`isSending, this`sendLen, this`sendOperation, this`issued, sendBuf, net
      ensures Valid()
      ensures SendView(net) == AfterProcessSend(old(socket), old(SendView(net)))
      decreases |sendQueue|, 0
    {
      ghost var start := SendView(net);
      PopSendQueue();
      ProcessSend(net);
      AfterSkip(socket, start);
    }

    /** The branch of `ProcessSend` for a front packet whose `WSASend` failed
        at once: it is popped after its call and the rest is processed.
        `start` is the state before the call. */
    method DropFailed(net: Network, ghost start: SendState)
      requires Core() && sendQueue != [] && retired == start.retired
      requires forall k :: 0 <= k < |issued| ==> issued[k] <= retired
      requires start.queue != [] && |start.queue[0]| <= MAX_SOCKBUF && !SendOutcome(socket, start.script).0
      requires SendView(net) == SendState(start.queue, SendOutcome(socket, start.script).1,
                                          start.calls + [Call(socket, start.queue[0])],
                                          start.retired, start.issued + [start.retired])
      modifies this`sendQueue, this`retired, this`isSending, this`sendLen, this`sendOperation, this`issued, sendBuf, net
      ensures Valid()
      ensures SendView(net) == AfterProcessSend(old(socket), start)
      decreases |sendQueue|, 0
    {
      isSending := false;
      PopSendQueue();
      ProcessSend(net);
      AfterFailure(socket, start);
    }

    /** `mSendQueue.pop()`: the front packet leaves the queue for good. */
    method PopSendQueue()
      requires Core() && sendQueue != []
      modifies this`sendQueue, this`retired
      ensures Core() && sendQueue == old(sendQueue)[1..] && retired == old(retired) + 1
    {
      sendQueue := sendQueue[1..];
      retired := retired + 1;
    }

    /** Copies the front packet into `sendBuf`, points the send overlapped
        structure at it and issues its `WSASend`. */
    method IssueFront(net: Network) returns (accepted: bool)
      requires Core() && sendQueue != [] && |sendQueue[0]| <= MAX_SOCKBUF
      requires forall k :: 0 <= k < |issued| ==> issued[k] < retired
      modifies this`sendQueue, this`retired, this`isSending, this`sendLen, this`sendOperation, this`issued, sendBuf, net
      ensures Core()
      ensures sendQueue == old(sendQueue)
      ensures sendLen == |sendQueue[0]| && sendBuf[..sendLen] == sendQueue[0]
      ensures (accepted, net.script) == SendOutcome(socket, old(net.script))
      ensures net.calls == old(net.calls) + [Call(socket, sendQueue[0])]
      ensures issued == old(issued) + [retired]
      ensures retired == old(retired) && isSending == old(isSending) && sendOperation == Send
    {
      var packet := sendQueue[0];
      Memcpy(sendBuf, 0, packet, 0, |packet|);
      assert sendBuf[..|packet|] == packet;
      sendOperation := Send;
      sendLen := |packet|;
      issued := issued + [retired];
      accepted := net.WSASend(socket, packet);
    }

    /** `SendPacket(data, length)`: refuses on an invalid socket; otherwise
        queues a copy at the back and, unless a send is already in flight,
        starts sending. */
    method SendPacket(data: seq<Byte>, net: Network) returns (ok: bool)
      requires Valid()
      modifies this`history, this`sendQueue, this`retired, this`isSending, this`sendLen, this`sendOperation, this`issued, sendBuf, net
      ensures Valid()
      ensures ok <==> socket.Handle?
      ensures !ok ==> unchanged(this, sendBuf, net)
      ensures ok ==> history == old(history) + [data]
      ensures ok && old(isSending) ==>
                SendView(net) == old(SendView(net)).(queue := old(sendQueue) + [data])
                && unchanged(sendBuf)
      ensures ok && !old(isSending) ==>
                SendView(net) == AfterProcessSend(socket, old(SendView(net)).(queue := [data]))
      ensures net.calls == old(net.calls) + Kickoff(old(socket), old(isSending), data)
      ensures net.script == ScriptAfter(old(net.script), Kickoff(old(socket), old(isSending), data))
    {
      if socket == InvalidSocket {
        return false;
      }
      ghost var script := net.script;
      Enqueue(data);
      if !isSending {
        ProcessSend(net);
        DrainOne(socket, data, script);
      }
      ok := true;
    }

    /** `mSendQueue.push(...)`: a copy of `data` at the back of the queue. */
    method Enqueue(data: seq<Byte>)
      requires Valid()
      modifies this`history, this`sendQueue
      ensures Core()
      ensures history == old(history) + [data] && sendQueue == old(sendQueue) + [data]
      ensures old(sendQueue) != [] ==> sendQueue[0] == old(sendQueue)[0]
      ensures !isSending ==> forall k :: 0 <= k < |issued| ==> issued[k] < retired
    {
      sendQueue := sendQueue + [data];
      history := history + [data];
    }

    /** `OnSendCompleted()`: the packet in flight, if any, leaves the queue
        and the next one is started. */
    method OnSendCompleted(net: Network)
      requires Valid()
      modifies this`sendQueue, this`retired, this`isSending, this`sendLen, this`sendOperation, this`issued, sendBuf, net
      ensures Valid()
      ensures SendView(net) == AfterProcessSend(socket, PopFront(old(SendView(net))))
    {
      if sendQueue != [] {
        sendQueue := sendQueue[1..];
        retired := retired + 1;
      }
      ProcessSend(net);
    }

    /** `RegisterRecv()`: refuses on an invalid socket or when the ring
        reports full; otherwise arms one `MAX_SOCKBUF`-byte read into
        `tempRecvBuf`, whose immediate outcome is `recvAccepted`. Because
        `IsFull` answers true for any non-empty ring, a read is armed only
        when the ring is empty. */
    method RegisterRecv(recvAccepted: bool) returns (ok: bool)
      requires Valid()
      modifies this`recvLen, this`recvOperation
      ensures Valid()
      ensures ok <==> socket.Handle? && recvBuffer.Contents == [] && recvAccepted
      ensures socket.Handle? && recvBuffer.Contents == [] ==>
                recvLen == MAX_SOCKBUF && recvOperation == Recv
      ensures !(socket.Handle? && recvBuffer.Contents == []) ==>
                recvLen == old(recvLen) && recvOperation == old(recvOperation)
    {
      if socket == InvalidSocket {
        return false;
      }
      if recvBuffer.IsFull() {
        return false;
      }
      recvOperation := Recv;
      recvLen := MAX_SOCKBUF;
      ok := recvAccepted;
    }

    // Inline members of `ClientSession.h`

    /** `IsValid()`: the session holds an open socket handle. */
    predicate IsValid(): (r: bool)
      reads this
      ensures r <==> socket.Handle?
    {
      socket != InvalidSocket
    }

    /** `IsAuthenticated()`: the session has logged in, so it is neither
        merely connected nor being torn down. */
    predicate IsAuthenticated(): (r: bool)
      reads this
      ensures r <==> !state.Connected? && !state.Disconnecting?
    {
      state == Authenticated
    }

    method SetState(s: SessionState)
      modifies this`state
      ensures state == s
      ensures Valid() <==> old(Valid())
    {
      state := s;
    }

    method SetUsername(name: CString)
      modifies this`username
      ensures username == name
      ensures Valid() <==> old(Valid())
    {
      username := name;
    }

    /** `AddAccumulatedSize(size)`: `DWORD` addition, with no bound check
        against `MAX_SOCKBUF`. */
    method AddAccumulatedSize(size: U32)
      modifies this`accumulatedSize
      ensures accumulatedSize == AddU32(old(accumulatedSize), size)
    {
      accumulatedSize := AddU32(accumulatedSize, size);
    }

    method SetAccumulatedSize(size: U32)
      modifies this`accumulatedSize
      ensures accumulatedSize == size
    {
      accumulatedSize := size;
    }

    method ResetAccumulatedSize()
      modifies this`accumulatedSize
      ensures accumulatedSize == 0
    {
      accumulatedSize := 0;
    }
  }

  /** `ZeroMemory(buf, sizeof(buf))` */
  method FillZero(a: array<Byte>)
    modifies a
    ensures a[..] == Zeros(a.Length)
  {
    var i := 0;
    while i < a.Length
      invariant 0 <= i <= a.Length
      invariant forall p :: 0 <= p < i ==> a[p] == 0
    {
      a[i] := 0;
      i := i + 1;
    }
  }
}

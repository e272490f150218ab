/** The per-event decisions of `IOCPServer.cpp`. One call of `WorkerStep`
    is one pass of `WorkerThread`'s loop for a dequeued completion, one
    call of `AcceptStep` one pass of `AccepterThread`'s loop. What the
    operating system answers (the completion's status and byte count,
    `accept`, the completion-port bind, the immediate outcome of `WSARecv`)
    comes in as parameters; `WSASend` outcomes come from the `Network`
    script. */
module Server {
  import opened Bytes
  import opened Os
  import opened Session
  import opened Manager

  /** The value of `mSessionIdCounter` after `n` ids have been handed out:
      it starts at 1 and `GenerateSessionId` increments it as a `UINT32`. */
  function IdAfter(n: nat): (r: U32)
  {
    (1 + n) % U32_LIMIT
  }

  /** Each id handed out moves the counter on to the next `IdAfter`. */
  lemma NextId(n: nat)
    ensures AddU32(IdAfter(n), 1) == IdAfter(n + 1)
  {
    var q := (1 + n) / U32_LIMIT;
    assert 1 + n == q * U32_LIMIT + IdAfter(n);
    if IdAfter(n) + 1 < U32_LIMIT {
      assert 2 + n == q * U32_LIMIT + (IdAfter(n) + 1);
    } else {
      assert 2 + n == (q + 1) * U32_LIMIT + 0;
    }
  }

  /** The first `2^32 - 1` ids are 1, 2, ..., `2^32 - 1`: none is 0 and no
      two are equal. The next one is 0, the id `Reset` gives a session. */
  lemma IdsBeforeWrap(a: nat, b: nat)
    requires a < b < U32_LIMIT - 1
    ensures IdAfter(a) == a + 1 && IdAfter(b) == b + 1
    ensures IdAfter(a) != 0 && IdAfter(a) != IdAfter(b)
    ensures IdAfter(U32_LIMIT - 1) == 0
  {
  }

  /** A session `Reset` has left idle. */
  ghost predicate Closed(s: ClientSession)
    reads s
  {
    && s.socket == InvalidSocket && s.sessionId == 0 && s.state == Disconnecting
    && s.username == [] && s.sendQueue == [] && !s.isSending
  }

  /** How a pass of `AccepterThread`'s loop ends. */
  datatype AcceptOutcome = PoolFull | AcceptFailed | BindFailed | RecvFailed | Accepted

  class IOCPServer {
    const sessionManager: SessionManager
    var sessionIdCounter: U32
    /** How many ids `GenerateSessionId` has handed out. */
    ghost var generated: nat

    ghost predicate Valid()
      reads this, sessionManager, sessionManager.Objects()
    {
      sessionManager.Valid() && sessionIdCounter == IdAfter(generated)
    }

    /** `IOCPServer()` followed by the `new SessionManager(maxClientCount)`
        of `StartServer`: the counter starts at 1. */
    constructor (maxClientCount: U32)
      ensures Valid() && fresh(sessionManager) && fresh(sessionManager.Objects())
      ensures sessionIdCounter == 1 && generated == 0
      ensures |sessionManager.pool| == maxClientCount && sessionManager.sessionIndexes == Iota(maxClientCount)
      ensures sessionManager.activeSessionCount == 0
    {
      sessionManager := new SessionManager(maxClientCount);
      sessionIdCounter := 1;
      generated := 0;
    }

    /** `GenerateSessionId()`: the counter's value, then the counter moves on. */
    method GenerateSessionId() returns (id: U32)
      requires Valid()
      modifies this`sessionIdCounter, this`generated
      ensures Valid()
      ensures id == IdAfter(old(generated)) && generated == old(generated) + 1
    {
      id := sessionIdCounter;
      NextId(generated);
      sessionIdCounter := AddU32(sessionIdCounter, 1);
      generated := generated + 1;
    }

    /** One completion taken off the port by `GetQueuedCompletionStatus`:
        its status `success`, its completion key `key` (null or a pool
        session), its byte count and the operation of its overlapped
        structure. A failed or empty completion closes the key's session
        when that session is valid and does nothing otherwise; a `RECV`
        appends the bytes read to the ring, silently dropping them when
        they do not fit, lets the packet handler take `consumed` bytes off
        its front, and re-arms the read, closing the session when that
        fails; a `SEND` completes the send in flight. Only the key's
        session and its buffers change; every other session stays as it
        was. */
    method WorkerStep(success: bool, key: Option<ClientSession>, transferred: U32, operation: IOOperation,
                      consumed: nat, recvAccepted: bool, net: Network)
      requires Valid() && (key.Some? ==> key.value in sessionManager.pool)
      requires success && transferred > 0 ==> key.Some? && transferred as nat <= MAX_SOCKBUF
      modifies sessionManager`sessionIndexes, sessionManager`sessionIdByName, sessionManager`sessionById
      modifies sessionManager`activeSessionCount, if key.Some? then key.value.Repr() else {}, net
      ensures Valid()
      ensures forall s :: s in sessionManager.Sessions() && (key.None? || s != key.value) ==> unchanged(s)
      ensures (!success || transferred == 0) && (key.None? || !old(key.value.IsValid())) ==>
                unchanged(sessionManager) && unchanged(net) && (key.Some? ==> unchanged(key.value))
      ensures (!success || transferred == 0) && key.Some? && old(key.value.IsValid()) ==>
                Disconnected(key.value, old(sessionManager.sessionIndexes), old(sessionManager.sessionIdByName),
                             old(sessionManager.sessionById), old(sessionManager.activeSessionCount))
      ensures success && transferred > 0 && operation == Recv ==>
                RecvHandled(key.value, old(key.value.socket), old(key.value.recvBuffer.Contents),
                            old(key.value.tempRecvBuf[..]), transferred, consumed, recvAccepted,
                            old(sessionManager.sessionIndexes), old(sessionManager.sessionIdByName),
                            old(sessionManager.sessionById), old(sessionManager.activeSessionCount))
      ensures success && transferred > 0 && operation == Send ==>
                && key.value.SendView(net) == AfterProcessSend(key.value.socket, PopFront(old(key.value.SendView(net))))
                && unchanged(sessionManager)
    {
      if !success || transferred == 0 {
        OnFailure(key);
      } else {
        OnCompleted(key.value, transferred, operation, consumed, recvAccepted, net);
      }
    }

    /** The other branches: a completion that carried bytes. */
    method OnCompleted(session: ClientSession, transferred: U32, operation: IOOperation, consumed: nat,
                       recvAccepted: bool, net: Network)
      requires Valid() && session in sessionManager.pool && 0 < transferred as nat <= MAX_SOCKBUF
      modifies sessionManager`sessionIndexes, sessionManager`sessionIdByName, sessionManager`sessionById
      modifies sessionManager`activeSessionCount, session.Repr(), net
      ensures Valid()
      ensures forall s :: s in sessionManager.Sessions() && s != session ==> unchanged(s)
      ensures operation == Recv ==>
                RecvHandled(session, old(session.socket), old(session.recvBuffer.Contents),
                            old(session.tempRecvBuf[..]), transferred, consumed, recvAccepted,
                            old(sessionManager.sessionIndexes), old(sessionManager.sessionIdByName),
                            old(sessionManager.sessionById), old(sessionManager.activeSessionCount))
      ensures operation == Send ==>
                && session.SendView(net) == AfterProcessSend(session.socket, PopFront(old(session.SendView(net))))
                && unchanged(sessionManager)
    {
      if operation == Recv {
        OnRecv(session, transferred, consumed, recvAccepted);
      } else {
        sessionManager.SendCompleted(session, net);
      }
    }

    /** The first branch of the loop: a failed or empty completion. */
    method OnFailure(key: Option<ClientSession>)
      requires Valid() && (key.Some? ==> key.value in sessionManager.pool)
      modifies sessionManager`sessionIndexes, sessionManager`sessionIdByName, sessionManager`sessionById
      modifies sessionManager`activeSessionCount, if key.Some? && key.value.IsValid() then {key.value} else {}
      ensures Valid()
      ensures key.None? || !old(key.value.IsValid()) ==> unchanged(sessionManager)
      ensures key.Some? && old(key.value.IsValid()) ==>
                Disconnected(key.value, old(sessionManager.sessionIndexes), old(sessionManager.sessionIdByName),
                             old(sessionManager.sessionById), old(sessionManager.activeSessionCount))
    {
      if key.Some? && key.value.IsValid() {
        Disconnect(key.value);
      }
    }

    /** The registry and the session after `UnregisterSession(session)` and
        `session->Reset()`: the session is idle, its slot index is back on
        the free stack, the count is one lower, and only the entries under
        the empty name and id 0 are gone. */
    ghost predicate Disconnected(session: ClientSession, indexes: seq<nat>, byName: map<seq<Byte>, U32>,
                                 byId: map<U32, ClientSession>, count: int)
      reads this, sessionManager, session
    {
      && Closed(session)
      && (exists i :: 0 <= i < |sessionManager.pool| && sessionManager.pool[i] == session
                      && sessionManager.sessionIndexes == indexes + [i])
      && sessionManager.sessionIdByName == byName - {[]}
      && sessionManager.sessionById == byId - {0}
      && sessionManager.activeSessionCount == count - 1
    }

    /** `mSessionManager->UnregisterSession(session); session->Reset();` */
    method Disconnect(session: ClientSession)
      requires Valid() && session in sessionManager.pool
      modifies sessionManager`sessionIndexes, sessionManager`sessionIdByName, sessionManager`sessionById
      modifies sessionManager`activeSessionCount
      modifies session`socket, session`sessionId, session`state, session`username, session`token
      modifies session`sendQueue, session`retired, session`isSending
      ensures Valid()
      ensures Disconnected(session, old(sessionManager.sessionIndexes), old(sessionManager.sessionIdByName),
                           old(sessionManager.sessionById), old(sessionManager.activeSessionCount))
    {
      sessionManager.UnregisterSession(session);
      sessionManager.ResetSession(session);
    }

    /** The end of a `RECV` completion on `session`, which held socket
        `socket` and ring contents `before`, read `n` bytes into `read`, and
        whose packet handler consumed `consumed` bytes: the ring holds what
        is left, and the read is re-armed exactly when the socket is valid,
        nothing is left and `WSARecv` accepts; then the registry and the
        session's identity are as they were. Otherwise the session is
        disconnected. */
    twostate predicate RecvHandled(session: ClientSession, socket: Socket, before: seq<Byte>, read: seq<Byte>,
                                   n: nat, consumed: nat, recvAccepted: bool, indexes: seq<nat>,
                                   byName: map<seq<Byte>, U32>, byId: map<U32, ClientSession>, count: int)
      reads this, sessionManager, session, session.recvBuffer
    {
      var left := Consumed(Received(before, read, n), consumed);
      && session.recvBuffer.Contents == left
      && (socket.Handle? && left == [] && recvAccepted ==>
            && unchanged(sessionManager) && IdentityKept(session)
            && session.recvLen == MAX_SOCKBUF && session.recvOperation == Recv)
      && (!(socket.Handle? && left == [] && recvAccepted) ==>
            Disconnected(session, indexes, byName, byId, count))
    }

    /** The `RECV` branch: `Write` (its result unused), the packet
        handler's `consumed` bytes taken off the ring, then `RegisterRecv`,
        then `Disconnect` if that failed. `RegisterRecv` refuses whenever
        the ring holds a byte (`IsFull`), so any byte the handler leaves in
        the ring closes the session. */
    method OnRecv(session: ClientSession, transferred: U32, consumed: nat, recvAccepted: bool)
      requires Valid() && session in sessionManager.pool && 0 < transferred as nat <= MAX_SOCKBUF
      modifies sessionManager`sessionIndexes, sessionManager`sessionIdByName, sessionManager`sessionById
      modifies sessionManager`activeSessionCount, session, session.recvBuffer, session.recvBuffer.buffer
      ensures Valid()
      ensures RecvHandled(session, old(session.socket), old(session.recvBuffer.Contents),
                          old(session.tempRecvBuf[..]), transferred, consumed, recvAccepted,
                          old(sessionManager.sessionIndexes), old(sessionManager.sessionIdByName),
                          old(sessionManager.sessionById), old(sessionManager.activeSessionCount))
    {
      var _ := sessionManager.WriteReceived(session, transferred as nat);
      sessionManager.ConsumeReceived(session, consumed);
      var rearmed := sessionManager.RegisterRecvOn(session, recvAccepted);
      if !rearmed {
        Disconnect(session);
      }
    }

    /** One pass of `AccepterThread`'s loop. `acceptSocket` is what
        `accept` returns, `bindOk` whether `BindIOCompletionPort` succeeds
        and `recvAccepted` the immediate outcome of the first `WSARecv`.
        With no free slot nothing happens and `accept` is not called.
        Otherwise the slot popped off the free stack is never pushed back,
        whichever way the pass ends: each failure after the pop loses
        that slot for good. */
    method AcceptStep(acceptSocket: Socket, bindOk: bool, recvAccepted: bool) returns (outcome: AcceptOutcome)
      requires Valid()
      modifies this`sessionIdCounter, this`generated, sessionManager`sessionIndexes
      modifies if sessionManager.NextFree().Some?
               then var slot := sessionManager.NextFree().value; {slot, slot.sendBuf, slot.tempRecvBuf}
               else {}
      ensures Valid()
      ensures sessionManager.sessionIdByName == old(sessionManager.sessionIdByName)
      ensures sessionManager.sessionById == old(sessionManager.sessionById)
      ensures outcome == PoolFull <==> old(sessionManager.sessionIndexes) == []
      ensures outcome == PoolFull ==>
                && sessionManager.sessionIndexes == [] && generated == old(generated)
                && unchanged(sessionManager.Sessions())
      ensures outcome != PoolFull ==>
                var free := old(sessionManager.sessionIndexes);
                var slot := sessionManager.pool[free[|free| - 1]];
                && sessionManager.sessionIndexes == free[..|free| - 1]
                && (forall s :: s in sessionManager.Sessions() && s != slot ==> unchanged(s))
                && (outcome == AcceptFailed <==> acceptSocket == InvalidSocket)
                && (outcome == AcceptFailed ==> generated == old(generated) && unchanged(sessionManager.Sessions()))
                && (outcome != AcceptFailed ==> generated == old(generated) + 1)
                && (outcome == BindFailed <==> acceptSocket.Handle? && !bindOk)
                && (outcome == RecvFailed <==>
                      acceptSocket.Handle? && bindOk && !(old(slot.recvBuffer.Contents) == [] && recvAccepted))
                && (outcome == BindFailed || outcome == RecvFailed ==> Closed(slot))
                && (outcome == Accepted ==>
                      && slot.socket == acceptSocket && slot.sessionId == IdAfter(old(generated))
                      && slot.state == Connected && slot.username == [] && slot.sendQueue == []
                      && !slot.isSending)
    {
      var r := sessionManager.GetEmptySession();
      if r.None? {
        return PoolFull;
      }
      if acceptSocket == InvalidSocket {
        return AcceptFailed;
      }
      var id := GenerateSessionId();
      outcome := Arm(r.value, acceptSocket, id, bindOk, recvAccepted);
    }

    /** The end of a pass that accepted a connection: `Initialize`, then
        the bind, then the first `RegisterRecv`; a failure resets the
        session and abandons its slot. */
    method Arm(session: ClientSession, socket: Socket, id: U32, bindOk: bool, recvAccepted: bool)
      returns (outcome: AcceptOutcome)
      requires Valid() && session in sessionManager.pool && socket.Handle?
      modifies session, session.sendBuf, session.tempRecvBuf
      ensures Valid()
      ensures forall s :: s in sessionManager.Sessions() && s != session ==> unchanged(s)
      ensures outcome == BindFailed <==> !bindOk
      ensures outcome == RecvFailed <==> bindOk && !(old(session.recvBuffer.Contents) == [] && recvAccepted)
      ensures outcome == BindFailed || outcome == RecvFailed || outcome == Accepted
      ensures outcome != Accepted ==> Closed(session)
      ensures outcome == Accepted ==>
                && session.socket == socket && session.sessionId == id && session.state == Connected
                && session.username == [] && session.sendQueue == [] && !session.isSending
    {
      sessionManager.InitializeSession(session, socket, id);
      if !bindOk {
        sessionManager.ResetSession(session);
        return BindFailed;
      }
      var armed := sessionManager.RegisterRecvOn(session, recvAccepted);
      if !armed {
        sessionManager.ResetSession(session);
        return RecvFailed;
      }
      outcome := Accepted;
    }
  }
}

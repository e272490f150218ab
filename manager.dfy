/** The session registry of `SessionManager.cpp`: a fixed pool of sessions
    created up front, a LIFO stack of free pool indices, a name-to-id map, an
    id-to-session map and a counter of active sessions. */
module Manager {
  import opened Bytes
  import opened Os
  import opened Session

  /** `0, 1, ..., n - 1`: the free stack after construction, its top last. */
  function Iota(n: nat): (r: seq<nat>)
    ensures |r| == n
    ensures forall i :: 0 <= i < n ==> r[i] == i
  {
    seq(n, i => i)
  }

  /** `session` and every object it owns are mapped to slot `i`. */
  ghost predicate Owns(owner: map<object, nat>, session: ClientSession, i: nat)
  {
    && session in owner && owner[session] == i
    && session.recvBuf in owner && owner[session.recvBuf] == i
    && session.tempRecvBuf in owner && owner[session.tempRecvBuf] == i
    && session.sendBuf in owner && owner[session.sendBuf] == i
    && session.recvBuffer in owner && owner[session.recvBuffer] == i
    && session.recvBuffer.buffer in owner && owner[session.recvBuffer.buffer] == i
  }

  /** A slot as the pool's constructor leaves it. */
  ghost predicate Idle(s: ClientSession)
    reads s, s.sendBuf, s.recvBuffer, s.recvBuffer.buffer
  {
    && s.Valid() && s.socket == InvalidSocket && s.state == Disconnecting
    && s.sendQueue == [] && s.history == []
  }

  /** `mSessionContainer.emplace_back()` */
  method NewSlot() returns (s: ClientSession)
    ensures Idle(s) && fresh(s.Repr())
  {
    s := new ClientSession();
  }

  /** `owner` with every object of `s` assigned to slot `i`. */
  ghost function Adopt(owner: map<object, nat>, s: ClientSession, i: nat): (r: map<object, nat>)
    ensures Owns(r, s, i)
    ensures forall o :: o in owner && o !in s.Repr() ==> o in r && r[o] == owner[o]
  {
    owner[s := i][s.recvBuf := i][s.tempRecvBuf := i][s.sendBuf := i]
         [s.recvBuffer := i][s.recvBuffer.buffer := i]
  }

  /** The constructor's loop: `n` new idle sessions, each owning its own
      storage, and the indices pushed in order. */
  method BuildPool(n: nat) returns (sessions: seq<ClientSession>, indexes: seq<nat>,
                                    ghost owners: map<object, nat>)
    ensures |sessions| == n && indexes == Iota(n)
    ensures forall k :: 0 <= k < n ==> Idle(sessions[k]) && fresh(sessions[k].Repr())
    ensures forall k :: 0 <= k < n ==> Owns(owners, sessions[k], k)
  {
    sessions, indexes, owners := [], [], map[];
    var i: nat := 0;
    while i < n
      invariant i <= n
      invariant |sessions| == i && indexes == Iota(i)
      invariant forall k :: 0 <= k < i ==> Idle(sessions[k]) && fresh(sessions[k].Repr())
      invariant forall k :: 0 <= k < i ==> Owns(owners, sessions[k], k)
    {
      var s := NewSlot();
      owners := Adopt(owners, s, i);
      sessions := sessions + [s];
      indexes := indexes + [i];
      i := i + 1;
    }
  }

  class SessionManager {
    /** `mSessionContainer`: reserved once, never resized. */
    const pool: seq<ClientSession>
    /** `mSessionIndexes`, the top of the stack last. */
    var sessionIndexes: seq<nat>
    var sessionIdByName: map<seq<Byte>, U32>
    var sessionById: map<U32, ClientSession>
    var activeSessionCount: int

    /** Which slot each object of the pool belongs to: the sessions' storage
        is never shared between slots. */
    ghost const owner: map<object, nat>

    /** `session` and every object it owns belong to slot `i`. */
    ghost predicate OwnedBy(session: ClientSession, i: nat)
    {
      Owns(owner, session, i)
    }

    ghost function Sessions(): set<ClientSession>
    {
      set i | 0 <= i < |pool| :: pool[i]
    }

    ghost function SendBufs(): set<array<Byte>>
    {
      set i | 0 <= i < |pool| :: pool[i].sendBuf
    }

    ghost function TempBufs(): set<array<Byte>>
    {
      set i | 0 <= i < |pool| :: pool[i].tempRecvBuf
    }

    /** The sessions of the pool and what their invariants read. */
    ghost function Objects(): set<object>
    {
      (set i | 0 <= i < |pool| :: pool[i] as object)
      + (set i | 0 <= i < |pool| :: pool[i].sendBuf as object)
      + (set i | 0 <= i < |pool| :: pool[i].recvBuffer as object)
      + (set i | 0 <= i < |pool| :: pool[i].recvBuffer.buffer as object)
    }

    /** Every slot is a valid session owning its own storage. */
    ghost predicate SlotsValid()
      reads Objects()
    {
      forall i :: 0 <= i < |pool| ==> OwnedBy(pool[i], i) && pool[i].Valid()
    }

    /** The slots are valid, every free index names a slot and every id maps
        to a slot. */
    ghost predicate Valid()
      reads this`sessionIndexes, this`sessionById, Objects()
    {
      SlotsValid() && FreeInPool() && IdsInPool()
    }

    ghost predicate FreeInPool()
      reads this`sessionIndexes
    {
      forall k :: 0 <= k < |sessionIndexes| ==> sessionIndexes[k] < |pool|
    }

    ghost predicate IdsInPool()
      reads this`sessionById
    {
      forall id :: id in sessionById ==> sessionById[id] in pool
    }

    /** `SessionManager(maxSessionCount)`: `maxSessionCount` idle sessions,
        every index free with the last on top, empty maps, count 0. */
    constructor (maxSessionCount: U32)
      ensures Valid() && fresh(Objects())
      ensures |pool| == maxSessionCount && sessionIndexes == Iota(maxSessionCount)
      ensures sessionIdByName == map[] && sessionById == map[] && activeSessionCount == 0
      ensures forall i :: 0 <= i < |pool| ==> Idle(pool[i])
    {
      var sessions, indexes, owners := BuildPool(maxSessionCount);
      pool := sessions;
      owner := owners;
      sessionIndexes := indexes;
      sessionIdByName := map[];
      sessionById := map[];
      activeSessionCount := 0;
    }

    /** `GetEmptySession()`: null when no index is free; otherwise pops the
        top index and returns its slot. */
    method GetEmptySession() returns (r: Option<ClientSession>)
      requires FreeInPool()
      modifies this`sessionIndexes
      ensures FreeInPool()
      ensures r.None? <==> old(sessionIndexes) == []
      ensures r.None? ==> sessionIndexes == old(sessionIndexes)
      ensures r.Some? ==>
                && old(sessionIndexes) != []
                && r.value == pool[old(sessionIndexes)[|old(sessionIndexes)| - 1]]
                && sessionIndexes == old(sessionIndexes)[..|old(sessionIndexes)| - 1]
    {
      if sessionIndexes == [] {
        return None;
      }
      var idx := sessionIndexes[|sessionIndexes| - 1];
      sessionIndexes := sessionIndexes[..|sessionIndexes| - 1];
      r := Some(pool[idx]);
    }

    /** The slot `GetEmptySession` hands out next: the one whose index is
        on top of the free stack, if any. */
    ghost function NextFree(): Option<ClientSession>
      requires FreeInPool()
      reads this`sessionIndexes
    {
      if sessionIndexes == [] then None else Some(pool[sessionIndexes[|sessionIndexes| - 1]])
    }

    /** `FindSessionByName(name)`: the session mapped from the id mapped from
        `name`, when both entries exist. The session's socket is not looked
        at, so a stale entry is found like a live one. */
    function FindSessionByName(name: seq<Byte>): (r: Option<ClientSession>)
      requires IdsInPool()
      reads this
      ensures r.Some? <==> name in sessionIdByName && sessionIdByName[name] in sessionById
      ensures r.Some? ==> r.value in pool && r == FindSessionById(sessionIdByName[name])
    {
      if name in sessionIdByName then FindSessionById(sessionIdByName[name]) else None
    }

    /** `FindSessionById(sessionId)`: the mapped session, or null. */
    function FindSessionById(id: U32): (r: Option<ClientSession>)
      requires IdsInPool()
      reads this
      ensures r.Some? <==> id in sessionById
      ensures r.Some? ==> r.value in pool
    {
      if id in sessionById then Some(sessionById[id]) else None
    }

    /** `RegisterSession(session)`: insert-or-assign of both entries, keyed
        by the session's current name and id, then one more active session.
        A second registration under the same name replaces the first. */
    method RegisterSession(session: ClientSession)
      requires Valid() && session in pool
      modifies this`sessionIdByName, this`sessionById, this`activeSessionCount
      ensures Valid()
      ensures sessionIdByName == old(sessionIdByName)[session.username := session.sessionId]
      ensures sessionById == old(sessionById)[session.sessionId := session]
      ensures activeSessionCount == old(activeSessionCount) + 1
      ensures FindSessionByName(session.username) == Some(session)
      ensures FindSessionById(session.sessionId) == Some(session)
    {
      sessionIdByName := sessionIdByName[session.username := session.sessionId];
      sessionById := sessionById[session.sessionId := session];
      activeSessionCount := activeSessionCount + 1;
    }

    /** `UnregisterSession(session)`: resets the session first, pushes its
        slot index, and only then erases by the session's name and id, which
        `Reset` has just made the empty name and id 0. The entries the
        session was registered under stay; its slot is pushed and the count
        drops even if it was never registered. */
    method UnregisterSession(session: ClientSession)
      requires Valid() && session in pool
      modifies this`sessionIndexes, this`sessionIdByName, this`sessionById, this`activeSessionCount
      modifies session`socket, session`sessionId, session`state, session`username, session`token
      modifies session`sendQueue, session`retired, session`isSending
      ensures Valid()
      ensures session.socket == InvalidSocket && session.sessionId == 0 && session.username == []
      ensures session.token == []
      ensures session.state == Disconnecting && session.sendQueue == [] && !session.isSending
      ensures exists i :: 0 <= i < |pool| && pool[i] == session
                && sessionIndexes == old(sessionIndexes) + [i]
      ensures sessionIdByName == old(sessionIdByName) - {[]}
      ensures sessionById == old(sessionById) - {0}
      ensures activeSessionCount == old(activeSessionCount) - 1
    {
      var i :| 0 <= i < |pool| && pool[i] == session;
      ResetSession(session);
      Release(i);
      Forget(session.username, session.sessionId);
    }

    /** `mSessionIndexes.push(i)` */
    method Release(i: nat)
      requires i < |pool| && FreeInPool() && SlotsValid()
      modifies this`sessionIndexes
      ensures sessionIndexes == old(sessionIndexes) + [i]
      ensures FreeInPool() && SlotsValid()
    {
      sessionIndexes := sessionIndexes + [i];
    }

    /** The two `erase` calls and the decrement of the active count. */
    method Forget(name: seq<Byte>, id: U32)
      requires IdsInPool() && SlotsValid()
      modifies this`sessionIdByName, this`sessionById, this`activeSessionCount
      ensures sessionIdByName == old(sessionIdByName) - {name}
      ensures sessionById == old(sessionById) - {id}
      ensures activeSessionCount == old(activeSessionCount) - 1
      ensures IdsInPool() && SlotsValid()
    {
      sessionIdByName := sessionIdByName - {name};
      sessionById := sessionById - {id};
      activeSessionCount := activeSessionCount - 1;
    }

    /** `BroadcastPacket(excludeSession, data, length)`: `SendPacket` to
        every slot, in index order, whose socket is valid and that is not
        `exclude`. Authentication is not looked at. Every such slot queues
        the packet; the `WSASend` calls go out in slot order, one for each
        of those slots that had no send in flight. */
    method BroadcastPacket(exclude: ClientSession, data: seq<Byte>, net: Network)
      requires Valid()
      modifies Sessions(), SendBufs(), net
      ensures Valid()
      ensures forall i :: 0 <= i < |pool| ==>
                Delivered(old(ViewOf(pool[i])), ViewOf(pool[i]), pool[i] == exclude, data)
      ensures net.calls == old(net.calls) + old(BroadcastCalls(pool, exclude, data))
      ensures net.script == ScriptAfter(old(net.script), old(BroadcastCalls(pool, exclude, data)))
    {
      ghost var views, starts := Views(pool), Kickoffs(pool, exclude, data);
      ghost var calls0, script0 := net.calls, net.script;
      var i := 0;
      while i < |pool|
        invariant i <= |pool| && Broadcasting(i, exclude, data, net, views, starts, calls0, script0)
      {
        VisitSlot(i, exclude, data, net, views, starts, calls0, script0);
        i := i + 1;
      }
      assert starts[..|pool|] == starts;
    }

    /** Partway through a broadcast of `data` that found the slots as
        `views`, with kickoffs `starts`, and the network at `calls0` and
        `script0`: the slots are valid, the first `i` have had the packet
        delivered, the rest are as they were, and the network has issued
        the first `i` kickoffs. */
    ghost predicate Broadcasting(i: nat, exclude: ClientSession, data: seq<Byte>, net: Network,
                                 views: seq<SlotView>, starts: seq<seq<Call>>,
                                 calls0: seq<Call>, script0: seq<bool>)
      reads Objects(), net
    {
      && SlotsValid() && i <= |pool| == |views| == |starts|
      && (forall j :: 0 <= j < |pool| ==>
            starts[j] == SlotKickoff(views[j].socket, views[j].sending, pool[j] == exclude, data))
      && (forall j :: 0 <= j < i ==> Delivered(views[j], ViewOf(pool[j]), pool[j] == exclude, data))
      && (forall j :: i <= j < |pool| ==> ViewOf(pool[j]) == views[j])
      && net.calls == calls0 + Concat(starts[..i])
      && net.script == ScriptAfter(script0, Concat(starts[..i]))
    }

    /** One iteration of the broadcast loop: `SendPacket` to slot `i` when
        its socket is valid and it is not `exclude`, which takes the
        broadcast one slot further. */
    method VisitSlot(i: nat, exclude: ClientSession, data: seq<Byte>, net: Network,
                     ghost views: seq<SlotView>, ghost starts: seq<seq<Call>>,
                     ghost calls0: seq<Call>, ghost script0: seq<bool>)
      requires i < |pool| && Broadcasting(i, exclude, data, net, views, starts, calls0, script0)
      modifies Slot(i), Slot(i).sendBuf, net
      ensures Broadcasting(i + 1, exclude, data, net, views, starts, calls0, script0)
    {
      ghost var before := ViewOf(pool[i]);
      SlotApart(i);
      if pool[i].IsValid() && pool[i] != exclude {
        var _ := SendTo(pool[i], data, net);
      }
      assert Delivered(before, ViewOf(pool[i]), pool[i] == exclude, data);
      assert net.calls == old(net.calls) + starts[i] && net.script == ScriptAfter(old(net.script), starts[i]);
      IssueNext(calls0, script0, starts, i);
    }

    /** Solver hint: no other slot is slot `i`'s session. */
    lemma SlotApart(i: nat)
      requires SlotsValid() && i < |pool|
      ensures forall j :: 0 <= j < |pool| && j != i ==> pool[j] != pool[i]
    {
      forall j | 0 <= j < |pool| && j != i
        ensures pool[j] != pool[i]
      {
        assert OwnedBy(pool[j], j) && OwnedBy(pool[i], i);
      }
    }

    /** `session->SendPacket(data, length)` on one slot; the other slots stay
        valid and unchanged, and so does the session's identity. */
    method SendTo(session: ClientSession, data: seq<Byte>, net: Network) returns (ok: bool)
      requires SlotsValid() && session in pool
      modifies session`history, session`sendQueue, session`retired, session`isSending, session`sendLen
      modifies session`sendOperation, session`issued, session.sendBuf, net
      ensures SlotsValid()
      ensures ok <==> session.socket.Handle?
      ensures IdentityKept(session)
      ensures session.history == old(session.history) + if ok then [data] else []
      ensures net.calls == old(net.calls) + Kickoff(old(session.socket), old(session.isSending), data)
      ensures net.script == ScriptAfter(old(net.script), Kickoff(old(session.socket), old(session.isSending), data))
    {
      ghost var k :| 0 <= k < |pool| && pool[k] == session;
      assert OwnedBy(pool[k], k) && pool[k].Valid();
      ok := session.SendPacket(data, net);
    }

    /** `SetState(AUTHENTICATED)` and `SetUsername(name)` on one slot. */
    method Authenticate(session: ClientSession, name: CString)
      requires SlotsValid() && session in pool
      modifies session`state, session`username
      ensures SlotsValid()
      ensures session.state == Authenticated && session.username == name
    {
      session.SetState(Authenticated);
      session.SetUsername(name);
    }

    /** Solver hint: no slot's linear receive buffer is any slot's send
        buffer or any other object the slots' invariants read. */
    lemma RecvBufApart(session: ClientSession)
      requires SlotsValid() && session in pool
      ensures session.recvBuf !in SendBufs() && session.recvBuf !in Objects()
      ensures session.recvBuf.Length == MAX_SOCKBUF
    {
      var i :| 0 <= i < |pool| && pool[i] == session;
      assert OwnedBy(pool[i], i) && pool[i].Valid();
    }

    /** `AddAccumulatedSize(size)` on one slot; the slots stay valid. */
    method AddAccumulated(session: ClientSession, size: U32)
      requires SlotsValid() && session in pool
      modifies session`accumulatedSize
      ensures SlotsValid() && session.accumulatedSize == AddU32(old(session.accumulatedSize), size)
    {
      session.AddAccumulatedSize(size);
    }

    /** `SetAccumulatedSize(size)` on one slot; the slots stay valid. */
    method SetAccumulated(session: ClientSession, size: U32)
      requires SlotsValid() && session in pool
      modifies session`accumulatedSize
      ensures SlotsValid() && session.accumulatedSize == size
    {
      session.SetAccumulatedSize(size);
    }

    /** `session->Initialize(socket, sessionId)` on one slot. */
    method InitializeSession(session: ClientSession, socket: Socket, id: U32)
      requires SlotsValid() && session in pool
      modifies session`socket, session`sessionId, session`state, session`username, session`recvLen
      modifies session`recvOperation, session`sendQueue, session`retired, session`isSending, session`sendLen
      modifies session`sendOperation, session.tempRecvBuf, session.sendBuf
      ensures SlotsValid()
      ensures session.socket == socket && session.sessionId == id && session.state == Connected
      ensures !session.isSending && session.sendQueue == [] && session.username == []
    {
      session.Initialize(socket, id);
    }

    /** `session->Reset()` on one slot. */
    method ResetSession(session: ClientSession)
      requires SlotsValid() && session in pool
      modifies session`socket, session`sessionId, session`state, session`username, session`token
      modifies session`sendQueue, session`retired, session`isSending
      ensures SlotsValid()
      ensures session.socket == InvalidSocket && session.sessionId == 0 && session.state == Disconnecting
      ensures session.username == [] && session.token == [] && session.sendQueue == [] && !session.isSending
    {
      session.Reset();
    }

    /** `session->RegisterRecv()` on one slot, the read's immediate outcome
        being `recvAccepted`. */
    method RegisterRecvOn(session: ClientSession, recvAccepted: bool) returns (ok: bool)
      requires SlotsValid() && session in pool
      modifies session`recvLen, session`recvOperation
      ensures SlotsValid()
      ensures ok <==> session.socket.Handle? && session.recvBuffer.Contents == [] && recvAccepted
      ensures ok ==> session.recvLen == MAX_SOCKBUF && session.recvOperation == Recv
    {
      ok := session.RegisterRecv(recvAccepted);
    }

    /** `session->GetRecvBuffer().Write(session->GetTempRecvBuf(), n)` on
        one slot: the first `n` bytes of `tempRecvBuf` are appended to the
        ring, or nothing when they do not fit. */
    method WriteReceived(session: ClientSession, n: nat) returns (ok: bool)
      requires SlotsValid() && session in pool && n <= MAX_SOCKBUF
      modifies session.recvBuffer, session.recvBuffer.buffer
      ensures SlotsValid() && n <= session.tempRecvBuf.Length
      ensures ok <==> |old(session.recvBuffer.Contents)| + n < 2 * MAX_SOCKBUF
      ensures session.recvBuffer.Contents
           == Received(old(session.recvBuffer.Contents), old(session.tempRecvBuf[..]), n)
    {
      var i :| 0 <= i < |pool| && pool[i] == session;
      assert OwnedBy(pool[i], i) && pool[i].Valid();
      ok := session.recvBuffer.Write(session.tempRecvBuf[..n]);
    }

    /** `session->GetRecvBuffer().Consume(n)` on one slot: the first `n`
        bytes of the ring, or all of them when it holds fewer, are gone. */
    method ConsumeReceived(session: ClientSession, n: nat)
      requires SlotsValid() && session in pool
      modifies session.recvBuffer
      ensures SlotsValid()
      ensures session.recvBuffer.Contents == Consumed(old(session.recvBuffer.Contents), n)
    {
      var i :| 0 <= i < |pool| && pool[i] == session;
      assert OwnedBy(pool[i], i) && pool[i].Valid();
      session.recvBuffer.Consume(n);
    }

    /** `session->OnSendCompleted()` on one slot. */
    method SendCompleted(session: ClientSession, net: Network)
      requires SlotsValid() && session in pool
      modifies session`sendQueue, session`retired, session`isSending, session`sendLen, session`sendOperation
      modifies session`issued, session.sendBuf, net
      ensures SlotsValid()
      ensures session.SendView(net) == AfterProcessSend(session.socket, PopFront(old(session.SendView(net))))
    {
      session.OnSendCompleted(net);
    }

    /** Slot `i` of the pool. */
    function Slot(i: nat): ClientSession
      requires i < |pool|
    {
      pool[i]
    }
  }

  /** The ring's contents after `Write(tempRecvBuf, n)`: the first `n`
      bytes read are appended when the ring can take them, and silently
      dropped otherwise. */
  ghost function Received(before: seq<Byte>, read: seq<Byte>, n: nat): seq<Byte>
  {
    if n <= |read| && |before| + n < 2 * MAX_SOCKBUF then before + read[..n] else before
  }

  /** `Consume(n)`'s effect on a ring holding `contents`. */
  ghost function Consumed(contents: seq<Byte>, n: nat): seq<Byte>
  {
    contents[if n < |contents| then n else |contents|..]
  }

  /** The `WSASend` a broadcast of `data` starts on a slot with socket
      `socket`, a send in flight when `sending`, that is the excluded
      session when `excluded`: none for the excluded slot, otherwise what
      its `SendPacket` starts at once. */
  function SlotKickoff(socket: Socket, sending: bool, excluded: bool, data: seq<Byte>): seq<Call>
  {
    if excluded then [] else Kickoff(socket, sending, data)
  }

  /** What a broadcast reads or changes of one slot: its socket, id, name,
      state, token, accumulated size, send history, and whether a send is
      in flight. */
  datatype SlotView = SlotView(socket: Socket, sessionId: U32, username: CString, state: SessionState,
                               token: seq<Byte>, accumulatedSize: U32, history: seq<seq<Byte>>, sending: bool)

  ghost function ViewOf(s: ClientSession): SlotView
    reads s
  {
    SlotView(s.socket, s.sessionId, s.username, s.state, s.token, s.accumulatedSize, s.history, s.isSending)
  }

  ghost function Views(slots: seq<ClientSession>): (r: seq<SlotView>)
    reads set i | 0 <= i < |slots| :: slots[i]
    ensures |r| == |slots| && forall j :: 0 <= j < |slots| ==> r[j] == ViewOf(slots[j])
    decreases |slots|
  {
    if slots == [] then [] else Views(slots[..|slots| - 1]) + [ViewOf(slots[|slots| - 1])]
  }

  /** A broadcast of `data` takes a slot from `before` to `after`: it keeps
      its socket, id, name, state, token and accumulated size, and the
      packet is appended to its send history exactly when its socket is
      valid and it is not the excluded session. */
  predicate Delivered(before: SlotView, after: SlotView, excluded: bool, data: seq<Byte>)
  {
    && after.socket == before.socket && after.sessionId == before.sessionId
    && after.username == before.username && after.state == before.state
    && after.token == before.token && after.accumulatedSize == before.accumulatedSize
    && after.history == if before.socket.Handle? && !excluded then before.history + [data] else before.history
  }

  /** Each slot's kickoff for a broadcast of `data`, in slot order. */
  ghost function Kickoffs(slots: seq<ClientSession>, exclude: ClientSession, data: seq<Byte>): (r: seq<seq<Call>>)
    reads set i | 0 <= i < |slots| :: slots[i]
    ensures |r| == |slots|
    ensures forall j :: 0 <= j < |slots| ==>
              r[j] == SlotKickoff(slots[j].socket, slots[j].isSending, slots[j] == exclude, data)
    decreases |slots|
  {
    if slots == [] then []
    else
      var last := slots[|slots| - 1];
      Kickoffs(slots[..|slots| - 1], exclude, data) + [SlotKickoff(last.socket, last.isSending, last == exclude, data)]
  }

  /** The parts one after another. */
  ghost function Concat(parts: seq<seq<Call>>): seq<Call>
  {
    if parts == [] then [] else Concat(parts[..|parts| - 1]) + parts[|parts| - 1]
  }

  /** Issuing part `i` after the parts before it issues the first `i + 1`. */
  lemma IssueNext(calls0: seq<Call>, script0: seq<bool>, parts: seq<seq<Call>>, i: nat)
    requires i < |parts|
    ensures calls0 + Concat(parts[..i]) + parts[i] == calls0 + Concat(parts[..i + 1])
    ensures ScriptAfter(ScriptAfter(script0, Concat(parts[..i])), parts[i])
         == ScriptAfter(script0, Concat(parts[..i + 1]))
  {
    assert parts[..i + 1][..i] == parts[..i];
    Assoc(calls0, Concat(parts[..i]), parts[i]);
    ScriptAfterAppend(script0, Concat(parts[..i]), parts[i]);
  }

  /** The `WSASend` calls a broadcast of `data` over `slots` starts: the
      slots' kickoffs, slot by slot in index order. */
  ghost function BroadcastCalls(slots: seq<ClientSession>, exclude: ClientSession, data: seq<Byte>): seq<Call>
    reads set i | 0 <= i < |slots| :: slots[i]
  {
    Concat(Kickoffs(slots, exclude, data))
  }

  /** A call is in the concatenation exactly when one of the parts holds it. */
  lemma {:induction false} InConcat(parts: seq<seq<Call>>, c: Call)
    ensures c in Concat(parts) <==> exists j :: 0 <= j < |parts| && c in parts[j]
    decreases |parts|
  {
    if parts != [] {
      var init := parts[..|parts| - 1];
      InConcat(init, c);
      if c in Concat(init) {
        var j :| 0 <= j < |init| && c in init[j];
        assert parts[j] == init[j];
      }
      if j :| 0 <= j < |parts| && c in parts[j] {
        if j < |init| {
          assert init[j] == parts[j];
        }
      }
    }
  }

  /** A broadcast of `data` starts a `WSASend` of `data` on a socket exactly
      when some slot other than the excluded one holds that valid socket,
      has no send in flight, and `data` fits the send buffer; it starts no
      other call. */
  lemma BroadcastCallsReach(slots: seq<ClientSession>, exclude: ClientSession, data: seq<Byte>, c: Call)
    ensures c in BroadcastCalls(slots, exclude, data) <==>
              && c.bytes == data && c.socket.Handle? && |data| <= MAX_SOCKBUF
              && exists j :: 0 <= j < |slots| && slots[j] != exclude && slots[j].socket == c.socket && !slots[j].isSending
  {
    var parts := Kickoffs(slots, exclude, data);
    InConcat(parts, c);
    if c in BroadcastCalls(slots, exclude, data) {
      var j :| 0 <= j < |parts| && c in parts[j];
      assert slots[j] != exclude && slots[j].socket == c.socket && !slots[j].isSending;
    }
    if && c.bytes == data && c.socket.Handle? && |data| <= MAX_SOCKBUF
       && exists j :: 0 <= j < |slots| && slots[j] != exclude && slots[j].socket == c.socket && !slots[j].isSending {
      var j :| 0 <= j < |slots| && slots[j] != exclude && slots[j].socket == c.socket && !slots[j].isSending;
      assert c in parts[j];
    }
  }

  /** With `n` slots, `n` acquisitions succeed, handing the slots out from
      the last to the first, and the next one finds none. */
  method AcquireAll(n: U32) returns (m: SessionManager, got: seq<ClientSession>, last: Option<ClientSession>)
    ensures |m.pool| == n && |got| == n
    ensures forall k :: 0 <= k < n ==> got[k] == m.pool[n - 1 - k]
    ensures last.None?
  {
    m := new SessionManager(n);
    got, last := AcquireUntilEmpty(m);
  }

  /** Acquires until `GetEmptySession` returns null, starting from a fresh
      free stack. */
  method AcquireUntilEmpty(m: SessionManager) returns (got: seq<ClientSession>, last: Option<ClientSession>)
    requires m.FreeInPool() && m.sessionIndexes == Iota(|m.pool|)
    modifies m`sessionIndexes
    ensures |got| == |m.pool| && m.sessionIndexes == []
    ensures forall k :: 0 <= k < |got| ==> got[k] == m.pool[|m.pool| - 1 - k]
    ensures last.None?
  {
    var n := |m.pool|;
    got := [];
    var k: nat := 0;
    while k < n
      invariant k <= n && m.FreeInPool() && |got| == k
      invariant |m.sessionIndexes| == n - k
      invariant forall j :: 0 <= j < n - k ==> m.sessionIndexes[j] == j
      invariant forall j :: 0 <= j < k ==> got[j] == m.pool[n - 1 - j]
    {
      ghost var before := m.sessionIndexes;
      var r := m.GetEmptySession();
      assert m.sessionIndexes == before[..n - k - 1];
      got := got + [r.value];
      k := k + 1;
    }
    last := m.GetEmptySession();
  }
}

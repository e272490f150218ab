/** `IOCP_Server.h`: the older, single-class server. Its sessions live in
    a vector of plain structs, a free slot is found by a linear scan for an
    invalid socket, the receive buffer takes exactly one packet before it
    is cleared, and closing a session leaves its map entries in place
    (`FindSessionByName` hides them by checking the socket). */
module Legacy {
  import opened Bytes
  import opened Os
  import opened Session
  import opened ServerPacket
  import opened Framing
  import PacketHandling
  import Server

  /** The `ClientSession` struct of this header. The send buffer and the
      send overlapped structure are represented by the `WSASend` calls
      logged on the `Network`. */
  class ClientInfo {
    var sessionId: U32
    var socket: Socket
    var username: CString
    var state: SessionState
    /** The receive overlapped structure: its operation and the window
        `recvBuf[recvOffset..recvOffset + recvLen]` its `wsaBuf` names. */
    var recvOperation: IOOperation
    var recvOffset: nat
    var recvLen: nat
    var accumulatedSize: U32
    const recvBuf: array<Byte>

    /** `ClientSession()`: zeroed buffers, no socket, id 0, `DISCONNECTING`. */
    constructor ()
      ensures Idle(this) && recvBuf[..] == Zeros(MAX_SOCKBUF)
      ensures recvOperation == Recv && recvOffset == 0 && recvLen == 0
    {
      sessionId := 0;
      socket := InvalidSocket;
      username := [];
      state := Disconnecting;
      recvOperation := Recv;
      recvOffset := 0;
      recvLen := 0;
      accumulatedSize := 0;
      recvBuf := new Byte[MAX_SOCKBUF](_ => 0);
    }
  }

  /** A slot as `CreateClient` leaves it. */
  ghost predicate Idle(c: ClientInfo)
    reads c
  {
    && c.socket == InvalidSocket && c.sessionId == 0 && c.state == Disconnecting
    && c.accumulatedSize == 0 && c.username == [] && c.recvBuf.Length == MAX_SOCKBUF
  }

  /** `CreateClient(n)`: `n` new slots. */
  method CreateClient(n: nat) returns (clients: seq<ClientInfo>)
    ensures |clients| == n
    ensures forall i :: 0 <= i < n ==> fresh(clients[i]) && Idle(clients[i])
    ensures forall i, j :: 0 <= i < j < n ==> clients[i] != clients[j]
  {
    clients := [];
    while |clients| < n
      invariant |clients| <= n
      invariant forall i :: 0 <= i < |clients| ==> fresh(clients[i]) && Idle(clients[i])
      invariant forall i, j :: 0 <= i < j < |clients| ==> clients[i] != clients[j]
    {
      var c := new ClientInfo();
      clients := clients + [c];
    }
  }

  /** What a broadcast looks at in a slot: its socket and its id. */
  datatype Peer = Peer(socket: Socket, sessionId: U32)

  ghost function Peers(clients: seq<ClientInfo>): (r: seq<Peer>)
    reads clients`socket, clients`sessionId
    ensures |r| == |clients|
  {
    if clients == [] then []
    else
      var last := clients[|clients| - 1];
      Peers(clients[..|clients| - 1]) + [Peer(last.socket, last.sessionId)]
  }

  /** Slot `k` of `Peers(clients)` is the socket and id of `clients[k]`. */
  lemma {:induction false} PeersAt(clients: seq<ClientInfo>, k: nat)
    requires k < |clients|
    ensures Peers(clients)[k] == Peer(clients[k].socket, clients[k].sessionId)
    decreases |clients|
  {
    if k < |clients| - 1 {
      PeersAt(clients[..|clients| - 1], k);
    }
  }

  /** The `WSASend` calls a broadcast from the session with id `id` makes
      over slots `peers`, in order: one to each slot with a valid socket and
      a different id. */
  function BroadcastCalls(peers: seq<Peer>, id: U32, packet: seq<Byte>): (r: seq<Call>)
  {
    if peers == [] then []
    else
      var last := peers[|peers| - 1];
      BroadcastCalls(peers[..|peers| - 1], id, packet)
      + if last.socket.Handle? && last.sessionId != id then [Call(last.socket, packet)] else []
  }

  /** The broadcast reaches exactly the other connected slots: a call goes
      to a socket if and only if some slot with a different id holds it,
      and every call carries the packet. */
  lemma {:induction false} BroadcastReachesOthers(peers: seq<Peer>, id: U32, packet: seq<Byte>, call: Call)
    ensures call in BroadcastCalls(peers, id, packet) <==>
              && call.bytes == packet && call.socket.Handle?
              && exists i :: 0 <= i < |peers| && peers[i].socket == call.socket && peers[i].sessionId != id
  {
    if peers != [] {
      var init := peers[..|peers| - 1];
      var last := peers[|peers| - 1];
      var tail := if last.socket.Handle? && last.sessionId != id then [Call(last.socket, packet)] else [];
      BroadcastReachesOthers(init, id, packet, call);
      assert BroadcastCalls(peers, id, packet) == BroadcastCalls(init, id, packet) + tail;
      assert call in BroadcastCalls(peers, id, packet) <==> call in BroadcastCalls(init, id, packet) || call in tail;
      if exists i :: 0 <= i < |peers| && peers[i].socket == call.socket && peers[i].sessionId != id {
        var i :| 0 <= i < |peers| && peers[i].socket == call.socket && peers[i].sessionId != id;
        if i < |init| {
          assert init[i] == peers[i];
        }
      }
      if exists i :: 0 <= i < |init| && init[i].socket == call.socket && init[i].sessionId != id {
        var i :| 0 <= i < |init| && init[i].socket == call.socket && init[i].sessionId != id;
        assert peers[i] == init[i];
      }
    }
  }

  /** One more slot visited by the broadcast loop. */
  lemma BroadcastStep(peers: seq<Peer>, i: nat, id: U32, packet: seq<Byte>, script: seq<bool>)
    requires i < |peers|
    ensures var before := BroadcastCalls(peers[..i], id, packet);
            var c := peers[i];
            && BroadcastCalls(peers[..i + 1], id, packet)
               == before + (if c.socket.Handle? && c.sessionId != id then [Call(c.socket, packet)] else [])
            && ScriptAfter(script, before + [Call(c.socket, packet)])
               == SendOutcome(c.socket, ScriptAfter(script, before)).1
            && ScriptAfter(script, before + []) == ScriptAfter(script, before)
  {
    assert peers[..i + 1][..i] == peers[..i];
    var before := BroadcastCalls(peers[..i], id, packet);
    assert (before + [Call(peers[i].socket, packet)])[..|before|] == before;
    AppendEmpty(before);
  }

  /** `net` has issued exactly one more `WSASend`, of `bytes` on `socket`. */
  ghost predicate SentOnce(net: Network, calls: seq<Call>, script: seq<bool>, socket: Socket, bytes: seq<Byte>)
    reads net`calls, net`script
  {
    net.calls == calls + [Call(socket, bytes)] && net.script == SendOutcome(socket, script).1
  }

  /** What `HandleBroadCast` does with `frame` from the session named
      `username` with id `id`, the slots holding `peers`, to a network
      that had issued `calls` with `script` left and ends with `calls1`
      and `script1`: a request of the wrong size sends nothing; otherwise
      the response is built from the sender's name and the request's
      message and sent to every connected session but the sender, in slot
      order, unless building it violates `strcpy_s` (`aborted`), which
      sends nothing. */
  ghost predicate BroadcastOutcome(username: CString, id: U32, peers: seq<Peer>, frame: seq<Byte>, aborted: bool,
                                   calls: seq<Call>, script: seq<bool>, calls1: seq<Call>, script1: seq<bool>)
  {
    && (|frame| != BROADCAST_REQ_SIZE ==> !aborted && calls1 == calls && script1 == script)
    && (|frame| == BROADCAST_REQ_SIZE ==>
          var res := PacketHandling.BroadcastResponse(username, CStr(DecodeBroadCastReq(frame).message));
          && (aborted <==> res.Violation?)
          && (aborted ==> calls1 == calls && script1 == script)
          && (res.Ok? ==>
                && calls1 == calls + BroadcastCalls(peers, id, res.value)
                && script1 == ScriptAfter(script, BroadcastCalls(peers, id, res.value))))
  }

  /** What `HandleWhispher` does with a request `frame` of the right size
      from the session named `sender`, when the receiver's name leads to a
      live session (`found`) whose socket is `to`, or else `to` is the
      sender's own: one `WSASend` of the sender's name and the message when
      `found`, of nothing otherwise, unless building the reply violates
      `strcpy_s` (`aborted`), which sends nothing. */
  ghost predicate WhisperOutcome(sender: CString, frame: seq<Byte>, found: bool, to: Socket, aborted: bool,
                                 calls: seq<Call>, script: seq<bool>, calls1: seq<Call>, script1: seq<bool>)
    requires |frame| == WHISPER_REQ_SIZE
  {
    var res := PacketHandling.WhisperReply(found, sender, DecodeWhispherChatReq(frame));
    && (aborted <==> res.Violation?)
    && (aborted ==> calls1 == calls && script1 == script)
    && (res.Ok? ==>
          && calls1 == calls + [Call(to, if found then res.value else [])]
          && script1 == SendOutcome(to, script).1)
  }

  /** What `ProcessPacket` did with the bytes it held. */
  datatype Step = Waiting | Dispatched(frame: seq<Byte>, aborted: bool)

  /** With a whole packet of non-zero size at the front, the packet the old
      server dispatches is the first frame `PacketHandler.cpp`'s loop would
      cut, and the bytes it throws away with `accumulatedSize = 0` are all
      the loop's other frames and its remainder. */
  lemma TruncationDropsFrames(held: seq<Byte>)
    requires !Incomplete(held) && DeclaredSize(held) > 0
    ensures var size := DeclaredSize(held) as nat;
            && Split(held).frames != [] && Split(held).frames[0] == held[..size]
            && Flatten(Split(held).frames[1..]) + Split(held).rest == held[size..]
  {
    var size := DeclaredSize(held) as nat;
    SplitStep(held);
    SplitCovers(held[size..]);
    assert Split(held).frames[1..] == Split(held[size..]).frames;
  }

  /** Two default login requests sent back to back and received in one
      read: the framing loop finds both, the old server dispatches only the
      first and drops the second. */
  lemma TwoLoginsOneDispatched()
    ensures var p := NewLoginReq().Encode();
            var held := p + p;
            && |Split(held).frames| == 2
            && !Incomplete(held) && held[..DeclaredSize(held)] == p
  {
    var p := NewLoginReq().Encode();
    HeaderRoundTrip(NewLoginReq().header, p[HEADER_SIZE..]);
    assert p == NewLoginReq().header.Encode() + p[HEADER_SIZE..];
    assert WellFramed(p);
    SplitOfFramed([p, p], []);
    assert [p, p][1..] == [p] && [p][1..] == [];
    assert Flatten([p]) == p + Flatten([]);
    AppendEmpty(p);
    assert Flatten([p, p]) == p + Flatten([p]);
    assert (p + p)[..HEADER_SIZE] == p[..HEADER_SIZE];
  }

  /** What `SendPacket` can copy: a header, no more declared bytes than
      the packet has, and no more than the 2048-byte send buffer holds. */
  predicate Sendable(packet: seq<Byte>)
  {
    |packet| >= HEADER_SIZE && DeclaredSize(packet) as nat <= |packet| && DeclaredSize(packet) as nat <= MAX_SOCKBUF
  }

  /** The bytes `SendPacket` hands to `WSASend`: as many as the packet's
      header declares, not as many as the struct holds. */
  function Wire(packet: seq<Byte>): seq<Byte>
    requires Sendable(packet)
  {
    packet[..DeclaredSize(packet)]
  }

  /** A packet whose header declares its full length goes out whole. */
  lemma WholeOnWire(r: seq<Byte>)
    requires HEADER_SIZE <= |r| <= MAX_SOCKBUF && DecodeHeader(r).size == |r|
    ensures Sendable(r) && Wire(r) == r
  {
    assert DeclaredSize(r) == DecodeHeader(r).size;
  }

  /** The login response declares its own 6 bytes and goes out whole. */
  lemma LoginResponseOnWire()
    ensures Sendable(PacketHandling.LoginResponse())
            && Wire(PacketHandling.LoginResponse()) == PacketHandling.LoginResponse()
  {
    var r := PacketHandling.LoginResponse();
    PacketHandling.LoginResponseReadsBack();
    assert DecodeHeader(r) == DecodeLoginRes(r).header;
    WholeOnWire(r);
  }

  /** The broadcast response declares its own 1062 bytes and goes out whole. */
  lemma BroadcastResponseOnWire(name: CString, message: CString)
    requires |name| <= MAX_USER_NAME && |message| <= MAX_CHAT_SIZE
    ensures var r := PacketHandling.BroadcastResponse(name, message).value;
            Sendable(r) && Wire(r) == r
  {
    var r := PacketHandling.BroadcastResponse(name, message).value;
    PacketHandling.BroadcastResponseReadsBack(name, message);
    assert DecodeHeader(r) == DecodeBroadCastRes(r).header;
    WholeOnWire(r);
  }

  /** The whisper response declares its own 1064 bytes and goes out whole. */
  lemma WhisperResponseOnWire(sender: CString, message: CString)
    requires |sender| <= MAX_USER_NAME && |message| <= MAX_CHAT_SIZE
    ensures var r := PacketHandling.WhisperResponse(sender, message).value;
            Sendable(r) && Wire(r) == r
  {
    var r := PacketHandling.WhisperResponse(sender, message).value;
    PacketHandling.WhisperResponseReadsBack(sender, message);
    assert DecodeHeader(r) == DecodeWhispherChatRes(r).header;
    WholeOnWire(r);
  }

  /** The not-found whisper reply never has its size set: its header
      declares 0 bytes, so nothing of it goes out. */
  lemma NotFoundResponseOnWire(receiver: CString)
    requires |receiver| <= NAME_FIELD
    ensures var r := PacketHandling.NotFoundResponse(receiver);
            Sendable(r) && Wire(r) == []
  {
    var r := PacketHandling.NotFoundResponse(receiver);
    PacketHandling.NotFoundResponseReadsBack(receiver);
    assert DecodeHeader(r) == DecodeWhispherChatRes(r).header;
    assert DeclaredSize(r) == DecodeHeader(r).size;
  }

  class LegacyServer {
    const clients: seq<ClientInfo>
    var sessionIdCounter: U32
    /** How many ids `generateSessionId` has handed out. */
    ghost var generated: nat
    var clientCount: int
    var sessionIdByName: map<seq<Byte>, U32>
    var sessionById: map<U32, ClientInfo>

    /** Every id maps to a slot. */
    ghost predicate IdsInSlots()
      reads this`sessionById
    {
      forall id :: id in sessionById ==> sessionById[id] in clients
    }

    ghost predicate Valid()
      reads this, clients
    {
      && sessionIdCounter == Server.IdAfter(generated) && IdsInSlots()
      && (forall i :: 0 <= i < |clients| ==> clients[i].recvBuf.Length == MAX_SOCKBUF)
      && forall i, j :: 0 <= i < j < |clients| ==> clients[i] != clients[j]
    }

    /** `IOCP_SERVER()` followed by the `CreateClient(maxClientCount)` of
        `StartServer`. */
    constructor (maxClientCount: U32)
      ensures Valid() && |clients| == maxClientCount
      ensures forall i :: 0 <= i < |clients| ==> fresh(clients[i]) && Idle(clients[i])
      ensures sessionIdCounter == 1 && generated == 0 && clientCount == 0
      ensures sessionIdByName == map[] && sessionById == map[]
    {
      var cs := CreateClient(maxClientCount);
      clients := cs;
      sessionIdCounter := 1;
      generated := 0;
      clientCount := 0;
      sessionIdByName := map[];
      sessionById := map[];
    }

    /** `generateSessionId()`: `sessionIdCounter++`. */
    method GenerateSessionId() returns (id: U32)
      requires Valid()
      modifies this`sessionIdCounter, this`generated
      ensures Valid()
      ensures id == Server.IdAfter(old(generated)) && generated == old(generated) + 1
    {
      id := sessionIdCounter;
      Server.NextId(generated);
      sessionIdCounter := AddU32(sessionIdCounter, 1);
      generated := generated + 1;
    }

    /** Slot `i` is the first whose socket is invalid. */
    ghost predicate FirstFree(i: nat)
      reads this, clients
    {
      && i < |clients| && clients[i].socket == InvalidSocket
      && forall j :: 0 <= j < i ==> clients[j].socket.Handle?
    }

    /** `GetEmptyClientInfo()`: the first slot with no socket, or null. */
    method GetEmptyClientInfo() returns (r: Option<ClientInfo>)
      ensures r.None? <==> forall i :: 0 <= i < |clients| ==> clients[i].socket.Handle?
      ensures r.Some? ==> exists i: nat :: FirstFree(i) && clients[i] == r.value
    {
      var i := 0;
      while i < |clients|
        invariant i <= |clients|
        invariant forall j :: 0 <= j < i ==> clients[j].socket.Handle?
      {
        if clients[i].socket == InvalidSocket {
          assert FirstFree(i);
          return Some(clients[i]);
        }
        i := i + 1;
      }
      return None;
    }

    /** `FindSessionByName(name)`: the session registered under `name`,
        unless either map lacks the entry or that session's socket is
        invalid. */
    function FindSessionByName(name: seq<Byte>): (r: Option<ClientInfo>)
      requires IdsInSlots()
      reads this`sessionIdByName, this`sessionById, clients`socket
      ensures r.Some? <==> && name in sessionIdByName && sessionIdByName[name] in sessionById
                           && sessionById[sessionIdByName[name]].socket.Handle?
      ensures r.Some? ==> r.value in clients && r.value.socket.Handle?
                          && r.value == sessionById[sessionIdByName[name]]
    {
      if name !in sessionIdByName then None
      else
        var id := sessionIdByName[name];
        if id !in sessionById then None
        else if sessionById[id].socket == InvalidSocket then None
        else Some(sessionById[id])
    }

    /** `SendPacket(client, packet)`: the first `GetSize()` bytes of the
        packet are copied into the send buffer and handed to one `WSASend`
        on the client's socket, whatever that socket is. */
    method SendPacket(client: ClientInfo, packet: seq<Byte>, net: Network) returns (ok: bool)
      requires Sendable(packet)
      modifies net
      ensures SentOnce(net, old(net.calls), old(net.script), client.socket, Wire(packet))
      ensures ok == SendOutcome(client.socket, old(net.script)).0
    {
      var size := DeclaredSize(packet);
      ok := net.WSASend(client.socket, packet[..size]);
    }

    /** `ReceivePacket(client)`: refused with a full buffer; otherwise a
        read is armed on the rest of the buffer after the bytes already
        held, and succeeds as `WSARecv` does (never on an invalid socket). */
    method ReceivePacket(client: ClientInfo, recvAccepted: bool) returns (ok: bool)
      modifies client`recvOperation, client`recvOffset, client`recvLen
      ensures client.accumulatedSize as nat >= MAX_SOCKBUF ==> !ok && unchanged(client)
      ensures client.accumulatedSize as nat < MAX_SOCKBUF ==>
                && (ok <==> client.socket.Handle? && recvAccepted)
                && client.recvOperation == Recv && client.recvOffset == client.accumulatedSize as nat
                && 0 < client.recvLen && client.recvOffset + client.recvLen == MAX_SOCKBUF
    {
      if client.accumulatedSize as nat >= MAX_SOCKBUF {
        return false;
      }
      client.recvOperation := Recv;
      client.recvOffset := client.accumulatedSize as nat;
      client.recvLen := MAX_SOCKBUF - client.accumulatedSize as nat;
      ok := client.socket.Handle? && recvAccepted;
    }

    /** `BroadCastPacket(sender, packet)`: one `WSASend` to each slot, in
        slot order, that has a valid socket and an id other than the
        sender's. */
    method BroadCastPacket(sender: ClientInfo, packet: seq<Byte>, net: Network)
      requires Sendable(packet)
      modifies net
      ensures net.calls == old(net.calls) + BroadcastCalls(Peers(clients), sender.sessionId, Wire(packet))
      ensures net.script == ScriptAfter(old(net.script), BroadcastCalls(Peers(clients), sender.sessionId, Wire(packet)))
    {
      ghost var peers := Peers(clients);
      var id := sender.sessionId;
      ghost var bytes := Wire(packet);
      var i := 0;
      while i < |clients|
        invariant i <= |clients|
        invariant net.calls == old(net.calls) + BroadcastCalls(peers[..i], id, bytes)
        invariant net.script == ScriptAfter(old(net.script), BroadcastCalls(peers[..i], id, bytes))
        invariant Peers(clients) == peers
      {
        ghost var before := BroadcastCalls(peers[..i], id, bytes);
        BroadcastStep(peers, i, id, bytes, old(net.script));
        var c := clients[i];
        PeersAt(clients, i);
        if c.socket != InvalidSocket && c.sessionId != id {
          var _ := SendPacket(c, packet, net);
          Assoc(old(net.calls), before, [Call(c.socket, bytes)]);
          assert BroadcastCalls(peers[..i + 1], id, bytes) == before + [Call(c.socket, bytes)];
        } else {
          assert BroadcastCalls(peers[..i + 1], id, bytes) == before + [];
          AppendEmpty(before);
        }
        i := i + 1;
      }
      assert peers[..i] == peers;
    }

    /** `HandleLogin`: a request whose header does not declare 103 bytes is
        dropped. Otherwise the credentials are accepted, the session
        becomes `AUTHENTICATED` under the request's `username`, both maps
        are set for it (overwriting earlier entries), and it is sent the
        success response. The connection count does not change. */
    method HandleLogin(client: ClientInfo, frame: seq<Byte>, net: Network)
      requires Valid() && client in clients
      modifies this`sessionIdByName, this`sessionById, client`state, client`username, net
      ensures Valid()
      ensures |frame| != LOGIN_REQ_SIZE ==>
                && sessionIdByName == old(sessionIdByName) && sessionById == old(sessionById)
                && unchanged(client) && unchanged(net)
      ensures |frame| == LOGIN_REQ_SIZE ==>
                && client.state == Authenticated && client.username == CStr(DecodeLoginReq(frame).username)
                && sessionIdByName == old(sessionIdByName)[client.username := client.sessionId]
                && sessionById == old(sessionById)[client.sessionId := client]
                && SentOnce(net, old(net.calls), old(net.script), client.socket, PacketHandling.LoginResponse())
                && FindSessionByName(client.username) == if client.socket.Handle? then Some(client) else None
    {
      if |frame| != LOGIN_REQ_SIZE {
        return;
      }
      var packet := DecodeLoginReq(frame);
      var isValid := PacketHandling.CheckUserCredentials(packet.userId, packet.password);
      client.state := Authenticated;
      client.username := CStr(packet.username);
      sessionIdByName := sessionIdByName[client.username := client.sessionId];
      sessionById := sessionById[client.sessionId := client];
      LoginResponseOnWire();
      var _ := SendPacket(client, PacketHandling.LoginResponse(), net);
    }

    /** `BroadcastOutcome` for `client`, the slots as they are now, and
        the network's log and script before (`calls`, `script`) and now. */
    ghost predicate BroadCastHandled(client: ClientInfo, frame: seq<Byte>, net: Network,
                                     calls: seq<Call>, script: seq<bool>, aborted: bool)
      reads clients`socket, clients`sessionId, client`username, client`sessionId, net`calls, net`script
    {
      BroadcastOutcome(client.username, client.sessionId, Peers(clients), frame, aborted,
                       calls, script, net.calls, net.script)
    }

    /** `HandleBroadCast`: a request whose header does not declare 1029
        bytes is dropped. Otherwise the response carries the sender's name
        and the request's message and is broadcast; a name or message too
        long for its field is the `strcpy_s` violation that ends the
        process (`aborted`), before anything is sent. */
    method HandleBroadCast(client: ClientInfo, frame: seq<Byte>, net: Network) returns (aborted: bool)
      modifies net
      ensures BroadCastHandled(client, frame, net, old(net.calls), old(net.script), aborted)
    {
      if |frame| != BROADCAST_REQ_SIZE {
        return false;
      }
      var packet := DecodeBroadCastReq(frame);
      var res := PacketHandling.BroadcastResponse(client.username, CStr(packet.message));
      if res.Violation? {
        return true;
      }
      BroadcastResponseOnWire(client.username, CStr(packet.message));
      BroadCastPacket(client, res.value, net);
      aborted := false;
    }

    /** Who a whisper's reply goes to: the live session registered under
        the receiver's name, or the sender when there is none. */
    ghost function Recipient(client: ClientInfo, receiver: CString): ClientInfo
      requires IdsInSlots()
      reads this`sessionIdByName, this`sessionById, clients`socket
    {
      match FindSessionByName(receiver)
      case Some(target) => target
      case None => client
    }

    /** What `HandleWhispher` does with `frame` from `client` to a network
        that had issued `calls` with `script` left: a request of the wrong
        size sends nothing; otherwise `WhisperOutcome`, with the receiver's
        name looked up in the registry as it is now. */
    ghost predicate WhispherHandled(client: ClientInfo, frame: seq<Byte>, net: Network,
                                    calls: seq<Call>, script: seq<bool>, aborted: bool)
      requires IdsInSlots()
      reads this`sessionIdByName, this`sessionById, clients`socket, client`username, client`socket
      reads net`calls, net`script
    {
      if |frame| != WHISPER_REQ_SIZE then !aborted && net.calls == calls && net.script == script
      else
        var receiver := CStr(DecodeWhispherChatReq(frame).receiver);
        WhisperOutcome(client.username, frame, FindSessionByName(receiver).Some?, Recipient(client, receiver).socket,
                       aborted, calls, script, net.calls, net.script)
    }

    /** `HandleWhispher`: a request whose header does not declare 1064
        bytes is dropped. When the receiver's name leads to a live session,
        that session is sent the sender's name and the message (a
        `strcpy_s` violation ends the process); otherwise the sender gets
        the not-found reply, whose header declares 0 bytes, so the
        `WSASend` carries nothing. */
    method HandleWhispher(client: ClientInfo, frame: seq<Byte>, net: Network) returns (aborted: bool)
      requires Valid()
      modifies net
      ensures WhispherHandled(client, frame, net, old(net.calls), old(net.script), aborted)
    {
      if |frame| != WHISPER_REQ_SIZE {
        return false;
      }
      var packet := DecodeWhispherChatReq(frame);
      var receiver := CStr(packet.receiver);
      var target := FindSessionByName(receiver);
      var res := PacketHandling.WhisperReply(target.Some?, client.username, packet);
      if res.Violation? {
        return true;
      }
      var to := if target.Some? then target.value else client;
      if target.Some? {
        WhisperResponseOnWire(client.username, CStr(packet.message));
      } else {
        NotFoundResponseOnWire(receiver);
      }
      var _ := SendPacket(to, res.value, net);
      aborted := false;
    }

    /** What the `switch` of `ProcessPacket` did with a packet of type
        `packetType`, taken in a session whose state and name were `state0`
        and `username0`, with the maps `byName0` and `byId0`, on a network
        that had issued `calls` with `script` left: an abort can only come
        from an authenticated broadcast or whisper; a well-sized login
        authenticated the session, registered it and sent `SUCCESS`; an
        authenticated broadcast or whisper did what its handler promises;
        every other packet kept the maps and the session, and an ignored
        one or a login of the wrong size sent nothing. The state it reads
        excludes the bytes held, so it survives their reset. */
    ghost predicate Served(client: ClientInfo, packetType: U16, frame: seq<Byte>, net: Network, aborted: bool,
                           state0: SessionState, username0: CString,
                           byName0: map<seq<Byte>, U32>, byId0: map<U32, ClientInfo>,
                           calls: seq<Call>, script: seq<bool>)
      requires IdsInSlots()
      reads this`sessionIdByName, this`sessionById, clients`socket, clients`sessionId
      reads client`state, client`username, client`sessionId, client`socket, net`calls, net`script
    {
      && (aborted ==> packetType != LOGIN_REQUEST && PacketHandling.Handled(packetType, state0))
      && (packetType == LOGIN_REQUEST && |frame| == LOGIN_REQ_SIZE ==>
            && client.state == Authenticated && client.username == CStr(DecodeLoginReq(frame).username)
            && sessionIdByName == byName0[client.username := client.sessionId]
            && sessionById == byId0[client.sessionId := client]
            && SentOnce(net, calls, script, client.socket, PacketHandling.LoginResponse()))
      && (packetType == BROADCAST_REQUEST && state0 == Authenticated ==>
            BroadCastHandled(client, frame, net, calls, script, aborted))
      && (packetType == WHISPER_REQUEST && state0 == Authenticated ==>
            WhispherHandled(client, frame, net, calls, script, aborted))
      && (packetType != LOGIN_REQUEST || |frame| != LOGIN_REQ_SIZE ==>
            && sessionIdByName == byName0 && sessionById == byId0
            && client.state == state0 && client.username == username0)
      && (!PacketHandling.Handled(packetType, state0) || (packetType == LOGIN_REQUEST && |frame| != LOGIN_REQ_SIZE) ==>
            !aborted && net.calls == calls && net.script == script)
    }

    /** The `switch` of `ProcessPacket`: logins always, broadcasts and
        whispers only from an authenticated session, room requests and
        unknown types ignored. */
    method Dispatch(client: ClientInfo, packetType: U16, frame: seq<Byte>, net: Network) returns (aborted: bool)
      requires Valid() && client in clients
      modifies this`sessionIdByName, this`sessionById, client`state, client`username, net
      ensures Valid()
      ensures Served(client, packetType, frame, net, aborted, old(client.state), old(client.username),
                     old(sessionIdByName), old(sessionById), old(net.calls), old(net.script))
      ensures !PacketHandling.Handled(packetType, old(client.state)) ==>
                && !aborted && sessionIdByName == old(sessionIdByName) && sessionById == old(sessionById)
                && unchanged(client) && unchanged(net)
      ensures packetType == LOGIN_REQUEST && |frame| != LOGIN_REQ_SIZE ==>
                unchanged(this) && unchanged(client) && unchanged(net)
      ensures packetType != LOGIN_REQUEST ==>
                && sessionIdByName == old(sessionIdByName) && sessionById == old(sessionById)
                && unchanged(client)
    {
      aborted := false;
      if packetType == LOGIN_REQUEST {
        HandleLogin(client, frame, net);
      } else if packetType == BROADCAST_REQUEST || packetType == WHISPER_REQUEST {
        if client.state == Authenticated {
          if packetType == BROADCAST_REQUEST {
            aborted := HandleBroadCast(client, frame, net);
          } else {
            aborted := HandleWhispher(client, frame, net);
          }
        }
      }
    }

    /** `ProcessPacket(client, dataSize)`: the bytes just received join
        those held. With a header and as many bytes as it declares, the one
        packet at the front is dispatched and then the whole buffer is
        declared empty, whatever followed that packet. */
    method ProcessPacket(client: ClientInfo, dataSize: U32, net: Network) returns (step: Step)
      requires Valid() && client in clients
      requires client.accumulatedSize as nat + dataSize as nat <= MAX_SOCKBUF
      modifies this`sessionIdByName, this`sessionById, client`accumulatedSize, client`state, client`username, net
      ensures Valid()
      ensures var held := old(client.recvBuf[..client.accumulatedSize as nat + dataSize as nat]);
              && (step.Waiting? <==> Incomplete(held))
              && (step.Waiting? ==>
                    && client.accumulatedSize as nat == |held| && client.state == old(client.state)
                    && client.username == old(client.username)
                    && sessionIdByName == old(sessionIdByName) && sessionById == old(sessionById)
                    && unchanged(net))
              && (step.Dispatched? ==>
                    && step.frame == held[..DeclaredSize(held)]
                    && (!step.aborted ==> client.accumulatedSize == 0)
                    && Served(client, DeclaredType(held), step.frame, net, step.aborted,
                              old(client.state), old(client.username), old(sessionIdByName), old(sessionById),
                              old(net.calls), old(net.script)))
    {
      client.accumulatedSize := AddU32(client.accumulatedSize, dataSize);
      var held := client.recvBuf[..client.accumulatedSize];
      if |held| < HEADER_SIZE || |held| < DeclaredSize(held) as nat {
        return Waiting;
      }
      var frame := held[..DeclaredSize(held)];
      var aborted := Dispatch(client, DeclaredType(held), frame, net);
      if aborted {
        return Dispatched(frame, true);
      }
      ghost var served := Served(client, DeclaredType(held), frame, net, false,
                                 old(client.state), old(client.username), old(sessionIdByName), old(sessionById),
                                 old(net.calls), old(net.script));
      client.accumulatedSize := 0;
      assert served == Served(client, DeclaredType(held), frame, net, false,
                              old(client.state), old(client.username), old(sessionIdByName), old(sessionById),
                              old(net.calls), old(net.script));
      step := Dispatched(frame, false);
    }

    /** `CloseSession(client)`: no socket, `DISCONNECTING`, id 0, nothing
        held, one connection fewer. The maps keep whatever entries lead to
        the slot, but `FindSessionByName` no longer finds it under any
        name. */
    method CloseSession(client: ClientInfo)
      requires IdsInSlots()
      modifies this`clientCount, client`socket, client`state, client`sessionId, client`accumulatedSize
      ensures client.socket == InvalidSocket && client.state == Disconnecting
      ensures client.sessionId == 0 && client.accumulatedSize == 0
      ensures clientCount == old(clientCount) - 1
      ensures forall name :: FindSessionByName(name) != Some(client)
    {
      client.state := Disconnecting;
      client.sessionId := 0;
      client.accumulatedSize := 0;
      client.socket := InvalidSocket;
      clientCount := clientCount - 1;
    }

    /** One completion taken off the port (the body of `WorkerThread`'s
        loop). A failed or empty completion closes the key's session when
        its socket is valid and does nothing otherwise. A `RECV` processes
        the bytes and re-arms the read, whose outcome is ignored; `step`
        says what `ProcessPacket` did. A `SEND` completion changes
        nothing. */
    method WorkerStep(success: bool, key: Option<ClientInfo>, transferred: U32, operation: IOOperation,
                      recvAccepted: bool, net: Network) returns (step: Option<Step>)
      requires Valid() && (key.Some? ==> key.value in clients)
      requires success && transferred > 0 && operation == Recv ==>
                 key.Some? && key.value.accumulatedSize as nat + transferred as nat <= MAX_SOCKBUF
      modifies this`sessionIdByName, this`sessionById, this`clientCount, clients, net
      ensures Valid()
      ensures step.Some? <==> success && transferred > 0 && operation == Recv
      ensures (!success || transferred == 0) && key.Some? && old(key.value.socket.Handle?) ==>
                && Closed(key.value) && clientCount == old(clientCount) - 1
                && sessionIdByName == old(sessionIdByName) && sessionById == old(sessionById)
      ensures (!success || transferred == 0) && (key.None? || old(key.value.socket) == InvalidSocket) ==>
                unchanged(this) && unchanged(net) && (key.Some? ==> unchanged(key.value))
      ensures success && transferred > 0 && operation == Send ==>
                unchanged(this) && unchanged(net) && (key.Some? ==> unchanged(key.value))
      ensures step.Some? ==> Received(key.value, step.value)
    {
      step := None;
      if !success || transferred == 0 {
        if key.Some? && key.value.socket != InvalidSocket {
          CloseSession(key.value);
        }
      } else if operation == Recv {
        var s := OnRecv(key.value, transferred, recvAccepted, net);
        step := Some(s);
      }
    }

    /** A closed slot. */
    ghost predicate Closed(c: ClientInfo)
      reads c
    {
      c.socket == InvalidSocket && c.state == Disconnecting && c.sessionId == 0 && c.accumulatedSize == 0
    }

    /** The read re-armed after `ProcessPacket`, unless the process ended:
        on the rest of the buffer when bytes are still wanted and the buffer
        is not full, and not at all when 2048 bytes of an unfinished packet
        are held. */
    ghost predicate Received(c: ClientInfo, step: Step)
      reads c
    {
      && (step.Dispatched? && !step.aborted ==>
            c.accumulatedSize == 0 && c.recvOperation == Recv && c.recvOffset == 0 && c.recvLen == MAX_SOCKBUF)
      && (step.Waiting? && c.accumulatedSize as nat < MAX_SOCKBUF ==>
            c.recvOperation == Recv && c.recvOffset == c.accumulatedSize as nat
            && c.recvOffset + c.recvLen == MAX_SOCKBUF)
    }

    /** The `RECV` branch: `ProcessPacket(client, transferred)` and then
        `ReceivePacket(client)`. */
    method OnRecv(client: ClientInfo, transferred: U32, recvAccepted: bool, net: Network) returns (step: Step)
      requires Valid() && client in clients
      requires client.accumulatedSize as nat + transferred as nat <= MAX_SOCKBUF
      modifies this`sessionIdByName, this`sessionById, client`accumulatedSize, client`state, client`username
      modifies client`recvOperation, client`recvOffset, client`recvLen, net
      ensures Valid()
      ensures var held := old(client.recvBuf[..client.accumulatedSize as nat + transferred as nat]);
              && (step.Waiting? <==> Incomplete(held))
              && (step.Waiting? ==> client.accumulatedSize as nat == |held|)
              && (step.Dispatched? ==> step.frame == held[..DeclaredSize(held)])
      ensures Received(client, step)
    {
      step := ProcessPacket(client, transferred, net);
      if step.Dispatched? && step.aborted {
        return;
      }
      var _ := ReceivePacket(client, recvAccepted);
    }

    /** One pass of `AccepterThread`'s loop; `acceptSocket`, `bindOk` and
        `recvAccepted` are what `accept`, the completion-port bind and the
        first `WSARecv` answer. The first slot without a socket takes the
        accepted socket. `PoolFull`, `BindFailed` and `RecvFailed` end the
        thread, so no later connection is ever accepted; a bind or read
        failure also leaves the slot holding its socket as `CONNECTED`,
        never counted and with no read armed. `slot` is the slot taken. */
    method AcceptStep(acceptSocket: Socket, bindOk: bool, recvAccepted: bool)
      returns (outcome: Server.AcceptOutcome, ghost slot: nat)
      requires Valid()
      modifies this`sessionIdCounter, this`generated, this`clientCount, clients
      ensures Valid() && sessionIdByName == old(sessionIdByName) && sessionById == old(sessionById)
      ensures outcome == Server.PoolFull <==> forall i :: 0 <= i < |clients| ==> old(clients[i].socket).Handle?
      ensures outcome == Server.PoolFull ==> unchanged(this) && forall i :: 0 <= i < |clients| ==> unchanged(clients[i])
      ensures outcome != Server.PoolFull ==>
                && old(FirstFree(slot))
                && (forall i :: 0 <= i < |clients| && i != slot ==> unchanged(clients[i]))
                && clients[slot].socket == acceptSocket
                && (outcome == Server.AcceptFailed <==> acceptSocket == InvalidSocket)
                && (outcome == Server.AcceptFailed ==> generated == old(generated) && clientCount == old(clientCount))
                && (outcome != Server.AcceptFailed ==>
                      && generated == old(generated) + 1 && clients[slot].sessionId == Server.IdAfter(old(generated))
                      && clients[slot].state == Connected)
                && (outcome == Server.BindFailed <==> acceptSocket.Handle? && !bindOk)
                && (outcome == Server.RecvFailed <==>
                      acceptSocket.Handle? && bindOk
                      && !(old(clients[slot].accumulatedSize) as nat < MAX_SOCKBUF && recvAccepted))
                && (clientCount == if outcome == Server.Accepted then old(clientCount) + 1 else old(clientCount))
    {
      var r := GetEmptyClientInfo();
      if r.None? {
        return Server.PoolFull, 0;
      }
      var client := r.value;
      slot :| FirstFree(slot) && clients[slot] == client;
      outcome := Occupy(client, acceptSocket, bindOk, recvAccepted);
    }

    /** The pass once a free slot is found: it takes the accepted socket
        and, when that is valid, a new id and `CONNECTED`. */
    method Occupy(client: ClientInfo, acceptSocket: Socket, bindOk: bool, recvAccepted: bool)
      returns (outcome: Server.AcceptOutcome)
      requires Valid() && client in clients
      modifies this`sessionIdCounter, this`generated, this`clientCount, client
      ensures Valid()
      ensures client.socket == acceptSocket && outcome != Server.PoolFull
      ensures outcome == Server.AcceptFailed <==> acceptSocket == InvalidSocket
      ensures outcome == Server.AcceptFailed ==>
                generated == old(generated) && clientCount == old(clientCount) && unchanged(this)
      ensures outcome != Server.AcceptFailed ==>
                && generated == old(generated) + 1 && client.sessionId == Server.IdAfter(old(generated))
                && client.state == Connected
      ensures outcome == Server.BindFailed <==> acceptSocket.Handle? && !bindOk
      ensures outcome == Server.RecvFailed <==>
                acceptSocket.Handle? && bindOk && !(old(client.accumulatedSize) as nat < MAX_SOCKBUF && recvAccepted)
      ensures clientCount == if outcome == Server.Accepted then old(clientCount) + 1 else old(clientCount)
    {
      client.socket := acceptSocket;
      if client.socket == InvalidSocket {
        return Server.AcceptFailed;
      }
      var id := GenerateSessionId();
      client.sessionId := id;
      client.state := Connected;
      outcome := Arm(client, bindOk, recvAccepted);
    }

    /** The end of an accepting pass: the bind, then the first read, then
        the count. */
    method Arm(client: ClientInfo, bindOk: bool, recvAccepted: bool) returns (outcome: Server.AcceptOutcome)
      requires client.socket.Handle?
      modifies this`clientCount, client`recvOperation, client`recvOffset, client`recvLen
      ensures outcome == Server.BindFailed <==> !bindOk
      ensures outcome == Server.RecvFailed <==>
                bindOk && !(client.accumulatedSize as nat < MAX_SOCKBUF && recvAccepted)
      ensures outcome == Server.BindFailed || outcome == Server.RecvFailed || outcome == Server.Accepted
      ensures clientCount == if outcome == Server.Accepted then old(clientCount) + 1 else old(clientCount)
    {
      if !bindOk {
        return Server.BindFailed;
      }
      var ok := ReceivePacket(client, recvAccepted);
      if !ok {
        return Server.RecvFailed;
      }
      clientCount := clientCount + 1;
      outcome := Server.Accepted;
    }
  }
}

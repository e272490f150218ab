/** `PacketHandler.cpp`: cutting the linear receive buffer of a session into
    packets by the size their headers declare, and the three request
    handlers. The handler reads `LoginReqPacket`, `BroadCastReqPacket` and
    `WhispherChatReqPacket` of `IOCP_Server/Packet.h` (103, 1029 and 1064
    bytes) and answers with the 6-, 1062- and 1064-byte responses.

    The framing is specified by the pure function `Split` over the bytes
    the buffer holds; `ProcessPacket` is proved to dispatch exactly the
    frames `Split` cuts, in order, and to leave its remainder at the front
    of the buffer. */
module PacketHandling {
  import opened Bytes
  import opened Os
  import opened Session
  import opened Manager
  import opened ServerPacket
  import opened Framing

  // ---------------------------------------------------------------------
  // Responses

  /** `CheckUserCredentials(userId, password)`: every login is accepted. */
  function CheckUserCredentials(userId: seq<Byte>, password: seq<Byte>): (r: bool)
    ensures r
  {
    true
  }

  /** The `LoginResPacket` a successful login sends, as bytes. */
  function LoginResponse(): (r: seq<Byte>)
    ensures |r| == LOGIN_RES_SIZE
  {
    NewLoginRes(0).(result := SUCCESS).Encode()
  }

  /** The login response declares its own 6 bytes and says `SUCCESS`. */
  lemma LoginResponseReadsBack()
    ensures DecodeLoginRes(LoginResponse()) == LoginResPacket(PacketHeader(LOGIN_RESPONSE, 6), SUCCESS)
  {
    LoginResRoundTrip(NewLoginRes(0).(result := SUCCESS));
  }

  /** `SetUser(name)` then `SetMessage(message)` on a fresh
      `BroadCastResPacket`, as bytes: refused when either string does not
      fit its field. */
  function BroadcastResponse(name: CString, message: CString): (r: Checked<seq<Byte>>)
    ensures r.Ok? <==> |name| <= MAX_USER_NAME && |message| <= MAX_CHAT_SIZE
    ensures r.Ok? ==> |r.value| == BROADCAST_RES_SIZE
  {
    match BroadCastResSetUser(NewBroadCastRes(), Str(name))
    case Violation => Violation
    case Ok(p) =>
      match BroadCastResSetMessage(p, Str(message))
      case Violation => Violation
      case Ok(q) => Ok(q.Encode())
  }

  /** A broadcast response declares its own 1062 bytes and reads back as
      the sender's name and the message. */
  lemma BroadcastResponseReadsBack(name: CString, message: CString)
    requires |name| <= MAX_USER_NAME && |message| <= MAX_CHAT_SIZE
    ensures var r := BroadcastResponse(name, message).value;
            && DecodeBroadCastRes(r).header == PacketHeader(BROADCAST_RESPONSE, 1062)
            && CStr(DecodeBroadCastRes(r).user) == name
            && CStr(DecodeBroadCastRes(r).message) == message
  {
    var p := BroadCastResSetUser(NewBroadCastRes(), Str(name)).value;
    BroadCastResRoundTrip(BroadCastResSetMessage(p, Str(message)).value);
  }

  /** `result = SUCCESS` and `SetMessage(sender, message)` on a fresh
      `WhispherChatResPacket`, as bytes: refused when either string does
      not fit its field. */
  function WhisperResponse(sender: CString, message: CString): (r: Checked<seq<Byte>>)
    ensures r.Ok? <==> |sender| <= MAX_USER_NAME && |message| <= MAX_CHAT_SIZE
    ensures r.Ok? ==> |r.value| == WHISPER_RES_SIZE
  {
    var p := SetWhisperResResult(NewWhispherChatRes(0), SUCCESS);
    match WhispherChatResSetMessage(p, Str(sender), Str(message))
    case Violation => Violation
    case Ok(q) => Ok(q.Encode())
  }

  /** A whisper response declares its own 1064 bytes, says `SUCCESS` and
      reads back as the sender's name and the message. */
  lemma WhisperResponseReadsBack(sender: CString, message: CString)
    requires |sender| <= MAX_USER_NAME && |message| <= MAX_CHAT_SIZE
    ensures var r := WhisperResponse(sender, message).value;
            && DecodeWhispherChatRes(r).header == PacketHeader(WHISPER_RESPONSE, 1064)
            && DecodeWhispherChatRes(r).result == SUCCESS
            && CStr(DecodeWhispherChatRes(r).sender) == sender
            && CStr(DecodeWhispherChatRes(r).message) == message
  {
    var p := SetWhisperResResult(NewWhispherChatRes(0), SUCCESS);
    WhispherChatResRoundTrip(WhispherChatResSetMessage(p, Str(sender), Str(message)).value);
  }

  /** `snprintf(dest, sizeof(dest), "%s", text)`: as much of `text` as fits
      before a terminating NUL; the rest of `dest` is left as it was. */
  function Snprintf(dest: seq<Byte>, text: CString): (r: seq<Byte>)
    requires |dest| > 0
    ensures |r| == |dest|
    ensures CStr(r) == if |text| < |dest| then text else text[..|dest| - 1]
  {
    var t: CString := if |text| < |dest| then text else text[..|dest| - 1];
    CStrOfTerminated(t, dest[|t| + 1..]);
    t + [0] + dest[|t| + 1..]
  }

  /** The text `"User '%s' not found"` with `receiver` in place of `%s`. */
  function NotFoundText(receiver: CString): (r: CString)
    ensures |r| == |receiver| + 17
  {
    Ascii("User '") + receiver + Ascii("' not found")
  }

  /** The reply to a whisper for a name nobody is registered under, as
      bytes: `result = USER_NOT_FOUND` and the text in `message`, with no
      `SetMessage`, so no size is set. */
  function NotFoundResponse(receiver: CString): (r: seq<Byte>)
    ensures |r| == WHISPER_RES_SIZE
  {
    var p := SetWhisperResResult(NewWhispherChatRes(0), USER_NOT_FOUND);
    p.(message := Snprintf(p.message, NotFoundText(receiver))).Encode()
  }

  /** The not-found reply says `USER_NOT_FOUND`, names nobody as sender,
      carries the text whole (a receiver name is at most 33 bytes), and
      declares size 0 although all 1064 bytes are sent. */
  lemma NotFoundResponseReadsBack(receiver: CString)
    requires |receiver| <= MAX_USER_NAME + 1
    ensures var r := NotFoundResponse(receiver);
            && DecodeWhispherChatRes(r).header == PacketHeader(WHISPER_RESPONSE, 0)
            && DecodeWhispherChatRes(r).result == USER_NOT_FOUND
            && CStr(DecodeWhispherChatRes(r).sender) == []
            && CStr(DecodeWhispherChatRes(r).message) == NotFoundText(receiver)
  {
    var p := SetWhisperResResult(NewWhispherChatRes(0), USER_NOT_FOUND);
    WhispherChatResRoundTrip(p.(message := Snprintf(p.message, NotFoundText(receiver))));
  }

  // ---------------------------------------------------------------------
  // Handlers

  /** `HandleLogin`: a request of the wrong size is dropped. Otherwise the
      credentials are accepted, the session becomes `AUTHENTICATED` under
      the request's `username`, is registered, and is sent the success
      response. */
  method HandleLogin(session: ClientSession, frame: seq<Byte>, mgr: SessionManager, net: Network)
    requires mgr.Valid() && session in mgr.pool
    modifies session, session.sendBuf, mgr`sessionIdByName, mgr`sessionById, mgr`activeSessionCount, net
    ensures mgr.Valid()
    ensures LoginHandled(session, frame, mgr, net)
  {
    if |frame| != LOGIN_REQ_SIZE {
      return;
    }
    var packet := DecodeLoginReq(frame);
    var isValid := CheckUserCredentials(packet.userId, packet.password);
    LogIn(session, CStr(packet.username), LoginResponse(), mgr, net);
  }

  /** What `HandleLogin` does with `frame`: a request of the wrong size
      changes nothing; otherwise the session is logged in under the
      request's `username` and sent the success response. */
  twostate predicate LoginHandled(session: ClientSession, frame: seq<Byte>, mgr: SessionManager, net: Network)
    reads session, session.sendBuf, mgr, net
  {
    && (|frame| != LOGIN_REQ_SIZE ==> unchanged(session, session.sendBuf, mgr, net))
    && (|frame| == LOGIN_REQ_SIZE ==> LoggedIn(session, CStr(DecodeLoginReq(frame).username), LoginResponse(), mgr, net))
  }

  /** A login under `name`: the session is `AUTHENTICATED` under that name
      and keeps its socket, id, token and accumulated bytes; the name maps to
      its id and the id to the session; one more session is active; and
      `response` is queued when the socket is valid, with the send
      `SendPacket` starts for it. */
  twostate predicate LoggedIn(session: ClientSession, name: CString, response: seq<Byte>, mgr: SessionManager,
                              net: Network)
    reads session, mgr, net
  {
    && session.state == Authenticated && session.username == name
    && session.socket == old(session.socket) && session.sessionId == old(session.sessionId)
    && session.token == old(session.token) && session.accumulatedSize == old(session.accumulatedSize)
    && mgr.sessionIdByName == old(mgr.sessionIdByName)[name := session.sessionId]
    && mgr.sessionById == old(mgr.sessionById)[session.sessionId := session]
    && mgr.activeSessionCount == old(mgr.activeSessionCount) + 1
    && session.history == old(session.history) + (if session.socket.Handle? then [response] else [])
    && net.calls == old(net.calls) + Kickoff(old(session.socket), old(session.isSending), response)
    && net.script == ScriptAfter(old(net.script), Kickoff(old(session.socket), old(session.isSending), response))
  }

  /** The accepted branch of `HandleLogin`: state, name, registration, and
      `response` to the session. */
  method LogIn(session: ClientSession, name: CString, response: seq<Byte>, mgr: SessionManager, net: Network)
    requires mgr.Valid() && session in mgr.pool
    modifies session, session.sendBuf, mgr`sessionIdByName, mgr`sessionById, mgr`activeSessionCount, net
    ensures mgr.Valid()
    ensures LoggedIn(session, name, response, mgr, net)
  {
    mgr.Authenticate(session, name);
    mgr.RegisterSession(session);
    var _ := mgr.SendTo(session, response, net);
  }

  /** Nothing in the pool or on the network changed. */
  twostate predicate Untouched(mgr: SessionManager, net: Network)
    reads mgr.Sessions(), mgr.SendBufs(), net
  {
    unchanged(mgr.Sessions()) && unchanged(mgr.SendBufs()) && unchanged(net)
  }

  /** `BroadcastPacket(exclude, data)` took place: every slot keeps its
      socket, id, name, state, token and accumulated bytes and gains `data`
      when its socket is valid and it is not `exclude`, and the sends started
      are those of the slots in order. */
  twostate predicate Broadcasted(mgr: SessionManager, exclude: ClientSession, data: seq<Byte>, net: Network)
    reads mgr.Sessions(), net
  {
    && (forall i :: 0 <= i < |mgr.pool| ==>
          Delivered(old(ViewOf(mgr.pool[i])), ViewOf(mgr.pool[i]), mgr.pool[i] == exclude, data))
    && net.calls == old(net.calls) + old(BroadcastCalls(mgr.pool, exclude, data))
    && net.script == ScriptAfter(old(net.script), old(BroadcastCalls(mgr.pool, exclude, data)))
  }

  /** What `HandleBroadcast` does with `frame` from `session`: a request of
      the wrong size changes nothing; otherwise the response built from the
      sender's name and the request's message is broadcast to everyone
      else, unless building it violates `strcpy_s` (`aborted`), which
      changes nothing. */
  twostate predicate BroadcastHandled(session: ClientSession, frame: seq<Byte>, mgr: SessionManager, net: Network, aborted: bool)
    reads session, mgr.Sessions(), mgr.SendBufs(), net
  {
    && (|frame| != BROADCAST_REQ_SIZE ==> !aborted && Untouched(mgr, net))
    && (|frame| == BROADCAST_REQ_SIZE ==>
          var res := BroadcastResponse(old(session.username), CStr(DecodeBroadCastReq(frame).message));
          && (aborted <==> res.Violation?)
          && (aborted ==> Untouched(mgr, net))
          && (res.Ok? ==> Broadcasted(mgr, session, res.value, net)))
  }

  /** `HandleBroadcast`: a request of the wrong size is dropped. Otherwise
      the response carries the sender's name and the request's message and
      goes to every other slot with a valid socket; a name or message too
      long for its field is the `strcpy_s` violation that ends the
      process (`aborted`), before anything is sent. */
  method HandleBroadcast(session: ClientSession, frame: seq<Byte>, mgr: SessionManager, net: Network)
    returns (aborted: bool)
    requires mgr.Valid() && session in mgr.pool
    modifies mgr.Sessions(), mgr.SendBufs(), net
    ensures mgr.Valid()
    ensures BroadcastHandled(session, frame, mgr, net, aborted)
  {
    if |frame| != BROADCAST_REQ_SIZE {
      return false;
    }
    var packet := DecodeBroadCastReq(frame);
    var res := BroadcastResponse(session.username, CStr(packet.message));
    if res.Violation? {
      return true;
    }
    mgr.BroadcastPacket(session, res.value, net);
    aborted := false;
  }

  /** Who a whisper's reply goes to: the session registered under the
      receiver's name, or the sender when there is none. */
  ghost function Recipient(mgr: SessionManager, session: ClientSession, receiver: CString): ClientSession
    requires mgr.IdsInPool()
    reads mgr
  {
    match mgr.FindSessionByName(receiver)
    case Some(target) => target
    case None => session
  }

  /** The reply to a whisper request from `sender`, depending on whether its
      receiver's name was found. */
  function WhisperReply(found: bool, sender: CString, packet: WhispherChatReqPacket): Checked<seq<Byte>>
  {
    if found then WhisperResponse(sender, CStr(packet.message))
    else Ok(NotFoundResponse(CStr(packet.receiver)))
  }

  /** `SendPacket(data)` on `to` alone took place: `to` keeps its socket,
      id, name, state, token and accumulated bytes and gains `data` when its
      socket is valid; every other slot and its send buffer are unchanged;
      the one send started is the one `SendPacket` starts. */
  twostate predicate Whispered(mgr: SessionManager, to: ClientSession, data: seq<Byte>, net: Network)
    reads mgr.Sessions(), mgr.SendBufs(), to, net
  {
    && IdentityKept(to)
    && to.history == old(to.history) + (if to.socket.Handle? then [data] else [])
    && (forall i :: 0 <= i < |mgr.pool| && mgr.pool[i] != to ==>
          unchanged(mgr.pool[i]) && unchanged(mgr.pool[i].sendBuf))
    && net.calls == old(net.calls) + Kickoff(old(to.socket), old(to.isSending), data)
    && net.script == ScriptAfter(old(net.script), Kickoff(old(to.socket), old(to.isSending), data))
  }

  /** What the whisper `packet` from `session` does: the reply goes to the
      session the receiver's name is registered under, or back to the
      sender when there is none; a `strcpy_s` violation while building it
      (`aborted`) changes nothing. */
  twostate predicate WhisperReplied(session: ClientSession, packet: WhispherChatReqPacket, mgr: SessionManager, net: Network, aborted: bool)
    requires old(mgr.IdsInPool())
    reads session, mgr, mgr.Sessions(), mgr.SendBufs(), net
  {
    var receiver := CStr(packet.receiver);
    var res := WhisperReply(old(mgr.FindSessionByName(receiver)).Some?, old(session.username), packet);
    var to := old(Recipient(mgr, session, receiver));
    && (aborted <==> res.Violation?)
    && (aborted ==> Untouched(mgr, net))
    && (res.Ok? ==> Whispered(mgr, to, res.value, net))
  }

  /** What `HandleWhispher` does with `frame`: a request of the wrong size
      changes nothing; otherwise the whisper it decodes to is answered. */
  twostate predicate WhisperHandled(session: ClientSession, frame: seq<Byte>, mgr: SessionManager, net: Network, aborted: bool)
    requires old(mgr.IdsInPool())
    reads session, mgr, mgr.Sessions(), mgr.SendBufs(), net
  {
    && (|frame| != WHISPER_REQ_SIZE ==> !aborted && Untouched(mgr, net))
    && (|frame| == WHISPER_REQ_SIZE ==> WhisperReplied(session, DecodeWhispherChatReq(frame), mgr, net, aborted))
  }

  /** `HandleWhispher`: a request of the wrong size is dropped. When the
      receiver's name is registered, that session is sent the sender's
      name and the message (a `strcpy_s` violation ends the process);
      otherwise the sender is sent the not-found reply. No other session
      changes. */
  method HandleWhispher(session: ClientSession, frame: seq<Byte>, mgr: SessionManager, net: Network)
    returns (aborted: bool)
    requires mgr.Valid() && session in mgr.pool
    modifies mgr.Sessions(), mgr.SendBufs(), net
    ensures mgr.Valid()
    ensures WhisperHandled(session, frame, mgr, net, aborted)
  {
    if |frame| != WHISPER_REQ_SIZE {
      return false;
    }
    aborted := Whisper(session, DecodeWhispherChatReq(frame), mgr, net);
  }

  /** The body of `HandleWhispher` past the size check. */
  method Whisper(session: ClientSession, packet: WhispherChatReqPacket, mgr: SessionManager, net: Network)
    returns (aborted: bool)
    requires mgr.Valid() && session in mgr.pool
    modifies mgr.Sessions(), mgr.SendBufs(), net
    ensures mgr.Valid()
    ensures WhisperReplied(session, packet, mgr, net, aborted)
  {
    var receiver := CStr(packet.receiver);
    var targetSession := mgr.FindSessionByName(receiver);
    var res := WhisperReply(targetSession.Some?, session.username, packet);
    if res.Violation? {
      return true;
    }
    var to := if targetSession.Some? then targetSession.value else session;
    Reply(to, res.value, mgr, net);
    aborted := false;
  }

  /** `to->SendPacket(data)` from a handler: only `to` changes. */
  method Reply(to: ClientSession, data: seq<Byte>, mgr: SessionManager, net: Network)
    requires mgr.Valid() && to in mgr.pool
    modifies mgr.Sessions(), mgr.SendBufs(), net
    ensures mgr.Valid() && Whispered(mgr, to, data, net)
  {
    var _ := mgr.SendTo(to, data, net);
  }

  // ---------------------------------------------------------------------
  // The receive loop

  /** Whether the `switch` of `ProcessPacket` hands a packet of this type,
      from a session in this state, to a handler. */
  predicate Handled(packetType: U16, state: SessionState)
  {
    || packetType == LOGIN_REQUEST
    || ((packetType == BROADCAST_REQUEST || packetType == WHISPER_REQUEST) && state == Authenticated)
  }

  /** The `WSASend` calls the `switch` starts, in the state before it, for
      a packet of type `packetType` and bytes `frame` from `session`: the
      login reply to the sender, the broadcast to every other slot or the
      whisper's reply to its recipient, each as `SendPacket` starts it; none
      for a request that is dropped or aborts. */
  ghost function SwitchCalls(session: ClientSession, packetType: U16, frame: seq<Byte>, mgr: SessionManager): seq<Call>
    requires mgr.IdsInPool()
    reads session, mgr, mgr.pool
  {
    if packetType == LOGIN_REQUEST then
      if |frame| == LOGIN_REQ_SIZE then Kickoff(session.socket, session.isSending, LoginResponse()) else []
    else if !Handled(packetType, session.state) then []
    else if packetType == BROADCAST_REQUEST then
      if |frame| != BROADCAST_REQ_SIZE then []
      else match BroadcastResponse(session.username, CStr(DecodeBroadCastReq(frame).message))
        case Ok(data) => BroadcastCalls(mgr.pool, session, data)
        case Violation => []
    else if |frame| != WHISPER_REQ_SIZE then []
    else
      var packet := DecodeWhispherChatReq(frame);
      var receiver := CStr(packet.receiver);
      var to := Recipient(mgr, session, receiver);
      match WhisperReply(mgr.FindSessionByName(receiver).Some?, session.username, packet)
      case Ok(data) => Kickoff(to.socket, to.isSending, data)
      case Violation => []
  }

  /** What the `switch` did with a packet of type `packetType` and bytes
      `frame` from `session`: a login has `HandleLogin`'s effect; a
      broadcast or whisper from an authenticated session has its handler's
      effect and leaves the manager's maps and count alone, and only those
      two can abort; other types and unauthenticated requests change
      nothing. Every handler drops a frame of the wrong size, so an empty
      frame changes nothing either. */
  twostate predicate Dispatched(session: ClientSession, packetType: U16, frame: seq<Byte>,
                                mgr: SessionManager, net: Network, aborted: bool)
    requires old(mgr.IdsInPool())
    reads session, session.sendBuf, mgr, mgr.Sessions(), mgr.SendBufs(), net
  {
    if packetType == LOGIN_REQUEST then !aborted && LoginHandled(session, frame, mgr, net)
    else if !Handled(packetType, old(session.state)) then !aborted && unchanged(mgr) && Untouched(mgr, net)
    else if packetType == BROADCAST_REQUEST then unchanged(mgr) && BroadcastHandled(session, frame, mgr, net, aborted)
    else unchanged(mgr) && WhisperHandled(session, frame, mgr, net, aborted)
  }

  /** The `switch` on the header's type: logins always, broadcasts and
      whispers only from an authenticated session, anything else ignored.
      A handler given an empty frame drops it. */
  method Dispatch(session: ClientSession, packetType: U16, frame: seq<Byte>, mgr: SessionManager, net: Network)
    returns (aborted: bool)
    requires mgr.Valid() && session in mgr.pool
    modifies mgr`sessionIdByName, mgr`sessionById, mgr`activeSessionCount, mgr.Sessions(), mgr.SendBufs(), net
    ensures mgr.Valid()
    ensures Dispatched(session, packetType, frame, mgr, net, aborted)
    ensures aborted ==> |frame| > 0
    ensures net.calls == old(net.calls) + old(SwitchCalls(session, packetType, frame, mgr))
    ensures net.script == ScriptAfter(old(net.script), old(SwitchCalls(session, packetType, frame, mgr)))
  {
    aborted := false;
    if packetType == LOGIN_REQUEST {
      HandleLogin(session, frame, mgr, net);
    } else if packetType == BROADCAST_REQUEST || packetType == WHISPER_REQUEST {
      if session.IsAuthenticated() {
        if packetType == BROADCAST_REQUEST {
          aborted := HandleBroadcast(session, frame, mgr, net);
        } else {
          aborted := HandleWhispher(session, frame, mgr, net);
        }
      }
    }
  }

  /** `memmove(buf, buf + from, n)`: the `n` bytes at `from` move to the
      front; the bytes after the first `n` stay. */
  method Memmove(buf: array<Byte>, from: nat, n: nat)
    requires from + n <= buf.Length
    modifies buf
    ensures buf[..n] == old(buf[from..from + n])
    ensures buf[n..] == old(buf[n..])
  {
    var i := 0;
    while i < n
      invariant i <= n
      invariant forall p :: 0 <= p < i ==> buf[p] == old(buf[from + p])
      invariant forall p :: i <= p < buf.Length ==> buf[p] == old(buf[p])
    {
      buf[i] := buf[from + i];
      i := i + 1;
    }
  }

  /** How `ProcessPacket` ends: waiting for more bytes, stuck for ever on a
      header that declares size 0, or ended by a handler's `strcpy_s`
      violation. */
  datatype Outcome = Waiting | Diverges | Aborted

  /** `ProcessPacket(session, dataSize, sessionManager)`: the `dataSize`
      bytes just placed after the accumulated ones are counted in, and the
      buffer is cut into packets by `Split`. Every frame `Split` cuts is
      handed, in order, to the `switch`, and the bytes it leaves are moved
      to the front of the buffer. With a header declaring size 0 the loop
      makes no progress: it would go round for ever in the same state, and
      the model stops with `Diverges` after handing the empty packet to the
      `switch` once, which drops it. `dispatched` lists the frames `Split`
      cuts that were handed on, an aborting one last; the `WSASend` calls
      the handlers issue only ever extend the network's log. */
  method ProcessPacket(session: ClientSession, dataSize: U32, mgr: SessionManager, net: Network)
    returns (outcome: Outcome, ghost dispatched: seq<seq<Byte>>)
    requires mgr.Valid() && session in mgr.pool
    requires session.accumulatedSize as nat + dataSize as nat <= MAX_SOCKBUF
    modifies session, session.recvBuf, mgr`sessionIdByName, mgr`sessionById, mgr`activeSessionCount
    modifies mgr.Sessions(), mgr.SendBufs(), net
    ensures mgr.Valid()
    ensures var f := Split(old(session.recvBuf[..session.accumulatedSize as nat + dataSize as nat]));
            && (outcome != Aborted ==>
                  && dispatched == f.frames && (outcome == Diverges <==> f.diverges)
                  && session.accumulatedSize as nat == |f.rest| <= session.recvBuf.Length
                  && session.recvBuf[..session.accumulatedSize] == f.rest)
            && (outcome == Aborted ==> dispatched != [] && dispatched <= f.frames)
    ensures old(net.calls) <= net.calls
  {
    mgr.RecvBufApart(session);
    mgr.AddAccumulated(session, dataSize);
    assert session.recvBuf[..session.accumulatedSize]
        == old(session.recvBuf[..session.accumulatedSize as nat + dataSize as nat]);
    outcome, dispatched := Drain(session, mgr, net);
  }

  /** The loop of `ProcessPacket` over the accumulated bytes. */
  method Drain(session: ClientSession, mgr: SessionManager, net: Network)
    returns (outcome: Outcome, ghost dispatched: seq<seq<Byte>>)
    requires mgr.Valid() && session in mgr.pool
    requires session.accumulatedSize as nat <= MAX_SOCKBUF == session.recvBuf.Length
    modifies session, session.recvBuf, mgr`sessionIdByName, mgr`sessionById, mgr`activeSessionCount
    modifies mgr.Sessions(), mgr.SendBufs(), net
    ensures mgr.Valid()
    ensures var f := Split(old(session.recvBuf[..session.accumulatedSize]));
            && (outcome != Aborted ==>
                  && dispatched == f.frames && (outcome == Diverges <==> f.diverges)
                  && session.accumulatedSize as nat == |f.rest| <= session.recvBuf.Length
                  && session.recvBuf[..session.accumulatedSize] == f.rest)
            && (outcome == Aborted ==> dispatched != [] && dispatched <= f.frames)
    ensures old(net.calls) <= net.calls
  {
    ghost var f := Split(session.recvBuf[..session.accumulatedSize]);
    dispatched := [];
    while true
      invariant mgr.Valid()
      invariant old(net.calls) <= net.calls
      invariant session.accumulatedSize as nat <= MAX_SOCKBUF == session.recvBuf.Length
      invariant var cur := Split(session.recvBuf[..session.accumulatedSize]);
                f.frames == dispatched + cur.frames && f.rest == cur.rest && f.diverges == cur.diverges
      decreases session.accumulatedSize
    {
      ghost var before := Split(session.recvBuf[..session.accumulatedSize]);
      var stop, frame;
      stop, outcome, frame := Turn(session, mgr, net);
      if stop {
        if outcome == Aborted {
          LoopAborts(f, dispatched, before, frame);
          return outcome, dispatched + [frame];
        }
        LoopStops(f, dispatched, before);
        return outcome, dispatched;
      }
      LoopKeeps(f, dispatched, before, frame, Split(session.recvBuf[..session.accumulatedSize]));
      dispatched := dispatched + [frame];
    }
  }

  /** The bookkeeping of a turn that hands `frame` on: the frames still to
      come lose it at the front and the frames handed on gain it at the back. */
  lemma LoopKeeps(f: Framing, done: seq<seq<Byte>>, before: Framing, frame: seq<Byte>, after: Framing)
    requires f.frames == done + before.frames && f.rest == before.rest && f.diverges == before.diverges
    requires before.frames == [frame] + after.frames
    requires before.rest == after.rest && before.diverges == after.diverges
    ensures f.frames == (done + [frame]) + after.frames && f.rest == after.rest && f.diverges == after.diverges
  {
    Assoc(done, [frame], after.frames);
  }

  /** A turn that aborts has handed on one frame more, still a prefix. */
  lemma LoopAborts(f: Framing, done: seq<seq<Byte>>, before: Framing, frame: seq<Byte>)
    requires f.frames == done + before.frames
    requires before.frames != [] && before.frames[0] == frame
    ensures done + [frame] != [] && done + [frame] <= f.frames
  {
    Assoc(done, [frame], before.frames[1..]);
    assert before.frames == [frame] + before.frames[1..];
    PrefixOfAppend(done + [frame], before.frames[1..]);
  }

  /** A turn that stops with no frame left has handed on all of them. */
  lemma LoopStops(f: Framing, done: seq<seq<Byte>>, before: Framing)
    requires f.frames == done + before.frames && before.frames == []
    ensures f.frames == done
  {
    AppendEmpty(done);
  }

  /** One turn of the loop of `ProcessPacket`. It stops, with nothing
      changed, on a partial header or packet (`Waiting`); otherwise it hands
      the packet at the front to the `switch` and stops if that aborted;
      otherwise it moves the rest of the bytes to the front, and stops when
      the packet declared size 0, since the next turn would begin in the
      same state (`Diverges`). Else the frame `Split` cuts first is gone. */
  method Turn(session: ClientSession, mgr: SessionManager, net: Network)
    returns (stop: bool, outcome: Outcome, frame: seq<Byte>)
    requires mgr.Valid() && session in mgr.pool
    requires session.accumulatedSize as nat <= MAX_SOCKBUF == session.recvBuf.Length
    modifies session, session.recvBuf, mgr`sessionIdByName, mgr`sessionById, mgr`activeSessionCount
    modifies mgr.Sessions(), mgr.SendBufs(), net
    ensures mgr.Valid()
    ensures outcome == Diverges ==> frame == []
    ensures stop && outcome == Aborted ==>
              Dispatched(session, old(ReadLE16(session.recvBuf[0], session.recvBuf[1])), frame,
                         mgr, net, true)
    ensures var sent := if stop && outcome == Waiting then []
                        else old(SwitchCalls(session, ReadLE16(session.recvBuf[0], session.recvBuf[1]), frame, mgr));
            net.calls == old(net.calls) + sent && net.script == ScriptAfter(old(net.script), sent)
    ensures !(stop && outcome == Aborted) ==> session.accumulatedSize as nat <= MAX_SOCKBUF
    ensures var cur := old(session.recvBuf[..session.accumulatedSize]);
            && (stop && outcome == Waiting ==>
                  Split(cur) == Framing([], cur, false) && session.recvBuf[..session.accumulatedSize] == cur)
            && (stop && outcome == Diverges ==>
                  Split(cur) == Framing([], cur, true) && session.recvBuf[..session.accumulatedSize] == cur)
            && (stop && outcome == Aborted ==> Split(cur).frames != [] && Split(cur).frames[0] == frame)
            && (!stop ==>
                  && session.accumulatedSize < old(session.accumulatedSize)
                  && var now := Split(session.recvBuf[..session.accumulatedSize]);
                     Split(cur).frames == [frame] + now.frames
                     && Split(cur).rest == now.rest && Split(cur).diverges == now.diverges)
  {
    var current := session.accumulatedSize;
    ghost var cur := session.recvBuf[..current];
    if current < HEADER_SIZE as U32 {
      return true, Waiting, [];
    }
    var packetSize := ReadLE16(session.recvBuf[2], session.recvBuf[3]);
    if current < packetSize as U32 {
      return true, Waiting, [];
    }
    stop, outcome, frame := Consume(session, current, packetSize, mgr, net);
  }

  /** The part of a turn after a whole packet of `size` bytes has been found
      at the front of the `current` accumulated bytes. */
  method Consume(session: ClientSession, current: U32, size: U16, mgr: SessionManager, net: Network)
    returns (stop: bool, outcome: Outcome, frame: seq<Byte>)
    requires mgr.Valid() && session in mgr.pool
    requires HEADER_SIZE <= current as nat <= MAX_SOCKBUF == session.recvBuf.Length
    requires size as nat <= current as nat && size == DeclaredSize(session.recvBuf[..current])
    modifies session, session.recvBuf, mgr`sessionIdByName, mgr`sessionById, mgr`activeSessionCount
    modifies mgr.Sessions(), mgr.SendBufs(), net
    ensures mgr.Valid()
    ensures outcome == Aborted ==>
              Dispatched(session, old(DeclaredType(session.recvBuf[..current])), frame, mgr, net, true)
    ensures var sent := old(SwitchCalls(session, DeclaredType(session.recvBuf[..current]), frame, mgr));
            net.calls == old(net.calls) + sent && net.script == ScriptAfter(old(net.script), sent)
    ensures outcome == Diverges ==> frame == []
    ensures var cur := old(session.recvBuf[..current]);
            && frame == cur[..size]
            && (outcome == Aborted ==> stop && Split(cur).frames != [] && Split(cur).frames[0] == frame)
            && (outcome != Aborted ==> session.accumulatedSize as nat <= MAX_SOCKBUF)
            && (stop && outcome != Aborted ==>
                  outcome == Diverges && Split(cur) == Framing([], cur, true)
                  && session.recvBuf[..session.accumulatedSize] == cur)
            && (!stop ==>
                  && session.accumulatedSize < current
                  && var now := Split(session.recvBuf[..session.accumulatedSize]);
                     Split(cur).frames == [frame] + now.frames
                     && Split(cur).rest == now.rest && Split(cur).diverges == now.diverges)
  {
    ghost var cur := session.recvBuf[..current];
    var packetType, aborted;
    packetType, frame, aborted := DispatchFront(session, size, mgr, net);
    assert cur[..size] == frame;
    if aborted {
      SplitStep(cur);
      return true, Aborted, frame;
    }
    assert session.recvBuf[..current] == cur;
    var diverges := Finish(session, current, size, mgr);
    stop, outcome := diverges, if diverges then Diverges else Waiting;
  }

  /** The end of a turn that did not abort: the bytes after the packet move
      to the front. A packet that declared size 0 leaves everything as it
      was; any other is the first frame `Split` cuts, and what is left is
      the rest of the split. */
  method Finish(session: ClientSession, current: U32, size: U16, mgr: SessionManager)
    returns (diverges: bool)
    requires mgr.Valid() && session in mgr.pool
    requires HEADER_SIZE <= current as nat <= MAX_SOCKBUF == session.recvBuf.Length
    requires size as nat <= current as nat && size == DeclaredSize(session.recvBuf[..current])
    modifies session`accumulatedSize, session.recvBuf
    ensures mgr.Valid() && session.accumulatedSize as nat <= MAX_SOCKBUF
    ensures var cur := old(session.recvBuf[..current]);
            && (diverges <==> size == 0)
            && (diverges ==>
                  Split(cur) == Framing([], cur, true) && session.recvBuf[..session.accumulatedSize] == cur)
            && (!diverges ==>
                  && session.accumulatedSize < current
                  && var now := Split(session.recvBuf[..session.accumulatedSize]);
                     Split(cur).frames == [cur[..size]] + now.frames
                     && Split(cur).rest == now.rest && Split(cur).diverges == now.diverges)
  {
    ghost var cur := session.recvBuf[..current];
    Advance(session, current, size as U32, mgr);
    diverges := size == 0;
    if diverges {
      assert session.recvBuf[..session.accumulatedSize] == cur;
    } else {
      SplitStep(cur);
      assert session.recvBuf[..session.accumulatedSize] == cur[size..];
    }
  }

  /** The `switch` on the packet at the front of the receive buffer, handed
      its first `size` bytes. The receive buffer itself is not touched. */
  method DispatchFront(session: ClientSession, size: U16, mgr: SessionManager, net: Network)
    returns (packetType: U16, frame: seq<Byte>, aborted: bool)
    requires mgr.Valid() && session in mgr.pool
    requires HEADER_SIZE <= session.recvBuf.Length && size as nat <= session.recvBuf.Length
    modifies mgr`sessionIdByName, mgr`sessionById, mgr`activeSessionCount, mgr.Sessions(), mgr.SendBufs(), net
    ensures mgr.Valid() && unchanged(session.recvBuf)
    ensures packetType == ReadLE16(session.recvBuf[0], session.recvBuf[1]) && frame == session.recvBuf[..size]
    ensures aborted ==> size > 0
    ensures Dispatched(session, packetType, frame, mgr, net, aborted)
    ensures net.calls == old(net.calls) + old(SwitchCalls(session, packetType, frame, mgr))
    ensures net.script == ScriptAfter(old(net.script), old(SwitchCalls(session, packetType, frame, mgr)))
  {
    packetType := ReadLE16(session.recvBuf[0], session.recvBuf[1]);
    frame := session.recvBuf[..size];
    mgr.RecvBufApart(session);
    aborted := Dispatch(session, packetType, frame, mgr, net);
  }

  /** The end of one turn: the `current - size` bytes after the packet move
      to the front (when there are any) and become the accumulated size. */
  method Advance(session: ClientSession, current: U32, size: U32, mgr: SessionManager)
    requires mgr.Valid() && session in mgr.pool
    requires size <= current <= MAX_SOCKBUF && session.recvBuf.Length == MAX_SOCKBUF
    modifies session`accumulatedSize, session.recvBuf
    ensures mgr.Valid()
    ensures session.accumulatedSize == current - size
    ensures session.recvBuf[..current - size] == old(session.recvBuf[size..current])
  {
    mgr.RecvBufApart(session);
    var remaining := current - size;
    if remaining > 0 {
      Memmove(session.recvBuf, size as nat, remaining as nat);
    }
    ghost var moved := session.recvBuf[..remaining];
    assert moved == old(session.recvBuf[size..current]);
    mgr.SetAccumulated(session, remaining);
    assert session.recvBuf[..remaining] == moved;
  }
}

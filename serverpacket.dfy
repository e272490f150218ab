/** The packed wire layouts of `IOCP_Server/Packet.h`: a `{type, size}`
    header of two `UINT16`s followed by fixed-width fields. Char-array fields
    are zeroed by the constructors and filled by `strcpy_s` in the setters.
    Structs are values here: a constructor is a function giving the freshly
    built packet, a setter is a function from the old packet to the new one
    (or to the `strcpy_s` violation that ends the process). */
module ServerPacket {
  import opened Bytes

  const MAX_CHAT_SIZE: nat := 1024
  const MAX_USER_ID: nat := 32
  const MAX_USER_PW: nat := 32
  const MAX_USER_NAME: nat := 32

  // PacketType
  const LOGIN_REQUEST: U16 := 2001
  const LOGIN_RESPONSE: U16 := 2002
  const BROADCAST_REQUEST: U16 := 3001
  const BROADCAST_RESPONSE: U16 := 3002
  const ROOM_CHAT_REQUEST: U16 := 3003
  const ROOM_CHAT_RESPONSE: U16 := 3004
  const WHISPER_REQUEST: U16 := 3005
  const WHISPER_RESPONSE: U16 := 3006
  const ROOM_LIST_REQUEST: U16 := 4001
  const ROOM_LIST_RESPONSE: U16 := 4002
  const ROOM_CREATE_REQUEST: U16 := 4003
  const ROOM_CREATE_RESPONSE: U16 := 4004
  const ROOM_JOIN_REQUEST: U16 := 4005
  const ROOM_JOIN_RESPONSE: U16 := 4006
  const ROOM_LEAVE_REQUEST: U16 := 4007
  const ROOM_LEAVE_RESPONSE: U16 := 4008
  const USER_JOIN_NOTIFY: U16 := 5001
  const USER_LEAVE_NOTIFY: U16 := 5002

  // ErrorCode
  const SUCCESS: U16 := 0
  const INVALID_PACKET: U16 := 1001
  const AUTH_FAILED: U16 := 1002
  const LOGIN_USER_ALREADY: U16 := 1003
  const LOGIN_USER_FULL: U16 := 1004
  const USER_NOT_FOUND: U16 := 1005
  const ROOM_NOT_FOUND: U16 := 1006
  const ROOM_FULL: U16 := 1007
  const ALREADY_IN_ROOM: U16 := 1008
  const PERMISSION_DENIED: U16 := 1009
  const SERVER_ERROR: U16 := 9999

  /** `sizeof` of each packed struct. */
  const HEADER_SIZE: nat := 4
  const NAME_FIELD: nat := MAX_USER_NAME + 1
  const CHAT_FIELD: nat := MAX_CHAT_SIZE + 1
  const LOGIN_REQ_SIZE: nat := HEADER_SIZE + 3 * NAME_FIELD
  const LOGIN_RES_SIZE: nat := HEADER_SIZE + 2
  const BROADCAST_REQ_SIZE: nat := HEADER_SIZE + CHAT_FIELD
  const BROADCAST_RES_SIZE: nat := HEADER_SIZE + NAME_FIELD + CHAT_FIELD
  const WHISPER_REQ_SIZE: nat := HEADER_SIZE + 2 + NAME_FIELD + CHAT_FIELD
  const WHISPER_RES_SIZE: nat := HEADER_SIZE + 2 + NAME_FIELD + CHAT_FIELD
  const NOTIFY_SIZE: nat := HEADER_SIZE + NAME_FIELD

  lemma StructSizes()
    ensures LOGIN_REQ_SIZE == 103 && LOGIN_RES_SIZE == 6
    ensures BROADCAST_REQ_SIZE == 1029 && BROADCAST_RES_SIZE == 1062
    ensures WHISPER_REQ_SIZE == 1064 && WHISPER_RES_SIZE == 1064
    ensures NOTIFY_SIZE == 37
  {
  }

  /** `char[MAX_USER_ID + 1]`, `char[MAX_USER_NAME + 1]`, ... */
  type NameField = s: seq<Byte> | |s| == 33 witness Zeros(33)
  /** `char[MAX_CHAT_SIZE + 1]` */
  type ChatField = s: seq<Byte> | |s| == 1025 witness Zeros(1025)

  datatype PacketHeader = PacketHeader(packetType: U16, size: U16)
  {
    function Encode(): (r: seq<Byte>)
      ensures |r| == HEADER_SIZE
    {
      LE16(packetType) + LE16(size)
    }
  }

  /** `PacketHeader(type)` leaves the size 0; `PacketHeader(type, size)` sets it. */
  function NewHeader(packetType: U16): (h: PacketHeader)
    ensures h.packetType == packetType && h.size == 0
  {
    PacketHeader(packetType, 0)
  }

  function SetSize(h: PacketHeader, packetSize: U16): (r: PacketHeader)
    ensures r.packetType == h.packetType && r.size == packetSize
  {
    h.(size := packetSize)
  }

  /** Reads the header at the front of a byte stream (the cast
      `(PacketHeader*)buffer`). */
  function DecodeHeader(b: seq<Byte>): (h: PacketHeader)
    requires |b| >= HEADER_SIZE
  {
    PacketHeader(ReadLE16(b[0], b[1]), ReadLE16(b[2], b[3]))
  }

  lemma HeaderRoundTrip(h: PacketHeader, rest: seq<Byte>)
    ensures DecodeHeader(h.Encode() + rest) == h
  {
    var b := h.Encode() + rest;
    LE16RoundTrip(h.packetType);
    LE16RoundTrip(h.size);
    assert b[0] == LE16(h.packetType)[0] && b[1] == LE16(h.packetType)[1];
    assert b[2] == LE16(h.size)[0] && b[3] == LE16(h.size)[1];
  }

  datatype LoginReqPacket = LoginReqPacket(header: PacketHeader, userId: NameField, password: NameField, username: NameField)
  {
    function Encode(): (r: seq<Byte>)
      ensures |r| == LOGIN_REQ_SIZE
    {
      header.Encode() + userId + password + username
    }
  }

  function NewLoginReq(): (p: LoginReqPacket)
    ensures p.header == PacketHeader(LOGIN_REQUEST, 103) && p.header.size as nat == LOGIN_REQ_SIZE
    ensures CStr(p.userId) == [] && CStr(p.password) == [] && CStr(p.username) == []
  {
    LoginReqPacket(SetSize(NewHeader(LOGIN_REQUEST), LOGIN_REQ_SIZE), Zeros(33), Zeros(33), Zeros(33))
  }

  /** `SetLoginInfo(user, pw, name)`: three `strcpy_s` with no null guard. */
  function SetLoginInfo(p: LoginReqPacket, user: CPtr, pw: CPtr, name: CPtr): (r: Checked<LoginReqPacket>)
    ensures r.Ok? <==> user.Str? && pw.Str? && name.Str?
                        && |user.chars| <= MAX_USER_ID && |pw.chars| <= MAX_USER_PW && |name.chars| <= MAX_USER_NAME
    ensures r.Ok? ==> r.value.header == p.header
  {
    match (StrcpyS(p.userId, user), StrcpyS(p.password, pw), StrcpyS(p.username, name))
    case (Ok(u), Ok(w), Ok(n)) => Ok(p.(userId := u, password := w, username := n))
    case _ => Violation
  }

  lemma SetLoginInfoReadBack(user: CString, pw: CString, name: CString)
    requires |user| <= MAX_USER_ID && |pw| <= MAX_USER_PW && |name| <= MAX_USER_NAME
    ensures var r := SetLoginInfo(NewLoginReq(), Str(user), Str(pw), Str(name));
            r.Ok? && CStr(r.value.userId) == user && CStr(r.value.password) == pw
            && CStr(r.value.username) == name && r.value.header.size as nat == LOGIN_REQ_SIZE
  {
    StrcpySReadBack(Zeros(33), user);
    StrcpySReadBack(Zeros(33), pw);
    StrcpySReadBack(Zeros(33), name);
  }

  function DecodeLoginReq(b: seq<Byte>): (p: LoginReqPacket)
    requires |b| >= LOGIN_REQ_SIZE
  {
    LoginReqPacket(DecodeHeader(b), b[4..37], b[37..70], b[70..103])
  }

  lemma LoginReqRoundTrip(p: LoginReqPacket, rest: seq<Byte>)
    ensures DecodeLoginReq(p.Encode() + rest) == p
    ensures DecodeLoginReq(p.Encode() + rest).Encode() == (p.Encode() + rest)[..LOGIN_REQ_SIZE]
  {
    var b := p.Encode() + rest;
    HeaderRoundTrip(p.header, b[4..]);
    assert b == p.header.Encode() + b[4..];
    assert b[4..37] == p.userId && b[37..70] == p.password && b[70..103] == p.username;
  }

  /** `LoginResPacket`: `result` is not initialised by the constructor,
      whose value is what the memory happened to hold (`indeterminate`). */
  datatype LoginResPacket = LoginResPacket(header: PacketHeader, result: U16)
  {
    function Encode(): (r: seq<Byte>)
      ensures |r| == LOGIN_RES_SIZE
    {
      header.Encode() + LE16(result)
    }
  }

  function NewLoginRes(indeterminate: U16): (p: LoginResPacket)
    ensures p.header == PacketHeader(LOGIN_RESPONSE, 6) && p.header.size as nat == LOGIN_RES_SIZE
  {
    LoginResPacket(SetSize(NewHeader(LOGIN_RESPONSE), LOGIN_RES_SIZE), indeterminate)
  }

  function DecodeLoginRes(b: seq<Byte>): (p: LoginResPacket)
    requires |b| >= LOGIN_RES_SIZE
  {
    LoginResPacket(DecodeHeader(b), ReadLE16(b[4], b[5]))
  }

  lemma LoginResRoundTrip(p: LoginResPacket)
    ensures DecodeLoginRes(p.Encode()) == p
  {
    var b := p.Encode();
    HeaderRoundTrip(p.header, LE16(p.result));
    LE16RoundTrip(p.result);
    assert b[4] == LE16(p.result)[0] && b[5] == LE16(p.result)[1];
  }

  /** `BroadCastReqPacket`: the constructor never calls `SetSize`. */
  datatype BroadCastReqPacket = BroadCastReqPacket(header: PacketHeader, message: ChatField)
  {
    /** The same layout as `CommonPacket.BroadCastReqPacket.Encode`. */
    function Encode(): (r: seq<Byte>)
      ensures |r| == BROADCAST_REQ_SIZE
    {
      header.Encode() + message
    }
  }

  function NewBroadCastReq(): (p: BroadCastReqPacket)
    ensures p.header == PacketHeader(BROADCAST_REQUEST, 0)
    ensures CStr(p.message) == []
  {
    BroadCastReqPacket(NewHeader(BROADCAST_REQUEST), Zeros(1025))
  }

  /** `SetMessage(msg)`: nothing for a null `msg`; the size stays as it was.
      `Common/Packet.h` has the same setter (`CommonPacket.BroadCastReqSetMessage`). */
  function BroadCastReqSetMessage(p: BroadCastReqPacket, msg: CPtr): (r: Checked<BroadCastReqPacket>)
    ensures msg.Null? ==> r == Ok(p)
    ensures msg.Str? ==> (r.Ok? <==> |msg.chars| <= MAX_CHAT_SIZE)
    ensures r.Ok? ==> r.value.header == p.header
    ensures r.Ok? && msg.Str? ==> CStr(r.value.message) == msg.chars
  {
    if msg.Null? then Ok(p)
    else match StrcpyS(p.message, msg)
      case Ok(m) =>
        StrcpySReadBack(p.message, msg.chars);
        Ok(p.(message := m))
      case Violation => Violation
  }

  function DecodeBroadCastReq(b: seq<Byte>): (p: BroadCastReqPacket)
    requires |b| >= BROADCAST_REQ_SIZE
  {
    BroadCastReqPacket(DecodeHeader(b), b[4..1029])
  }

  lemma BroadCastReqRoundTrip(p: BroadCastReqPacket, rest: seq<Byte>)
    ensures DecodeBroadCastReq(p.Encode() + rest) == p
  {
    var b := p.Encode() + rest;
    HeaderRoundTrip(p.header, b[4..]);
    assert b == p.header.Encode() + b[4..];
    assert b[4..1029] == p.message;
  }

  datatype BroadCastResPacket = BroadCastResPacket(header: PacketHeader, user: NameField, message: ChatField)
  {
    /** The same layout as `CommonPacket.BroadCastResPacket.Encode`. */
    function Encode(): (r: seq<Byte>)
      ensures |r| == BROADCAST_RES_SIZE
    {
      header.Encode() + user + message
    }
  }

  function NewBroadCastRes(): (p: BroadCastResPacket)
    ensures p.header == PacketHeader(BROADCAST_RESPONSE, 1062) && p.header.size as nat == BROADCAST_RES_SIZE
    ensures CStr(p.user) == [] && CStr(p.message) == []
  {
    BroadCastResPacket(SetSize(NewHeader(BROADCAST_RESPONSE), BROADCAST_RES_SIZE), Zeros(33), Zeros(1025))
  }

  /** `SetUser(name)`: the guard `if (!user) return;` tests the array member,
      which is never null, so a null `name` reaches `strcpy_s`. */
  function BroadCastResSetUser(p: BroadCastResPacket, name: CPtr): (r: Checked<BroadCastResPacket>)
    ensures r.Ok? <==> name.Str? && |name.chars| <= MAX_USER_NAME
    ensures r.Ok? ==> r.value.header == p.header && r.value.message == p.message
                      && CStr(r.value.user) == name.chars
  {
    match StrcpyS(p.user, name)
    case Ok(u) =>
      StrcpySReadBack(p.user, name.chars);
      Ok(p.(user := u))
    case Violation => Violation
  }

  /** `SetMessage(msg)`: guarded against a null `msg`. */
  function BroadCastResSetMessage(p: BroadCastResPacket, msg: CPtr): (r: Checked<BroadCastResPacket>)
    ensures msg.Null? ==> r == Ok(p)
    ensures msg.Str? ==> (r.Ok? <==> |msg.chars| <= MAX_CHAT_SIZE)
    ensures r.Ok? ==> r.value.header == p.header && r.value.user == p.user
    ensures r.Ok? && msg.Str? ==> CStr(r.value.message) == msg.chars
  {
    if msg.Null? then Ok(p)
    else match StrcpyS(p.message, msg)
      case Ok(m) =>
        StrcpySReadBack(p.message, msg.chars);
        Ok(p.(message := m))
      case Violation => Violation
  }

  function DecodeBroadCastRes(b: seq<Byte>): (p: BroadCastResPacket)
    requires |b| >= BROADCAST_RES_SIZE
  {
    BroadCastResPacket(DecodeHeader(b), b[4..37], b[37..1062])
  }

  lemma BroadCastResRoundTrip(p: BroadCastResPacket)
    ensures DecodeBroadCastRes(p.Encode()) == p
  {
    var b := p.Encode();
    HeaderRoundTrip(p.header, b[4..]);
    assert b == p.header.Encode() + b[4..];
    assert b[4..37] == p.user && b[37..1062] == p.message;
  }

  /** `WhispherChatReqPacket`: `result` is not initialised; the size stays 0
      until `SetMessage`. */
  datatype WhispherChatReqPacket = WhispherChatReqPacket(header: PacketHeader, result: U16, receiver: NameField, message: ChatField)
  {
    function Encode(): (r: seq<Byte>)
      ensures |r| == WHISPER_REQ_SIZE
    {
      header.Encode() + LE16(result) + receiver + message
    }
  }

  function NewWhispherChatReq(indeterminate: U16): (p: WhispherChatReqPacket)
    ensures p.header == PacketHeader(WHISPER_REQUEST, 0)
    ensures CStr(p.receiver) == [] && CStr(p.message) == []
  {
    WhispherChatReqPacket(NewHeader(WHISPER_REQUEST), indeterminate, Zeros(33), Zeros(1025))
  }

  /** `SetMessage(user, msg)`: nothing if either is null; otherwise both
      copies and then the size 1064. */
  function WhispherChatReqSetMessage(p: WhispherChatReqPacket, user: CPtr, msg: CPtr): (r: Checked<WhispherChatReqPacket>)
    ensures user.Null? || msg.Null? ==> r == Ok(p)
    ensures user.Str? && msg.Str? ==>
              (r.Ok? <==> |user.chars| <= MAX_USER_NAME && |msg.chars| <= MAX_CHAT_SIZE)
    ensures user.Str? && msg.Str? && r.Ok? ==>
              r.value.header.packetType == p.header.packetType && r.value.header.size as nat == WHISPER_REQ_SIZE
              && r.value.result == p.result
              && CStr(r.value.receiver) == user.chars && CStr(r.value.message) == msg.chars
  {
    if user.Null? || msg.Null? then Ok(p)
    else match (StrcpyS(p.receiver, user), StrcpyS(p.message, msg))
      case (Ok(u), Ok(m)) =>
        StrcpySReadBack(p.receiver, user.chars);
        StrcpySReadBack(p.message, msg.chars);
        Ok(p.(header := SetSize(p.header, WHISPER_REQ_SIZE), receiver := u, message := m))
      case _ => Violation
  }

  function SetWhisperReqResult(p: WhispherChatReqPacket, error: U16): (r: WhispherChatReqPacket)
    ensures r.result == error && r.header == p.header && r.receiver == p.receiver && r.message == p.message
  {
    p.(result := error)
  }

  function DecodeWhispherChatReq(b: seq<Byte>): (p: WhispherChatReqPacket)
    requires |b| >= WHISPER_REQ_SIZE
  {
    WhispherChatReqPacket(DecodeHeader(b), ReadLE16(b[4], b[5]), b[6..39], b[39..1064])
  }

  lemma WhispherChatReqRoundTrip(p: WhispherChatReqPacket, rest: seq<Byte>)
    ensures DecodeWhispherChatReq(p.Encode() + rest) == p
  {
    var b := p.Encode() + rest;
    HeaderRoundTrip(p.header, b[4..]);
    LE16RoundTrip(p.result);
    assert b == p.header.Encode() + b[4..];
    assert b[4] == LE16(p.result)[0] && b[5] == LE16(p.result)[1];
    assert b[6..39] == p.receiver && b[39..1064] == p.message;
  }

  /** `WhispherChatResPacket`: like the request, with `sender` for `receiver`. */
  datatype WhispherChatResPacket = WhispherChatResPacket(header: PacketHeader, result: U16, sender: NameField, message: ChatField)
  {
    function Encode(): (r: seq<Byte>)
      ensures |r| == WHISPER_RES_SIZE
    {
      header.Encode() + LE16(result) + sender + message
    }
  }

  function NewWhispherChatRes(indeterminate: U16): (p: WhispherChatResPacket)
    ensures p.header == PacketHeader(WHISPER_RESPONSE, 0)
    ensures CStr(p.sender) == [] && CStr(p.message) == []
  {
    WhispherChatResPacket(NewHeader(WHISPER_RESPONSE), indeterminate, Zeros(33), Zeros(1025))
  }

  function WhispherChatResSetMessage(p: WhispherChatResPacket, user: CPtr, msg: CPtr): (r: Checked<WhispherChatResPacket>)
    ensures user.Null? || msg.Null? ==> r == Ok(p)
    ensures user.Str? && msg.Str? ==>
              (r.Ok? <==> |user.chars| <= MAX_USER_NAME && |msg.chars| <= MAX_CHAT_SIZE)
    ensures user.Str? && msg.Str? && r.Ok? ==>
              r.value.header.packetType == p.header.packetType && r.value.header.size as nat == WHISPER_RES_SIZE
              && r.value.result == p.result
              && CStr(r.value.sender) == user.chars && CStr(r.value.message) == msg.chars
  {
    if user.Null? || msg.Null? then Ok(p)
    else match (StrcpyS(p.sender, user), StrcpyS(p.message, msg))
      case (Ok(u), Ok(m)) =>
        StrcpySReadBack(p.sender, user.chars);
        StrcpySReadBack(p.message, msg.chars);
        Ok(p.(header := SetSize(p.header, WHISPER_RES_SIZE), sender := u, message := m))
      case _ => Violation
  }

  function SetWhisperResResult(p: WhispherChatResPacket, error: U16): (r: WhispherChatResPacket)
    ensures r.result == error && r.header == p.header && r.sender == p.sender && r.message == p.message
  {
    p.(result := error)
  }

  function DecodeWhispherChatRes(b: seq<Byte>): (p: WhispherChatResPacket)
    requires |b| >= WHISPER_RES_SIZE
  {
    WhispherChatResPacket(DecodeHeader(b), ReadLE16(b[4], b[5]), b[6..39], b[39..1064])
  }

  lemma WhispherChatResRoundTrip(p: WhispherChatResPacket)
    ensures DecodeWhispherChatRes(p.Encode()) == p
  {
    var b := p.Encode();
    HeaderRoundTrip(p.header, b[4..]);
    LE16RoundTrip(p.result);
    assert b == p.header.Encode() + b[4..];
    assert b[4] == LE16(p.result)[0] && b[5] == LE16(p.result)[1];
    assert b[6..39] == p.sender && b[39..1064] == p.message;
  }

  /** `UserJoinNotifyPacket` and `UserLeaveNotifyPacket` share one layout. */
  datatype NotifyPacket = NotifyPacket(header: PacketHeader, user: NameField)
  {
    /** The same layout as `CommonPacket.NotifyPacket.Encode`. */
    function Encode(): (r: seq<Byte>)
      ensures |r| == NOTIFY_SIZE
    {
      header.Encode() + user
    }
  }

  function NewUserJoinNotify(): (p: NotifyPacket)
    ensures p.header == PacketHeader(USER_JOIN_NOTIFY, 37) && p.header.size as nat == NOTIFY_SIZE
    ensures CStr(p.user) == []
  {
    NotifyPacket(SetSize(PacketHeader(USER_JOIN_NOTIFY, NOTIFY_SIZE), NOTIFY_SIZE), Zeros(33))
  }

  function NewUserLeaveNotify(): (p: NotifyPacket)
    ensures p.header == PacketHeader(USER_LEAVE_NOTIFY, 37) && p.header.size as nat == NOTIFY_SIZE
    ensures CStr(p.user) == []
  {
    NotifyPacket(SetSize(PacketHeader(USER_LEAVE_NOTIFY, NOTIFY_SIZE), NOTIFY_SIZE), Zeros(33))
  }

  /** `SetUser(name)` of both notifications: no guard at all. `Common/Packet.h`
      has the same setter (`CommonPacket.NotifySetUser`). */
  function NotifySetUser(p: NotifyPacket, name: CPtr): (r: Checked<NotifyPacket>)
    ensures r.Ok? <==> name.Str? && |name.chars| <= MAX_USER_NAME
    ensures r.Ok? ==> r.value.header == p.header && CStr(r.value.user) == name.chars
  {
    match StrcpyS(p.user, name)
    case Ok(u) =>
      StrcpySReadBack(p.user, name.chars);
      Ok(p.(user := u))
    case Violation => Violation
  }

  function DecodeNotify(b: seq<Byte>): (p: NotifyPacket)
    requires |b| >= NOTIFY_SIZE
  {
    NotifyPacket(DecodeHeader(b), b[4..37])
  }

  lemma NotifyRoundTrip(p: NotifyPacket)
    ensures DecodeNotify(p.Encode()) == p
  {
    var b := p.Encode();
    HeaderRoundTrip(p.header, b[4..]);
    assert b == p.header.Encode() + b[4..];
    assert b[4..37] == p.user;
  }

  /** Every packet whose constructor or setter calls `SetSize(sizeof(*this))`
      declares in its header exactly the number of bytes it encodes to. */
  lemma DeclaredSizesMatchEncodings(name: CString, msg: CString, indeterminate: U16)
    requires |name| <= MAX_USER_NAME && |msg| <= MAX_CHAT_SIZE
    ensures NewLoginReq().header.size as nat == |NewLoginReq().Encode()|
    ensures NewLoginRes(indeterminate).header.size as nat == |NewLoginRes(indeterminate).Encode()|
    ensures NewBroadCastRes().header.size as nat == |NewBroadCastRes().Encode()|
    ensures var w := WhispherChatReqSetMessage(NewWhispherChatReq(indeterminate), Str(name), Str(msg));
            w.Ok? && w.value.header.size as nat == |w.value.Encode()|
    ensures var w := WhispherChatResSetMessage(NewWhispherChatRes(indeterminate), Str(name), Str(msg));
            w.Ok? && w.value.header.size as nat == |w.value.Encode()|
    ensures NewUserJoinNotify().header.size as nat == |NewUserJoinNotify().Encode()|
  {
  }

  /** The broadcast request is the exception: it declares 0 bytes whatever
      message it carries. */
  lemma BroadCastReqNeverSized(msg: CPtr)
    ensures var r := BroadCastReqSetMessage(NewBroadCastReq(), msg);
            r.Ok? ==> r.value.header.size == 0 && |r.value.Encode()| == BROADCAST_REQ_SIZE
  {
  }
}

/** The other revision of the protocol, `Common/Packet.h`: the same header
    (with public fields), a two-field login request, a broadcast request
    that sizes itself, and a single whisper packet. Structs are values,
    constructors and setters are functions, as in `ServerPacket`. */
module CommonPacket {
  import opened Bytes

  const MAX_CHAT_SIZE: nat := 1024
  const MAX_USER_ID: nat := 32
  const MAX_USER_PW: nat := 32
  const MAX_USER_NAME: nat := 32

  // PacketType of this revision
  const LOGIN_REQUEST: U16 := 2001
  const LOGIN_RESPONSE: U16 := 2002
  const CHAT_MSG: U16 := 3000
  const BROADCAST_REQUEST: U16 := 3001
  const BROADCAST_RESPONSE: U16 := 3002
  const ROOM_CHAT_REQUEST: U16 := 3003
  const ROOM_CHAT_RESPONSE: U16 := 3004
  const WHISPER: U16 := 3005
  const USER_JOIN_NOTIFY: U16 := 5001
  const USER_LEAVE_NOTIFY: U16 := 5002

  // ErrorCode (the same numbering as the server revision)
  const SUCCESS: U16 := 0
  const INVALID_PACKET: U16 := 1001
  const AUTH_FAILED: U16 := 1002
  const LOGIN_USER_ALREADY: U16 := 1003
  const LOGIN_USER_FULL: U16 := 1004
  const USER_NOT_FOUND: U16 := 1005
  const PERMISSION_DENIED: U16 := 1009
  const SERVER_ERROR: U16 := 9999

  const HEADER_SIZE: nat := 4
  const LOGIN_REQ_SIZE: nat := HEADER_SIZE + 2 * (MAX_USER_ID + 1)
  const BROADCAST_REQ_SIZE: nat := HEADER_SIZE + MAX_CHAT_SIZE + 1
  const BROADCAST_RES_SIZE: nat := HEADER_SIZE + MAX_USER_NAME + 1 + MAX_CHAT_SIZE + 1
  const WHISPER_SIZE: nat := HEADER_SIZE + MAX_USER_NAME + 1 + MAX_CHAT_SIZE + 1
  const NOTIFY_SIZE: nat := HEADER_SIZE + MAX_USER_NAME + 1

  type NameField = s: seq<Byte> | |s| == 33 witness Zeros(33)
  type ChatField = s: seq<Byte> | |s| == 1025 witness Zeros(1025)

  datatype PacketHeader = PacketHeader(packetType: U16, size: U16)
  {
    function Encode(): (r: seq<Byte>)
      ensures |r| == HEADER_SIZE
      ensures r[..2] == LE16(packetType) && r[2..] == LE16(size)
    {
      LE16(packetType) + LE16(size)
    }
  }

  datatype LoginReqPacket = LoginReqPacket(header: PacketHeader, userId: NameField, password: NameField)
  {
    function Encode(): (r: seq<Byte>)
      ensures |r| == LOGIN_REQ_SIZE
    {
      header.Encode() + userId + password
    }
  }

  /** This revision's login request has no `username`, so it is 70 bytes. */
  function NewLoginReq(): (p: LoginReqPacket)
    ensures p.header == PacketHeader(LOGIN_REQUEST, 70)
    ensures p.header.size as nat == |p.Encode()|
    ensures CStr(p.userId) == [] && CStr(p.password) == []
  {
    LoginReqPacket(PacketHeader(LOGIN_REQUEST, LOGIN_REQ_SIZE), Zeros(33), Zeros(33))
  }

  /** `SetLoginInfo(user, pw)`: copies `user`, then copies `password` onto
      itself; `pw` is never read. */
  function SetLoginInfo(p: LoginReqPacket, user: CPtr, pw: CPtr): (r: Checked<LoginReqPacket>)
    ensures r.Ok? <==> user.Str? && |user.chars| <= MAX_USER_ID && |CStr(p.password)| <= MAX_USER_PW
    ensures r.Ok? ==> r.value.header == p.header && CStr(r.value.userId) == user.chars
                      && r.value.password == p.password
  {
    match (StrcpyS(p.userId, user), StrcpyS(p.password, Str(CStr(p.password))))
    case (Ok(u), Ok(w)) =>
      StrcpySReadBack(p.userId, user.chars);
      CStrSplit(p.password);
      assert w == p.password;
      Ok(p.(userId := u, password := w))
    case _ => Violation
  }

  /** The result of `SetLoginInfo` does not depend on `pw`: a fresh request
      keeps its empty password. */
  lemma SetLoginInfoIgnoresPassword(user: CString, pw1: CPtr, pw2: CPtr)
    requires |user| <= MAX_USER_ID
    ensures SetLoginInfo(NewLoginReq(), Str(user), pw1) == SetLoginInfo(NewLoginReq(), Str(user), pw2)
    ensures var r := SetLoginInfo(NewLoginReq(), Str(user), pw1);
            r.Ok? && CStr(r.value.password) == [] && CStr(r.value.userId) == user
  {
  }

  /** This revision's broadcast request sizes itself: 1029 bytes. */
  datatype BroadCastReqPacket = BroadCastReqPacket(header: PacketHeader, message: ChatField)
  {
    function Encode(): (r: seq<Byte>)
      ensures |r| == BROADCAST_REQ_SIZE
    {
      header.Encode() + message
    }
  }

  function NewBroadCastReq(): (p: BroadCastReqPacket)
    ensures p.header == PacketHeader(BROADCAST_REQUEST, 1029)
    ensures p.header.size as nat == |p.Encode()|
    ensures CStr(p.message) == []
  {
    BroadCastReqPacket(PacketHeader(BROADCAST_REQUEST, BROADCAST_REQ_SIZE), Zeros(1025))
  }

  function BroadCastReqSetMessage(p: BroadCastReqPacket, msg: CPtr): (r: Checked<BroadCastReqPacket>)
    ensures msg.Null? ==> r == Ok(p)
    ensures msg.Str? ==> (r.Ok? <==> |msg.chars| <= MAX_CHAT_SIZE)
    ensures r.Ok? ==> r.value.header == p.header
    ensures r.Ok? && msg.Str? ==> CStr(r.value.message) == msg.chars
  {
    if msg.Null? then Ok(p)
    else match StrcpyS(p.message, msg)
      case Ok(m) =>
        StrcpySReadBack(p.message, msg.chars);
        Ok(p.(message := m))
      case Violation => Violation
  }

  datatype BroadCastResPacket = BroadCastResPacket(header: PacketHeader, user: NameField, message: ChatField)
  {
    function Encode(): (r: seq<Byte>)
      ensures |r| == BROADCAST_RES_SIZE
    {
      header.Encode() + user + message
    }
  }

  function NewBroadCastRes(): (p: BroadCastResPacket)
    ensures p.header == PacketHeader(BROADCAST_RESPONSE, 1062)
    ensures p.header.size as nat == |p.Encode()|
    ensures CStr(p.user) == [] && CStr(p.message) == []
  {
    BroadCastResPacket(PacketHeader(BROADCAST_RESPONSE, BROADCAST_RES_SIZE), Zeros(33), Zeros(1025))
  }

  /** `SetMessage(name, msg)`: both fields, and only when neither is null. */
  function BroadCastResSetMessage(p: BroadCastResPacket, name: CPtr, msg: CPtr): (r: Checked<BroadCastResPacket>)
    ensures name.Null? || msg.Null? ==> r == Ok(p)
    ensures name.Str? && msg.Str? ==>
              (r.Ok? <==> |name.chars| <= MAX_USER_NAME && |msg.chars| <= MAX_CHAT_SIZE)
    ensures r.Ok? ==> r.value.header == p.header
    ensures name.Str? && msg.Str? && r.Ok? ==>
              CStr(r.value.user) == name.chars && CStr(r.value.message) == msg.chars
  {
    if name.Null? || msg.Null? then Ok(p)
    else match (StrcpyS(p.user, name), StrcpyS(p.message, msg))
      case (Ok(u), Ok(m)) =>
        StrcpySReadBack(p.user, name.chars);
        StrcpySReadBack(p.message, msg.chars);
        Ok(p.(user := u, message := m))
      case _ => Violation
  }

  /** `WhisperChatPacket`, type `WHISPER`: size 0 until `SetMessage`. */
  datatype WhisperChatPacket = WhisperChatPacket(header: PacketHeader, targetUser: NameField, message: ChatField)
  {
    function Encode(): (r: seq<Byte>)
      ensures |r| == WHISPER_SIZE
    {
      header.Encode() + targetUser + message
    }
  }

  function NewWhisperChat(): (p: WhisperChatPacket)
    ensures p.header == PacketHeader(WHISPER, 0)
    ensures CStr(p.targetUser) == [] && CStr(p.message) == []
  {
    WhisperChatPacket(PacketHeader(WHISPER, 0), Zeros(33), Zeros(1025))
  }

  function WhisperChatSetMessage(p: WhisperChatPacket, user: CPtr, msg: CPtr): (r: Checked<WhisperChatPacket>)
    ensures user.Null? || msg.Null? ==> r == Ok(p)
    ensures user.Str? && msg.Str? ==>
              (r.Ok? <==> |user.chars| <= MAX_USER_NAME && |msg.chars| <= MAX_CHAT_SIZE)
    ensures user.Str? && msg.Str? && r.Ok? ==>
              r.value.header == PacketHeader(p.header.packetType, 1062)
              && r.value.header.size as nat == |r.value.Encode()|
              && CStr(r.value.targetUser) == user.chars && CStr(r.value.message) == msg.chars
  {
    if user.Null? || msg.Null? then Ok(p)
    else match (StrcpyS(p.targetUser, user), StrcpyS(p.message, msg))
      case (Ok(u), Ok(m)) =>
        StrcpySReadBack(p.targetUser, user.chars);
        StrcpySReadBack(p.message, msg.chars);
        Ok(p.(header := p.header.(size := WHISPER_SIZE), targetUser := u, message := m))
      case _ => Violation
  }

  datatype NotifyPacket = NotifyPacket(header: PacketHeader, user: NameField)
  {
    function Encode(): (r: seq<Byte>)
      ensures |r| == NOTIFY_SIZE
    {
      header.Encode() + user
    }
  }

  function NewUserJoinNotify(): (p: NotifyPacket)
    ensures p.header == PacketHeader(USER_JOIN_NOTIFY, 37)
    ensures p.header.size as nat == |p.Encode()| && CStr(p.user) == []
  {
    NotifyPacket(PacketHeader(USER_JOIN_NOTIFY, NOTIFY_SIZE), Zeros(33))
  }

  function NewUserLeaveNotify(): (p: NotifyPacket)
    ensures p.header == PacketHeader(USER_LEAVE_NOTIFY, 37)
    ensures p.header.size as nat == |p.Encode()| && CStr(p.user) == []
  {
    NotifyPacket(PacketHeader(USER_LEAVE_NOTIFY, NOTIFY_SIZE), Zeros(33))
  }

  function NotifySetUser(p: NotifyPacket, name: CPtr): (r: Checked<NotifyPacket>)
    ensures r.Ok? <==> name.Str? && |name.chars| <= MAX_USER_NAME
    ensures r.Ok? ==> r.value.header == p.header && CStr(r.value.user) == name.chars
  {
    match StrcpyS(p.user, name)
    case Ok(u) =>
      StrcpySReadBack(p.user, name.chars);
      Ok(p.(user := u))
    case Violation => Violation
  }
}

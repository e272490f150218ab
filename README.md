# IOCP chat server — a verified model of its core

This project models the sequential bookkeeping of a Windows IOCP chat
server written in C++. The model covers:

- the receive `RingBuffer`;
- the per-connection `ClientSession` with its FIFO of outgoing packets and
  its single-flight `mIsSending` flag;
- the `SessionManager` pool, with its free-index stack, its name and id maps
  and its broadcast;
- the `PacketHandler` framing loop and the login, broadcast and whisper
  handlers;
- the two revisions of the packed packet structures (`IOCP_Server/Packet.h`
  and `Common/Packet.h`);
- one iteration of the worker and accepter loops of `IOCPServer`;
- the older single-class server in `IOCP_Server.h`.

The kernel becomes inputs. Each `WSASend` draws its immediate outcome from a
script held by `Os.Network`, which also logs every call. `accept`, the
completion-port bind, `WSARecv` and `GetQueuedCompletionStatus` are plain
parameters of the step methods.

One module per source file:

| module | file | source |
|---|---|---|
| `Bytes` | bytes.dfy | C-level values: bytes, `UINT16`/`UINT32` with wrap-around, little-endian fields, NUL-terminated `char` arrays, `strcpy_s` |
| `Os` | os.dfy | sockets and the scripted `WSASend` |
| `RingBuf` | ringbuf.dfy | `RingBuffer.h`, a class over an `array`, refined to a ghost `Contents` sequence |
| `ServerPacket` | serverpacket.dfy | `IOCP_Server/Packet.h`, as datatypes with encoders, decoders and setters |
| `CommonPacket` | commonpacket.dfy | `Common/Packet.h` |
| `Session` | session.dfy | `ClientSession.h` and `ClientSession.cpp`, a class |
| `Manager` | manager.dfy | `SessionManager.cpp`, a class owning the pool |
| `Framing` | framing.dfy | the pure specification of the framing loop: which frames a byte stream yields |
| `PacketHandling` | packethandling.dfy | `PacketHandler.cpp` |
| `Server` | server.dfy | `IOCPServer.cpp` |
| `Legacy` | legacy.dfy | `IOCP_Server.h` |

The repository is mid-refactor, and each file is modelled as written.

- **`IsFull`.** `RingBuffer::IsFull` compares against `dataSize - 1` in
  `size_t`. It is therefore true as soon as one byte is buffered. The model
  proves that, and states the evident intent separately as `IsFullIntended`.
- **`RegisterRecv`.** `RegisterRecv` calls `IsFull`, so it refuses a read
  whenever the ring holds anything.
- **The RECV branch.** The worker's RECV branch writes the bytes into the
  ring and then calls a two-argument `ProcessPacket` that has no definition
  anywhere in the sources. The model takes the number of bytes that call
  takes off the ring as an input (`consumed`). Because `RegisterRecv` refuses
  whenever the ring holds anything, any byte left in the ring after
  processing disconnects the session. The read is re-armed only when the ring
  is left empty, the socket is valid and `WSARecv` accepts
  (`Server.IOCPServer.OnRecv`).
- **`UnregisterSession`.** `UnregisterSession` resets the session before
  erasing its map entries. It therefore erases the key `""` and the id 0, and
  the session's real entries stay behind.
- **Accept failures.** A failed accept, bind or first read in `AccepterThread`
  never returns the popped slot index to the stack.
- **Old server, one packet per read.** `IOCP_Server.h` dispatches one packet
  per read and then sets `accumulatedSize = 0`. Every later frame in the same
  read is lost (`Legacy.TruncationDropsFrames`,
  `Legacy.TwoLoginsOneDispatched`).
- **Old server, send length.** The old server sends `GetSize()` bytes of each
  packet. Its not-found whisper reply never has its size set. That reply
  therefore goes out as an empty send (`Legacy.NotFoundResponseOnWire`).

## Model

| member | source | states |
|---|---|---|
| Bytes.AddU32 | IOCP_Server/IOCPServer.h:45 | `UINT32` increment as C++ does it: exact below 2^32, reduced by 2^32 at and above it |
| Bytes.StrcpyS | IOCP_Server/Packet.h:88-94 | `strcpy_s(dest, sizeof dest, src)` succeeds exactly when the source is non-null and shorter than the array; it then holds the characters and a NUL, with the bytes after the NUL unchanged |
| Bytes.StrcpySReadBack | IOCP_Server/Packet.h:88-94 | reading a field back up to its first NUL after a successful `strcpy_s` yields exactly the copied string |
| Bytes.CStr | IOCP_Server/PacketHandler.cpp:130 | reading a `char` array as a C string never yields more bytes than the array holds |
| Os.ScriptAfterAppend | IOCP_Server/ClientSession.cpp:114-121 | the script of `WSASend` outcomes left after two runs of calls is the one left after their concatenation |
| RingBuf.Memcpy | IOCP_Server/RingBuffer.h:45-49 | `memcpy` writes `n` bytes of the source at the given offset and leaves every other byte of the destination as it was |
| RingBuf.RingBuffer.constructor | IOCP_Server/RingBuffer.h:14-20 | the default buffer has capacity 8192, `head == tail == dataSize == 0` and no contents |
| RingBuf.RingBuffer.WithCapacity | IOCP_Server/RingBuffer.h:22-28 | a buffer of capacity `cap` starts empty with `head == tail == 0` |
| RingBuf.RingBuffer.GetFreeSize | IOCP_Server/RingBuffer.h:88 | the free size is capacity minus 1 minus the length of the contents |
| RingBuf.RingBuffer.GetDataSize | IOCP_Server/RingBuffer.h:89 | the data size is the length of the abstract contents |
| RingBuf.RingBuffer.IsEmpty | IOCP_Server/RingBuffer.h:90 | empty if and only if the contents are empty |
| RingBuf.RingBuffer.IsFull | IOCP_Server/RingBuffer.h:91 | as written in `size_t`: true if and only if at least one byte is held (contents non-empty) |
| RingBuf.RingBuffer.IsFullIntended | IOCP_Server/RingBuffer.h:88-91 | the intended test, for comparison with `IsFull`: true if and only if the contents fill capacity - 1 bytes |
| RingBuf.RingBuffer.Write | IOCP_Server/RingBuffer.h:34-55 | succeeds if and only if `len` fits the free size; then the data is appended to the contents and `tail` is kept. Otherwise nothing changes, down to the array bytes. The ring invariant (`dataSize <= capacity - 1`, `head == (tail + dataSize) % capacity`) is preserved either way |
| RingBuf.RingBuffer.CopyIn | IOCP_Server/RingBuffer.h:41-50 | the two-part copy puts byte `k` of the data at position `(head + k) % capacity` and does not disturb the bytes already held |
| RingBuf.RingBuffer.Peek | IOCP_Server/RingBuffer.h:57-75 | fails if and only if fewer than `len` bytes are held; otherwise returns exactly the first `len` bytes of the contents; never changes the buffer |
| RingBuf.RingBuffer.Consume | IOCP_Server/RingBuffer.h:77-86 | removes `min(len, dataSize)` bytes from the front of the contents, keeps `head`, and preserves the ring invariant |
| RingBuf.WriteThenPeek | IOCP_Server/RingBuffer.h:34-75 | round trip: `Write(d)` on a new buffer succeeds exactly when `d` is shorter than 8192 bytes, and `Peek(|d|)` then yields `d` |
| Session.Drain | IOCP_Server/ClientSession.cpp:88-129 | the recursive `ProcessSend` pops at most the whole queue and hands `WSASend` only queue positions |
| Session.DrainInOrder | IOCP_Server/ClientSession.cpp:88-129 | the packets `ProcessSend` hands to `WSASend` come in strictly increasing queue order. Each one fits the 2048-byte send buffer. The queue's new front, if there is one, is the last packet handed over, and it stays queued |
| Session.AfterSkip | IOCP_Server/ClientSession.cpp:100-105 | an oversized front packet is popped without a send, and processing continues with the rest |
| Session.AfterFailure | IOCP_Server/ClientSession.cpp:107-128 | a front packet whose `WSASend` fails immediately is sent once, popped, and processing continues with the rest |
| Session.AfterAccept | IOCP_Server/ClientSession.cpp:107-121 | a front packet whose `WSASend` is accepted is sent once and stays at the front; `ProcessSend` stops there |
| Session.DrainAllAccepted | IOCP_Server/ClientSession.cpp:88-129 | on a valid socket whose sends are accepted, `ProcessSend` pops exactly the oversized packets before the first one that fits, and sends that one |
| Session.ShiftedIncreasing | IOCP_Server/ClientSession.cpp:102-103 | renumbering the issued positions after a pop keeps them in increasing order |
| Session.CallsOfTail | IOCP_Server/ClientSession.cpp:102-103 | the sends made from the queue's tail are the sends from the whole queue with positions shifted by one |
| Session.ClientSession.constructor | IOCP_Server/ClientSession.cpp:5-18 | a new session has id 0, an invalid socket, `DISCONNECTING`, no username or token, an empty queue and `mIsSending` false. Its ring has capacity 4096 and is empty. Its temporary receive buffer and send buffer are zeroed. The accumulated size and `mRecvBuf`, which the constructor does not initialise, are left unconstrained |
| Session.ClientSession.ClearSendQueue | IOCP_Server/ClientSession.cpp:33-36 | the pop loop empties the queue and retires every queued packet |
| Session.ClientSession.Initialize | IOCP_Server/ClientSession.cpp:25-42 | the socket and id are set, the state is `CONNECTED`, `mIsSending` is false, the username and queue are empty, and both buffers are zeroed; the ring is not touched |
| Session.ClientSession.SetIdentity | IOCP_Server/ClientSession.cpp:27-31 | the socket, id and state are set, and the username is cleared |
| Session.ClientSession.ResetSend | IOCP_Server/ClientSession.cpp:30-41 | the send side ends idle with an empty queue, a zero length and a zeroed send buffer |
| Session.ClientSession.ResetRecv | IOCP_Server/ClientSession.cpp:38-40 | the receive overlapped structure is cleared and the temporary buffer zeroed |
| Session.ClientSession.Reset | IOCP_Server/ClientSession.cpp:44-66 | the socket is invalid, the id 0, the state `DISCONNECTING`, the username and token empty, the queue empty and `mIsSending` false. The ring and the receive buffers are not touched, so a second `Reset` changes nothing |
| Session.ClientSession.ProcessSend | IOCP_Server/ClientSession.cpp:88-129 | the new queue, script, call log, retired count and issued list are exactly `AfterProcessSend` of the old ones; the session invariant holds after it (`mIsSending` if and only if the queue is non-empty; `sendBuf` and `wsaBuf.len` hold the front while sending) |
| Session.ClientSession.SkipFront | IOCP_Server/ClientSession.cpp:100-105 | the oversized-front branch ends in the state `AfterProcessSend` predicts |
| Session.ClientSession.DropFailed | IOCP_Server/ClientSession.cpp:122-128 | the failed-send branch ends in the state `AfterProcessSend` predicts |
| Session.ClientSession.PopSendQueue | IOCP_Server/ClientSession.cpp:102 | one packet leaves the front of the queue and is counted as retired |
| Session.ClientSession.IssueFront | IOCP_Server/ClientSession.cpp:107-121 | the front packet is copied into `sendBuf`, `wsaBuf.len` is its length, and exactly one `WSASend` of it is logged on the session's socket; the queue keeps it |
| Session.ClientSession.SendPacket | IOCP_Server/ClientSession.cpp:68-86 | refused, changing nothing, exactly when the socket is invalid. Otherwise the packet is appended to the back of the queue; `ProcessSend` runs only when no send was in flight, and otherwise the send state is untouched. The `WSASend` calls it logs are exactly `Kickoff`: one of the packet when the socket is valid, nothing was in flight and the packet fits the send buffer, and none otherwise |
| Session.ClientSession.Enqueue | IOCP_Server/ClientSession.cpp:77-78 | the packet is appended at the back; the front is unchanged |
| Session.ClientSession.OnSendCompleted | IOCP_Server/ClientSession.cpp:131-141 | the front is popped if there is one, and then the state is what `ProcessSend` leaves, so packets go out in enqueue order |
| Session.ClientSession.RegisterRecv | IOCP_Server/ClientSession.cpp:143-179 | succeeds if and only if the socket is valid, `IsFull` is false (the ring is empty) and `WSARecv` accepts; whenever it gets that far, a 2048-byte `RECV` read is armed into `mTempRecvBuf` |
| Session.ClientSession.SetState | IOCP_Server/ClientSession.h:54 | the state is set, and only that field changes |
| Session.ClientSession.SetUsername | IOCP_Server/ClientSession.h:55 | the username is set, and only that field changes |
| Session.ClientSession.AddAccumulatedSize | IOCP_Server/ClientSession.h:56 | adds in `DWORD` arithmetic (wrapping), checking no bound |
| Session.ClientSession.SetAccumulatedSize | IOCP_Server/ClientSession.h:57 | assigns, checking no bound |
| Session.ClientSession.ResetAccumulatedSize | IOCP_Server/ClientSession.h:58 | the accumulated size becomes 0 |
| Session.ClientSession.IsValid | IOCP_Server/ClientSession.h:60 | true exactly when the session holds an open socket handle |
| Session.ClientSession.IsAuthenticated | IOCP_Server/ClientSession.h:61 | true exactly when the session is neither merely connected nor being torn down, that is, when it has logged in |
| Session.FillZero | IOCP_Server/ClientSession.cpp:14-15 | `ZeroMemory` leaves every byte of the array 0 |
| Manager.Iota | IOCP_Server/SessionManager.cpp:11-15 | the pushed indexes are 0, 1, …, n - 1 in push order |
| Manager.NewSlot | IOCP_Server/SessionManager.cpp:13 | each `emplace_back` yields a new, idle session |
| Manager.BuildPool | IOCP_Server/SessionManager.cpp:9-15 | the loop builds `n` distinct idle sessions and a free stack holding 0..n-1, with n-1 on top |
| Manager.SessionManager.constructor | IOCP_Server/SessionManager.cpp:5-16 | the pool has `n` idle slots, the free stack is 0..n-1 with n-1 on top, both maps are empty and the count is 0 |
| Manager.SessionManager.GetEmptySession | IOCP_Server/SessionManager.cpp:20-35 | null if and only if the stack is empty; otherwise pops the top index and returns that slot |
| Manager.SessionManager.FindSessionByName | IOCP_Server/SessionManager.cpp:37-52 | found if and only if the name and its id are both mapped; the result is the id lookup of the mapped id, with no validity check |
| Manager.SessionManager.FindSessionById | IOCP_Server/SessionManager.cpp:54-62 | found if and only if the id is mapped; the result is a pool slot |
| Manager.SessionManager.RegisterSession | IOCP_Server/SessionManager.cpp:64-71 | both maps are insert-or-assigned for the session's current name and id, so re-registering a name overwrites it. The count grows by one. Both lookups then find the session |
| Manager.SessionManager.UnregisterSession | IOCP_Server/SessionManager.cpp:73-85 | the session is reset (invalid socket, id 0, `DISCONNECTING`, username and token empty, queue empty, not sending) and its index is pushed back. Because `Reset` runs first, only the key `""` and the id 0 are erased, and the session's real entries remain. The count drops by one whether or not the session was registered. No other field of the session and no other slot changes |
| Manager.SessionManager.Release | IOCP_Server/SessionManager.cpp:79 | the slot index is pushed on top of the free stack |
| Manager.SessionManager.Forget | IOCP_Server/SessionManager.cpp:81-84 | exactly the given name and id are erased and the count drops by one |
| Manager.SessionManager.BroadcastPacket | IOCP_Server/SessionManager.cpp:87-98 | every slot keeps its socket, id, username, state, token and accumulated size. Each slot with a valid socket other than the excluded one gets the packet appended to its send history, whether or not it is authenticated; every other slot's history is unchanged. The `WSASend` calls logged are each slot's `Kickoff` in slot order (`BroadcastCalls`), and the script advances by exactly those calls |
| Manager.SessionManager.VisitSlot | IOCP_Server/SessionManager.cpp:93-96 | one iteration of the loop: slot `i` is taken from its snapshot to its delivered state and its kickoff is appended to the call log; the slots not yet visited still match their snapshots |
| Manager.SessionManager.SendTo | IOCP_Server/SessionManager.cpp:95 | `SendPacket` into a pooled session: accepted exactly when the socket is valid, and then appended to its history. Its socket, id, username, state, token and accumulated size are unchanged, and the calls logged are its `Kickoff` |
| Manager.IssueNext | IOCP_Server/SessionManager.cpp:91-97 | appending slot `i`'s kickoff to the calls of slots `0..i` gives the calls of slots `0..i+1`, and the script left after them is the same either way |
| Manager.BroadcastCallsReach | IOCP_Server/SessionManager.cpp:91-97 | a broadcast starts a `WSASend` on a socket if and only if some slot other than the excluded one holds that valid socket with no send in flight and the packet fits the 2048-byte send buffer; every call it starts carries the packet |
| Manager.SessionManager.Authenticate | IOCP_Server/PacketHandler.cpp:88-89 | the session becomes `AUTHENTICATED` under the given name |
| Manager.SessionManager.AddAccumulated | IOCP_Server/PacketHandler.cpp:8 | the accumulated size of a pooled session grows by `dataSize` in `DWORD` arithmetic |
| Manager.SessionManager.SetAccumulated | IOCP_Server/PacketHandler.cpp:69 | the accumulated size of a pooled session is set |
| Manager.SessionManager.InitializeSession | IOCP_Server/IOCPServer.cpp:208 | `Initialize` on a pooled session: socket and id set, `CONNECTED`, nothing queued, not sending |
| Manager.SessionManager.ResetSession | IOCP_Server/IOCPServer.cpp:160 | `Reset` on a pooled session: invalid socket, id 0, `DISCONNECTING`, nothing queued |
| Manager.SessionManager.RegisterRecvOn | IOCP_Server/IOCPServer.cpp:173 | `RegisterRecv` on a pooled session succeeds if and only if the socket is valid, the ring is empty and the read is accepted |
| Manager.SessionManager.WriteReceived | IOCP_Server/IOCPServer.cpp:169 | `transferred` bytes of `mTempRecvBuf` are appended to the ring when they fit in its 4095 free bytes, and dropped otherwise |
| Manager.SessionManager.ConsumeReceived | IOCP_Server/IOCPServer.cpp:171 | the bytes the two-argument `ProcessPacket` takes from the ring: the first `consumed` bytes, or all of them, leave the front of the contents |
| Manager.SessionManager.SendCompleted | IOCP_Server/IOCPServer.cpp:182 | `OnSendCompleted` on a pooled session: the next send state is `AfterProcessSend` of the popped state |
| Manager.AcquireAll | IOCP_Server/SessionManager.cpp:5-35 | on a new pool of `n` slots, `n` calls of `GetEmptySession` return slots n-1, …, 0 and the next returns null |
| Manager.AcquireUntilEmpty | IOCP_Server/SessionManager.cpp:20-35 | from a full stack, acquiring until null yields every slot in top-down order and leaves the stack empty |
| ServerPacket.StructSizes | IOCP_Server/Packet.h:59-268 | the packed sizes: login request 103, login response 6, broadcast request 1029, broadcast response 1062, whisper request and response 1064, notify 37 |
| ServerPacket.NewHeader | IOCP_Server/Packet.h:67 | the one-argument header constructor keeps the type and sets the size to 0 |
| ServerPacket.SetSize | IOCP_Server/Packet.h:69 | only the size changes |
| ServerPacket.HeaderRoundTrip | IOCP_Server/Packet.h:59-72 | the packed header, `type` then `size` as little-endian u16, is read back from the front of any stream that starts with it |
| ServerPacket.NewLoginReq | IOCP_Server/Packet.h:80-86 | type `LOGIN_REQUEST`, size 103, three empty zeroed fields |
| ServerPacket.SetLoginInfo | IOCP_Server/Packet.h:88-94 | succeeds if and only if all three strings are non-null and fit (32 characters each); the header is kept |
| ServerPacket.SetLoginInfoReadBack | IOCP_Server/Packet.h:80-94 | after `SetLoginInfo` on a new request, each field reads back as its argument and the size is still 103 |
| ServerPacket.LoginReqRoundTrip | IOCP_Server/Packet.h:74-95 | decoding the encoding of a login request gives it back, and re-encoding the decoded front of a stream gives that front |
| ServerPacket.NewLoginRes | IOCP_Server/Packet.h:101-104 | type `LOGIN_RESPONSE`, size 6 |
| ServerPacket.LoginResRoundTrip | IOCP_Server/Packet.h:97-105 | decoding the encoding of a login response gives it back |
| ServerPacket.NewBroadCastReq | IOCP_Server/Packet.h:111-114 | type `BROADCAST_REQUEST`, size 0, empty message |
| ServerPacket.BroadCastReqSetMessage | IOCP_Server/Packet.h:116-120 | a null message changes nothing; otherwise it succeeds if and only if the message fits 1024 characters and reads back as given; the header is kept |
| ServerPacket.BroadCastReqRoundTrip | IOCP_Server/Packet.h:107-121 | decoding the encoding of a broadcast request gives it back |
| ServerPacket.BroadCastReqNeverSized | IOCP_Server/Packet.h:107-121 | a broadcast request's declared size stays 0 after `SetMessage`, although it occupies 1029 bytes |
| ServerPacket.NewBroadCastRes | IOCP_Server/Packet.h:129-134 | type `BROADCAST_RESPONSE`, size 1062, empty fields |
| ServerPacket.BroadCastResSetUser | IOCP_Server/Packet.h:136-140 | the guard tests the field, not the argument, so a null name is a `strcpy_s` violation; otherwise it succeeds if and only if the name fits, and only `user` changes |
| ServerPacket.BroadCastResSetMessage | IOCP_Server/Packet.h:142-146 | a null message changes nothing; otherwise it succeeds if and only if the message fits, and only `message` changes |
| ServerPacket.BroadCastResRoundTrip | IOCP_Server/Packet.h:123-147 | decoding the encoding of a broadcast response gives it back |
| ServerPacket.NewWhispherChatReq | IOCP_Server/Packet.h:195-199 | type `WHISPER_REQUEST`, size 0, empty fields |
| ServerPacket.WhispherChatReqSetMessage | IOCP_Server/Packet.h:201-208 | does nothing when either argument is null; otherwise succeeds if and only if both fit, and then sets the receiver, the message and size 1064 |
| ServerPacket.SetWhisperReqResult | IOCP_Server/Packet.h:210 | only `result` changes |
| ServerPacket.WhispherChatReqRoundTrip | IOCP_Server/Packet.h:189-213 | decoding the encoding of a whisper request gives it back |
| ServerPacket.NewWhispherChatRes | IOCP_Server/Packet.h:221-225 | type `WHISPER_RESPONSE`, size 0, empty fields |
| ServerPacket.WhispherChatResSetMessage | IOCP_Server/Packet.h:227-234 | does nothing when either argument is null; otherwise succeeds if and only if both fit, and then sets the sender, the message and size 1064 |
| ServerPacket.SetWhisperResResult | IOCP_Server/Packet.h:236 | only `result` changes |
| ServerPacket.WhispherChatResRoundTrip | IOCP_Server/Packet.h:215-238 | decoding the encoding of a whisper response gives it back |
| ServerPacket.NewUserJoinNotify | IOCP_Server/Packet.h:240-247 | type `USER_JOIN_NOTIFY`, size 37, empty user |
| ServerPacket.NewUserLeaveNotify | IOCP_Server/Packet.h:255-262 | type `USER_LEAVE_NOTIFY`, size 37, empty user |
| ServerPacket.NotifySetUser | IOCP_Server/Packet.h:249-252 | succeeds if and only if the name is non-null and fits; only `user` changes, and it reads back as the name |
| ServerPacket.NotifyRoundTrip | IOCP_Server/Packet.h:240-268 | decoding the encoding of a notify packet gives it back |
| ServerPacket.DeclaredSizesMatchEncodings | IOCP_Server/Packet.h:80-247 | every packet whose constructor or setter calls `SetSize(sizeof(*this))` declares exactly its encoded length |
| CommonPacket.NewLoginReq | Common/Packet.h:73-78 | type `LOGIN_REQUEST`, size 70 (two 33-byte fields), equal to the encoded length |
| CommonPacket.SetLoginInfo | Common/Packet.h:80-85 | `user` is copied into `userId`; the password argument is never read, and `password` is copied onto itself (so it succeeds only when the stored password fits) |
| CommonPacket.SetLoginInfoIgnoresPassword | Common/Packet.h:80-85 | the result does not depend on the password argument, and on a new request the password stays empty |
| CommonPacket.NewBroadCastReq | Common/Packet.h:103-107 | this revision sets size 1029, equal to the encoded length |
| CommonPacket.BroadCastReqSetMessage | Common/Packet.h:109-113 | a null message changes nothing; otherwise it succeeds if and only if the message fits and reads back as given |
| CommonPacket.NewBroadCastRes | Common/Packet.h:122-127 | type `BROADCAST_RESPONSE`, size 1062 equal to the encoded length, empty fields |
| CommonPacket.BroadCastResSetMessage | Common/Packet.h:129-134 | writes both fields only when both arguments are non-null; succeeds if and only if both fit; the header is kept |
| CommonPacket.NewWhisperChat | Common/Packet.h:182-186 | type `WHISPER` (3005), size 0, empty fields |
| CommonPacket.WhisperChatSetMessage | Common/Packet.h:188-195 | does nothing when either argument is null; otherwise succeeds if and only if both fit, setting the target, the message and size 1062 (its encoded length) |
| CommonPacket.NewUserJoinNotify | Common/Packet.h:198-205 | type `USER_JOIN_NOTIFY`, size 37 equal to the encoded length, empty user |
| CommonPacket.NewUserLeaveNotify | Common/Packet.h:213-220 | type `USER_LEAVE_NOTIFY`, size 37 equal to the encoded length, empty user |
| CommonPacket.NotifySetUser | Common/Packet.h:207-210 | succeeds if and only if the name is non-null and fits; reads back as the name |
| Framing.SplitCovers | IOCP_Server/PacketHandler.cpp:10-70 | the frames the loop cuts, followed by what it leaves, are exactly the buffered bytes, in order |
| Framing.SplitFrames | IOCP_Server/PacketHandler.cpp:23-29 | every frame is non-empty, and each one long enough to have a header declares its own length |
| Framing.SplitRest | IOCP_Server/PacketHandler.cpp:16-29 | when the loop ends normally, what is left lacks a header or lacks the body it declares; when it cannot progress, what is left starts with a header declaring size 0 |
| Framing.SplitStep | IOCP_Server/PacketHandler.cpp:61-69 | with a whole packet of non-zero size at the front, the loop cuts exactly that packet and continues on the rest |
| Framing.SplitOfFramed | IOCP_Server/PacketHandler.cpp:10-70 | round trip: well-framed packets followed by an incomplete tail are cut back into exactly those packets and that tail |
| Framing.SplitAppend | IOCP_Server/PacketHandler.cpp:8-70 | cutting `a + b` gives `a`'s frames followed by the frames of `a`'s leftover plus `b`, so frames are found the same however the reads split the stream |
| PacketHandling.CheckUserCredentials | IOCP_Server/PacketHandler.cpp:151-154 | every login is accepted |
| PacketHandling.LoginResponseReadsBack | IOCP_Server/PacketHandler.cpp:84-101 | the login reply is a 6-byte `LOGIN_RESPONSE` with result `SUCCESS` |
| PacketHandling.BroadcastResponse | IOCP_Server/PacketHandler.cpp:114-116 | building the reply succeeds if and only if the username and message fit their fields; the reply is 1062 bytes |
| PacketHandling.BroadcastResponseReadsBack | IOCP_Server/PacketHandler.cpp:114-116 | the reply declares 1062 bytes and carries the sender's name and the message |
| PacketHandling.WhisperResponse | IOCP_Server/PacketHandler.cpp:138-139 | building the reply succeeds if and only if the sender name and message fit; the reply is 1064 bytes |
| PacketHandling.WhisperResponseReadsBack | IOCP_Server/PacketHandler.cpp:138-139 | the reply declares 1064 bytes, says `SUCCESS`, and carries the sender's name and the message |
| PacketHandling.Snprintf | IOCP_Server/PacketHandler.cpp:145-146 | `snprintf` into a field leaves the text, truncated to the field length minus one, as the field's C string |
| PacketHandling.NotFoundText | IOCP_Server/PacketHandler.cpp:146 | the text is "User '" + receiver + "' not found", 17 characters longer than the name |
| PacketHandling.NotFoundResponse | IOCP_Server/PacketHandler.cpp:144-147 | the not-found reply is a 1064-byte struct |
| PacketHandling.NotFoundResponseReadsBack | IOCP_Server/PacketHandler.cpp:134-147 | the reply says `USER_NOT_FOUND`, names no sender, carries the whole text, and declares size 0 because `SetMessage` never runs |
| PacketHandling.HandleLogin | IOCP_Server/PacketHandler.cpp:73-102 | `LoginHandled`: a frame that is not 103 bytes changes nothing. Otherwise the session becomes `AUTHENTICATED` under the request's username, keeps its socket, id, token and accumulated size, and is registered (both maps set, count plus one). The `SUCCESS` reply joins its history exactly when its socket is valid, and the network's log gains exactly the `WSASend` that `SendPacket` starts for it (`Kickoff`) |
| PacketHandling.LogIn | IOCP_Server/PacketHandler.cpp:86-101 | `LoggedIn`, the success path: state, name, registration, the reply in the history, and on the network exactly the `Kickoff` of that reply from the socket and send flag the session had; the rest of the session's identity kept |
| PacketHandling.HandleBroadcast | IOCP_Server/PacketHandler.cpp:104-119 | `BroadcastHandled`: a frame that is not 1029 bytes changes nothing. A name or message too long is the `strcpy_s` abort, with nothing changed. Otherwise the reply, built from the sender's name and the request's message, has `BroadcastPacket`'s effect: every valid slot other than the sender is sent it, no slot's identity changes, and the sends go out in slot order |
| PacketHandling.HandleWhispher | IOCP_Server/PacketHandler.cpp:121-149 | `WhisperHandled`: a frame that is not 1064 bytes changes nothing. When the receiver's name is registered, only that session is sent the `SUCCESS` reply (or the process aborts on a field overflow, changing nothing). Otherwise only the sender is sent the `USER_NOT_FOUND` reply. The recipient keeps its identity, every other slot and send buffer is unchanged, and the one send started is the recipient's `Kickoff` |
| PacketHandling.Whisper | IOCP_Server/PacketHandler.cpp:129-148 | `WhisperReplied`: the same, once the size check has passed |
| PacketHandling.Reply | IOCP_Server/PacketHandler.cpp:140-147 | `Whispered`: one `SendPacket` on the recipient, which keeps its identity; no other slot changes |
| PacketHandling.Dispatch | IOCP_Server/PacketHandler.cpp:31-59 | `Dispatched`: logins are always handled, with `HandleLogin`'s effect (`LoginHandled`). A broadcast or whisper from an authenticated session has the handler's effect (`BroadcastHandled`, `WhisperHandled`) and leaves the manager's maps and count alone. Other types and unauthenticated requests change nothing, and only a broadcast or whisper of a non-empty frame can abort. The network's log gains exactly `SwitchCalls` of the pre-state: the sends the selected handler makes |
| PacketHandling.Memmove | IOCP_Server/PacketHandler.cpp:64-66 | the `n` bytes at `from` move to the front, even when the ranges overlap; the rest of the buffer is unchanged |
| PacketHandling.ProcessPacket | IOCP_Server/PacketHandler.cpp:6-71 | unless a handler aborts, the packets dispatched are exactly `Split`'s frames of the accumulated bytes, in stream order. The buffer is left holding exactly `Split`'s remainder, and the loop fails to terminate exactly when `Split` reports a size-0 header. An abort happens after a non-empty prefix of those frames. The network's log is only extended |
| PacketHandling.Drain | IOCP_Server/PacketHandler.cpp:10-70 | the loop itself, with the same guarantee |
| PacketHandling.LoopKeeps | IOCP_Server/PacketHandler.cpp:10-70 | dispatching one more frame keeps the loop invariant |
| PacketHandling.LoopAborts | IOCP_Server/PacketHandler.cpp:10-70 | frames dispatched up to an abort are a prefix of the specification's frames |
| PacketHandling.LoopStops | IOCP_Server/PacketHandler.cpp:16-29 | when no frame is left, the frames dispatched are all of them |
| PacketHandling.Turn | IOCP_Server/PacketHandler.cpp:12-69 | one turn either stops on an incomplete header or body, leaving the buffer and the network as they were, or hands the next specified frame to the `switch`. An aborting turn has the `switch`'s effect (`Dispatched`) on that frame; any other cuts the frame and shrinks the buffer. Every turn that dispatches adds exactly the `switch`'s sends (`SwitchCalls`) to the network's log, and a size-0 header hands on the empty frame |
| PacketHandling.Consume | IOCP_Server/PacketHandler.cpp:31-69 | the complete packet at the front is dispatched, with the `switch`'s sends (`SwitchCalls`) and, on abort, its whole effect (`Dispatched`); then it is removed, or the turn stops on a size-0 header, having handed on the empty frame |
| PacketHandling.Finish | IOCP_Server/PacketHandler.cpp:61-69 | removing the front packet leaves the remainder whose frames are the rest of the specification's frames; a size-0 packet removes nothing |
| PacketHandling.DispatchFront | IOCP_Server/PacketHandler.cpp:31-59 | the packet type read from the header and the frame of `size` bytes go to the `switch`, with its whole effect (`Dispatched`) and exactly its sends (`SwitchCalls`); the receive buffer is not touched, and a size-0 packet never aborts |
| PacketHandling.Advance | IOCP_Server/PacketHandler.cpp:61-69 | the remainder moves to the front and the accumulated size becomes `current - size` |
| Server.NextId | IOCP_Server/IOCPServer.cpp:7 | the counter after `n + 1` ids is the wrap-around successor of the counter after `n` |
| Server.IOCPServer.constructor | IOCP_Server/IOCPServer.cpp:3-11 | the counter starts at 1; the manager `StartServer` creates has `n` idle slots, a full free stack and no sessions |
| Server.IOCPServer.GenerateSessionId | IOCP_Server/IOCPServer.h:45 | returns the counter and increments it, so the `k`-th id is `k + 1` modulo 2^32 |
| Server.IOCPServer.WorkerStep | IOCP_Server/IOCPServer.cpp:138-185 | a failed or empty completion on a valid session unregisters and resets it, and on a null or invalid key changes nothing. A `RECV` has `OnRecv`'s effect (`RecvHandled`). A `SEND` does exactly `OnSendCompleted`. No slot other than the key's changes |
| Server.IOCPServer.OnCompleted | IOCP_Server/IOCPServer.cpp:165-183 | the dispatch on the completed operation: `RECV` as `OnRecv`, `SEND` as `OnSendCompleted`; no other slot changes |
| Server.IOCPServer.OnFailure | IOCP_Server/IOCPServer.cpp:154-163 | the disconnect happens if and only if the key is a valid session |
| Server.IOCPServer.Disconnect | IOCP_Server/IOCPServer.cpp:159-160 | `UnregisterSession` then `Reset`: the slot is freed, the count drops, only `""` and 0 leave the maps |
| Server.IOCPServer.OnRecv | IOCP_Server/IOCPServer.cpp:167-179 | `RecvHandled`: the transferred bytes are appended to the ring when they fit and dropped otherwise, and then the first `consumed` bytes leave it. The read is re-armed, with the manager and the session's identity unchanged, if and only if the ring is then empty, the socket is valid and `WSARecv` accepts. In every other case, so whenever a byte is left in the ring, the session is unregistered and reset |
| Server.IOCPServer.AcceptStep | IOCP_Server/IOCPServer.cpp:192-227 | with no free slot, nothing changes and the loop goes on. Otherwise the top index is popped and never pushed back. A failed accept leaves the slot untouched; a bind or read failure leaves it reset; only an accepted connection holds the socket, the next id, `CONNECTED` and an empty queue. The maps never change, and no slot other than the popped one changes |
| Server.IOCPServer.Arm | IOCP_Server/IOCPServer.cpp:208-220 | `Initialize`, then the bind, then `RegisterRecv`; any failure resets the slot; no other slot changes |
| Legacy.ClientInfo.constructor | IOCP_Server/IOCP_Server.h:41-71 | a slot starts with no socket, id 0, `DISCONNECTING`, nothing held and a zeroed buffer |
| Legacy.CreateClient | IOCP_Server/IOCP_Server.h:105-111 | `n` distinct new idle slots |
| Legacy.Peers | IOCP_Server/IOCP_Server.h:302-311 | the socket and id of each slot, in slot order |
| Legacy.BroadcastReachesOthers | IOCP_Server/IOCP_Server.h:298-314 | a send goes to a socket if and only if some slot with a different id holds it and the socket is valid; every send carries the packet |
| Legacy.BroadcastStep | IOCP_Server/IOCP_Server.h:302-311 | one more slot visited adds at most its own send |
| Legacy.TruncationDropsFrames | IOCP_Server/IOCP_Server.h:425-483 | the old server dispatches the first frame the new framing loop would cut; the bytes it throws away are exactly the loop's other frames and its remainder |
| Legacy.TwoLoginsOneDispatched | IOCP_Server/IOCP_Server.h:425-483 | two login requests in one read: the framing loop finds two frames, and the old server dispatches only the first |
| Legacy.WholeOnWire | IOCP_Server/IOCP_Server.h:230-236 | a packet that declares its own length is sent whole |
| Legacy.LoginResponseOnWire | IOCP_Server/IOCP_Server.h:227-252 | the login reply goes out whole |
| Legacy.BroadcastResponseOnWire | IOCP_Server/IOCP_Server.h:227-252 | the broadcast reply goes out whole |
| Legacy.WhisperResponseOnWire | IOCP_Server/IOCP_Server.h:227-252 | the whisper reply goes out whole |
| Legacy.NotFoundResponseOnWire | IOCP_Server/IOCP_Server.h:227-252 | the not-found reply declares 0 bytes, so its send is empty |
| Legacy.LegacyServer.constructor | IOCP_Server/IOCP_Server.h:639-644 | the counter starts at 1, there are no connections and no map entries, and `StartServer`'s `CreateClient` makes `n` idle slots |
| Legacy.LegacyServer.GenerateSessionId | IOCP_Server/IOCP_Server.h:97-99 | post-increment of the `UINT32` counter: the `k`-th id is `k + 1` modulo 2^32 |
| Legacy.LegacyServer.GetEmptyClientInfo | IOCP_Server/IOCP_Server.h:137-147 | null if and only if every slot has a socket; otherwise the first slot without one |
| Legacy.LegacyServer.FindSessionByName | IOCP_Server/IOCP_Server.h:149-173 | found if and only if the name is mapped, its id is mapped, and that session's socket is valid |
| Legacy.LegacyServer.SendPacket | IOCP_Server/IOCP_Server.h:227-252 | exactly one `WSASend`, of the first `GetSize()` bytes, on the client's socket; the result is the send's immediate outcome |
| Legacy.LegacyServer.ReceivePacket | IOCP_Server/IOCP_Server.h:259-291 | refused, with nothing changed, when 2048 bytes are held. Otherwise a `RECV` read is armed at offset `accumulatedSize` for the rest of the buffer, and it succeeds exactly when the socket is valid and `WSARecv` accepts |
| Legacy.LegacyServer.BroadCastPacket | IOCP_Server/IOCP_Server.h:298-314 | the sends made are exactly `BroadcastCalls` over the slots: one to each valid slot with a different id, in slot order, each of the packet's declared bytes |
| Legacy.LegacyServer.HandleLogin | IOCP_Server/IOCP_Server.h:321-367 | a frame that is not 103 bytes changes nothing. Otherwise the client becomes `AUTHENTICATED` under the request's username, and both maps are insert-or-assigned. One `SUCCESS` reply is sent, whatever the socket, and the connection count is kept. The name then finds the client exactly when its socket is valid |
| Legacy.LegacyServer.HandleBroadCast | IOCP_Server/IOCP_Server.h:374-388 | `BroadCastHandled` (`BroadcastOutcome` over the slots): a frame that is not 1029 bytes sends nothing; a field overflow aborts before any send; otherwise the reply is sent to every other connected slot, in slot order (`BroadcastCalls`) |
| Legacy.LegacyServer.HandleWhispher | IOCP_Server/IOCP_Server.h:395-423 | `WhispherHandled` (`WhisperOutcome` for the receiver the registry finds): a frame that is not 1064 bytes sends nothing. A live receiver is sent the reply in one `WSASend` (or the process aborts on a field overflow). Otherwise the sender gets a zero-byte send |
| Legacy.LegacyServer.Dispatch | IOCP_Server/IOCP_Server.h:444-479 | `Served`: logins always, with `HandleLogin`'s effect: the new state, name and map entries and one `SUCCESS` send, or nothing for a frame of the wrong size. Broadcasts and whispers from an authenticated client have the handler's effect (`BroadCastHandled`, `WhispherHandled`), and only they can abort. Other types change nothing |
| Legacy.LegacyServer.ProcessPacket | IOCP_Server/IOCP_Server.h:425-483 | waits, holding the bytes, exactly while the header or body is incomplete. Otherwise it dispatches the one packet at the front, with the `switch`'s whole effect (`Served`): the login's state, name, map entries and `SUCCESS` send; the broadcast's or whisper's sends; for every other packet, both maps and the client's state and name kept; and for an ignored type, an unauthenticated request or a login of the wrong size, nothing sent and no abort. Unless the process aborts, it then empties the buffer whatever followed |
| Legacy.LegacyServer.CloseSession | IOCP_Server/IOCP_Server.h:572-581 | no socket, `DISCONNECTING`, id 0, nothing held, one connection fewer; the maps keep their entries, but no name finds the slot any more |
| Legacy.LegacyServer.WorkerStep | IOCP_Server/IOCP_Server.h:485-526 | a failed or empty completion closes a valid key's session and otherwise changes nothing; `RECV` processes and re-arms; `SEND` changes nothing |
| Legacy.LegacyServer.OnRecv | IOCP_Server/IOCP_Server.h:514-520 | `ProcessPacket` and then `ReceivePacket`: after a dispatch the read is re-armed on the whole buffer; while waiting it is re-armed after the held bytes |
| Legacy.LegacyServer.AcceptStep | IOCP_Server/IOCP_Server.h:533-569 | with every slot taken, nothing changes and the thread ends. Otherwise the first free slot takes the accepted socket. It gets a new id and `CONNECTED` when the socket is valid. It is counted only when the bind and the first read both succeed |
| Legacy.LegacyServer.Occupy | IOCP_Server/IOCP_Server.h:542-568 | the rest of the pass once the slot is found |
| Legacy.LegacyServer.Arm | IOCP_Server/IOCP_Server.h:552-568 | the bind, then the first read, then the count |

## Left out

- **Winsock and the completion port.** `WSASend`, `WSARecv`, `accept`,
  `CreateIoCompletionPort`, `GetQueuedCompletionStatus`, `shutdown` and
  `closesocket` are outside the model. Their outcomes are inputs, and only
  the valid/invalid distinction of a socket is kept.
- **The kernel's write into `mTempRecvBuf`.** This is not modelled: the
  completion's bytes are whatever the buffer holds.
- **Threads, SRW locks and critical sections.** Each registry and session
  operation is treated as atomic, and the worker and accepter loops are
  modelled one iteration at a time.
- **Other files.** `RedisManager.h`, the client programs, `Main.cpp` and all
  console output are not part of this model.
- **Room packets** (room chat, list, create, join, leave) are unfinished in
  both packet headers and are not modelled.
- **`LoginResPacket` of `Common/Packet.h`.** It holds a `std::string`, so its
  bytes are not a wire format.
- **The two-argument `PacketHandler::ProcessPacket`.** The worker calls it,
  but it is declared with no definition. The model keeps only how many bytes
  it takes off the ring, as the input `consumed` of the RECV branch. Any
  packets it would dispatch, and their effects, are not modelled.
- **Declaration/definition mismatches.** The headers name `SendPacekt` and
  `FindSessionByLoginId`, and `PacketHandler.cpp` names packet structs
  (`BroadcastReqPacket`, `WhisperChatReqPacket`) that neither packet header
  defines. The model follows the `.cpp` definitions and the field layout of
  `IOCP_Server/Packet.h`.
- **`ClientSession.h` and `ClientSession.cpp` disagree.** `ClientSession.h`
  lacks `mRecvBuffer`, `mTempRecvBuf` and `mToken`, which `ClientSession.cpp`
  uses. `Session.ClientSession` carries both receive abstractions, and each
  operation uses only the fields its source uses.
- **The `AUTH_FAILED` branches.** In both servers `CheckUserCredentials`
  always returns true, so these branches are dead and are not modelled.
- **`snprintf`.** It is modelled for the one `%s` format the handler uses.
- **`strcpy_s` violations.** A violation runs the CRT invalid-parameter
  handler, which ends the process. The model reports it as an abort result
  and says nothing about the process afterwards.
- PacketHandling.ProcessPacket: when the buffer begins with a header that
  declares size 0, the source's loop never ends. The model stops and reports
  `Diverges` instead.
- PacketHandling.ProcessPacket: it requires `accumulatedSize + dataSize <=
  2048`. The kernel never returns more than the armed buffer, but the source
  checks nothing.
- PacketHandling.Drain: the effects of the frames it hands on are not
  composed over the turns. It states which frames went to the `switch` and
  that the network's log only grows, not which sends each frame made,
  because what a handler does depends on the session and registry as the
  turns before left them.
- PacketHandling.ProcessPacket: the same holds of it, since it is `Drain`
  after counting the new bytes in.
- PacketHandling.Turn: for a frame that does not abort it states the
  `switch`'s sends (`SwitchCalls`) but not its effect on the session and the
  registry, because moving the remaining bytes to the front rewrites the
  receive buffer that `Dispatched` reads.
- PacketHandling.Consume: the same as `Turn`.
- Legacy.LegacyServer.ProcessPacket: it requires `accumulatedSize +
  dataSize <= 2048`, for the same reason.
- Legacy.LegacyServer.WorkerStep: its RECV case requires a key
  (`key.Some?`) and `accumulatedSize + transferred <= 2048`. The source
  dereferences the key there without a check, and the read it completes was
  armed on the buffer's free space only.
- Bytes.CStr: a field with no NUL reads in the model as the whole field. The
  source would read past the end of the array.
- Server.IOCPServer.constructor: it folds in the `SessionManager` that
  `StartServer` creates. The rest of `StartServer` and `InitSocket` is
  Winsock and threads.
- Server.IOCPServer.WorkerStep: its RECV and SEND cases require a key
  (`key.Some?`) and `transferred <= 2048`. The source dereferences the key
  without a check there, and the kernel never completes more than the
  2048-byte armed read.
- Server.IdsBeforeWrap: it has an empty proof, so it records the fact without
  counting as proof work. The ids are distinct and non-zero until the
  counter wraps to 0 after 2^32 - 1 connections.
- Legacy.ClientInfo.constructor: the send buffer and the send overlapped
  structure of the old `ClientSession` struct are represented by the logged
  `WSASend` calls, not by fields.
- Legacy.LegacyServer.constructor: `mClientCnt` is a 32-bit signed `int`
  in the source and an unbounded integer in the model, which does not
  model its overflow. `CloseSession` decrements it with no floor, so it can
  go negative in both.
- CommonPacket.SetLoginInfo: the source's `strcpy_s(password, sizeof
  password, password)` copies the field onto itself. The ranges overlap,
  which is undefined behaviour; the model treats it as a copy of the
  field's own contents.
- Legacy.LegacyServer.SendPacket: it requires the declared size to fit the
  packet and the 2048-byte send buffer, which every reply of the old server
  does.

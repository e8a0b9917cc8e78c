# transport-cpp: a verified model of `Transport::Connection`

`Transport::Connection` (transport.cpp) is a point-to-point message connection
over a TCP socket. Every message travels as a frame: a private header of two
4-byte words (kind, then length), padded to the connection's current header
size, followed by the payload. A control frame of kind
`header_length_update` changes the header size that the receiving side
expects. The constructor gets the socket in one of two ways. It tries to
connect to the given address. Otherwise it listens and accepts peers, and in
strict mode it turns away peers whose address differs from the given one.

The model has six modules:

- `Frame` (frame.dfy) is the header layout and its byte encoding. It proves
  the round trips in both directions for words, headers and frames.
- `Stream` (stream.dfy) describes the socket's receive side as a sequence of
  read results. A read asks for at most `cap` bytes. Bytes it does not take
  stay at the head of the stream. `Aligned` says that a stream delivers a
  given byte string in any chunking.
- `Receive` (receive.dfy) models `_recvData` (`FrameOutcome`) and `recvData`
  (`DataOutcome`) as functions of the header size and the stream. The lemmas
  state what these functions deliver in terms of the bytes of the stream:
  - a payload is exactly the declared number of bytes that follow the header;
  - a control frame yields `Retry` with its size, or an error when the size
    is below 8;
  - `recvData` never returns a retry;
  - send followed by receive gives back the payload, in any chunking, and
    reads nothing of what follows the frame;
  - after `setHeaderSize`, with the sender framing at the size it announces
    (a correction, see Findings), the receiver decodes with that size and
    the next message arrives intact;
  - over a whole session, the calls of `recvData` return exactly the
    messages the other end sent, in order (`SessionData`).
- `Establishment` (establish.dfy) models the constructor's cascade as a state
  machine: Init → Connecting → Listening → Accepting → Connected, or Failed.
  The operating system's answers are inputs. The strict-mode filter is the
  predicate `Adopts`.
- `Transport` (connection.dfy) is the class `Connection`, with the source's
  fields. It holds:
  - the constructor;
  - `SendData` and `SetHeaderSize`, which append the written buffer to
    `written`. The class invariant `Valid` ties the bytes written to the
    sequence of messages and announcements made, so `PeerReceivesAll` can
    state what the other end receives;
  - `ReceiveFrame` and `ReceiveData`, which read from `incoming` into arrays
    with loops, as the source does. Each is proved equal to the matching
    function of `Receive` and `Establishment`.
- `AsWritten` (as_written.dfy) models the parts of `_recvData`, `sendData`
  and `setHeaderSize` that the rest of the model corrects, as the code
  writes them. Each defect is shown on a concrete input (see Findings).

The receive side follows the documented frame layout, with these defects of
`_recvData` corrected:

- it waits until the two header words have arrived;
- it counts the bytes it holds without unsigned underflow;
- every read asks only for the bytes of the current frame still missing.
  The header wait reads into a buffer of just the two words, not 1024
  bytes, so no read takes bytes of the next frame. There are then no
  leading payload bytes to copy, and the misplaced copy of line 149 goes
  away. The payload is read whole into its own buffer;
- the result is exactly `len` bytes, and an end of stream before that is an
  error.

Null with `out_len` 0, and null with `out_len` `(uint32_t)-1`, become the
tagged result `Receipt = Data | Retry | Error | Blocked`.

These choices follow the code rather than the most natural reading of the
header comment:

- `setHeaderSize(size)` writes an 8-byte control frame whose length word is
  `size + 8`, in 32-bit arithmetic (transport.cpp:102): it announces the
  whole header size for a user header of `size` bytes, not `size` itself, and
  it is 8 bytes long whatever the current header size.
- The receiver first waits for the 8 bytes of the two header words. Only a
  generic frame then waits for the rest of its `header_size` bytes, because
  the control frame the code writes is always 8 bytes. Waiting for
  `header_size` bytes before decoding would stall on a control frame when the
  header size is above 8.
- One field `header_size` serves both sending and receiving: `sendData` uses
  it too (transport.cpp:108). So the side that receives a control frame also
  sends with the new size, while the side that wrote it goes on decoding
  with the old one. The model splits the field (see Findings). `headerSize`
  is the size an end decodes with, and only a received control frame changes
  it. `sendHeaderSize` is the size it frames with, and only its own
  `SetHeaderSize` changes it. Each direction then agrees on one size.
- The switch at transport.cpp:132-142 falls through from
  `header_length_update` into `default`. That fall-through is what returns
  null with `out_len == (uint32_t)-1`, the retry signal that `recvData` tests
  at transport.cpp:182. It is therefore modelled, not corrected:
  `AsWritten.SwitchMatchesDispatch` proves that for every non-generic kind the
  switch as written leads to the same retry, the same error and the same
  header size as `Receive.Dispatch`.

## Model

| member | source | states |
|---|---|---|
| Frame.DecodeEncodeWord | transport.cpp:17-20 | a 4-byte unsigned word decodes back from its four bytes |
| Frame.DecodeWord | transport.cpp:17-19 | the word held in 4 bytes is the one whose encoding they are, so together with `DecodeEncodeWord` the word encoding is a bijection |
| Frame.EncodeWord | transport.cpp:17-19 | a word is encoded as exactly 4 bytes |
| Frame.EncodeHeader | transport.cpp:12-21 | the encoded header takes exactly the header size, whatever it is (at least 8) |
| Frame.DecodeHeaderPrefix | transport.cpp:28-29 | GET_PRIVATE_HEADER reads words 0 and 1 and nothing after the first 8 bytes |
| Frame.DecodeEncodeHeader | transport.cpp:17-29 | decoding the start of an encoded header, at any header size and with anything after it, gives back (kind, length) |
| Frame.DecodeHeader | transport.cpp:28-29 | GET_PRIVATE_HEADER: the header decoded from a buffer is the one whose 8-byte encoding is the buffer's first 8 bytes |
| Frame.EncodeFrame | transport.cpp:106-113 | a frame is header size plus payload length bytes long |
| Frame.DecodeEncodeFrame | transport.cpp:12-29 | a frame decodes to its kind and payload length, and its payload follows the first header-size bytes |
| Frame.EncodeDecodeFrame | transport.cpp:12-29 | a buffer of header size plus declared length bytes, with zero reserved bytes, is the frame of its kind and of the bytes after its header |
| Frame.AnnouncedHeaderSize | transport.cpp:102 | the announced `size + 8` in uint32: at least 8 exactly when it does not wrap, then size + 8, and otherwise the wrapped value size + 8 - 2^32 |
| Frame.AdoptedHeaderSize | transport.cpp:98-104 | the header size after an update for `size`: size + 8 when that does not wrap, otherwise the old size, which stays at least 8 |
| Frame.ControlFrame | transport.cpp:100-103 | the control frame setHeaderSize writes is 8 bytes and decodes to (header_length_update, size + 8 in uint32) |
| Frame.OpBytes | transport.cpp:98-113 | the bytes of one write: a message is a frame at the current size that decodes to (generic_data, its length); an announcement is 8 bytes that decode to (header_length_update, size + 8) |
| Frame.AfterOp | transport.cpp:98-108 | the size a writer frames with after a write: unchanged by a message, `AdoptedHeaderSize` after an announcement, never below 8 |
| Frame.SenderSize | transport.cpp:98-108 | the size a writer frames with after a sequence of writes stays at least 8 |
| Frame.WireAppend | transport.cpp:98-113 | one more write appends exactly its bytes at the size the earlier writes left, and moves the size by that write alone |
| Receive.AwaitBytes | transport.cpp:123 | waiting ends with at least `need` and at most `limit` bytes, extending what was held, and consumes input; with `limit == need` it takes exactly `need` bytes |
| Receive.AwaitConserves | transport.cpp:123 | the bytes gathered while waiting, and the reads left, are exactly the stream: nothing lost or invented |
| Receive.FillPayload | transport.cpp:157-169 | a completed payload has exactly `len` bytes; its only failures are a read error and the end of the stream |
| Receive.FillConserves | transport.cpp:157-163 | the payload and the reads left are exactly the bytes held and the stream |
| Receive.GenericOutcome | transport.cpp:144-173 | a generic frame keeps the header size, never retries, yields `len` bytes of data, and fails only on a read error or end of stream |
| Receive.Dispatch | transport.cpp:132-142 | the header size never drops below 8 and changes only together with a retry |
| Receive.FrameOutcome | transport.cpp:115-174 | `_recvData` keeps the header size at least 8, changes it only on a retry, and a retry consumes input |
| Receive.DataOutcome | transport.cpp:176-189 | `recvData` never returns a retry and leaves the header size at least 8 |
| Receive.GenericOutcomeSlice | transport.cpp:144-173 | the data of a generic frame is exactly bytes `header_size .. header_size + len` of the stream |
| Receive.PayloadAfterHeader | transport.cpp:148-163 | once `header_size` header bytes are held, a completed payload is the `len` bytes of the stream after them |
| Receive.DispatchData | transport.cpp:132-173 | dispatching a scratch that starts the stream yields data only for a generic header, and then the declared bytes after the header |
| Receive.FrameDataDecodes | transport.cpp:115-174 | `_recvData` yields data only when the stream starts with a generic_data header, and the data is exactly the declared number of bytes after the header |
| Receive.DispatchControl | transport.cpp:132-142 | a retry, a bad size and an unknown kind each name the header they came from |
| Receive.FrameControlDecodes | transport.cpp:132-142 | a retry comes only from a header_length_update at the start of the stream, whose length becomes the header size; a bad size only from one below 8; an unknown kind only from a kind that is neither |
| Receive.HeaderOfStream | transport.cpp:123-130 | the header decoded is the one the stream starts with; scratch plus reads left is the whole stream |
| Receive.AwaitAligned | transport.cpp:123 | waiting on a stream that delivers a known byte string fills with a prefix of it and leaves the stream delivering the rest |
| Receive.FillAligned | transport.cpp:157-163 | reassembly on a stream holding exactly the missing bytes completes with them and leaves exactly what follows |
| Receive.GenericAligned | transport.cpp:144-173 | from any prefix of the header of a generic frame, with the rest of the frame and any bytes after it to come, the payload is delivered and the stream is left delivering exactly the bytes after the frame |
| Receive.GenericFrameRoundTrip | transport.cpp:106-189 | a frame as sendData should build it, followed by any bytes, in any chunking, is received by `_recvData` and `recvData` as exactly its payload, and the stream is left delivering exactly the bytes after it |
| Receive.ControlFrameOutcome | transport.cpp:135-141 | a control frame, followed by any bytes, is consumed whole and alone: size + 8 of at least 8 gives a retry with that header size, otherwise an error that keeps the size; either way the receiver ends at `AdoptedHeaderSize` |
| Receive.RenegotiationRoundTrip | transport.cpp:98-189 | two ends at one header size: a control frame, then a frame at the size the sender adopted, is received as its payload with both ends at the same new size; a size that wraps is an error, both keep their size and the next receive delivers the payload |
| Receive.Delivered | transport.cpp:176-189 | what `recvData` should hand over for a sequence of writes: at most one receipt per write and never a retry |
| Receive.FrameOutcomes | transport.cpp:115-174 | n calls of `_recvData` in a row give n receipts and leave the header size at least 8 |
| Receive.DataOutcomes | transport.cpp:176-189 | n calls of `recvData` in a row give n receipts, none of them a retry |
| Receive.OpOutcome | transport.cpp:98-174 | one write, followed by any bytes, in any chunking: `_recvData` gives its receipt, moves to the size the writer moved to, and leaves exactly the bytes after it |
| Receive.SessionFrames | transport.cpp:98-174 | every sequence of writes from a common header size, in any chunking: one `_recvData` per write gives each write's receipt in order, the reader ends decoding with the size the writer frames with, and the bytes after the writes are left |
| Receive.SessionData | transport.cpp:98-189 | every sequence of writes from a common header size, in any chunking: the calls of `recvData` return exactly the messages sent, in order and intact, with an error in place of each refused announcement |
| Establishment.Bounded | transport.cpp:87 | the first `count` characters that strncmp looks at: exactly `count` characters of a longer string, all of a shorter one |
| Establishment.SameAddress | transport.cpp:87 | strncmp over INET6_ADDRSTRLEN characters: a name shorter than 46 characters matches exactly the equal address; two strings of 46 or more match when their first 46 characters agree |
| Establishment.Adopts | transport.cpp:87 | the accept loop's filter takes every peer unless strict and given an address, and then exactly the peers whose name matches the address |
| Establishment.AdoptsExactly | transport.cpp:83-87 | the filter takes every peer unless strict and given an address; then exactly the peer whose printed name (at most 45 characters) equals the address, so a longer address never matches |
| Establishment.Next | transport.cpp:40-96 | each step of the cascade lowers the rank and only appends socket calls |
| Establishment.Run | transport.cpp:40-97 | the cascade ends settled and only appends socket calls |
| Establishment.FirstAdopted | transport.cpp:79-96 | the index of the first peer the filter takes; every peer before it, or every peer when there is none, is turned away |
| Establishment.Rejections | transport.cpp:86-90 | two calls per turned-away peer |
| Establishment.RejectionsAt | transport.cpp:86-90 | each turned-away peer is accepted and then its descriptor closed, in order |
| Establishment.AcceptRejects | transport.cpp:87-90 | a turned-away first peer leaves the loop going on with the others |
| Establishment.AcceptLoop | transport.cpp:79-96 | the loop adopts the first peer the filter takes (its descriptor and name), after accepting and closing each earlier one; with none it closes all and keeps the descriptor |
| Establishment.SocketFailure | transport.cpp:41-47 | establishment fails exactly when socket() fails, and then socket() is the only call |
| Establishment.Establish | transport.cpp:40-97 | what the constructor leaves: a settled cascade (connected, failed, or accepting with no peer left) whose first call is socket(); SocketFailure, EstablishConnects, EstablishListens and EstablishAccepts give the rest |
| Establishment.EstablishConnects | transport.cpp:49-70 | with an address that parses and a connect that succeeds: connected on the socket to that address after socket() and connect() |
| Establishment.EstablishListens | transport.cpp:54-78 | otherwise the cascade goes on to bind and listen; with no address or an unparsable one, connect() is never called |
| Establishment.EstablishAccepts | transport.cpp:72-96 | the full outcome of listen mode: the first peer the filter takes, or none, with every call made |
| Establishment.LooseAdoptsFirst | transport.cpp:86-95 | without strict mode or without an address the first accepted peer is adopted |
| Stream.Read | transport.cpp:157 | one read returns at most `cap` bytes, and every read leaves less to deliver |
| Stream.ReadConserves | transport.cpp:157 | a read loses no byte and invents none: what it returns followed by what is left is what was pending |
| Transport.CopyInto | transport.cpp:110 | memcpy: the slice written is the source and every other element is unchanged |
| Transport.Connection.constructor | transport.cpp:40-97 | both header sizes 8, nothing written, logging set, then descriptor, remote address, phase and calls exactly as `Establish` gives them |
| Transport.Connection.ListenForPeers | transport.cpp:72-96 | bind, listen and the accept loop end in the state `Establish` gives |
| Transport.Connection.AcceptPeers | transport.cpp:79-96 | the accept loop ends in the state the machine's run gives from Accepting |
| Transport.Connection.ReadSocket | transport.cpp:157 | one read of at most `cap` bytes takes the next result off the stream |
| Transport.Connection.ReadInto | transport.cpp:123 | a read into a buffer at an offset appends exactly the bytes read after those already held |
| Transport.Connection.ReadHeaderPart | transport.cpp:123 | one read of the first loop keeps the wait's outcome unchanged |
| Transport.Connection.AwaitHeaderWords | transport.cpp:116-125 | the first loop fills a buffer of the two header words with what `AwaitBytes` gathers for them, so nothing after them is read |
| Transport.Connection.CompleteHeader | transport.cpp:123-130 | a generic header is completed to `header_size` bytes with exactly what `AwaitBytes` gathers, reading nothing after it |
| Transport.Connection.ReceivePayload | transport.cpp:148-163 | a fresh payload buffer of `len` bytes ends with the data, error or end of input that `FillPayload` gives |
| Transport.Connection.FillBuffer | transport.cpp:157-169 | the reassembly loop ends with the data, error or end of input `FillPayload` gives |
| Transport.Connection.ReadPayloadPart | transport.cpp:157 | one read of the reassembly loop asks for the space left and keeps the loop's outcome unchanged |
| Transport.Connection.ReceiveFrame | transport.cpp:115-174 | `_recvData` returns and leaves what `FrameOutcome` gives, and keeps the header size at least 8 |
| Transport.Connection.ReceiveData | transport.cpp:176-189 | `recvData` never returns a retry and returns and leaves what `DataOutcome` gives |
| Transport.Connection.SendData | transport.cpp:106-113 | one write of one buffer: a header of the size this end frames with, kind generic_data and the payload length, then the payload; the invariant tying the bytes written to the writes made is kept |
| Transport.Connection.SetHeaderSize | transport.cpp:98-104 | one write of the 8-byte control frame announcing size + 8; corrected, this end then frames with `AdoptedHeaderSize`, the size the peer takes over, and still decodes with its old size; the invariant is kept |
| Transport.PeerReceivesAll | transport.cpp:98-189 | whatever a connection has written reaches a peer that starts at header size 8, in any chunking: its `recvData` calls return exactly the messages sent, in order; its `_recvData` calls end decoding with the size the connection frames with |
| AsWritten.FirstReadAsWritten | transport.cpp:123 | as written the first loop stops at the first read with any bytes, at most 1024 |
| AsWritten.PositionAsWritten | transport.cpp:126 | `n - header_size` in uint32: the difference when n is at least the header size, a value of at least 2^32 - header_size otherwise |
| AsWritten.ShortFirstRead | transport.cpp:123-130 | a frame whose first read has 3 bytes: as written the loop stops there and position is 2^32 - 5; corrected the payload is delivered |
| AsWritten.WholeFrameDelivered | transport.cpp:106-189 | corrected, any solid chunking of one whole frame at header size 8 is delivered as its payload with nothing left |
| AsWritten.LeadingCopyAsWritten | transport.cpp:149 | as written `n - header_size` bytes are copied from byte 4 |
| AsWritten.LeadingCopyStartsWithLength | transport.cpp:149 | as written the first payload bytes handed on are the length word, for every frame of 4 or more bytes |
| AsWritten.LeadingCopyShifted | transport.cpp:149 | the frame of [7, 7] in one read: as written [2, 0] is handed on, corrected [7, 7] is delivered |
| AsWritten.NextFrameInFirstRead | transport.cpp:123-155 | two one-byte frames in one read: as written the first read takes all 18 bytes, position is 10, and the second frame is gone; corrected the first call delivers [7] and the next [9] |
| AsWritten.FrameOfOneBytes | transport.cpp:12-21 | the one-byte frame at header size 8 is [0,0,0,0,1,0,0,0,x] |
| AsWritten.FillAsWritten | transport.cpp:157-172 | as written the reassembly keeps what it held and only appends |
| AsWritten.ReadSwallowsNextFrame | transport.cpp:157 | payload and next control frame in one read: as written 12 bytes reported and the control frame lost; corrected 4 bytes and the control frame left |
| AsWritten.ShortPayloadReported | transport.cpp:165-172 | end of stream after 2 of 4 bytes: as written success with 2 bytes, corrected ConnectionClosed |
| AsWritten.SwitchAsWritten | transport.cpp:132-142 | the switch goes on to the payload exactly for generic_data; it changes the header size only for a header_length_update, to its length |
| AsWritten.RetriesAsWritten | transport.cpp:176-189 | recvData's retry test on what the switch returns holds exactly for a header_length_update of at least 8 |
| AsWritten.SwitchMatchesDispatch | transport.cpp:132-142 | the fall-through yields a retry in recvData exactly when Dispatch retries, an error otherwise, and the same header size |
| AsWritten.RenegotiationMismatch | transport.cpp:98-104 | as written one header size serves both directions; the frames are in the documented layout and read by the corrected receiver, so only this defect is as written: after announcing 16 the sender still frames at 8, and its messages [7] and [9] arrive as [0]; the receiver, now at 16, frames its reply [7] at 16, and the sender, still decoding at 8, receives its zero reserved byte, [0]; with the sender framing at the size it announced, [7] arrives |
| AsWritten.OldSizeFramesMisread | transport.cpp:98-108 | the corrected receiver, moved to 16, given two frames at 8, takes 7 bytes of the second for the header and delivers [0]; the source's own `_recvData` would also wrap `position` here |
| AsWritten.ReplyAtSixteen | transport.cpp:108 | a reply [7] framed at 16 in the documented layout (zero reserved bytes) and decoded at 8 by the corrected receiver delivers the first reserved byte, [0] |
| AsWritten.AnnouncedSizeDelivered | transport.cpp:98-104 | corrected, a control frame then a frame at the announced size delivers [7] at header size 16 |
| AsWritten.SendBufferAsWritten | transport.cpp:108-110 | as written: header size plus len bytes, the length in word 0, the payload from byte 4, then the header size - 4 bytes malloc left unset, whatever they hold |
| AsWritten.SendKindIsLength | transport.cpp:109 | as written the receiver decodes the payload length as the kind |
| AsWritten.SentMessageRefused | transport.cpp:106-113 | the buffer sendData writes, read by the corrected receiver: every message of 2 or more bytes, in any chunking and whatever the unset bytes hold, is refused as an unknown kind (the source's own first read of fewer than 4 bytes would take the kind's upper bytes from stale buffer memory instead) |
| AsWritten.OneByteMessageRenegotiates | transport.cpp:108-109 | the buffer sendData writes for [200], read by the corrected receiver, makes it retry with a header size of at least 200, read from 200 and three unset bytes, with the last unset byte left as the start of the next header (the source's 1024-byte first read would drop that byte) |
| AsWritten.OneByteMessageDelivered | transport.cpp:106-113 | corrected, the same message is delivered as [200] |

## Left out

- Logging (transport.cpp:31-38 and the `log`/`fprintf` calls) only prints diagnostics. The `logging_on` flag is kept as the field `loggingOn`.
- socket(), inet_pton(), connect(), accept() and inet_ntop() are foreign calls. Their answers are the inputs `Env`: a descriptor, a parse flag, a connect flag, and the accepted peers with their printed addresses.
- bind() and listen() are recorded as calls only. The source ignores their results, so they have no input.
- `remote_addr` (a `sockaddr_in`) becomes the printed address `remote`. Its memset, htons(), htonl() and the port inside it are not modelled.
- The `port` field of transport.h is never assigned by the constructor, so it is not a field of the model. Neither is `strict`, which the source does not store.
- A read that would block forever becomes the receipt `Blocked` once the input runs out. An accept() that would block leaves the phase `Accepting`.
- write() becomes one whole buffer appended to `written`. Short writes and write errors are not modelled.
- Transport.Connection.SendData: requires `sendHeaderSize + len < 2^32`. The source's `len + header_size` wraps in uint32 and would allocate too small a buffer; that wrap is not modelled.
- The `header_data` parameters of sendData, `_recvData` and recvData are unused by the source and are left out.
- Host byte order is fixed as least significant byte first.
- malloc(), calloc() and free() become Dafny arrays. An allocation failure is not modelled.
- Establishment.SameAddress: strncmp on NUL-terminated strings is modelled as equality of the first 46 characters of strings without NUL. A printed peer address has at most 45 characters (`PrintedAddress`), the most inet_ntop writes before the NUL into its 46-byte buffer.
- Establishment.Rejections: its own contract states only the number of calls. Their content and order are in Establishment.RejectionsAt.

## Findings

| source | as written | input that shows it | evidently intended | confidence | as-written member | corrected member |
|---|---|---|---|---|---|---|
| transport.cpp:123-126 | the first loop proceeds after any read of n > 0 bytes, and `position = n - header_size` is computed in uint32 | the frame [0,0,0,0,2,0,0,0,7,7] arriving as 3 bytes and then 7: the header is decoded from 5 bytes that have not arrived and position is 0xFFFFFFFB | wait until the two header words are in, and count the bytes held without underflow | not executed | AsWritten.ShortFirstRead | Receive.AwaitBytes |
| transport.cpp:149 | `n - header_size` bytes are copied from word 1 (byte 4) of the receive buffer into the payload | the frame of payload [7,7] at header size 8: the payload starts [2,0], the length word | the payload is the `len` bytes after `header_size` header bytes | not executed | AsWritten.LeadingCopyShifted | Receive.GenericOutcomeSlice |
| transport.cpp:123 | the first read asks for up to 1024 bytes, so it can take the frames after the current one, which no later call sees | the frames [0,0,0,0,1,0,0,0,7] and [0,0,0,0,1,0,0,0,9] in one read: position is 10, out_len 10 for a 1-byte message, and [9] is never received | read no byte past the current frame, so each call leaves the next frame in the socket | not executed | AsWritten.NextFrameInFirstRead | Receive.GenericFrameRoundTrip |
| transport.cpp:157 | every payload read asks for `len + header_size` bytes, not the `len - position` still missing | payload [7,7,7,7] and the control frame [1,0,0,0,16,0,0,0] in one read: 12 bytes are taken into a 4-byte buffer and the control frame is lost | ask only for the bytes still missing, leaving the next frame in the socket | not executed | AsWritten.ReadSwallowsNextFrame | Receive.FillPayload |
| transport.cpp:165-172 | an end of stream ends the loop as success, and `out_len = position` | 2 of 4 payload bytes and then the end of the stream: success with out_len 2 (and out_len 12 in the row above) | report exactly `len` bytes, and treat an end of stream before them as an error | not executed | AsWritten.ShortPayloadReported | Receive.FrameDataDecodes |
| transport.cpp:109-110 | sendData writes `len` into word 0 and the payload from byte 4; no kind is written | read by the corrected receiver: the one-byte message [200] makes it switch to a header size of at least 200 (the exact size depends on bytes malloc left unset); every message of 2 or more bytes is refused as an unknown kind | kind generic_data in word 0, `len` in word 1, the payload after `header_size` bytes | not executed | AsWritten.OneByteMessageRenegotiates | Transport.Connection.SendData |
| transport.cpp:98-104 | one `header_size` serves both directions: setHeaderSize announces size + 8 but leaves it as it was, while the receiver takes the new size over (line 137) for decoding and for its own sendData (line 108) | setHeaderSize(8) at header size 8, then the messages [7] and [9], framed in the documented layout and read by the corrected receiver: the receiver, now at 16, delivers [0]; its own reply [7], framed at 16, reaches the sender, still at 8, as [0] | each direction keeps one size. The model takes the reading in which the announcing side frames with the size it announced and the receiving side decodes with it, because the switch then sits at a fixed point of the byte stream. The other reading (the announcing side decodes at the new size and the peer frames with it) leaves frames already in flight from the peer to be decoded at the wrong size | not executed | AsWritten.RenegotiationMismatch | Transport.Connection.SetHeaderSize |

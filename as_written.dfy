/** The parts of `_recvData`, `sendData` and `setHeaderSize` in transport.cpp
    as they are written, where they differ from the frame layout the header
    comment documents and the decoder expects. Each difference is shown on a
    concrete input beside the corrected definition from Frame, Receive and
    Transport, which the rest of the model uses. Each lemma isolates one
    defect: where it follows a frame to what a receive call returns, the
    call is the corrected one of Receive (`FrameOutcome`, `DataOutcome`), so
    only the defect named is as written. The source's own `_recvData` would
    add its other defects to the outcome. */
module AsWritten {
  import opened Frame
  import opened Stream
  import opened Receive

  /** C's uint32_t arithmetic: the value modulo 2^32. */
  function U32(x: int): (r: u32)
    ensures 0 <= x < 0x1_0000_0000 ==> r == x
    ensures (x - r) % 0x1_0000_0000 == 0
  {
    x % 0x1_0000_0000
  }

  /** The size of `recv_buffer`, into which the first loop reads (line 116). */
  const RECV_BUFFER_LEN: nat := 1024

  // ---------------------------------------------------------------------------
  // The first read and `position` (lines 123-126)

  /** The first loop of `_recvData` as written: it stops at the first read that
      returns any bytes at all, however few. */
  function FirstReadAsWritten(input: seq<ReadResult>): (a: Await)
    ensures a.Filled? ==> 0 < |a.got| <= RECV_BUFFER_LEN && Weight(a.rest) < Weight(input)
    decreases Weight(input)
  {
    if input == [] then Exhausted
    else
      var d := Read(RECV_BUFFER_LEN, input);
      if Bytes(d.result) != [] then Filled(Bytes(d.result), d.rest)
      else FirstReadAsWritten(d.rest)
  }

  /** `position = n - header_size` after a first read of n bytes. */
  function PositionAsWritten(n: nat, headerSize: u32): (p: u32)
    ensures headerSize <= n < 0x1_0000_0000 ==> p == n - headerSize
    ensures n < headerSize ==> p >= 0x1_0000_0000 - headerSize
  {
    U32(n - headerSize)
  }

  /** A frame whose first read brings 3 bytes: as written, the first loop stops
      there, the header is decoded from bytes that have not arrived and
      position wraps to 2^32 - 5; the corrected wait gathers the header first
      and delivers the payload. */
  lemma ShortFirstRead()
    ensures EncodeFrame(GENERIC_DATA, [7, 7], PRIVATE_HEADER_LEN) == [0, 0, 0, 0, 2, 0, 0, 0, 7, 7]
    ensures FirstReadAsWritten([Chunk([0, 0, 0]), Chunk([0, 2, 0, 0, 0, 7, 7])]) ==
      Filled([0, 0, 0], [Chunk([0, 2, 0, 0, 0, 7, 7])])
    ensures PositionAsWritten(3, PRIVATE_HEADER_LEN) == 0xFFFF_FFFB
    ensures FrameOutcome(PRIVATE_HEADER_LEN, [Chunk([0, 0, 0]), Chunk([0, 2, 0, 0, 0, 7, 7])]) ==
      Step(Data([7, 7]), PRIVATE_HEADER_LEN, [])
  {
    var input := [Chunk([0, 0, 0]), Chunk([0, 2, 0, 0, 0, 7, 7])];
    FrameOfSevens();
    assert Read(RECV_BUFFER_LEN, input) == Delivery(Chunk([0, 0, 0]), input[1..]);
    assert Concat(input[1..][1..]) == [];
    WholeFrameDelivered([7, 7], input);
  }

  /** The corrected receiver, given the chunks of one whole frame at header
      size 8, delivers its payload and leaves nothing behind. */
  lemma WholeFrameDelivered(payload: Payload, chunks: seq<ReadResult>)
    requires Solid(chunks) && Concat(chunks) == EncodeFrame(GENERIC_DATA, payload, PRIVATE_HEADER_LEN)
    ensures FrameOutcome(PRIVATE_HEADER_LEN, chunks) == Step(Data(payload), PRIVATE_HEADER_LEN, [])
    ensures DataOutcome(PRIVATE_HEADER_LEN, chunks) == Step(Data(payload), PRIVATE_HEADER_LEN, [])
  {
    var frame := EncodeFrame(GENERIC_DATA, payload, PRIVATE_HEADER_LEN);
    AlignedChunks(chunks, []);
    assert chunks + [] == chunks && frame + [] == frame;
    GenericFrameRoundTrip(PRIVATE_HEADER_LEN, payload, [], chunks, []);
  }

  /** One non-empty chunk is a solid chunking of its bytes. */
  lemma OneChunk(bytes: seq<byte>)
    requires bytes != []
    ensures Solid([Chunk(bytes)]) && Concat([Chunk(bytes)]) == bytes
  {
    assert [Chunk(bytes)][1..] == [];
  }

  lemma FrameOfSevens()
    ensures EncodeFrame(GENERIC_DATA, [7, 7], PRIVATE_HEADER_LEN) == [0, 0, 0, 0, 2, 0, 0, 0, 7, 7]
  {
    assert EncodeWord(GENERIC_DATA) == [0, 0, 0, 0];
    assert EncodeWord(2) == [2, 0, 0, 0];
  }

  // ---------------------------------------------------------------------------
  // The leading payload bytes (line 149)

  /** The copy of line 149 as written: n - header_size bytes from word 1 of the
      receive buffer, that is from byte 4, whatever the header size. */
  function LeadingCopyAsWritten(buffer: seq<byte>, headerSize: u32): (lead: seq<byte>)
    requires PRIVATE_HEADER_LEN <= headerSize <= |buffer|
    ensures |lead| == |buffer| - headerSize
    ensures lead == buffer[WORD_LEN..WORD_LEN + |lead|]
  {
    buffer[WORD_LEN..WORD_LEN + |buffer| - headerSize]
  }

  /** As written, the bytes handed on as the start of the payload begin with
      the length word of the header, for every frame of four or more payload
      bytes and every header size. */
  lemma LeadingCopyStartsWithLength(payload: seq<byte>, headerSize: u32)
    requires headerSize >= PRIVATE_HEADER_LEN && |payload| < 0x1_0000_0000 && |payload| >= WORD_LEN
    ensures LeadingCopyAsWritten(EncodeFrame(GENERIC_DATA, payload, headerSize), headerSize)[..WORD_LEN] ==
      EncodeWord(|payload|)
  {
    var frame := EncodeFrame(GENERIC_DATA, payload, headerSize);
    assert frame[WORD_LEN..PRIVATE_HEADER_LEN] == EncodeWord(|payload|);
  }

  /** The frame of payload [7, 7] at header size 8, in one read: as written
      the payload handed on is [2, 0], the length word; corrected it is [7, 7]. */
  lemma LeadingCopyShifted()
    ensures LeadingCopyAsWritten(EncodeFrame(GENERIC_DATA, [7, 7], PRIVATE_HEADER_LEN), PRIVATE_HEADER_LEN) == [2, 0]
    ensures FrameOutcome(PRIVATE_HEADER_LEN, [Chunk(EncodeFrame(GENERIC_DATA, [7, 7], PRIVATE_HEADER_LEN))]) ==
      Step(Data([7, 7]), PRIVATE_HEADER_LEN, [])
  {
    FrameOfSevens();
    var frame := EncodeFrame(GENERIC_DATA, [7, 7], PRIVATE_HEADER_LEN);
    OneChunk(frame);
    WholeFrameDelivered([7, 7], [Chunk(frame)]);
  }

  // ---------------------------------------------------------------------------
  // A first read that runs past the frame (lines 123, 152-154)

  /** Two one-byte frames that arrive in one read. As written, the first read
      takes all 18 bytes, so position is 10: the test of line 152 goes to
      `done`, out_len is 10 for a 1-byte message, and the second frame is
      gone from the socket. Corrected, the header wait reads just the two
      words, the first call delivers [7] and the next one [9]. */
  lemma NextFrameInFirstRead()
    ensures FrameOfOneBytes(7) + FrameOfOneBytes(9) ==
      EncodeFrame(GENERIC_DATA, [7], PRIVATE_HEADER_LEN) + EncodeFrame(GENERIC_DATA, [9], PRIVATE_HEADER_LEN)
    ensures FirstReadAsWritten([Chunk(FrameOfOneBytes(7) + FrameOfOneBytes(9))]) ==
      Filled(FrameOfOneBytes(7) + FrameOfOneBytes(9), [])
    ensures PositionAsWritten(18, PRIVATE_HEADER_LEN) == 10 && 18 >= 1 + PRIVATE_HEADER_LEN
    ensures var s := DataOutcome(PRIVATE_HEADER_LEN, [Chunk(FrameOfOneBytes(7) + FrameOfOneBytes(9))]);
      s.receipt == Data([7]) && s.headerSize == PRIVATE_HEADER_LEN &&
      DataOutcome(PRIVATE_HEADER_LEN, s.rest) == Step(Data([9]), PRIVATE_HEADER_LEN, [])
  {
    FrameOfOne(7);
    FrameOfOne(9);
    var f7 := EncodeFrame(GENERIC_DATA, [7], PRIVATE_HEADER_LEN);
    var f9 := EncodeFrame(GENERIC_DATA, [9], PRIVATE_HEADER_LEN);
    var input := [Chunk(f7 + f9)];
    assert Read(RECV_BUFFER_LEN, input) == Delivery(Chunk(f7 + f9), []);
    SingleChunk(f7 + f9, []);
    assert input + [] == input;
    GenericFrameRoundTrip(PRIVATE_HEADER_LEN, [7], f9, input, []);
    var s := DataOutcome(PRIVATE_HEADER_LEN, input);
    assert f9 + [] == f9;
    GenericFrameRoundTrip(PRIVATE_HEADER_LEN, [9], [], s.rest, []);
  }

  /** The one-byte frame at the least header size, written out. */
  function FrameOfOneBytes(x: byte): (f: seq<byte>)
    ensures f == EncodeFrame(GENERIC_DATA, [x], PRIVATE_HEADER_LEN)
  {
    FrameOfOne(x);
    [0, 0, 0, 0, 1, 0, 0, 0, x]
  }

  // ---------------------------------------------------------------------------
  // The reassembly loop and out_len (lines 157-172)

  /** The reassembly loop as written: every read asks for len + header_size
      bytes however few are missing (line 157), the loop ends as soon as
      position reaches len, and a read of no bytes ends it too and goes on to
      `done` (line 171), so out_len is set to the bytes received (line 172). */
  function FillAsWritten(len: nat, headerSize: u32, got: seq<byte>, input: seq<ReadResult>): (f: Fill)
    requires headerSize >= PRIVATE_HEADER_LEN
    ensures f.Done? ==> |got| <= |f.payload| && f.payload[..|got|] == got
    decreases Weight(input)
  {
    if input == [] then Starved
    else if U32(len + headerSize) == 0 then Done(got, input)
    else
      var d := Read(U32(len + headerSize), input);
      match d.result
      case ReadError => Failed(ReadFailed, d.rest)
      case Chunk(data) =>
        if data == [] then Done(got, d.rest)
        else if |got + data| >= len then Done(got + data, d.rest)
        else
          var f := FillAsWritten(len, headerSize, got + data, d.rest);
          assert f.Done? ==> f.payload[..|got + data|][..|got|] == f.payload[..|got|];
          f
  }

  /** A 4-byte payload whose bytes share one read with the control frame after
      it: as written the read takes all 12 bytes, reports 12 and the control
      frame is lost; corrected the read stops at 4 and the control frame is
      left for the next call. */
  lemma ReadSwallowsNextFrame()
    ensures ControlFrame(8) == [1, 0, 0, 0, 16, 0, 0, 0]
    ensures FillAsWritten(4, PRIVATE_HEADER_LEN, [], [Chunk([7, 7, 7, 7, 1, 0, 0, 0, 16, 0, 0, 0])]) ==
      Done([7, 7, 7, 7, 1, 0, 0, 0, 16, 0, 0, 0], [])
    ensures FillPayload(4, [], [Chunk([7, 7, 7, 7, 1, 0, 0, 0, 16, 0, 0, 0])]) ==
      Done([7, 7, 7, 7], [Chunk([1, 0, 0, 0, 16, 0, 0, 0])])
  {
    ControlFrameOfEight();
    var data: seq<byte> := [7, 7, 7, 7, 1, 0, 0, 0, 16, 0, 0, 0];
    var input := [Chunk(data)];
    assert data[..4] == [7, 7, 7, 7] && data[4..] == [1, 0, 0, 0, 16, 0, 0, 0];
    assert [Chunk(data[4..])] + input[1..] == [Chunk([1, 0, 0, 0, 16, 0, 0, 0])];
    assert Read(4, input) == Delivery(Chunk([7, 7, 7, 7]), [Chunk([1, 0, 0, 0, 16, 0, 0, 0])]);
  }

  lemma ControlFrameOfEight()
    ensures ControlFrame(8) == [1, 0, 0, 0, 16, 0, 0, 0]
  {
    assert EncodeWord(HEADER_LENGTH_UPDATE) == [1, 0, 0, 0];
    assert EncodeWord(16) == [16, 0, 0, 0];
  }

  /** A 4-byte payload of which 2 bytes arrive before the stream ends: as
      written the loop ends at the empty read and `_recvData` reports success
      with out_len 2; corrected it is an error. */
  lemma ShortPayloadReported()
    ensures FillAsWritten(4, PRIVATE_HEADER_LEN, [], [Chunk([7, 7]), Chunk([])]) == Done([7, 7], [])
    ensures FillPayload(4, [], [Chunk([7, 7]), Chunk([])]) == Fill.Failed(ConnectionClosed, [])
  {
    var input := [Chunk([7, 7]), Chunk([])];
    assert Read(12, input) == Delivery(Chunk([7, 7]), [Chunk([])]);
    assert Read(4, input) == Delivery(Chunk([7, 7]), [Chunk([])]);
  }

  // ---------------------------------------------------------------------------
  // The switch of lines 132-142

  /** How the switch leaves `_recvData`: on to the payload, or returning null
      with the given out_len and header size. */
  datatype SwitchExit = ToPayload | ReturnNull(outLen: u32, headerSize: u32)

  /** The switch as written, the header_length_update case falling through
      into default. */
  function SwitchAsWritten(kind: u32, len: u32, headerSize: u32): (e: SwitchExit)
    ensures e.ToPayload? <==> kind == GENERIC_DATA
    ensures e.ReturnNull? && e.headerSize != headerSize ==> kind == HEADER_LENGTH_UPDATE && e.headerSize == len
  {
    if kind == GENERIC_DATA then ToPayload
    else if kind == HEADER_LENGTH_UPDATE && len >= PRIVATE_HEADER_LEN then ReturnNull(0xFFFF_FFFF, len)
    else ReturnNull(0, headerSize)
  }

  /** The test of recvData at line 182 applied to the switch: null with
      out_len (uint32_t)-1 means call `_recvData` again. It holds exactly for
      a header length update of at least PRIVATE_HEADER_LEN. */
  function RetriesAsWritten(kind: u32, len: u32, headerSize: u32): (retries: bool)
    ensures retries <==> kind == HEADER_LENGTH_UPDATE && len >= PRIVATE_HEADER_LEN
  {
    var e := SwitchAsWritten(kind, len, headerSize);
    e.ReturnNull? && e.outLen == 0xFFFF_FFFF
  }

  /** The fall-through is what turns a control frame into a retry: for any
      kind but generic_data the switch returns null, recvData retries exactly
      when Dispatch answers Retry, anything else is an error, and the header
      size left behind is the one Dispatch leaves. */
  lemma SwitchMatchesDispatch(headerSize: u32, scratch: seq<byte>, rest: seq<ReadResult>)
    requires headerSize >= PRIVATE_HEADER_LEN && |scratch| == PRIVATE_HEADER_LEN
    ensures var h := DecodeHeader(scratch);
      var e := SwitchAsWritten(h.kind, h.length, headerSize);
      var s := Dispatch(headerSize, scratch, rest);
      e.ReturnNull? ==>
        (RetriesAsWritten(h.kind, h.length, headerSize) <==> s.receipt.Retry?) &&
        (!RetriesAsWritten(h.kind, h.length, headerSize) <==> s.receipt.Error?) &&
        e.headerSize == s.headerSize
  {
  }

  // ---------------------------------------------------------------------------
  // setHeaderSize and the sender's header size (lines 98-104)

  /** The one-byte frame at the least header size. */
  lemma FrameOfOne(x: byte)
    ensures EncodeFrame(GENERIC_DATA, [x], PRIVATE_HEADER_LEN) == [0, 0, 0, 0, 1, 0, 0, 0, x]
  {
    assert EncodeWord(GENERIC_DATA) == [0, 0, 0, 0];
    assert EncodeWord(1) == [1, 0, 0, 0];
  }

  /** As written, one header_size serves both directions. After
      setHeaderSize(8) the sender still frames at 8 while the receiver moves
      to 16. Framed in the documented layout and read by the corrected
      receiver, the two messages [7] and [9] that the sender then frames at
      size 8 arrive as the data [0]: the receiver takes 7 bytes of the second
      frame for the rest of the header and the next byte for the payload.
      The receiver, now at 16, also frames its own replies at 16. The sender,
      still decoding at 8, takes the first reserved byte of a reply [7] for
      its payload; that byte is 0 in the documented layout. Corrected, the
      sender frames [7] at the size it announced and the receiver delivers
      [7]. */
  lemma RenegotiationMismatch()
    ensures DataOutcome(PRIVATE_HEADER_LEN,
      [Chunk(ControlFrame(8)),
       Chunk(EncodeFrame(GENERIC_DATA, [7], PRIVATE_HEADER_LEN)),
       Chunk(EncodeFrame(GENERIC_DATA, [9], PRIVATE_HEADER_LEN))]) ==
      Step(Data([0]), 16, [Chunk([9])])
    ensures FrameOutcome(PRIVATE_HEADER_LEN, [Chunk(EncodeFrame(GENERIC_DATA, [7], 16))]).receipt == Data([0])
    ensures DataOutcome(PRIVATE_HEADER_LEN,
      [Chunk(ControlFrame(8)), Chunk(EncodeFrame(GENERIC_DATA, [7], AdoptedHeaderSize(PRIVATE_HEADER_LEN, 8)))]) ==
      Step(Data([7]), 16, [])
  {
    OldSizeFramesMisread();
    ReplyAtSixteen();
    AnnouncedSizeDelivered();
  }

  /** The corrected receiver, moved to 16 by the control frame, given two
      frames the sender framed at 8. */
  lemma OldSizeFramesMisread()
    ensures DataOutcome(PRIVATE_HEADER_LEN,
      [Chunk(ControlFrame(8)),
       Chunk(EncodeFrame(GENERIC_DATA, [7], PRIVATE_HEADER_LEN)),
       Chunk(EncodeFrame(GENERIC_DATA, [9], PRIVATE_HEADER_LEN))]) ==
      Step(Data([0]), 16, [Chunk([9])])
  {
    ControlFrameOfEight();
    FrameOfOne(7);
    FrameOfOne(9);
    var f7: seq<byte> := [0, 0, 0, 0, 1, 0, 0, 0, 7];
    var f9: seq<byte> := [0, 0, 0, 0, 1, 0, 0, 0, 9];
    var after := [Chunk(f7), Chunk(f9)];
    var input := [Chunk(ControlFrame(8))] + after;
    SingleChunk(ControlFrame(8), after);
    assert ControlFrame(8) + [] == ControlFrame(8);
    ControlFrameOutcome(PRIVATE_HEADER_LEN, 8, [], input, after);
    AlignedEmpty(FrameOutcome(PRIVATE_HEADER_LEN, input).rest, after);
    assert DataOutcome(PRIVATE_HEADER_LEN, input) == DataOutcome(16, after);
    SizeSixteenReceivesZero(f7, f9);
  }

  /** The control frame and a frame at the announced size, each in its own read. */
  lemma AnnouncedSizeDelivered()
    ensures DataOutcome(PRIVATE_HEADER_LEN,
      [Chunk(ControlFrame(8)), Chunk(EncodeFrame(GENERIC_DATA, [7], AdoptedHeaderSize(PRIVATE_HEADER_LEN, 8)))]) ==
      Step(Data([7]), 16, [])
  {
    ControlFrameOfEight();
    var good := EncodeFrame(GENERIC_DATA, [7], AdoptedHeaderSize(PRIVATE_HEADER_LEN, 8));
    var input := [Chunk(ControlFrame(8)), Chunk(good)];
    assert input[1..] == [Chunk(good)] && input[1..][1..] == [];
    assert Concat(input[1..]) == good + [];
    assert Concat(input) == ControlFrame(8) + good;
    AlignedChunks(input, []);
    assert input + [] == input;
    RenegotiationRoundTrip(PRIVATE_HEADER_LEN, 8, [7], input, []);
  }

  /** One chunk of bytes, followed by more, delivers exactly those bytes. */
  lemma SingleChunk(bytes: seq<byte>, more: seq<ReadResult>)
    requires bytes != []
    ensures Aligned([Chunk(bytes)] + more, bytes, more)
  {
    var chunks := [Chunk(bytes)];
    assert Concat(chunks) == bytes by { assert chunks[1..] == []; }
    AlignedChunks(chunks, more);
  }

  /** The receiver at header size 16 given two 9-byte frames of size 8. */
  lemma SizeSixteenReceivesZero(f7: seq<byte>, f9: seq<byte>)
    requires f7 == [0, 0, 0, 0, 1, 0, 0, 0, 7] && f9 == [0, 0, 0, 0, 1, 0, 0, 0, 9]
    ensures DataOutcome(16, [Chunk(f7), Chunk(f9)]) == Step(Data([0]), 16, [Chunk([9])])
  {
    FirstFrameWords(f7, f9);
    HeaderCompletedFromNext(f7, f9);
    PayloadFromNext();
    assert GenericOutcome(16, 1, f7[..8], [Chunk([7]), Chunk(f9)]) == Step(Data([0]), 16, [Chunk([9])]);
  }

  /** The header wait takes the two words of the first frame and leaves its
      payload byte in the socket. */
  lemma FirstFrameWords(f7: seq<byte>, f9: seq<byte>)
    requires f7 == [0, 0, 0, 0, 1, 0, 0, 0, 7]
    ensures FrameOutcome(16, [Chunk(f7), Chunk(f9)]) == GenericOutcome(16, 1, f7[..8], [Chunk([7]), Chunk(f9)])
  {
    var input := [Chunk(f7), Chunk(f9)];
    assert f7[8..] == [7] && input[1..] == [Chunk(f9)];
    assert Read(8, input) == Delivery(Chunk(f7[..8]), [Chunk([7]), Chunk(f9)]);
    assert AwaitBytes(8, 8, [], input) == Filled(f7[..8], [Chunk([7]), Chunk(f9)]);
    FrameOfOne(7);
    DecodeEncodeFrame(GENERIC_DATA, [7], PRIVATE_HEADER_LEN);
    DecodeHeaderPrefix(f7[..8], f7);
  }

  lemma HeaderCompletedFromNext(f7: seq<byte>, f9: seq<byte>)
    requires f7 == [0, 0, 0, 0, 1, 0, 0, 0, 7] && f9 == [0, 0, 0, 0, 1, 0, 0, 0, 9]
    ensures AwaitBytes(16, 16, f7[..8], [Chunk([7]), Chunk(f9)]) == Filled(f7 + f9[..7], [Chunk([0, 9])])
  {
    var input := [Chunk([7]), Chunk(f9)];
    assert input[1..] == [Chunk(f9)];
    assert Read(8, input) == Delivery(Chunk([7]), [Chunk(f9)]);
    assert f7[..8] + [7] == f7;
    AwaitUnfold(16, 16, f7[..8], input);
    assert AwaitBytes(16, 16, f7[..8], input) == AwaitBytes(16, 16, f7, [Chunk(f9)]);
    assert f9[7..] == [0, 9];
    assert [Chunk(f9[7..])] + [Chunk(f9)][1..] == [Chunk([0, 9])];
    assert Read(7, [Chunk(f9)]) == Delivery(Chunk(f9[..7]), [Chunk([0, 9])]);
    AwaitUnfold(16, 16, f7, [Chunk(f9)]);
    assert AwaitBytes(16, 16, f7, [Chunk(f9)]) == AwaitBytes(16, 16, f7 + f9[..7], [Chunk([0, 9])]);
  }

  lemma PayloadFromNext()
    ensures FillPayload(1, [], [Chunk([0, 9])]) == Done([0], [Chunk([9])])
  {
    var tail: seq<byte> := [0, 9];
    assert tail[..1] == [0] && tail[1..] == [9];
    assert [Chunk(tail[1..])] + [Chunk(tail)][1..] == [Chunk([9])];
    assert Read(1, [Chunk(tail)]) == Delivery(Chunk([0]), [Chunk([9])]);
  }

  /** A reply [7] framed at header size 16 in the documented layout (zeroed
      reserved bytes) and decoded at 8 by the corrected receiver: the header
      words say one payload byte, and that byte is the first reserved one. */
  lemma ReplyAtSixteen()
    ensures FrameOutcome(PRIVATE_HEADER_LEN, [Chunk(EncodeFrame(GENERIC_DATA, [7], 16))]).receipt == Data([0])
  {
    var g := EncodeFrame(GENERIC_DATA, [7], 16);
    assert EncodeWord(GENERIC_DATA) == [0, 0, 0, 0];
    assert EncodeWord(1) == [1, 0, 0, 0];
    assert g == [0, 0, 0, 0, 1, 0, 0, 0] + seq(8, _ => 0) + [7];
    var rest := [Chunk(g[8..])];
    assert [Chunk(g[8..])] + [Chunk(g)][1..] == rest;
    assert Read(8, [Chunk(g)]) == Delivery(Chunk(g[..8]), rest);
    assert AwaitBytes(8, 8, [], [Chunk(g)]) == Filled(g[..8], rest);
    DecodeEncodeFrame(GENERIC_DATA, [7], 16);
    DecodeHeaderPrefix(g[..8], g);
    assert FrameOutcome(8, [Chunk(g)]) == GenericOutcome(8, 1, g[..8], rest);
    assert AwaitBytes(8, 8, g[..8], rest) == Filled(g[..8], rest);
    var tail := [Chunk(g[9..])];
    assert g[8..][..1] == [0] && g[8..][1..] == g[9..];
    assert [Chunk(g[8..][1..])] + rest[1..] == tail;
    assert Read(1, rest) == Delivery(Chunk([0]), tail);
    assert FillPayload(1, [], rest) == FillPayload(1, [0], tail);
    assert FillPayload(1, [], rest) == Done([0], tail);
  }

  // ---------------------------------------------------------------------------
  // sendData's buffer (lines 108-110)

  /** sendData's buffer as written: len in word 0, the payload from byte 4 and
      then the header_size - 4 bytes that malloc left as they were, unset. */
  function SendBufferAsWritten(payload: seq<byte>, headerSize: u32, unset: seq<byte>): (b: seq<byte>)
    requires headerSize >= PRIVATE_HEADER_LEN && headerSize + |payload| < 0x1_0000_0000
    requires |unset| == headerSize - WORD_LEN
    ensures |b| == |payload| + headerSize
    ensures b[..WORD_LEN] == EncodeWord(|payload|) && b[WORD_LEN..WORD_LEN + |payload|] == payload
  {
    EncodeWord(|payload|) + payload + unset
  }

  /** The receiver takes the payload length for the kind. */
  lemma SendKindIsLength(payload: seq<byte>, headerSize: u32, unset: seq<byte>)
    requires headerSize >= PRIVATE_HEADER_LEN && headerSize + |payload| < 0x1_0000_0000
    requires |unset| == headerSize - WORD_LEN
    ensures DecodeHeader(SendBufferAsWritten(payload, headerSize, unset)).kind == |payload|
  {
    var b := SendBufferAsWritten(payload, headerSize, unset);
    assert b[..WORD_LEN] == EncodeWord(|payload|);
    DecodeEncodeWord(|payload|);
  }

  /** The buffer sendData writes, read by the corrected receiver: every
      message of two or more bytes, in any chunking, at any receiver header
      size and whatever the unset bytes hold, is refused as an unknown kind.
      (The source's own first read, which goes on after fewer than 4 bytes,
      would decode the kind partly from stale receive-buffer bytes.) */
  lemma SentMessageRefused(payload: seq<byte>, headerSize: u32, unset: seq<byte>, receiverSize: u32,
                           input: seq<ReadResult>, more: seq<ReadResult>)
    requires headerSize >= PRIVATE_HEADER_LEN && headerSize + |payload| < 0x1_0000_0000 && |payload| >= 2
    requires |unset| == headerSize - WORD_LEN && receiverSize >= PRIVATE_HEADER_LEN
    requires Aligned(input, SendBufferAsWritten(payload, headerSize, unset), more)
    ensures FrameOutcome(receiverSize, input).receipt == Error(UnknownKind(|payload|))
  {
    var b := SendBufferAsWritten(payload, headerSize, unset);
    assert b[0..] == b;
    AwaitAligned(PRIVATE_HEADER_LEN, PRIVATE_HEADER_LEN, [], input, b, more);
    var a := AwaitBytes(PRIVATE_HEADER_LEN, PRIVATE_HEADER_LEN, [], input);
    assert a.got[..PRIVATE_HEADER_LEN] == b[..PRIVATE_HEADER_LEN];
    DecodeHeaderPrefix(a.got, b);
    SendKindIsLength(payload, headerSize, unset);
  }

  /** The buffer sendData writes for the one-byte message [200], read by the
      corrected receiver, is taken for a header length update: whatever the
      unset bytes hold, the receiver switches to a header size of at least
      200, read from 200 and the first three unset bytes, and retries with
      the last unset byte as the start of the next header. (The source's own
      first read takes all 9 bytes and drops the last one.) */
  lemma OneByteMessageRenegotiates(unset: seq<byte>)
    requires |unset| == PRIVATE_HEADER_LEN - WORD_LEN
    ensures SendBufferAsWritten([200], PRIVATE_HEADER_LEN, unset) == [1, 0, 0, 0, 200] + unset
    ensures DecodeWord([200] + unset) >= 200
    ensures FrameOutcome(PRIVATE_HEADER_LEN, [Chunk(SendBufferAsWritten([200], PRIVATE_HEADER_LEN, unset))]) ==
      Step(Retry, DecodeWord([200] + unset), [Chunk(unset[3..])])
  {
    var b := OneByteBuffer(unset);
    var input := [Chunk(b)];
    assert b[8..] == unset[3..];
    assert Read(PRIVATE_HEADER_LEN, input) == Delivery(Chunk(b[..8]), [Chunk(unset[3..])]);
    assert AwaitBytes(PRIVATE_HEADER_LEN, PRIVATE_HEADER_LEN, [], input) == Filled(b[..8], [Chunk(unset[3..])]);
    DecodeHeaderPrefix(b[..8], b);
  }

  lemma OneByteBuffer(unset: seq<byte>) returns (b: seq<byte>)
    requires |unset| == PRIVATE_HEADER_LEN - WORD_LEN
    ensures b == SendBufferAsWritten([200], PRIVATE_HEADER_LEN, unset) && b == [1, 0, 0, 0, 200] + unset
    ensures |b| >= PRIVATE_HEADER_LEN
    ensures DecodeHeader(b) == Header(HEADER_LENGTH_UPDATE, DecodeWord([200] + unset))
    ensures DecodeWord([200] + unset) >= 200
  {
    assert EncodeWord(1) == [1, 0, 0, 0];
    b := [1, 0, 0, 0, 200] + unset;
    assert b[..WORD_LEN] == [1, 0, 0, 0];
    assert b[WORD_LEN..PRIVATE_HEADER_LEN] == ([200] + unset)[..WORD_LEN];
  }

  /** Corrected, the same one-byte message is delivered as data. */
  lemma OneByteMessageDelivered()
    ensures FrameOutcome(PRIVATE_HEADER_LEN, [Chunk(EncodeFrame(GENERIC_DATA, [200], PRIVATE_HEADER_LEN))]) ==
      Step(Data([200]), PRIVATE_HEADER_LEN, [])
  {
    var frame := EncodeFrame(GENERIC_DATA, [200], PRIVATE_HEADER_LEN);
    OneChunk(frame);
    WholeFrameDelivered([200], [Chunk(frame)]);
  }
}

/** The receive side of a connection as functions of its header size and the
    results its socket's reads return: `_recvData` (FrameOutcome) takes one
    frame off the stream, `recvData` (DataOutcome) repeats it past control
    frames. */
module Receive {
  import opened Frame
  import opened Stream

  datatype Failure =
    | ReadFailed                 // a read of the payload returned an error
    | ConnectionClosed           // the stream ended before the payload was complete
    | UnknownKind(kind: u32)     // the kind word is neither generic_data nor header_length_update
    | BadHeaderSize(size: u32)   // a header length update below PRIVATE_HEADER_LEN

  /** The tagged result that replaces the source's (returned buffer, out_len) pair:
      null with out_len 0 is an error, null with out_len (uint32_t)-1 a retry.
      Blocked stands for a read that never returns: the input ran out while
      the source would still be waiting. */
  datatype Receipt = Data(payload: seq<byte>) | Retry | Error(failure: Failure) | Blocked

  /** The scratch bytes once enough have arrived, with the reads still to come. */
  datatype Await = Filled(got: seq<byte>, rest: seq<ReadResult>) | Exhausted

  /** Reads into a buffer of limit bytes, holding got so far, until it holds at
      least need bytes. Each read asks for no more than the space left, so
      with limit equal to need the wait takes exactly need bytes and leaves
      what follows in the socket. Like the source's `while (read(...) <= 0)`
      loop, failed and empty reads are passed over. */
  function AwaitBytes(need: nat, limit: nat, got: seq<byte>, input: seq<ReadResult>): (a: Await)
    requires need <= limit && |got| <= limit
    ensures a.Filled? ==> need <= |a.got| <= limit && |got| <= |a.got|
    ensures a.Filled? ==> Weight(a.rest) <= Weight(input)
    ensures a.Filled? && |got| < need ==> Weight(a.rest) < Weight(input)
    decreases Weight(input)
  {
    if |got| >= need then Filled(got, input)
    else if input == [] then Exhausted
    else
      var d := Read(limit - |got|, input);
      AwaitBytes(need, limit, got + Bytes(d.result), d.rest)
  }

  lemma Regroup(got: seq<byte>, x: seq<byte>, r: seq<byte>, whole: seq<byte>)
    requires x + r == whole
    ensures (got + x) + r == got + whole
  {
  }

  /** The wait loses no byte: the scratch followed by what is left of the
      stream is the scratch it started with followed by the whole stream. */
  lemma {:induction false} AwaitConserves(need: nat, limit: nat, got: seq<byte>, input: seq<ReadResult>)
    requires need <= limit && |got| <= limit
    ensures var a := AwaitBytes(need, limit, got, input);
      a.Filled? ==> a.got + Concat(a.rest) == got + Concat(input)
    decreases Weight(input)
  {
    if |got| < need && input != [] {
      var d := Read(limit - |got|, input);
      AwaitUnfold(need, limit, got, input);
      ReadConserves(limit - |got|, input);
      Regroup(got, Bytes(d.result), Concat(d.rest), Concat(input));
      AwaitConserves(need, limit, got + Bytes(d.result), d.rest);
    }
  }

  /** The payload once complete, an error, or starved of input. */
  datatype Fill = Done(payload: seq<byte>, rest: seq<ReadResult>) | Failed(failure: Failure, rest: seq<ReadResult>) | Starved

  /** The reassembly loop: reads into the rest of a len-byte buffer that holds
      got, never asking for more than the space left, until it is full. */
  function FillPayload(len: nat, got: seq<byte>, input: seq<ReadResult>): (f: Fill)
    requires |got| <= len
    ensures f.Done? ==> |f.payload| == len
    ensures !f.Starved? ==> Weight(f.rest) <= Weight(input)
    ensures f.Failed? ==> f.failure == ReadFailed || f.failure == ConnectionClosed
    decreases Weight(input)
  {
    if |got| == len then Done(got, input)
    else if input == [] then Starved
    else
      var d := Read(len - |got|, input);
      match d.result
      case ReadError => Failed(ReadFailed, d.rest)
      case Chunk(data) =>
        if data == [] then Failed(ConnectionClosed, d.rest)
        else
          FillPayload(len, got + data, d.rest)
  }

  /** Reassembly loses no byte: a complete payload followed by what is left of
      the stream is what it started with followed by the whole stream. */
  lemma {:induction false} FillConserves(len: nat, got: seq<byte>, input: seq<ReadResult>)
    requires |got| <= len
    ensures var f := FillPayload(len, got, input);
      f.Done? ==> f.payload + Concat(f.rest) == got + Concat(input)
    decreases Weight(input)
  {
    if |got| < len && input != [] {
      var d := Read(len - |got|, input);
      if d.result.Chunk? && d.result.data != [] {
        FillStep(len, got, input);
        ReadConserves(len - |got|, input);
        Regroup(got, d.result.data, Concat(d.rest), Concat(input));
        FillConserves(len, got + d.result.data, d.rest);
      }
    }
  }

  /** What one receive call yields, the header size afterwards, and the reads
      it left unconsumed. */
  datatype Step = Step(receipt: Receipt, headerSize: u32, rest: seq<ReadResult>)

  /** A generic frame of len payload bytes whose first header bytes are in
      scratch: complete the header (its reserved bytes are read and dropped),
      then reassemble the payload in a buffer of len bytes. */
  function GenericOutcome(headerSize: u32, len: u32, scratch: seq<byte>, input: seq<ReadResult>): (s: Step)
    requires headerSize >= PRIVATE_HEADER_LEN && |scratch| <= headerSize
    ensures s.headerSize == headerSize && !s.receipt.Retry?
    ensures Weight(s.rest) <= Weight(input)
    ensures s.receipt.Data? ==> |s.receipt.payload| == len
    ensures s.receipt.Error? ==> s.receipt.failure == ReadFailed || s.receipt.failure == ConnectionClosed
  {
    match AwaitBytes(headerSize, headerSize, scratch, input)
    case Exhausted => Step(Blocked, headerSize, [])
    case Filled(_, rest) =>
      match FillPayload(len, [], rest)
      case Done(payload, rest') => Step(Data(payload), headerSize, rest')
      case Failed(failure, rest') => Step(Error(failure), headerSize, rest')
      case Starved => Step(Blocked, headerSize, [])
  }

  /** `_recvData` once the two header words are in scratch: dispatch on the
      kind. A header length update of at least PRIVATE_HEADER_LEN becomes the
      header size and asks for a retry; a smaller one is an error and changes
      nothing. */
  function Dispatch(headerSize: u32, scratch: seq<byte>, rest: seq<ReadResult>): (s: Step)
    requires headerSize >= PRIVATE_HEADER_LEN && |scratch| == PRIVATE_HEADER_LEN
    ensures s.headerSize >= PRIVATE_HEADER_LEN
    ensures s.headerSize != headerSize ==> s.receipt.Retry?
    ensures Weight(s.rest) <= Weight(rest)
  {
    var h := DecodeHeader(scratch);
    if h.kind == GENERIC_DATA then
      GenericOutcome(headerSize, h.length, scratch, rest)
    else if h.kind == HEADER_LENGTH_UPDATE then
      if h.length >= PRIVATE_HEADER_LEN then Step(Retry, h.length, rest)
      else Step(Error(BadHeaderSize(h.length)), headerSize, rest)
    else
      Step(Error(UnknownKind(h.kind)), headerSize, rest)
  }

  /** `_recvData`: wait for the two header words, then dispatch on the kind.
      The wait reads no further than the two words. */
  function FrameOutcome(headerSize: u32, input: seq<ReadResult>): (s: Step)
    requires headerSize >= PRIVATE_HEADER_LEN
    ensures s.headerSize >= PRIVATE_HEADER_LEN
    ensures s.headerSize != headerSize ==> s.receipt.Retry?
    ensures Weight(s.rest) <= Weight(input)
    ensures s.receipt.Retry? ==> Weight(s.rest) < Weight(input)
  {
    match AwaitBytes(PRIVATE_HEADER_LEN, PRIVATE_HEADER_LEN, [], input)
    case Exhausted => Step(Blocked, headerSize, [])
    case Filled(scratch, rest) => Dispatch(headerSize, scratch, rest)
  }

  /** `recvData`: take frames until one is not a control frame. The caller
      never sees a retry. */
  function DataOutcome(headerSize: u32, input: seq<ReadResult>): (s: Step)
    requires headerSize >= PRIVATE_HEADER_LEN
    ensures !s.receipt.Retry?
    ensures s.headerSize >= PRIVATE_HEADER_LEN
    ensures Weight(s.rest) <= Weight(input)
    decreases Weight(input)
  {
    var s := FrameOutcome(headerSize, input);
    if s.receipt.Retry? then DataOutcome(s.headerSize, s.rest) else s
  }

  // ---------------------------------------------------------------------------
  // What a receive call delivers, in terms of the bytes of the stream

  lemma PrefixOfAppend(p: seq<byte>, r: seq<byte>, b: seq<byte>)
    requires p + r == b
    ensures |p| <= |b| && p == b[..|p|] && r == b[|p|..]
  {
  }

  /** The payload of a generic frame is the len bytes of the stream that follow
      its header: no short, long or shifted payload. */
  lemma GenericOutcomeSlice(headerSize: u32, len: u32, scratch: seq<byte>, input: seq<ReadResult>)
    requires headerSize >= PRIVATE_HEADER_LEN && |scratch| <= headerSize
    ensures var s := GenericOutcome(headerSize, len, scratch, input);
      var bytes := scratch + Concat(input);
      s.receipt.Data? ==> |bytes| >= headerSize + len && s.receipt.payload == bytes[headerSize..headerSize + len]
  {
    var a := AwaitBytes(headerSize, headerSize, scratch, input);
    AwaitConserves(headerSize, headerSize, scratch, input);
    if a.Filled? {
      PayloadAfterHeader(headerSize, len, a.got, a.rest, scratch + Concat(input));
    }
  }

  /** The payload reassembled after a header of headerSize bytes is the len
      bytes that follow the header. */
  lemma PayloadAfterHeader(headerSize: nat, len: nat, header: seq<byte>, input: seq<ReadResult>, bytes: seq<byte>)
    requires |header| == headerSize && header + Concat(input) == bytes
    ensures var f := FillPayload(len, [], input);
      f.Done? ==> |bytes| >= headerSize + len && f.payload == bytes[headerSize..headerSize + len]
  {
    var f := FillPayload(len, [], input);
    FillConserves(len, [], input);
    if f.Done? {
      assert [] + Concat(input) == Concat(input);
      PrefixOfAppend(header, Concat(input), bytes);
      PrefixOfAppend(f.payload, Concat(f.rest), Concat(input));
    }
  }

  /** The step delivers data only when bytes start with a generic_data
      header, and the data is the declared number of bytes after the
      headerSize bytes of the header. */
  ghost predicate DataFromStream(s: Step, headerSize: nat, bytes: seq<byte>)
  {
    s.receipt.Data? ==>
      |bytes| >= PRIVATE_HEADER_LEN && DecodeHeader(bytes).kind == GENERIC_DATA &&
      |bytes| >= headerSize + DecodeHeader(bytes).length &&
      s.receipt.payload == bytes[headerSize..headerSize + DecodeHeader(bytes).length]
  }

  lemma DispatchData(headerSize: u32, scratch: seq<byte>, rest: seq<ReadResult>, bytes: seq<byte>)
    requires headerSize >= PRIVATE_HEADER_LEN && |scratch| == PRIVATE_HEADER_LEN
    requires scratch + Concat(rest) == bytes && |bytes| >= PRIVATE_HEADER_LEN
    requires DecodeHeader(scratch) == DecodeHeader(bytes)
    ensures DataFromStream(Dispatch(headerSize, scratch, rest), headerSize, bytes)
  {
    var h := DecodeHeader(scratch);
    if h.kind == GENERIC_DATA {
      GenericOutcomeSlice(headerSize, h.length, scratch, rest);
    }
  }

  /** What `_recvData` yields as data is determined by the first bytes of the
      stream: only a generic_data header gives data, and it is exactly the
      declared number of bytes after the header. */
  lemma FrameDataDecodes(headerSize: u32, input: seq<ReadResult>)
    requires headerSize >= PRIVATE_HEADER_LEN
    ensures DataFromStream(FrameOutcome(headerSize, input), headerSize, Concat(input))
  {
    var a := AwaitBytes(PRIVATE_HEADER_LEN, PRIVATE_HEADER_LEN, [], input);
    if a.Filled? {
      HeaderOfStream(input);
      DispatchData(headerSize, a.got, a.rest, Concat(input));
    }
  }

  /** A retry or a header error names the header it came from. */
  lemma DispatchControl(headerSize: u32, scratch: seq<byte>, rest: seq<ReadResult>)
    requires headerSize >= PRIVATE_HEADER_LEN && |scratch| == PRIVATE_HEADER_LEN
    ensures var s := Dispatch(headerSize, scratch, rest);
      var h := DecodeHeader(scratch);
      (s.receipt.Retry? ==> h == Header(HEADER_LENGTH_UPDATE, s.headerSize)) &&
      (s.receipt.Error? && s.receipt.failure.BadHeaderSize? ==>
        h == Header(HEADER_LENGTH_UPDATE, s.receipt.failure.size) && s.receipt.failure.size < PRIVATE_HEADER_LEN) &&
      (s.receipt.Error? && s.receipt.failure.UnknownKind? ==>
        h.kind == s.receipt.failure.kind && h.kind != GENERIC_DATA && h.kind != HEADER_LENGTH_UPDATE)
  {
  }

  /** A retry or a header error from `_recvData` names the header at the start
      of the stream: a retry only for a header length update, whose length is
      the new header size; a bad size only for a header length update below
      PRIVATE_HEADER_LEN; an unknown kind only for a kind that is neither. */
  lemma FrameControlDecodes(headerSize: u32, input: seq<ReadResult>)
    requires headerSize >= PRIVATE_HEADER_LEN
    ensures var s := FrameOutcome(headerSize, input);
      var bytes := Concat(input);
      (s.receipt.Retry? ==>
        |bytes| >= PRIVATE_HEADER_LEN &&
        DecodeHeader(bytes) == Header(HEADER_LENGTH_UPDATE, s.headerSize)) &&
      (s.receipt.Error? && s.receipt.failure.BadHeaderSize? ==>
        |bytes| >= PRIVATE_HEADER_LEN &&
        DecodeHeader(bytes) == Header(HEADER_LENGTH_UPDATE, s.receipt.failure.size) &&
        s.receipt.failure.size < PRIVATE_HEADER_LEN) &&
      (s.receipt.Error? && s.receipt.failure.UnknownKind? ==>
        |bytes| >= PRIVATE_HEADER_LEN &&
        DecodeHeader(bytes).kind == s.receipt.failure.kind &&
        s.receipt.failure.kind != GENERIC_DATA && s.receipt.failure.kind != HEADER_LENGTH_UPDATE)
  {
    var a := AwaitBytes(PRIVATE_HEADER_LEN, PRIVATE_HEADER_LEN, [], input);
    if a.Filled? {
      HeaderOfStream(input);
      DispatchControl(headerSize, a.got, a.rest);
    }
  }

  /** The header `_recvData` decodes is the one at the start of the stream. */
  lemma HeaderOfStream(input: seq<ReadResult>)
    ensures var a := AwaitBytes(PRIVATE_HEADER_LEN, PRIVATE_HEADER_LEN, [], input);
      a.Filled? ==> |a.got| == PRIVATE_HEADER_LEN
    ensures var a := AwaitBytes(PRIVATE_HEADER_LEN, PRIVATE_HEADER_LEN, [], input);
      a.Filled? ==> a.got + Concat(a.rest) == Concat(input)
    ensures var a := AwaitBytes(PRIVATE_HEADER_LEN, PRIVATE_HEADER_LEN, [], input);
      a.Filled? ==> |Concat(input)| >= PRIVATE_HEADER_LEN && DecodeHeader(a.got) == DecodeHeader(Concat(input))
  {
    var a := AwaitBytes(PRIVATE_HEADER_LEN, PRIVATE_HEADER_LEN, [], input);
    if a.Filled? {
      AwaitConserves(PRIVATE_HEADER_LEN, PRIVATE_HEADER_LEN, [], input);
      assert [] + Concat(input) == Concat(input);
      HeaderPrefixAgrees(a.got, Concat(a.rest), Concat(input));
    }
  }

  lemma HeaderPrefixAgrees(p: seq<byte>, r: seq<byte>, b: seq<byte>)
    requires p + r == b && |p| >= PRIVATE_HEADER_LEN
    ensures |b| >= PRIVATE_HEADER_LEN && DecodeHeader(p) == DecodeHeader(b)
  {
    assert p[..PRIVATE_HEADER_LEN] == b[..PRIVATE_HEADER_LEN];
    DecodeHeaderPrefix(p, b);
  }

  // ---------------------------------------------------------------------------
  // Frames that arrive whole: round trips

  /** Growing a prefix of whole by the next bytes of whole keeps a prefix. */
  lemma PrefixGrows(whole: seq<byte>, got: seq<byte>, x: seq<byte>)
    requires |got| <= |whole| && got == whole[..|got|]
    requires |x| <= |whole| - |got| && x == whole[|got|..][..|x|]
    ensures got + x == whole[..|got| + |x|]
    ensures whole[|got|..][|x|..] == whole[|got| + |x|..]
  {
  }

  /** One read of the waiting loop. */
  lemma AwaitUnfold(need: nat, limit: nat, got: seq<byte>, input: seq<ReadResult>)
    requires need <= limit && |got| < need && input != []
    ensures var d := Read(limit - |got|, input);
      |got + Bytes(d.result)| <= limit &&
      AwaitBytes(need, limit, got, input) == AwaitBytes(need, limit, got + Bytes(d.result), d.rest)
  {
  }

  /** One read of the reassembly loop. */
  lemma FillStep(len: nat, got: seq<byte>, input: seq<ReadResult>)
    requires |got| < len && input != []
    ensures Read(len - |got|, input).result.ReadError? ==>
      FillPayload(len, got, input) == Failed(ReadFailed, Read(len - |got|, input).rest)
    ensures Read(len - |got|, input).result == Chunk([]) ==>
      FillPayload(len, got, input) == Failed(ConnectionClosed, Read(len - |got|, input).rest)
    ensures Read(len - |got|, input).result.Chunk? && Read(len - |got|, input).result.data != [] ==>
      FillPayload(len, got, input) == FillPayload(len, got + Read(len - |got|, input).result.data, Read(len - |got|, input).rest)
  {
  }

  /** A read from a stream aligned with the rest of whole extends a prefix of
      whole by a non-empty piece of it, and the stream stays aligned. */
  lemma AlignedAdvance(cap: nat, got: seq<byte>, input: seq<ReadResult>, whole: seq<byte>, more: seq<ReadResult>)
    requires 0 < cap && |got| < |whole| && got == whole[..|got|]
    requires Aligned(input, whole[|got|..], more)
    ensures input != [] && Read(cap, input).result.Chunk?
    ensures var grown := got + Bytes(Read(cap, input).result);
      |got| < |grown| <= |whole| && grown == whole[..|grown|]
    ensures var grown := got + Bytes(Read(cap, input).result);
      |grown| <= |whole| ==> Aligned(Read(cap, input).rest, whole[|grown|..], more)
  {
    AlignedRead(cap, input, whole[|got|..], more);
    PrefixGrows(whole, got, Read(cap, input).result.data);
  }

  /** The wait filled the scratch with a prefix of whole and left the stream
      aligned with the remainder of whole. */
  ghost predicate FilledFrom(a: Await, whole: seq<byte>, more: seq<ReadResult>)
  {
    a.Filled? && |a.got| <= |whole| && a.got == whole[..|a.got|] &&
    Aligned(a.rest, whole[|a.got|..], more)
  }

  /** Waiting on an aligned stream that holds enough bytes always fills: with
      got a prefix of whole and the stream delivering the rest of whole, the
      scratch stays a prefix of whole and the stream stays aligned with what
      of whole it has not yet delivered. */
  lemma {:induction false} AwaitAligned(need: nat, limit: nat, got: seq<byte>, input: seq<ReadResult>, whole: seq<byte>, more: seq<ReadResult>)
    requires need <= limit && |got| <= limit && need <= |whole|
    requires |got| <= |whole| && got == whole[..|got|]
    requires Aligned(input, whole[|got|..], more)
    ensures FilledFrom(AwaitBytes(need, limit, got, input), whole, more)
    decreases Weight(input)
  {
    if |got| < need {
      AlignedAdvance(limit - |got|, got, input, whole, more);
      AwaitUnfold(need, limit, got, input);
      var d := Read(limit - |got|, input);
      AwaitAligned(need, limit, got + Bytes(d.result), d.rest, whole, more);
    }
  }

  /** Reassembly on an aligned stream completes with the next bytes of whole,
      len in all, and leaves the stream delivering the bytes after them. */
  lemma {:induction false} FillAligned(len: nat, got: seq<byte>, input: seq<ReadResult>, whole: seq<byte>, more: seq<ReadResult>)
    requires len <= |whole| && |got| <= len && got == whole[..|got|]
    requires Aligned(input, whole[|got|..], more)
    ensures var f := FillPayload(len, got, input);
      f.Done? && f.payload == whole[..len] && Aligned(f.rest, whole[len..], more)
    decreases Weight(input)
  {
    if |got| < len {
      AlignedAdvance(len - |got|, got, input, whole, more);
      var d := Read(len - |got|, input);
      assert Bytes(d.result) == d.result.data;
      FillStep(len, got, input);
      FillAligned(len, got + d.result.data, d.rest, whole, more);
    }
  }

  /** The generic half of the round trip: from a scratch that starts the
      frame, the rest of the frame completes the payload, and the stream is
      left delivering exactly what follows the frame. */
  lemma GenericAligned(headerSize: u32, payload: Payload, after: seq<byte>, scratch: seq<byte>,
                       input: seq<ReadResult>, more: seq<ReadResult>)
    requires headerSize >= PRIVATE_HEADER_LEN
    requires var whole := EncodeFrame(GENERIC_DATA, payload, headerSize) + after;
      |scratch| <= headerSize && scratch == whole[..|scratch|] && Aligned(input, whole[|scratch|..], more)
    ensures var s := GenericOutcome(headerSize, |payload|, scratch, input);
      s.receipt == Data(payload) && s.headerSize == headerSize && Aligned(s.rest, after, more)
  {
    var whole := EncodeFrame(GENERIC_DATA, payload, headerSize) + after;
    AwaitAligned(headerSize, headerSize, scratch, input, whole, more);
    var a := AwaitBytes(headerSize, headerSize, scratch, input);
    var body := whole[headerSize..];
    assert body == payload + after;
    assert whole[|a.got|..] == body;
    assert body[..0] == [];
    FillAligned(|payload|, [], a.rest, body, more);
    assert body[..|payload|] == payload && body[|payload|..] == after;
  }

  /** Round trip: a generic frame followed by any further bytes, all
      delivered in any chunking and read with the header size the frame was
      encoded with, yields exactly its payload and leaves the stream
      delivering exactly the bytes after the frame. */
  lemma GenericFrameRoundTrip(headerSize: u32, payload: Payload, after: seq<byte>,
                              input: seq<ReadResult>, more: seq<ReadResult>)
    requires headerSize >= PRIVATE_HEADER_LEN
    requires Aligned(input, EncodeFrame(GENERIC_DATA, payload, headerSize) + after, more)
    ensures var s := FrameOutcome(headerSize, input);
      s.receipt == Data(payload) && s.headerSize == headerSize && Aligned(s.rest, after, more)
    ensures after == [] ==> FrameOutcome(headerSize, input) == Step(Data(payload), headerSize, more)
    ensures DataOutcome(headerSize, input) == FrameOutcome(headerSize, input)
  {
    var frame := EncodeFrame(GENERIC_DATA, payload, headerSize);
    var whole := frame + after;
    assert whole[0..] == whole;
    AwaitAligned(PRIVATE_HEADER_LEN, PRIVATE_HEADER_LEN, [], input, whole, more);
    var a := AwaitBytes(PRIVATE_HEADER_LEN, PRIVATE_HEADER_LEN, [], input);
    DecodeEncodeFrame(GENERIC_DATA, payload, headerSize);
    assert a.got[..PRIVATE_HEADER_LEN] == frame[..PRIVATE_HEADER_LEN];
    DecodeHeaderPrefix(a.got, frame);
    GenericAligned(headerSize, payload, after, a.got, a.rest, more);
    if after == [] {
      AlignedEmpty(FrameOutcome(headerSize, input).rest, more);
    }
  }

  /** A control frame, whatever the receiver's header size, is consumed whole
      and nothing after it is read: an announced size of at least
      PRIVATE_HEADER_LEN becomes the header size with a retry, a smaller one
      is an error that leaves the size as it was. Either way the receiver
      ends at the size the sender adopts. */
  lemma ControlFrameOutcome(headerSize: u32, size: u32, after: seq<byte>, input: seq<ReadResult>, more: seq<ReadResult>)
    requires headerSize >= PRIVATE_HEADER_LEN
    requires Aligned(input, ControlFrame(size) + after, more)
    ensures var s := FrameOutcome(headerSize, input);
      s.receipt == (if AnnouncedHeaderSize(size) >= PRIVATE_HEADER_LEN then Retry
                    else Error(BadHeaderSize(AnnouncedHeaderSize(size)))) &&
      s.headerSize == AdoptedHeaderSize(headerSize, size) &&
      Aligned(s.rest, after, more)
  {
    var frame := ControlFrame(size);
    var whole := frame + after;
    assert whole[0..] == whole;
    AwaitAligned(PRIVATE_HEADER_LEN, PRIVATE_HEADER_LEN, [], input, whole, more);
    var a := AwaitBytes(PRIVATE_HEADER_LEN, PRIVATE_HEADER_LEN, [], input);
    assert a.got == frame;
    assert whole[|a.got|..] == after;
  }

  /** Renegotiation: the sender writes the control frame for size and then a
      generic frame at the size it adopted, in any chunking (the two may share
      a read). An acceptable size is taken over by the receiver and the
      payload arrives with it; one that wraps is reported as an error, both
      ends keep their size, and the next receive delivers the payload. */
  lemma RenegotiationRoundTrip(headerSize: u32, size: u32, payload: Payload,
                               input: seq<ReadResult>, more: seq<ReadResult>)
    requires headerSize >= PRIVATE_HEADER_LEN
    requires Aligned(input, ControlFrame(size) + EncodeFrame(GENERIC_DATA, payload, AdoptedHeaderSize(headerSize, size)), more)
    ensures AnnouncedHeaderSize(size) >= PRIVATE_HEADER_LEN ==>
      DataOutcome(headerSize, input) == Step(Data(payload), AdoptedHeaderSize(headerSize, size), more)
    ensures var s := DataOutcome(headerSize, input);
      AnnouncedHeaderSize(size) < PRIVATE_HEADER_LEN ==>
      s.receipt == Error(BadHeaderSize(AnnouncedHeaderSize(size))) && s.headerSize == headerSize &&
      DataOutcome(headerSize, s.rest) == Step(Data(payload), headerSize, more)
  {
    var frame := EncodeFrame(GENERIC_DATA, payload, AdoptedHeaderSize(headerSize, size));
    ControlFrameOutcome(headerSize, size, frame, input, more);
    var s := FrameOutcome(headerSize, input);
    assert frame + [] == frame;
    GenericFrameRoundTrip(AdoptedHeaderSize(headerSize, size), payload, [], s.rest, more);
  }

  // ---------------------------------------------------------------------------
  // Whole sessions: every write of one end, read by the other

  /** What `_recvData` makes of the frame one write puts on the wire. */
  function FrameReceipt(op: Op): Receipt
  {
    match op
    case Send(payload) => Data(payload)
    case Announce(size) =>
      if AnnouncedHeaderSize(size) >= PRIVATE_HEADER_LEN then Retry
      else Error(BadHeaderSize(AnnouncedHeaderSize(size)))
  }

  function FrameReceipts(ops: seq<Op>): seq<Receipt>
  {
    if ops == [] then [] else [FrameReceipt(ops[0])] + FrameReceipts(ops[1..])
  }

  /** What `recvData` hands its caller for the writes ops: each message, and
      an error for each announcement the receiver refuses; accepted
      announcements are invisible. */
  function Delivered(ops: seq<Op>): (r: seq<Receipt>)
    ensures |r| <= |ops|
    ensures forall i :: 0 <= i < |r| ==> !r[i].Retry?
  {
    if ops == [] then []
    else if FrameReceipt(ops[0]).Retry? then Delivered(ops[1..])
    else [FrameReceipt(ops[0])] + Delivered(ops[1..])
  }

  /** The receipts of several calls in a row, the header size after them and
      the reads they left. */
  datatype Session = Session(receipts: seq<Receipt>, headerSize: u32, rest: seq<ReadResult>)

  /** n calls of `_recvData`, one after the other. */
  function FrameOutcomes(headerSize: u32, input: seq<ReadResult>, n: nat): (s: Session)
    requires headerSize >= PRIVATE_HEADER_LEN
    ensures |s.receipts| == n && s.headerSize >= PRIVATE_HEADER_LEN
    decreases n
  {
    if n == 0 then Session([], headerSize, input)
    else
      var first := FrameOutcome(headerSize, input);
      var others := FrameOutcomes(first.headerSize, first.rest, n - 1);
      Session([first.receipt] + others.receipts, others.headerSize, others.rest)
  }

  /** n calls of `recvData`, one after the other: none of them is a retry. */
  function DataOutcomes(headerSize: u32, input: seq<ReadResult>, n: nat): (s: Session)
    requires headerSize >= PRIVATE_HEADER_LEN
    ensures |s.receipts| == n && s.headerSize >= PRIVATE_HEADER_LEN
    ensures forall i :: 0 <= i < n ==> !s.receipts[i].Retry?
    decreases n
  {
    if n == 0 then Session([], headerSize, input)
    else
      var first := DataOutcome(headerSize, input);
      var others := DataOutcomes(first.headerSize, first.rest, n - 1);
      Session([first.receipt] + others.receipts, others.headerSize, others.rest)
  }

  /** One write, read in any chunking together with the bytes after it:
      `_recvData` gives its receipt, moves to the size the writer moved to,
      and reads nothing after it. */
  lemma OpOutcome(headerSize: u32, op: Op, after: seq<byte>, input: seq<ReadResult>, more: seq<ReadResult>)
    requires headerSize >= PRIVATE_HEADER_LEN
    requires Aligned(input, OpBytes(op, headerSize) + after, more)
    ensures var s := FrameOutcome(headerSize, input);
      s.receipt == FrameReceipt(op) && s.headerSize == AfterOp(op, headerSize) && Aligned(s.rest, after, more)
  {
    match op
    case Send(payload) => GenericFrameRoundTrip(headerSize, payload, after, input, more);
    case Announce(size) => ControlFrameOutcome(headerSize, size, after, input, more);
  }

  /** The wire of several writes, and what follows them, is the bytes of the
      first write followed by the rest. */
  lemma WireSplit(headerSize: u32, ops: seq<Op>, after: seq<byte>) returns (tail: seq<byte>)
    requires headerSize >= PRIVATE_HEADER_LEN && ops != []
    ensures tail == Wire(ops[1..], AfterOp(ops[0], headerSize)) + after
    ensures Wire(ops, headerSize) + after == OpBytes(ops[0], headerSize) + tail
  {
    tail := Wire(ops[1..], AfterOp(ops[0], headerSize)) + after;
  }

  /** The step of SessionFrames: when the first call reads the first write
      and the other calls read the others, all the calls read all the writes. */
  lemma SessionFramesStep(headerSize: u32, ops: seq<Op>, input: seq<ReadResult>, first: Step, others: Session)
    requires headerSize >= PRIVATE_HEADER_LEN && ops != []
    requires first == FrameOutcome(headerSize, input)
    requires others == FrameOutcomes(first.headerSize, first.rest, |ops| - 1)
    requires first.receipt == FrameReceipt(ops[0]) && first.headerSize == AfterOp(ops[0], headerSize)
    requires others.receipts == FrameReceipts(ops[1..]) && others.headerSize == SenderSize(ops[1..], first.headerSize)
    ensures var s := FrameOutcomes(headerSize, input, |ops|);
      s.receipts == FrameReceipts(ops) && s.headerSize == SenderSize(ops, headerSize) && s.rest == others.rest
  {
  }

  /** A whole session: when both ends start at the same header size, every
      write of one end, in any chunking, is read by one `_recvData` of the
      other, which gives its receipt; afterwards the reader decodes with the
      size the writer frames with, and the bytes after the writes are still
      to be read. */
  lemma {:induction false} SessionFrames(headerSize: u32, ops: seq<Op>, after: seq<byte>,
                                         input: seq<ReadResult>, more: seq<ReadResult>)
    requires headerSize >= PRIVATE_HEADER_LEN
    requires Aligned(input, Wire(ops, headerSize) + after, more)
    ensures var s := FrameOutcomes(headerSize, input, |ops|);
      s.receipts == FrameReceipts(ops) && s.headerSize == SenderSize(ops, headerSize) && Aligned(s.rest, after, more)
    decreases |ops|
  {
    if ops == [] {
      assert Wire(ops, headerSize) + after == after;
    } else {
      var next := AfterOp(ops[0], headerSize);
      var tail := WireSplit(headerSize, ops, after);
      OpOutcome(headerSize, ops[0], tail, input, more);
      var first := FrameOutcome(headerSize, input);
      SessionFrames(next, ops[1..], after, first.rest, more);
      var others := FrameOutcomes(next, first.rest, |ops[1..]|);
      SessionFramesStep(headerSize, ops, input, first, others);
    }
  }

  /** A control frame is invisible to `recvData`: a call that meets one goes
      on as a call at the new size on the reads after it. */
  lemma DataOutcomesSkip(headerSize: u32, input: seq<ReadResult>, n: nat)
    requires headerSize >= PRIVATE_HEADER_LEN && n > 0
    requires FrameOutcome(headerSize, input).receipt.Retry?
    ensures var s := FrameOutcome(headerSize, input);
      DataOutcomes(headerSize, input, n) == DataOutcomes(s.headerSize, s.rest, n)
  {
    var s := FrameOutcome(headerSize, input);
    assert DataOutcome(headerSize, input) == DataOutcome(s.headerSize, s.rest);
  }

  /** The application's view of a session: the calls of `recvData` return
      exactly the messages the other end sent, in order and intact, with an
      error in place of each announcement the reader refuses, and never a
      control frame, in any chunking. */
  lemma {:induction false} SessionData(headerSize: u32, ops: seq<Op>, after: seq<byte>,
                                       input: seq<ReadResult>, more: seq<ReadResult>)
    requires headerSize >= PRIVATE_HEADER_LEN
    requires Aligned(input, Wire(ops, headerSize) + after, more)
    ensures DataOutcomes(headerSize, input, |Delivered(ops)|).receipts == Delivered(ops)
    decreases |ops|
  {
    if ops != [] {
      var next := AfterOp(ops[0], headerSize);
      var tail := WireSplit(headerSize, ops, after);
      OpOutcome(headerSize, ops[0], tail, input, more);
      var first := FrameOutcome(headerSize, input);
      SessionData(next, ops[1..], after, first.rest, more);
      var n := |Delivered(ops)|;
      if first.receipt.Retry? && n > 0 {
        DataOutcomesSkip(headerSize, input, n);
      }
    }
  }
}

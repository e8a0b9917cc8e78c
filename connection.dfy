/** The Connection class: the state a transport connection keeps and the
    operations on it, each proved to do what the functions of Frame, Receive
    and Establish say. */
module Transport {
  import opened Frame
  import opened Stream
  import opened Receive
  import opened Establishment

  /** Writes src into dst from index at, leaving the other elements alone (memcpy). */
  method CopyInto(dst: array<byte>, at: nat, src: seq<byte>)
    requires at + |src| <= dst.Length
    modifies dst
    ensures dst[..at] == old(dst[..at])
    ensures dst[at..at + |src|] == src
    ensures dst[at + |src|..] == old(dst[at + |src|..])
  {
    for i := 0 to |src|
      invariant dst[..at] == old(dst[..at])
      invariant dst[at..at + i] == src[..i]
      invariant dst[at + |src|..] == old(dst[at + |src|..])
    {
      dst[at + i] := src[i];
    }
  }

  /** After copying src at index at, the first at + |src| elements are the old
      first at followed by src. */
  lemma CopiedPrefix(before: seq<byte>, after: seq<byte>, at: nat, src: seq<byte>)
    requires |before| == |after| && at + |src| <= |after|
    requires after[..at] == before[..at] && after[at..at + |src|] == src
    ensures after[..at + |src|] == before[..at] + src
  {
    assert after[..at + |src|] == after[..at] + after[at..at + |src|];
  }

  /** The bytes of several writes, one after the other, as the socket carries them. */
  function Joined(writes: seq<seq<byte>>): seq<byte>
  {
    if writes == [] then [] else Joined(writes[..|writes| - 1]) + writes[|writes| - 1]
  }

  lemma JoinedAppend(writes: seq<seq<byte>>, w: seq<byte>)
    ensures Joined(writes + [w]) == Joined(writes) + w
  {
    assert (writes + [w])[..|writes|] == writes;
  }

  class Connection {
    /** The descriptor reads and writes go to. */
    var socketFd: int
    /** The peer's address; None while unset or INADDR_ANY. */
    var remote: Option<string>
    /** The header size this end decodes the peer's frames with (header_size). */
    var headerSize: u32
    /** The header size this end frames its own messages with. The source
        keeps one field for both directions (see Findings). */
    var sendHeaderSize: u32
    var loggingOn: bool

    /** Where establishment ended, and the socket calls it made. */
    var phase: Phase
    var calls: seq<SocketCall>
    /** What the reads on the socket will still return. */
    var incoming: seq<ReadResult>
    /** The buffer of every write on the socket, in order. */
    var written: seq<seq<byte>>
    /** The messages and announcements those writes carry. */
    ghost var sent: seq<Op>

    /** Both header sizes are at least PRIVATE_HEADER_LEN, and the bytes written
        so far are the wire of the writes made, from header size 8, which
        leave the sender at sendHeaderSize. */
    ghost predicate Valid()
      reads this
    {
      headerSize >= PRIVATE_HEADER_LEN &&
      sendHeaderSize == SenderSize(sent, PRIVATE_HEADER_LEN) &&
      Joined(written) == Wire(sent, PRIVATE_HEADER_LEN)
    }

    /** Connection::Connection: header size and logging first, then the
        cascade of socket(), connect() and the accept loop. */
    constructor (addr: Option<string>, port: int, strict: bool, logging: bool, env: Env, input: seq<ReadResult>)
      ensures Valid() && headerSize == PRIVATE_HEADER_LEN && sendHeaderSize == PRIVATE_HEADER_LEN && loggingOn == logging
      ensures var m := Establish(addr, port, strict, env);
        phase == m.phase && socketFd == m.fd && remote == m.remote && calls == m.calls
      ensures incoming == input && written == [] && sent == []
    {
      headerSize, sendHeaderSize := PRIVATE_HEADER_LEN, PRIVATE_HEADER_LEN;
      loggingOn := logging;
      incoming, written, sent := input, [], [];
      phase, remote := Init, None;
      calls := [CreateSocket];
      socketFd := env.socketFd;
      new;
      if socketFd < 0 {
        phase := Phase.Failed;
        SocketFailure(addr, port, strict, env);
        RunStep(Start(env), addr, port, strict, env);
        return;
      }
      if addr.Some? && env.parses {
        phase := Connecting;
        calls := calls + [Connect(addr.value, port)];
        remote := addr;
        if env.connects {
          phase := Connected;
          EstablishConnects(addr, port, strict, env);
          return;
        }
      }
      ListenForPeers(addr, port, strict, env);
    }

    /** The fallback of the constructor when no connection was made: bind,
        listen, then the accept loop. */
    method ListenForPeers(addr: Option<string>, port: int, strict: bool, env: Env)
      requires socketFd == env.socketFd >= 0 && !(addr.Some? && env.parses && env.connects)
      requires calls == [CreateSocket] + (if addr.Some? && env.parses then [Connect(addr.value, port)] else [])
      modifies this`socketFd, this`remote, this`phase, this`calls
      ensures var m := Establish(addr, port, strict, env);
        phase == m.phase && socketFd == m.fd && remote == m.remote && calls == m.calls
    {
      phase := Listening;
      remote := None;
      calls := calls + [Bind(port), Listen];
      phase := Accepting;
      EstablishListens(addr, port, strict, env);
      assert Machine(Accepting, socketFd, remote, calls, env.peers) == AcceptStart(addr, port, env);
      AcceptPeers(addr, port, strict, env);
    }

    /** The accept loop of the constructor: take peers until one passes the
        filter, closing each one that does not. */
    method AcceptPeers(addr: Option<string>, port: int, strict: bool, env: Env)
      requires phase == Accepting
      modifies this`socketFd, this`remote, this`phase, this`calls
      ensures Machine(phase, socketFd, remote, calls, []) ==
        Run(Machine(Accepting, old(socketFd), old(remote), old(calls), env.peers), addr, port, strict, env).(pending := [])
    {
      var pending := env.peers;
      while pending != []
        invariant phase == Accepting
        invariant Run(Machine(phase, socketFd, remote, calls, pending), addr, port, strict, env) ==
          Run(Machine(Accepting, old(socketFd), old(remote), old(calls), env.peers), addr, port, strict, env)
        decreases |pending|
      {
        RunStep(Machine(phase, socketFd, remote, calls, pending), addr, port, strict, env);
        var peer := pending[0];
        pending := pending[1..];
        if Adopts(strict, addr, peer.name) {
          socketFd, remote, phase := peer.fd, Option<string>.Some(peer.name), Connected;
          calls := calls + [Accept];
          return;
        }
        calls := calls + [Accept, Close(peer.fd)];
      }
    }

    /** One read() of at most cap bytes on the socket. */
    method ReadSocket(cap: nat) returns (result: ReadResult)
      requires 0 < cap && incoming != []
      modifies this`incoming
      ensures result == Read(cap, old(incoming)).result && incoming == Read(cap, old(incoming)).rest
      ensures result.Chunk? ==> |result.data| <= cap
      ensures Weight(incoming) < Weight(old(incoming))
    {
      var d := Read(cap, incoming);
      result, incoming := d.result, d.rest;
    }

    /** One read() into buffer from index filled, asking for the space left. */
    method ReadInto(buffer: array<byte>, filled: nat) returns (result: ReadResult)
      requires filled < buffer.Length && incoming != []
      modifies this`incoming, buffer
      ensures result == Read(buffer.Length - filled, old(incoming)).result
      ensures incoming == Read(buffer.Length - filled, old(incoming)).rest
      ensures filled + |Bytes(result)| <= buffer.Length && Weight(incoming) < Weight(old(incoming))
      ensures buffer[..filled + |Bytes(result)|] == old(buffer[..filled]) + Bytes(result)
    {
      result := ReadSocket(buffer.Length - filled);
      ghost var before := buffer[..];
      CopyInto(buffer, filled, Bytes(result));
      CopiedPrefix(before, buffer[..], filled, Bytes(result));
    }

    /** The first loop of `_recvData`: read into the receive buffer until it
        holds the two header words. The buffer has room for just the two
        words, so that no read takes bytes of what follows them. */
    method AwaitHeaderWords() returns (buffer: array<byte>, filled: nat)
      modifies this`incoming
      ensures fresh(buffer) && buffer.Length == PRIVATE_HEADER_LEN && filled <= PRIVATE_HEADER_LEN
      ensures var a := AwaitBytes(PRIVATE_HEADER_LEN, PRIVATE_HEADER_LEN, [], old(incoming));
        if a.Filled? then a.got == buffer[..filled] && a.rest == incoming
        else filled < PRIVATE_HEADER_LEN && incoming == []
    {
      buffer := new byte[PRIVATE_HEADER_LEN];
      filled := 0;
      ghost var got: seq<byte> := [];
      while filled < PRIVATE_HEADER_LEN
        invariant filled == |got| <= PRIVATE_HEADER_LEN && buffer[..filled] == got
        invariant AwaitBytes(PRIVATE_HEADER_LEN, PRIVATE_HEADER_LEN, got, incoming) ==
                  AwaitBytes(PRIVATE_HEADER_LEN, PRIVATE_HEADER_LEN, [], old(incoming))
        decreases Weight(incoming)
      {
        if incoming == [] {
          return;
        }
        var result := ReadHeaderPart(buffer, filled, got);
        filled := filled + |Bytes(result)|;
        got := got + Bytes(result);
      }
    }

    /** One read() of the first loop, asking for the space left in the receive buffer. */
    method ReadHeaderPart(buffer: array<byte>, filled: nat, ghost got: seq<byte>) returns (result: ReadResult)
      requires buffer.Length == PRIVATE_HEADER_LEN && filled == |got| < PRIVATE_HEADER_LEN
      requires buffer[..filled] == got && incoming != []
      modifies this`incoming, buffer
      ensures Weight(incoming) < Weight(old(incoming))
      ensures filled + |Bytes(result)| <= PRIVATE_HEADER_LEN && buffer[..filled + |Bytes(result)|] == got + Bytes(result)
      ensures AwaitBytes(PRIVATE_HEADER_LEN, PRIVATE_HEADER_LEN, got + Bytes(result), incoming) ==
              AwaitBytes(PRIVATE_HEADER_LEN, PRIVATE_HEADER_LEN, got, old(incoming))
    {
      AwaitUnfold(PRIVATE_HEADER_LEN, PRIVATE_HEADER_LEN, got, incoming);
      result := ReadInto(buffer, filled);
    }

    /** Reads the rest of a generic frame's header, of which the receive
        buffer holds the two words; the reserved bytes are dropped. */
    method CompleteHeader(scratch: seq<byte>) returns (header: seq<byte>, complete: bool)
      requires Valid() && |scratch| <= headerSize
      modifies this`incoming
      ensures var a := AwaitBytes(headerSize, headerSize, scratch, old(incoming));
        complete == a.Filled? && (complete ==> header == a.got && incoming == a.rest) && (!complete ==> incoming == [])
    {
      header := scratch;
      while |header| < headerSize
        invariant |header| <= headerSize
        invariant AwaitBytes(headerSize, headerSize, header, incoming) == AwaitBytes(headerSize, headerSize, scratch, old(incoming))
        decreases Weight(incoming)
      {
        if incoming == [] {
          return header, false;
        }
        AwaitUnfold(headerSize, headerSize, header, incoming);
        var result := ReadSocket(headerSize - |header|);
        header := header + Bytes(result);
      }
      complete := true;
    }

    /** The payload buffer of `_recvData`: a fresh buffer of len bytes,
        filled by the reassembly loop. */
    method ReceivePayload(len: u32) returns (r: Receipt)
      modifies this`incoming
      ensures var f := FillPayload(len, [], old(incoming)); f.Done? ==> r == Data(f.payload) && incoming == f.rest
      ensures var f := FillPayload(len, [], old(incoming)); f.Failed? ==> r == Error(f.failure) && incoming == f.rest
      ensures FillPayload(len, [], old(incoming)).Starved? ==> r == Blocked && incoming == []
    {
      var data := new byte[len];
      r := FillBuffer(data, 0, []);
    }

    /** The reassembly loop of `_recvData`: reads into data from position on
        until it is full. */
    method FillBuffer(data: array<byte>, position: nat, ghost lead: seq<byte>) returns (r: Receipt)
      requires position == |lead| <= data.Length && data[..position] == lead
      modifies this`incoming, data
      ensures var f := FillPayload(data.Length, lead, old(incoming)); f.Done? ==> r == Data(f.payload) && incoming == f.rest
      ensures var f := FillPayload(data.Length, lead, old(incoming)); f.Failed? ==> r == Error(f.failure) && incoming == f.rest
      ensures FillPayload(data.Length, lead, old(incoming)).Starved? ==> r == Blocked && incoming == []
    {
      var filled := position;
      ghost var got := lead;
      while filled < data.Length
        invariant filled == |got| <= data.Length && data[..filled] == got
        invariant FillPayload(data.Length, got, incoming) == FillPayload(data.Length, lead, old(incoming))
        decreases Weight(incoming)
      {
        if incoming == [] {
          return Blocked;
        }
        var result := ReadPayloadPart(data, filled, got);
        if result.ReadError? {
          return Error(ReadFailed);
        } else if result.data == [] {
          return Error(ConnectionClosed);
        }
        filled := filled + |result.data|;
        got := got + result.data;
      }
      assert data[..] == got;
      r := Data(data[..]);
    }

    /** One read() of the reassembly loop, asking for the space left in data. */
    method ReadPayloadPart(data: array<byte>, filled: nat, ghost got: seq<byte>) returns (result: ReadResult)
      requires filled == |got| < data.Length && data[..filled] == got && incoming != []
      modifies this`incoming, data
      ensures Weight(incoming) < Weight(old(incoming))
      ensures result.ReadError? ==> FillPayload(data.Length, got, old(incoming)) == Fill.Failed(ReadFailed, incoming)
      ensures result == Chunk([]) ==> FillPayload(data.Length, got, old(incoming)) == Fill.Failed(ConnectionClosed, incoming)
      ensures result.Chunk? ==> filled + |result.data| <= data.Length && data[..filled + |result.data|] == got + result.data
      ensures result.Chunk? && result.data != [] ==>
        FillPayload(data.Length, got + result.data, incoming) == FillPayload(data.Length, got, old(incoming))
    {
      FillStep(data.Length, got, incoming);
      result := ReadInto(data, filled);
    }

    /** `_recvData`: one frame off the socket. */
    method ReceiveFrame() returns (r: Receipt)
      requires Valid()
      modifies this`headerSize, this`incoming
      ensures Valid()
      ensures Step(r, headerSize, incoming) == FrameOutcome(old(headerSize), old(incoming))
    {
      var buffer, filled := AwaitHeaderWords();
      if filled < PRIVATE_HEADER_LEN {
        return Blocked;
      }
      var scratch := buffer[..filled];
      assert FrameOutcome(old(headerSize), old(incoming)) == Dispatch(headerSize, scratch, incoming);
      var h := DecodeHeader(scratch);
      if h.kind == GENERIC_DATA {
        assert Dispatch(headerSize, scratch, incoming) == GenericOutcome(headerSize, h.length, scratch, incoming);
        var _, complete := CompleteHeader(scratch);
        if !complete {
          return Blocked;
        }
        r := ReceivePayload(h.length);
      } else if h.kind == HEADER_LENGTH_UPDATE {
        if h.length >= PRIVATE_HEADER_LEN {
          headerSize := h.length;
          r := Retry;
        } else {
          r := Error(BadHeaderSize(h.length));
        }
      } else {
        r := Error(UnknownKind(h.kind));
      }
    }

    /** `recvData`: repeat `_recvData` as long as it reports a control frame. */
    method ReceiveData() returns (r: Receipt)
      requires Valid()
      modifies this`headerSize, this`incoming
      ensures Valid() && !r.Retry?
      ensures Step(r, headerSize, incoming) == DataOutcome(old(headerSize), old(incoming))
    {
      r := ReceiveFrame();
      while r.Retry?
        invariant Valid()
        invariant DataOutcome(old(headerSize), old(incoming)) ==
          if r.Retry? then DataOutcome(headerSize, incoming) else Step(r, headerSize, incoming)
        decreases Weight(incoming), if r.Retry? then 1 else 0
      {
        r := ReceiveFrame();
      }
    }

    /** sendData: one write of a buffer of header size plus payload bytes,
        laid out as the header documents (kind, then length). */
    method SendData(payload: seq<byte>)
      requires Valid() && sendHeaderSize + |payload| < 0x1_0000_0000
      modifies this`written, this`sent
      ensures Valid()
      ensures written == old(written) + [EncodeFrame(GENERIC_DATA, payload, sendHeaderSize)]
      ensures sent == old(sent) + [Send(payload)]
    {
      var buffer := new byte[sendHeaderSize + |payload|];
      var header := EncodeHeader(Header(GENERIC_DATA, |payload|), sendHeaderSize);
      CopyInto(buffer, 0, header);
      ghost var before := buffer[..];
      CopyInto(buffer, sendHeaderSize, payload);
      CopiedPrefix(before, buffer[..], sendHeaderSize, payload);
      assert buffer[..] == buffer[..sendHeaderSize + |payload|];
      ghost var frame := EncodeFrame(GENERIC_DATA, payload, sendHeaderSize);
      assert buffer[..] == frame;
      assert OpBytes(Send(payload), sendHeaderSize) == frame;
      JoinedAppend(written, frame);
      WireAppend(sent, Send(payload), PRIVATE_HEADER_LEN);
      written := written + [buffer[..]];
      sent := sent + [Send(payload)];
    }

    /** setHeaderSize: one write of an 8-byte control frame announcing size + 8.
        The sender then frames its messages with the size the receiver adopts
        on reading it; the size this end decodes with is left alone. */
    method SetHeaderSize(size: u32)
      requires Valid()
      modifies this`written, this`sendHeaderSize, this`sent
      ensures Valid()
      ensures written == old(written) + [ControlFrame(size)]
      ensures sendHeaderSize == AdoptedHeaderSize(old(sendHeaderSize), size)
      ensures sent == old(sent) + [Announce(size)]
    {
      var buffer := new byte[PRIVATE_HEADER_LEN];
      CopyInto(buffer, 0, EncodeWord(HEADER_LENGTH_UPDATE));
      ghost var before := buffer[..];
      CopyInto(buffer, WORD_LEN, EncodeWord(AnnouncedHeaderSize(size)));
      CopiedPrefix(before, buffer[..], WORD_LEN, EncodeWord(AnnouncedHeaderSize(size)));
      assert buffer[..] == buffer[..PRIVATE_HEADER_LEN];
      EncodeHeaderWords(Header(HEADER_LENGTH_UPDATE, AnnouncedHeaderSize(size)));
      JoinedAppend(written, buffer[..]);
      WireAppend(sent, Announce(size), PRIVATE_HEADER_LEN);
      written := written + [buffer[..]];
      sent := sent + [Announce(size)];
      sendHeaderSize := AdoptedHeaderSize(sendHeaderSize, size);
    }
  }

  /** What a connection has written reaches its peer intact. The peer, which
      starts decoding at header size 8, reads the bytes in any chunking. Its
      `recvData` calls return exactly the messages sent, in order, and never
      a control frame. Its `_recvData` calls then leave it decoding with the
      header size the writer frames with. */
  lemma PeerReceivesAll(c: Connection, input: seq<ReadResult>, more: seq<ReadResult>)
    requires c.Valid() && Aligned(input, Joined(c.written), more)
    ensures DataOutcomes(PRIVATE_HEADER_LEN, input, |Delivered(c.sent)|).receipts == Delivered(c.sent)
    ensures var s := FrameOutcomes(PRIVATE_HEADER_LEN, input, |c.sent|);
      s.receipts == FrameReceipts(c.sent) && s.headerSize == c.sendHeaderSize && s.rest == more
  {
    var bytes := Wire(c.sent, PRIVATE_HEADER_LEN);
    assert bytes + [] == bytes;
    SessionData(PRIVATE_HEADER_LEN, c.sent, [], input, more);
    SessionFrames(PRIVATE_HEADER_LEN, c.sent, [], input, more);
    AlignedEmpty(FrameOutcomes(PRIVATE_HEADER_LEN, input, |c.sent|).rest, more);
  }
}

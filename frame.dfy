/** The private header that a Transport connection puts in front of every
    message, and its encoding as bytes.

    A frame on the wire is  [kind]||[length]||[padding]||[payload]  where kind
    and length are 4-byte unsigned words, the whole header takes the
    connection's current header size (at least 8 bytes) and the bytes after
    the two words are reserved. */
module Frame {

  /** One octet on the wire. */
  type byte = x: int | 0 <= x < 0x100

  /** An unsigned 32-bit integer, the type of both header fields. */
  type u32 = x: int | 0 <= x < 0x1_0000_0000

  const WORD_LEN: nat := 4

  /** The two header words; also the least header size a connection accepts. */
  const PRIVATE_HEADER_LEN: nat := 8

  /** Values of the kind word (enum data_type). */
  const GENERIC_DATA: u32 := 0
  const HEADER_LENGTH_UPDATE: u32 := 1

  /** A word as four bytes. The source stores words in host order; the model
      fixes that order as least significant byte first. */
  function EncodeWord(w: u32): (s: seq<byte>)
    ensures |s| == WORD_LEN
  {
    [w % 0x100, (w / 0x100) % 0x100, (w / 0x1_0000) % 0x100, w / 0x100_0000]
  }

  /** The word held in the first four bytes. Any four bytes are the encoding
      of the word they decode to, so the word encoding is a bijection. */
  function DecodeWord(s: seq<byte>): (w: u32)
    requires |s| >= WORD_LEN
    ensures EncodeWord(w) == s[..WORD_LEN]
  {
    var v := s[0] as int + 0x100 * (s[1] as int + 0x100 * (s[2] as int + 0x100 * s[3] as int));
    var q1 := s[1] as int + 0x100 * (s[2] as int + 0x100 * s[3] as int);
    var q2 := s[2] as int + 0x100 * s[3] as int;
    DivMod256(v, q1, s[0]);
    DivMod256(q1, q2, s[1]);
    DivMod256(q2, s[3], s[2]);
    assert v / 0x1_0000 == q2;
    assert v / 0x100_0000 == s[3];
    v
  }

  lemma DivMod256(x: int, q: int, r: int)
    requires 0 <= r < 0x100 && x == r + 0x100 * q
    ensures x % 0x100 == r && x / 0x100 == q
  {
  }

  /** Decoding undoes encoding: a word survives the trip through its bytes. */
  lemma DecodeEncodeWord(w: u32)
    ensures DecodeWord(EncodeWord(w)) == w
  {
    var q1, q2, q3 := w / 0x100, w / 0x1_0000, w / 0x100_0000;
    DivMod256(w, q1, w % 0x100);
    DivMod256(q1, q1 / 0x100, q1 % 0x100);
    assert q1 / 0x100 == q2;
    DivMod256(q2, q2 / 0x100, q2 % 0x100);
    assert q2 / 0x100 == q3;
  }

  /** The private header: the frame kind and, for generic data, the payload
      byte count or, for a header length update, the new header size. */
  datatype Header = Header(kind: u32, length: u32)

  /** The header as headerSize bytes: kind, length, then zeroed reserved bytes. */
  function EncodeHeader(h: Header, headerSize: nat): (s: seq<byte>)
    requires headerSize >= PRIVATE_HEADER_LEN
    ensures |s| == headerSize
  {
    EncodeWord(h.kind) + EncodeWord(h.length) + seq(headerSize - PRIVATE_HEADER_LEN, _ => 0)
  }

  /** GET_PRIVATE_HEADER: kind is word 0 and length is word 1 of the buffer.
      The first 8 bytes of any buffer are the encoding of the header they
      decode to. */
  function DecodeHeader(buf: seq<byte>): (h: Header)
    requires |buf| >= PRIVATE_HEADER_LEN
    ensures EncodeHeader(h, PRIVATE_HEADER_LEN) == buf[..PRIVATE_HEADER_LEN]
  {
    assert buf[..WORD_LEN][..WORD_LEN] == buf[..WORD_LEN];
    assert buf[WORD_LEN..PRIVATE_HEADER_LEN][..WORD_LEN] == buf[WORD_LEN..PRIVATE_HEADER_LEN];
    assert buf[..PRIVATE_HEADER_LEN] == buf[..WORD_LEN] + buf[WORD_LEN..PRIVATE_HEADER_LEN];
    Header(DecodeWord(buf[..WORD_LEN]), DecodeWord(buf[WORD_LEN..PRIVATE_HEADER_LEN]))
  }

  /** At the least header size the header is just the two words. */
  lemma EncodeHeaderWords(h: Header)
    ensures EncodeHeader(h, PRIVATE_HEADER_LEN) == EncodeWord(h.kind) + EncodeWord(h.length)
  {
    var words := EncodeWord(h.kind) + EncodeWord(h.length);
    assert EncodeHeader(h, PRIVATE_HEADER_LEN)[..|words|] == words;
  }

  /** Decoding reads the first two words and nothing after them. */
  lemma DecodeHeaderPrefix(buf: seq<byte>, other: seq<byte>)
    requires |buf| >= PRIVATE_HEADER_LEN && |other| >= PRIVATE_HEADER_LEN
    requires buf[..PRIVATE_HEADER_LEN] == other[..PRIVATE_HEADER_LEN]
    ensures DecodeHeader(buf) == DecodeHeader(other)
  {
    assert buf[..WORD_LEN] == other[..WORD_LEN];
    assert buf[WORD_LEN..PRIVATE_HEADER_LEN] == other[WORD_LEN..PRIVATE_HEADER_LEN];
  }

  /** Round trip: whatever header size and whatever bytes follow, decoding the
      start of an encoded header gives back its kind and length. */
  lemma DecodeEncodeHeader(h: Header, headerSize: nat, rest: seq<byte>)
    requires headerSize >= PRIVATE_HEADER_LEN
    ensures DecodeHeader(EncodeHeader(h, headerSize) + rest) == h
  {
    var s := EncodeHeader(h, headerSize) + rest;
    assert s[..WORD_LEN] == EncodeWord(h.kind);
    assert s[WORD_LEN..PRIVATE_HEADER_LEN] == EncodeWord(h.length);
    DecodeEncodeWord(h.kind);
    DecodeEncodeWord(h.length);
  }

  /** One frame: the header for (kind, |payload|) in headerSize bytes, then the payload. */
  function EncodeFrame(kind: u32, payload: seq<byte>, headerSize: nat): (f: seq<byte>)
    requires headerSize >= PRIVATE_HEADER_LEN && |payload| < 0x1_0000_0000
    ensures |f| == headerSize + |payload|
  {
    EncodeHeader(Header(kind, |payload|), headerSize) + payload
  }

  /** A frame decodes to its kind and payload length, and its payload is what
      follows the first headerSize bytes. */
  lemma DecodeEncodeFrame(kind: u32, payload: seq<byte>, headerSize: nat)
    requires headerSize >= PRIVATE_HEADER_LEN && |payload| < 0x1_0000_0000
    ensures DecodeHeader(EncodeFrame(kind, payload, headerSize)) == Header(kind, |payload|)
    ensures EncodeFrame(kind, payload, headerSize)[headerSize..] == payload
  {
    DecodeEncodeHeader(Header(kind, |payload|), headerSize, payload);
  }

  /** The converse round trip for frames: a buffer of headerSize + length
      bytes whose reserved header bytes are zero is the frame of its kind and
      of the bytes after its header. */
  lemma EncodeDecodeFrame(buf: seq<byte>, headerSize: nat)
    requires headerSize >= PRIVATE_HEADER_LEN && |buf| >= headerSize
    requires |buf| == headerSize + DecodeHeader(buf).length
    requires forall i :: PRIVATE_HEADER_LEN <= i < headerSize ==> buf[i] == 0
    ensures EncodeFrame(DecodeHeader(buf).kind, buf[headerSize..], headerSize) == buf
  {
    var h := DecodeHeader(buf);
    EncodeHeaderWords(h);
    var reserved := seq(headerSize - PRIVATE_HEADER_LEN, _ => 0);
    assert buf[PRIVATE_HEADER_LEN..headerSize] == reserved;
    assert EncodeHeader(h, headerSize) == EncodeHeader(h, PRIVATE_HEADER_LEN) + reserved;
    assert buf == buf[..PRIVATE_HEADER_LEN] + buf[PRIVATE_HEADER_LEN..headerSize] + buf[headerSize..];
  }

  /** The header size a control frame announces for a user header of size
      bytes: size + 8, computed in 32-bit unsigned arithmetic as the source does. */
  function AnnouncedHeaderSize(size: u32): (r: u32)
    ensures r >= PRIVATE_HEADER_LEN <==> size + PRIVATE_HEADER_LEN < 0x1_0000_0000
    ensures size + PRIVATE_HEADER_LEN < 0x1_0000_0000 ==> r == size + PRIVATE_HEADER_LEN
    ensures size + PRIVATE_HEADER_LEN >= 0x1_0000_0000 ==> r == size + PRIVATE_HEADER_LEN - 0x1_0000_0000
  {
    (size + PRIVATE_HEADER_LEN) % 0x1_0000_0000
  }

  /** The header size in force after a header length update for size: the
      announced size when the peer accepts it, the old one otherwise. The
      receiver adopts it on the control frame, the sender as it writes it. */
  function AdoptedHeaderSize(headerSize: u32, size: u32): (r: u32)
    ensures r != headerSize ==> size + PRIVATE_HEADER_LEN < 0x1_0000_0000 && r == size + PRIVATE_HEADER_LEN
    ensures size + PRIVATE_HEADER_LEN < 0x1_0000_0000 ==> r == size + PRIVATE_HEADER_LEN
    ensures headerSize >= PRIVATE_HEADER_LEN ==> r >= PRIVATE_HEADER_LEN
  {
    if AnnouncedHeaderSize(size) >= PRIVATE_HEADER_LEN then AnnouncedHeaderSize(size) else headerSize
  }

  /** The 8-byte control frame setHeaderSize writes: two words, kind
      header_length_update and length the announced header size, without the
      sender's reserved header bytes. The receiver decodes it as a header
      length update to size + 8. */
  function ControlFrame(size: u32): (f: seq<byte>)
    ensures |f| == PRIVATE_HEADER_LEN
    ensures DecodeHeader(f) == Header(HEADER_LENGTH_UPDATE, AnnouncedHeaderSize(size))
  {
    var f := EncodeHeader(Header(HEADER_LENGTH_UPDATE, AnnouncedHeaderSize(size)), PRIVATE_HEADER_LEN);
    DecodeEncodeHeader(Header(HEADER_LENGTH_UPDATE, AnnouncedHeaderSize(size)), PRIVATE_HEADER_LEN, []);
    assert f + [] == f;
    f
  }

  // ---------------------------------------------------------------------------
  // What one end writes: messages and header size announcements

  /** A message payload: its length must fit the 32-bit length word. */
  type Payload = s: seq<byte> | |s| < 0x1_0000_0000

  /** One write of a connection: a message (sendData) or the announcement of
      a header size for a user header of size bytes (setHeaderSize). */
  datatype Op = Send(payload: Payload) | Announce(size: u32)

  /** The bytes one write puts on the socket, framed at the writer's header size. */
  function OpBytes(op: Op, headerSize: u32): (s: seq<byte>)
    requires headerSize >= PRIVATE_HEADER_LEN
    ensures op.Send? ==> |s| == headerSize + |op.payload| && DecodeHeader(s) == Header(GENERIC_DATA, |op.payload|)
    ensures op.Announce? ==>
      |s| == PRIVATE_HEADER_LEN && DecodeHeader(s) == Header(HEADER_LENGTH_UPDATE, AnnouncedHeaderSize(op.size))
  {
    match op
    case Send(payload) =>
      DecodeEncodeFrame(GENERIC_DATA, payload, headerSize);
      EncodeFrame(GENERIC_DATA, payload, headerSize)
    case Announce(size) =>
      ControlFrame(size)
  }

  /** The writer's header size after one write: an announcement moves it to
      the size the peer adopts, a message leaves it. */
  function AfterOp(op: Op, headerSize: u32): (r: u32)
    requires headerSize >= PRIVATE_HEADER_LEN
    ensures r >= PRIVATE_HEADER_LEN
    ensures op.Send? ==> r == headerSize
  {
    match op
    case Send(_) => headerSize
    case Announce(size) => AdoptedHeaderSize(headerSize, size)
  }

  /** The header size the writer frames with after the writes ops, starting from headerSize. */
  function SenderSize(ops: seq<Op>, headerSize: u32): (r: u32)
    requires headerSize >= PRIVATE_HEADER_LEN
    ensures r >= PRIVATE_HEADER_LEN
  {
    if ops == [] then headerSize else SenderSize(ops[1..], AfterOp(ops[0], headerSize))
  }

  /** Every byte the writes ops put on the socket, in order, starting at header size headerSize. */
  function Wire(ops: seq<Op>, headerSize: u32): seq<byte>
    requires headerSize >= PRIVATE_HEADER_LEN
  {
    if ops == [] then [] else OpBytes(ops[0], headerSize) + Wire(ops[1..], AfterOp(ops[0], headerSize))
  }

  /** One more write appends its bytes, framed at the size the earlier writes
      left, and moves the writer's size on from there. */
  lemma {:induction false} WireAppend(ops: seq<Op>, op: Op, headerSize: u32)
    requires headerSize >= PRIVATE_HEADER_LEN
    ensures Wire(ops + [op], headerSize) == Wire(ops, headerSize) + OpBytes(op, SenderSize(ops, headerSize))
    ensures SenderSize(ops + [op], headerSize) == AfterOp(op, SenderSize(ops, headerSize))
  {
    if ops == [] {
      assert [op][1..] == [];
    } else {
      var first, size := ops[0], AfterOp(ops[0], headerSize);
      assert (ops + [op])[0] == first;
      assert (ops + [op])[1..] == ops[1..] + [op];
      WireAppend(ops[1..], op, size);
      calc {
        Wire(ops + [op], headerSize);
        OpBytes(first, headerSize) + Wire(ops[1..] + [op], size);
        OpBytes(first, headerSize) + (Wire(ops[1..], size) + OpBytes(op, SenderSize(ops[1..], size)));
        (OpBytes(first, headerSize) + Wire(ops[1..], size)) + OpBytes(op, SenderSize(ops[1..], size));
      }
    }
  }
}

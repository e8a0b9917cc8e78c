/** The socket's receive side as an abstract input: the results its read
    calls will return, in order. */
module Stream {
  import opened Frame

  /** What one read call returns: some bytes, where no bytes at all is the
      end of the stream (read returned 0), or a failure (read returned < 0). */
  datatype ReadResult = Chunk(data: seq<byte>) | ReadError

  function Bytes(r: ReadResult): seq<byte>
  {
    if r.Chunk? then r.data else []
  }

  /** Every byte the results deliver, in order. */
  function Concat(input: seq<ReadResult>): seq<byte>
  {
    if input == [] then [] else Bytes(input[0]) + Concat(input[1..])
  }

  /** A measure that every read call decreases: one per result plus one per
      byte still to be delivered. */
  function Weight(input: seq<ReadResult>): nat
  {
    if input == [] then 0 else 1 + |Bytes(input[0])| + Weight(input[1..])
  }

  datatype Delivery = Delivery(result: ReadResult, rest: seq<ReadResult>)

  /** One read call asking for at most cap bytes. A pending chunk longer than
      that is delivered in part; its remaining bytes stay first in line, as
      unread bytes stay in a socket. */
  function Read(cap: nat, input: seq<ReadResult>): (d: Delivery)
    requires 0 < cap && input != []
    ensures d.result.Chunk? ==> |d.result.data| <= cap
    ensures Weight(d.rest) < Weight(input)
  {
    match input[0]
    case Chunk(data) =>
      if |data| > cap then
        var rest := [Chunk(data[cap..])] + input[1..];
        assert rest[1..] == input[1..];
        Delivery(Chunk(data[..cap]), rest)
      else
        Delivery(input[0], input[1..])
    case ReadError =>
      Delivery(ReadError, input[1..])
  }

  /** A read loses no byte and invents none: what it delivers followed by what
      is left is what was pending. */
  lemma ReadConserves(cap: nat, input: seq<ReadResult>)
    requires 0 < cap && input != []
    ensures var d := Read(cap, input); Bytes(d.result) + Concat(d.rest) == Concat(input)
  {
    assert Concat(input) == Bytes(input[0]) + Concat(input[1..]);
    if input[0].Chunk? && |input[0].data| > cap {
      var data := input[0].data;
      var rest := [Chunk(data[cap..])] + input[1..];
      assert rest[1..] == input[1..];
      assert Concat(rest) == data[cap..] + Concat(input[1..]);
      DropAppend(data, Concat(input[1..]), cap);
    }
  }

  /** Cutting k bytes off the front of a + b, where a has at least k. */
  lemma DropAppend(a: seq<byte>, b: seq<byte>, k: nat)
    requires k <= |a|
    ensures (a + b)[k..] == a[k..] + b
    ensures a[..k] + (a[k..] + b) == a + b
  {
    assert a[..k] + a[k..] == a;
  }

  /** No failure and no end of stream among these results. */
  predicate Solid(chunks: seq<ReadResult>)
  {
    forall i :: 0 <= i < |chunks| ==> chunks[i].Chunk? && chunks[i].data != []
  }

  /** The results first deliver exactly the given bytes, in non-empty chunks
      without failures, and then continue as more. */
  ghost predicate Aligned(input: seq<ReadResult>, bytes: seq<byte>, more: seq<ReadResult>)
  {
    exists chunks :: Solid(chunks) && Concat(chunks) == bytes && input == chunks + more
  }

  /** Whole chunks followed by anything else are aligned with their bytes. */
  lemma AlignedChunks(chunks: seq<ReadResult>, more: seq<ReadResult>)
    requires Solid(chunks)
    ensures Aligned(chunks + more, Concat(chunks), more)
  {
  }

  /** Aligned with no bytes left: what remains is exactly more. */
  lemma AlignedEmpty(input: seq<ReadResult>, more: seq<ReadResult>)
    requires Aligned(input, [], more)
    ensures input == more
  {
    var chunks :| Solid(chunks) && Concat(chunks) == [] && input == chunks + more;
    assert chunks == [];
  }

  lemma SolidTail(chunks: seq<ReadResult>)
    requires Solid(chunks) && chunks != []
    ensures Solid(chunks[1..])
  {
    forall i | 0 <= i < |chunks| - 1 ensures chunks[1..][i].Chunk? && chunks[1..][i].data != [] {
      assert chunks[1..][i] == chunks[i + 1];
    }
  }

  /** The unread remainder of the first chunk, in front of the other chunks,
      is still made of non-empty chunks and holds the bytes after cap. */
  lemma SolidRemainder(chunks: seq<ReadResult>, cap: nat)
    requires Solid(chunks) && chunks != [] && |chunks[0].data| > cap
    ensures Solid([Chunk(chunks[0].data[cap..])] + chunks[1..])
    ensures Concat([Chunk(chunks[0].data[cap..])] + chunks[1..]) == Concat(chunks)[cap..]
  {
    var data := chunks[0].data;
    var tail := [Chunk(data[cap..])] + chunks[1..];
    SolidTail(chunks);
    forall i | 0 <= i < |tail| ensures tail[i].Chunk? && tail[i].data != [] {
      if i > 0 { assert tail[i] == chunks[1..][i - 1]; }
    }
    assert tail[1..] == chunks[1..];
    assert Concat(tail) == data[cap..] + Concat(chunks[1..]);
    assert Concat(chunks) == data + Concat(chunks[1..]);
    DropAppend(data, Concat(chunks[1..]), cap);
  }

  /** Reading part of the first chunk leaves its remainder in front of the others. */
  lemma ReadSplitsChunk(cap: nat, chunks: seq<ReadResult>, more: seq<ReadResult>)
    requires 0 < cap && chunks != [] && chunks[0].Chunk? && |chunks[0].data| > cap
    ensures Read(cap, chunks + more).result == Chunk(chunks[0].data[..cap])
    ensures Read(cap, chunks + more).rest == [Chunk(chunks[0].data[cap..])] + chunks[1..] + more
  {
    var input := chunks + more;
    assert input[0] == chunks[0];
    assert input[1..] == chunks[1..] + more;
  }

  /** Reading a whole first chunk leaves the other chunks. */
  lemma ReadTakesChunk(cap: nat, chunks: seq<ReadResult>, more: seq<ReadResult>)
    requires 0 < cap && chunks != [] && chunks[0].Chunk? && |chunks[0].data| <= cap
    ensures Read(cap, chunks + more).result == chunks[0]
    ensures Read(cap, chunks + more).rest == chunks[1..] + more
  {
    var input := chunks + more;
    assert input[0] == chunks[0];
    assert input[1..] == chunks[1..] + more;
  }

  /** A read from an aligned stream with bytes still due delivers a non-empty
      prefix of those bytes, and the stream stays aligned with the rest. */
  lemma AlignedRead(cap: nat, input: seq<ReadResult>, bytes: seq<byte>, more: seq<ReadResult>)
    requires 0 < cap && Aligned(input, bytes, more) && bytes != []
    ensures input != []
    ensures Read(cap, input).result.Chunk?
    ensures var x := Read(cap, input).result.data;
      x != [] && |x| <= |bytes| && x == bytes[..|x|] &&
      Aligned(Read(cap, input).rest, bytes[|x|..], more)
  {
    var chunks :| Solid(chunks) && Concat(chunks) == bytes && input == chunks + more;
    assert chunks != [];
    var data := chunks[0].data;
    assert Concat(chunks) == data + Concat(chunks[1..]);
    if |data| > cap {
      ReadSplitsChunk(cap, chunks, more);
      var tail := [Chunk(data[cap..])] + chunks[1..];
      SolidRemainder(chunks, cap);
      AlignedChunks(tail, more);
    } else {
      ReadTakesChunk(cap, chunks, more);
      SolidTail(chunks);
      AlignedChunks(chunks[1..], more);
    }
  }
}

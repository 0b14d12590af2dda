/** Reading an incoming message off its stream into a buffer of the announced size. */
module RawStream {
  import opened Common

  /** What the stream delivers, chunk by chunk; a read may come without a value. */
  function Delivered(chunks: seq<Option<Bytes>>): Bytes {
    if chunks == [] then [] else (if chunks[0].Some? then chunks[0].value else []) + Delivered(chunks[1..])
  }

  class Reader {
    var chunks: seq<Option<Bytes>>

    constructor (chunks: seq<Option<Bytes>>)
      ensures this.chunks == chunks
    {
      this.chunks := chunks;
    }
  }

  /** The same, a chunk at a time. */
  function Taken(chunks: seq<Option<Bytes>>, room: nat): (bytes: Bytes)
    ensures |bytes| <= room
  {
    if chunks == [] then []
    else if chunks[0].None? || room == 0 then Taken(chunks[1..], room)
    else
      var chunk := Take(chunks[0].value, room);
      chunk + Taken(chunks[1..], room - |chunk|)
  }

  lemma {:induction false} TakenIsPrefix(chunks: seq<Option<Bytes>>, room: nat)
    ensures Taken(chunks, room) == Take(Delivered(chunks), room)
  {
    if chunks != [] {
      var rest := Delivered(chunks[1..]);
      if chunks[0].None? {
        TakenIsPrefix(chunks[1..], room);
        assert [] + rest == rest;
      } else {
        TakenIsPrefix(chunks[1..], room - |Take(chunks[0].value, room)|);
        TakenIsPrefix(chunks[1..], room);
        TakeJoins(chunks[0].value, rest, room);
      }
    }
  }

  lemma TakeJoins(a: Bytes, b: Bytes, n: nat)
    ensures Take(a + b, n) == Take(a, n) + Take(b, n - |Take(a, n)|)
  {
  }

  /** Puts the chunk in at the offset and touches nothing else. */
  method SetAt(buffer: array<byte>, chunk: Bytes, offset: nat)
    requires offset + |chunk| <= buffer.Length
    modifies buffer
    ensures buffer[..offset + |chunk|] == old(buffer[..offset]) + chunk
    ensures forall i :: offset + |chunk| <= i < buffer.Length ==> buffer[i] == old(buffer[i])
  {
    forall i | 0 <= i < |chunk| {
      buffer[offset + i] := chunk[i];
    }
  }

  /** Copies chunk after chunk in at a moving offset, cutting off what there is no room for, until the stream ends. */
  method FillBuffer(reader: Reader, buffer: array<byte>, offset: nat) returns (filled: nat)
    requires offset <= buffer.Length
    modifies reader, buffer
    ensures reader.chunks == [] && offset <= filled <= buffer.Length
    ensures buffer[..filled] == old(buffer[..offset]) + Taken(old(reader.chunks), buffer.Length - offset)
    ensures forall i :: filled <= i < buffer.Length ==> buffer[i] == old(buffer[i])
    decreases |reader.chunks|
  {
    if reader.chunks == [] {
      assert buffer[..offset] + [] == buffer[..offset];
      return offset;
    }
    var value := reader.chunks[0];
    reader.chunks := reader.chunks[1..];
    if value.None? || offset >= buffer.Length {
      filled := FillBuffer(reader, buffer, offset);
      return;
    }
    var chunk := Take(value.value, buffer.Length - offset);
    ghost var before, rest := buffer[..offset], Taken(reader.chunks, buffer.Length - offset - |chunk|);
    SetAt(buffer, chunk, offset);
    filled := FillBuffer(reader, buffer, offset + |chunk|);
    assert before + chunk + rest == before + (chunk + rest);
  }

  /** The first bytes of the stream, as many as were announced, or all of them when there are fewer. */
  method ReadRaw(reader: Reader, rawSize: nat) returns (raw: Bytes)
    modifies reader
    ensures raw == Take(Delivered(old(reader.chunks)), rawSize)
  {
    var buffer := new byte[rawSize];
    TakenIsPrefix(reader.chunks, rawSize);
    var filled := FillBuffer(reader, buffer, 0);
    raw := if filled == buffer.Length then buffer[..] else buffer[..filled];
    assert buffer[..filled] == Take(Delivered(old(reader.chunks)), rawSize);
  }
}

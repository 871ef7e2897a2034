/**
  The 28-byte event header: a fixed `ByteBuffer` holding, big-endian,

      size   at  0 (4 bytes, payload length + 28)
      magic  at  4 (4 bytes)
      tag    at  8 (16 bytes, a UUID: high half then low half)
      crc32  at 24 (4 bytes)

  The buffer's limit is always its capacity, 28, so its state is the 28
  bytes plus a cursor.  Field accessors read at absolute offsets; `Read`
  and `Write` fill and drain the buffer from the cursor on.
 */
module EventHeader {
  import opened Bytes
  import Segment

  const SIZE_OFFSET: nat := 0
  const MAGIC_OFFSET: nat := SIZE_OFFSET + 4
  const TAG1_OFFSET: nat := MAGIC_OFFSET + 4
  const TAG2_OFFSET: nat := TAG1_OFFSET + 8
  const CRC_OFFSET: nat := TAG2_OFFSET + 8
  const HEADER_BYTE_SIZE: nat := CRC_OFFSET + 4

  /** `java.util.UUID`: its most and least significant 64-bit halves. */
  datatype Uuid = Uuid(mostSignificant: int64, leastSignificant: int64)

  /** The four fields as stored; `storedSize` is the raw size field, which
      already includes the 28 header bytes. */
  datatype Fields = Fields(storedSize: int32, magic: int32, tag: Uuid, crc32: int32)

  datatype HeaderBuffer = HeaderBuffer(bytes: seq<byte>, pos: nat)

  /** A header buffer: exactly 28 bytes, cursor within them. */
  type Header = h: HeaderBuffer | |h.bytes| == HEADER_BYTE_SIZE && h.pos <= HEADER_BYTE_SIZE
    witness HeaderBuffer(seq(28, _ => 0 as byte), 0)

  // ---------------------------------------------------------------------
  // The pure codec
  // ---------------------------------------------------------------------

  /** `initialize`: each field's big-endian bytes at its offset. */
  function Encode(f: Fields): (r: seq<byte>)
    ensures |r| == HEADER_BYTE_SIZE == 28
    ensures r[SIZE_OFFSET..MAGIC_OFFSET] == EncodeInt(f.storedSize)
    ensures r[MAGIC_OFFSET..TAG1_OFFSET] == EncodeInt(f.magic)
    ensures r[TAG1_OFFSET..TAG2_OFFSET] == EncodeLong(f.tag.mostSignificant)
    ensures r[TAG2_OFFSET..CRC_OFFSET] == EncodeLong(f.tag.leastSignificant)
    ensures r[CRC_OFFSET..HEADER_BYTE_SIZE] == EncodeInt(f.crc32)
  {
    var front := EncodeInt(f.storedSize) + EncodeInt(f.magic)
                 + EncodeLong(f.tag.mostSignificant) + EncodeLong(f.tag.leastSignificant);
    assert |front| == CRC_OFFSET;
    front + EncodeInt(f.crc32)
  }

  /** Decoding needs all 28 bytes; fewer is `Truncated`, never a partial header. */
  function Decode(b: seq<byte>): (r: Result<Fields>)
    ensures r.Err? <==> |b| < HEADER_BYTE_SIZE
    ensures r.Err? ==> r.error == Truncated
  {
    if |b| < HEADER_BYTE_SIZE then Err(Truncated)
    else Ok(Fields(GetInt(b, SIZE_OFFSET), GetInt(b, MAGIC_OFFSET),
                   Uuid(GetLong(b, TAG1_OFFSET), GetLong(b, TAG2_OFFSET)),
                   GetInt(b, CRC_OFFSET)))
  }

  lemma DecodeEncode(f: Fields)
    ensures Decode(Encode(f)) == Ok(f)
  {
    var r := Encode(f);
    DecodeEncodeInt(f.storedSize);
    DecodeEncodeInt(f.magic);
    DecodeEncodeLong(f.tag.mostSignificant);
    DecodeEncodeLong(f.tag.leastSignificant);
    DecodeEncodeInt(f.crc32);
  }

  lemma EncodeDecode(b: seq<byte>)
    requires |b| == HEADER_BYTE_SIZE
    ensures Decode(b).Ok? && Encode(Decode(b).value) == b
  {
    EncodeDecodeInt(b[0..4]);
    EncodeDecodeInt(b[4..8]);
    EncodeDecodeLong(b[8..16]);
    EncodeDecodeLong(b[16..24]);
    EncodeDecodeInt(b[24..28]);
    assert b == b[0..4] + b[4..8] + b[8..16] + b[16..24] + b[24..28];
  }

  // ---------------------------------------------------------------------
  // The buffer and its accessors
  // ---------------------------------------------------------------------

  /** `ByteBuffer.allocate(28)`: zeros, cursor at 0, so every field reads
      as 0 and the payload size as -28. */
  function Allocate(): (h: Header)
    ensures h.pos == 0
    ensures Decode(h.bytes) == Ok(Fields(0, 0, Uuid(0, 0), 0))
    ensures Size(h) == -(HEADER_BYTE_SIZE as int)
  {
    ZerosDecode();
    Wrap32Fits(-(HEADER_BYTE_SIZE as int));
    HeaderBuffer(seq(28, _ => 0 as byte), 0)
  }

  /** 28 zero bytes decode to all-zero fields. */
  lemma ZerosDecode()
    ensures Decode(seq(28, _ => 0 as byte)) == Ok(Fields(0, 0, Uuid(0, 0), 0))
  {
    var z := seq(28, _ => 0 as byte);
    ToBEZero(4);
    ToBEZero(8);
    DecodeEncodeInt(0);
    DecodeEncodeLong(0);
    assert GetInt(z, SIZE_OFFSET) == 0 by { assert z[0..4] == EncodeInt(0); }
    assert GetInt(z, MAGIC_OFFSET) == 0 by { assert z[4..8] == EncodeInt(0); }
    assert GetLong(z, TAG1_OFFSET) == 0 by { assert z[8..16] == EncodeLong(0); }
    assert GetLong(z, TAG2_OFFSET) == 0 by { assert z[16..24] == EncodeLong(0); }
    assert GetInt(z, CRC_OFFSET) == 0 by { assert z[24..28] == EncodeInt(0); }
  }

  /** The constructor from field values: the stored size is the payload
      size plus 28 under 32-bit wrap-around.  The relative puts leave the
      cursor at the end of the buffer. */
  function New(size: int32, magic: int32, tag: Uuid, crc32: int32): (h: Header)
    ensures h.pos == HEADER_BYTE_SIZE
    ensures Decode(h.bytes) == Ok(Fields(Wrap32(size + HEADER_BYTE_SIZE), magic, tag, crc32))
  {
    var f := Fields(Wrap32(size + HEADER_BYTE_SIZE), magic, tag, crc32);
    DecodeEncode(f);
    HeaderBuffer(Encode(f), HEADER_BYTE_SIZE)
  }

  /** `size()`: the payload size, i.e. the stored size minus 28.  Its
      properties are lemmas (`AccessorsDecode`, `SizeRestoresStored`,
      `NewRoundTrip`) rather than a contract, since nearly every proof
      about the state machines mentions it. */
  function Size(h: Header): int32
  {
    Wrap32(GetInt(h.bytes, SIZE_OFFSET) - HEADER_BYTE_SIZE)
  }

  /** `getMagic()`: the value whose encoding is bytes 4..8. */
  function Magic(h: Header): (r: int32)
    ensures EncodeInt(r) == h.bytes[MAGIC_OFFSET..TAG1_OFFSET]
  {
    EncodeDecodeInt(h.bytes[MAGIC_OFFSET..TAG1_OFFSET]);
    GetInt(h.bytes, MAGIC_OFFSET)
  }

  /** `getTag()`: the UUID whose halves encode to bytes 8..16 and 16..24. */
  function Tag(h: Header): (r: Uuid)
    ensures EncodeLong(r.mostSignificant) == h.bytes[TAG1_OFFSET..TAG2_OFFSET]
    ensures EncodeLong(r.leastSignificant) == h.bytes[TAG2_OFFSET..CRC_OFFSET]
  {
    EncodeDecodeLong(h.bytes[TAG1_OFFSET..TAG2_OFFSET]);
    EncodeDecodeLong(h.bytes[TAG2_OFFSET..CRC_OFFSET]);
    Uuid(GetLong(h.bytes, TAG1_OFFSET), GetLong(h.bytes, TAG2_OFFSET))
  }

  /** `getCrc32()`: the value whose encoding is bytes 24..28. */
  function Crc32(h: Header): (r: int32)
    ensures EncodeInt(r) == h.bytes[CRC_OFFSET..HEADER_BYTE_SIZE]
  {
    EncodeDecodeInt(h.bytes[CRC_OFFSET..HEADER_BYTE_SIZE]);
    GetInt(h.bytes, CRC_OFFSET)
  }

  /** The accessors are the decoded fields, with 28 taken off the size;
      they depend on the bytes only, never on the cursor. */
  lemma AccessorsDecode(h: Header)
    ensures Decode(h.bytes).Ok?
    ensures var f := Decode(h.bytes).value;
            && Size(h) == Wrap32(f.storedSize - HEADER_BYTE_SIZE)
            && Magic(h) == f.magic && Tag(h) == f.tag && Crc32(h) == f.crc32
    ensures forall p: nat :: p <= HEADER_BYTE_SIZE ==>
              var g: Header := HeaderBuffer(h.bytes, p);
              Size(g) == Size(h) && Magic(g) == Magic(h) && Tag(g) == Tag(h) && Crc32(g) == Crc32(h)
  {
  }

  /** Adding the 28 back to `size()`, as a Java `int`, gives the stored
      size field, whatever its value. */
  lemma SizeRestoresStored(h: Header)
    ensures Wrap32(Size(h) + HEADER_BYTE_SIZE) == Decode(h.bytes).value.storedSize
  {
    Wrap32AddSub(GetInt(h.bytes, SIZE_OFFSET), -(HEADER_BYTE_SIZE as int));
  }

  /** A header built from field values gives exactly those values back,
      for every `int` size (the +28 and -28 cancel under wrap-around). */
  lemma {:induction false} NewRoundTrip(size: int32, magic: int32, tag: Uuid, crc32: int32)
    ensures var h := New(size, magic, tag, crc32);
            && Size(h) == size && Magic(h) == magic && Tag(h) == tag && Crc32(h) == crc32
  {
    var h := New(size, magic, tag, crc32);
    AccessorsDecode(h);
    Wrap32AddSub(size, HEADER_BYTE_SIZE);
  }

  /** `clear()`: the limit is always the capacity, 28, so clearing puts
      the cursor back to 0 and leaves the bytes alone. */
  function Clear(h: Header): (r: Header)
    ensures r.pos == 0 && r.bytes == h.bytes
  {
    h.(pos := 0)
  }

  /** `rewind()` differs from `clear()` only in the limit, which here is
      always 28; so it is `Clear`. */
  function Rewind(h: Header): (r: Header)
    ensures r.pos == 0 && r.bytes == h.bytes
  {
    Clear(h)
  }

  datatype Cloned = Cloned(original: Header, copy: Header)

  /** `clone()`: rewinds the original and copies all 28 bytes into a fresh
      buffer with a relative put, which leaves both cursors at the end. */
  function Clone(h: Header): (r: Cloned)
    ensures r.copy.bytes == h.bytes && r.original.bytes == h.bytes
    ensures r.copy.pos == HEADER_BYTE_SIZE && r.original.pos == HEADER_BYTE_SIZE
    ensures Size(r.copy) == Size(h) && Magic(r.copy) == Magic(h)
    ensures Tag(r.copy) == Tag(h) && Crc32(r.copy) == Crc32(h)
  {
    var src := Rewind(h);
    Cloned(src.(pos := HEADER_BYTE_SIZE), HeaderBuffer(src.bytes, HEADER_BYTE_SIZE))
  }

  // ---------------------------------------------------------------------
  // Incremental reading and writing
  // ---------------------------------------------------------------------

  datatype ReadResult = ReadResult(header: Header, taken: nat, complete: bool)

  /** `read(channel)` when the channel has `offered` ready: it fills the
      buffer from the cursor, taking no more than there is room for, and
      reports whether the buffer is now full. */
  function Read(h: Header, offered: seq<byte>): (r: ReadResult)
    ensures r.taken == Min(|offered|, HEADER_BYTE_SIZE - h.pos)
    ensures r.header.pos == h.pos + r.taken
    ensures r.header.bytes[..r.header.pos] == h.bytes[..h.pos] + offered[..r.taken]
    ensures r.header.bytes[r.header.pos..] == h.bytes[r.header.pos..]
    ensures r.complete <==> r.header.pos == HEADER_BYTE_SIZE
  {
    var n := Min(|offered|, HEADER_BYTE_SIZE - h.pos);
    var b := h.bytes[..h.pos] + offered[..n] + h.bytes[h.pos + n..];
    ReadResult(HeaderBuffer(b, h.pos + n), n, h.pos + n == HEADER_BYTE_SIZE)
  }

  /** Successive reads from one byte stream, the channel having
      `sizes[i]` bytes ready at the i-th call; returns the header and what
      is left in the stream. */
  function ReadSteps(h: Header, stream: seq<byte>, sizes: seq<nat>): (Header, seq<byte>)
    decreases |sizes|
  {
    if |sizes| == 0 then (h, stream)
    else
      var rr := Read(h, stream[..Min(sizes[0], |stream|)]);
      ReadSteps(rr.header, stream[rr.taken..], sizes[1..])
  }

  /** `g` is `h` after the bytes `taken` were read into it: the cursor moved
      past them, they follow what `h` held, and nothing beyond moved. */
  ghost predicate Extends(h: Header, g: Header, taken: seq<byte>)
  {
    && g.pos == h.pos + |taken|
    && g.bytes[..g.pos] == h.bytes[..h.pos] + taken
    && g.bytes[g.pos..] == h.bytes[g.pos..]
  }

  lemma ExtendsTrans(h: Header, h1: Header, g: Header, a: seq<byte>, b: seq<byte>)
    requires Extends(h, h1, a) && Extends(h1, g, b)
    ensures Extends(h, g, a + b)
  {
    SuffixAgree(h1.bytes, h.bytes, h1.pos, g.pos);
  }

  /** However the stream is split across reads, the reads consume a prefix
      of it and the buffer holds exactly that prefix after what it held. */
  lemma {:induction false} ReadStepsConsumePrefix(h: Header, stream: seq<byte>, sizes: seq<nat>)
    ensures var (g, rest) := ReadSteps(h, stream, sizes);
            var k := |stream| - |rest|;
            && |rest| <= |stream|
            && stream == stream[..k] + rest
            && Extends(h, g, stream[..k])
    decreases |sizes|
  {
    if |sizes| > 0 {
      var offered := stream[..Min(sizes[0], |stream|)];
      var rr := Read(h, offered);
      var t := rr.taken;
      var h1 := rr.header;
      var s1 := stream[t..];
      assert offered[..t] == stream[..t];
      assert Extends(h, h1, stream[..t]);
      ReadStepsConsumePrefix(h1, s1, sizes[1..]);
      var (g, rest) := ReadSteps(h1, s1, sizes[1..]);
      assert (g, rest) == ReadSteps(h, stream, sizes);
      var k1 := |s1| - |rest|;
      ExtendsTrans(h, h1, g, stream[..t], s1[..k1]);
      PrefixSplit(stream, t, k1, rest);
    }
  }

  /** Sequences that agree from `i` on agree from any later `j` on. */
  lemma SuffixAgree(a: seq<byte>, b: seq<byte>, i: nat, j: nat)
    requires i <= j <= |a| == |b| && a[i..] == b[i..]
    ensures a[j..] == b[j..]
  {
    assert a[j..] == a[i..][j - i..];
    assert b[j..] == b[i..][j - i..];
  }

  /** Taking `t` bytes and then `k1` more from what is left takes `t + k1`. */
  lemma PrefixSplit(stream: seq<byte>, t: nat, k1: nat, rest: seq<byte>)
    requires t <= |stream|
    requires k1 + |rest| == |stream| - t
    requires stream[t..] == stream[t..][..k1] + rest
    ensures stream == stream[..t + k1] + rest
    ensures stream[..t + k1] == stream[..t] + stream[t..][..k1]
  {
    assert stream == stream[..t] + stream[t..];
  }

  /** Any split of the same 28 bytes across reads into a cleared buffer
      yields the same full buffer: those 28 bytes. */
  lemma ReadSplitIndependent(h: Header, stream: seq<byte>, sizes: seq<nat>)
    requires h.pos == 0
    requires ReadSteps(h, stream, sizes).0.pos == HEADER_BYTE_SIZE
    ensures |stream| >= HEADER_BYTE_SIZE
    ensures ReadSteps(h, stream, sizes).0.bytes == stream[..HEADER_BYTE_SIZE]
  {
    ReadStepsConsumePrefix(h, stream, sizes);
    var g := ReadSteps(h, stream, sizes).0;
    assert g.bytes == g.bytes[..g.pos];
  }

  datatype WriteResult = WriteResult(header: Header, emitted: seq<byte>, complete: bool)

  /** `write(channel)` when the channel accepts `accepted` bytes: it drains
      the buffer from the cursor and reports whether nothing remains. */
  function Write(h: Header, accepted: nat): (r: WriteResult)
    ensures r.header.bytes == h.bytes
    ensures r.header.pos == h.pos + |r.emitted|
    ensures r.emitted == h.bytes[h.pos..r.header.pos]
    ensures |r.emitted| == Min(accepted, HEADER_BYTE_SIZE - h.pos)
    ensures r.complete <==> r.header.pos == HEADER_BYTE_SIZE
  {
    var n := Min(accepted, HEADER_BYTE_SIZE - h.pos);
    WriteResult(h.(pos := h.pos + n), h.bytes[h.pos..h.pos + n], h.pos + n == HEADER_BYTE_SIZE)
  }

  /** Successive writes, the channel accepting `accepts[i]` bytes at the
      i-th call; returns the header and everything emitted, in order. */
  function WriteSteps(h: Header, accepts: seq<nat>): (Header, seq<byte>)
    decreases |accepts|
  {
    if |accepts| == 0 then (h, [])
    else
      var wr := Write(h, accepts[0]);
      var (g, out) := WriteSteps(wr.header, accepts[1..]);
      (g, wr.emitted + out)
  }

  /** Across any sequence of partial writes the output is the buffer's
      bytes from the starting cursor on, in order; once the buffer reports
      empty, from a rewound buffer that is all 28 header bytes. */
  lemma {:induction false} WriteStepsEmitInOrder(h: Header, accepts: seq<nat>)
    ensures var (g, out) := WriteSteps(h, accepts);
            && g.bytes == h.bytes
            && h.pos <= g.pos
            && out == h.bytes[h.pos..g.pos]
            && (h.pos == 0 && g.pos == HEADER_BYTE_SIZE ==> out == h.bytes)
    decreases |accepts|
  {
    if |accepts| > 0 {
      var wr := Write(h, accepts[0]);
      WriteStepsEmitInOrder(wr.header, accepts[1..]);
      var (g, out) := WriteSteps(wr.header, accepts[1..]);
      assert h.bytes[h.pos..g.pos] == h.bytes[h.pos..wr.header.pos] + h.bytes[wr.header.pos..g.pos];
    }
  }

  /** `seekToPayload(offset, segment)`: puts the segment's position at
      `offset + 28` (a Java `long` sum); a negative result is rejected by
      `FileChannel.position`.  It is rejected exactly when the offset lies
      below -28, or so high that adding 28 overflows. */
  function SeekToPayload(offset: int64, segment: Segment.File): (r: Result<Segment.File>)
    ensures r.Err? <==> offset < -(HEADER_BYTE_SIZE as int) || offset > 0x7FFF_FFFF_FFFF_FFFF - HEADER_BYTE_SIZE
    ensures r.Ok? ==> r.value == segment.(pos := offset + HEADER_BYTE_SIZE)
    ensures r.Err? ==> r.error == IllegalArgument
  {
    var target := Wrap64(offset + HEADER_BYTE_SIZE);
    if target < 0 then Err(IllegalArgument) else Ok(segment.(pos := target))
  }
}

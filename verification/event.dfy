/**
  The older 12-byte event layout, read through a `ByteBuffer` view:

      size   at 0 (4 bytes, payload length + 12)
      magic  at 4 (4 bytes)
      crc32  at 8 (4 bytes)
      payload from 12 to the buffer's limit

  It is a separate format from the 28-byte header and does not
  interoperate with it.  `bytes` is the buffer's content up to its limit;
  absolute reads past the limit fail as `ByteBuffer` does.
 */
module Event {
  import opened Bytes

  const HEADER_BYTE_SIZE: nat := 12
  const SIZE_OFFSET: nat := 0
  const MAGIC_OFFSET: nat := SIZE_OFFSET + 4
  const CRC_OFFSET: nat := MAGIC_OFFSET + 4

  datatype EventView = EventView(bytes: seq<byte>, position: nat)

  /** `size()`: the stored size less the 12 header bytes. */
  function Size(e: EventView): (r: Result<int32>)
    ensures r.Ok? <==> SIZE_OFFSET + 4 <= |e.bytes|
    ensures r.Err? ==> r.error == IndexOutOfBounds
  {
    if |e.bytes| < SIZE_OFFSET + 4 then Err(IndexOutOfBounds)
    else Ok(Wrap32(GetInt(e.bytes, SIZE_OFFSET) - HEADER_BYTE_SIZE))
  }

  function Magic(e: EventView): (r: Result<int32>)
    ensures r.Ok? <==> MAGIC_OFFSET + 4 <= |e.bytes|
    ensures r.Err? ==> r.error == IndexOutOfBounds
  {
    if |e.bytes| < MAGIC_OFFSET + 4 then Err(IndexOutOfBounds)
    else Ok(GetInt(e.bytes, MAGIC_OFFSET))
  }

  function Crc32(e: EventView): (r: Result<int32>)
    ensures r.Ok? <==> CRC_OFFSET + 4 <= |e.bytes|
    ensures r.Err? ==> r.error == IndexOutOfBounds
  {
    if |e.bytes| < CRC_OFFSET + 4 then Err(IndexOutOfBounds)
    else Ok(GetInt(e.bytes, CRC_OFFSET))
  }

  /** The payload together with the view after the call: `getPayload`
      moves the view's position to 12 but changes no byte. */
  datatype PayloadView = PayloadView(payload: seq<byte>, view: EventView)

  /** `getPayload()`: the bytes from offset 12 to the limit.  A buffer
      shorter than 12 bytes cannot be positioned at 12. */
  function GetPayload(e: EventView): (r: Result<PayloadView>)
    ensures r.Ok? <==> HEADER_BYTE_SIZE <= |e.bytes|
    ensures r.Err? ==> r.error == IllegalArgument
    ensures r.Ok? ==> e.bytes == e.bytes[..HEADER_BYTE_SIZE] + r.value.payload
    ensures r.Ok? ==> r.value.view == e.(position := HEADER_BYTE_SIZE)
  {
    if |e.bytes| < HEADER_BYTE_SIZE then Err(IllegalArgument)
    else Ok(PayloadView(e.bytes[HEADER_BYTE_SIZE..], e.(position := HEADER_BYTE_SIZE)))
  }

  /** The layout as the class describes it: the three fields, big-endian,
      then the payload; the size field counts the 12 header bytes. */
  function Frame(magic: int32, crc32: int32, payload: seq<byte>): (r: seq<byte>)
    ensures |r| == HEADER_BYTE_SIZE + |payload|
  {
    EncodeInt(Wrap32(|payload| + HEADER_BYTE_SIZE)) + EncodeInt(magic) + EncodeInt(crc32) + payload
  }

  /** Decoding a framed event gives its fields and payload back; the size
      is the payload length whenever that fits an `int`. */
  lemma FrameDecodes(magic: int32, crc32: int32, payload: seq<byte>, position: nat)
    ensures var e := EventView(Frame(magic, crc32, payload), position);
            && Size(e) == Ok(Wrap32(|payload|))
            && (|payload| < 0x8000_0000 ==> Size(e) == Ok(|payload|))
            && Magic(e) == Ok(magic)
            && Crc32(e) == Ok(crc32)
            && GetPayload(e).Ok? && GetPayload(e).value.payload == payload
  {
    var b := Frame(magic, crc32, payload);
    var e := EventView(b, position);
    var stored := Wrap32(|payload| + HEADER_BYTE_SIZE);
    assert b[0..4] == EncodeInt(stored);
    assert b[4..8] == EncodeInt(magic);
    assert b[8..12] == EncodeInt(crc32);
    assert b[HEADER_BYTE_SIZE..] == payload;
    DecodeEncodeInt(stored);
    DecodeEncodeInt(magic);
    DecodeEncodeInt(crc32);
    assert GetInt(b, SIZE_OFFSET) == stored;
    WrapTwice(|payload|, HEADER_BYTE_SIZE);
    assert Size(e) == Ok(Wrap32(|payload|));
    if |payload| < 0x8000_0000 {
      Wrap32Fits(|payload|);
    }
  }

  /** Conversely, a buffer whose stored size equals its length is the frame
      of its own fields and payload, and its payload is `size()` bytes long. */
  lemma WellFormedIsFrame(e: EventView)
    requires HEADER_BYTE_SIZE <= |e.bytes|
    requires GetInt(e.bytes, SIZE_OFFSET) == |e.bytes|
    ensures Size(e).Ok? && Magic(e).Ok? && Crc32(e).Ok? && GetPayload(e).Ok?
    ensures |GetPayload(e).value.payload| == Size(e).value
    ensures e.bytes == Frame(Magic(e).value, Crc32(e).value, GetPayload(e).value.payload)
  {
    var b := e.bytes;
    var p := b[HEADER_BYTE_SIZE..];
    WellFormedSize(e);
    var m := GetInt(b, MAGIC_OFFSET);
    var c := GetInt(b, CRC_OFFSET);
    EncodeDecodeInt(b[0..4]);
    EncodeDecodeInt(b[4..8]);
    EncodeDecodeInt(b[8..12]);
    assert Frame(m, c, p) == b[0..4] + b[4..8] + b[8..12] + p;
    assert b == b[0..4] + b[4..8] + b[8..12] + p;
  }

  lemma WellFormedSize(e: EventView)
    requires HEADER_BYTE_SIZE <= |e.bytes|
    requires GetInt(e.bytes, SIZE_OFFSET) == |e.bytes|
    ensures Size(e) == Ok(|e.bytes| - HEADER_BYTE_SIZE)
    ensures Wrap32(|e.bytes| - HEADER_BYTE_SIZE + HEADER_BYTE_SIZE) == GetInt(e.bytes, SIZE_OFFSET)
  {
    Wrap32Fits(|e.bytes| - HEADER_BYTE_SIZE);
    Wrap32Fits(|e.bytes|);
  }
}

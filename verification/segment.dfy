/**
  A log-segment file as the ingestion and replication paths see it through
  `java.nio.channels.FileChannel`: its bytes and its own position.  Only the
  operations the two state machines use are modelled: relative write,
  `transferFrom` (socket to file) and `transferTo` (file to socket).
 */
module Segment {
  import opened Bytes

  datatype File = File(data: seq<byte>, pos: nat)

  /** `bytes` stored at absolute offset `at`; a gap between the old end of
      the file and `at` reads as zeros. */
  function WriteAt(data: seq<byte>, at: nat, bytes: seq<byte>): (r: seq<byte>)
    ensures |r| == Max(|data|, at + |bytes|)
    ensures r[at..at + |bytes|] == bytes
    ensures forall i :: 0 <= i < |data| && !(at <= i < at + |bytes|) ==> r[i] == data[i]
    ensures forall i :: |data| <= i < at ==> r[i] == 0
  {
    var padded := if at <= |data| then data else data + seq(at - |data|, _ => 0 as byte);
    if at + |bytes| <= |padded| then padded[..at] + bytes + padded[at + |bytes|..]
    else padded[..at] + bytes
  }

  /** Writing at the end of the file is appending. */
  lemma WriteAtEnd(data: seq<byte>, bytes: seq<byte>)
    ensures WriteAt(data, |data|, bytes) == data + bytes
  {
  }

  /** `FileChannel.write(buffer)`: the bytes go at the file's position,
      which then advances past them. */
  function Write(f: File, bytes: seq<byte>): (r: File)
    ensures r.pos == f.pos + |bytes|
    ensures |r.data| == Max(|f.data|, r.pos)
    ensures r.data[f.pos..r.pos] == bytes
    ensures f.pos <= |f.data| ==> r.data[..f.pos] == f.data[..f.pos]
  {
    File(WriteAt(f.data, f.pos, bytes), f.pos + |bytes|)
  }

  /** The outcome of `transferFrom`: the file after the transfer, what is
      left in the source, and the number of bytes moved. */
  datatype Transfer = Transfer(file: File, source: seq<byte>, moved: nat)

  /** `FileChannel.transferFrom(source, position, count)` when the socket
      has `ready` bytes on hand: it moves as many as it can up to `count`,
      writes them at the absolute `position`, and moves nothing when
      `position` lies past the end of the file.  The file's own position is
      left alone. */
  function TransferFrom(f: File, source: seq<byte>, position: nat, count: nat, ready: nat): (t: Transfer)
    ensures t.moved <= count && t.moved <= ready && t.moved <= |source|
    ensures position > |f.data| ==> t == Transfer(f, source, 0)
    ensures position <= |f.data| ==>
              && t.moved == Min(ready, Min(count, |source|))
              && t.file == File(WriteAt(f.data, position, source[..t.moved]), f.pos)
    ensures source == source[..t.moved] + t.source
  {
    if position > |f.data| then Transfer(f, source, 0)
    else
      var n := Min(ready, Min(count, |source|));
      Transfer(File(WriteAt(f.data, position, source[..n]), f.pos), source[n..], n)
  }

  /** `FileChannel.transferTo(position, count, target)` when the socket
      accepts at most `accept` bytes: the bytes sent are the file's bytes
      from the absolute `position` on, nothing when `position` is past the
      end.  The file is not changed. */
  function TransferTo(f: File, position: nat, count: nat, accept: nat): (out: seq<byte>)
    ensures |out| <= count && |out| <= accept
    ensures position > |f.data| ==> out == []
    ensures position <= |f.data| ==>
              && |out| == Min(accept, Min(count, |f.data| - position))
              && out == f.data[position..position + |out|]
  {
    if position > |f.data| then [] else f.data[position..position + Min(accept, Min(count, |f.data| - position))]
  }
}

/**
  The ingestion state machine of one inbound connection (`Spinner`).

  The connection is modelled as a value: the spinner's own fields, the
  segment file it appends to, and the bytes the peer has sent that have
  not been consumed yet.  Each read-readiness callback is one call of
  `HandleRead`, and a `ReadEnv` supplies what the I/O calls of that
  callback do: how many bytes the socket has ready, how many bytes the
  file accepts, and which calls throw `IOException`.

  The bundle that maps a header to its segment is taken to return the same
  segment for every event of the connection.
 */
module Spinner {
  import opened Bytes
  import opened Io
  import EventHeader
  import Segment

  datatype State = Initialized | Accepted | ReadHeader | Append

  /** The fields of a `Spinner`; `attached` says whether `segment` is
      non-null. */
  datatype SpinnerFields = SpinnerFields(
    state: State,
    header: EventHeader.Header,
    attached: bool,
    remaining: int,
    position: nat)

  datatype Conn = Conn(spinner: SpinnerFields, segment: Segment.File, socket: seq<byte>)

  /** The I/O behaviour during one callback:
      `headerRead`      the socket read into the header buffer,
      `sizeFault`       whether `segment.size()` throws,
      `headerWrite`     the write of the header into the segment,
      `positionFault`   whether `segment.position()` throws after that write,
      `transfer`        `transferFrom` (bytes the socket has ready),
      `repositionFault` whether `segment.position(p)` throws after the payload. */
  datatype ReadEnv = ReadEnv(
    headerRead: IoResult,
    sizeFault: bool,
    headerWrite: IoResult,
    positionFault: bool,
    transfer: IoResult,
    repositionFault: bool)

  /** Internal result: the connection, how the call left, and how many
      times the bundle was asked for a segment. */
  datatype Step = Step(conn: Conn, exit: Exit, lookups: nat)

  /** Result of a callback, with the number of `selectForRead` requests. */
  datatype Reaction = Reaction(conn: Conn, exit: Exit, readInterest: nat, lookups: nat)

  /** The constructor: a zeroed 28-byte header buffer, no segment, both
      counters at 0.  Every field of the zeroed header reads as 0 (which,
      by `EventHeader.EncodeDecode`, fixes all 28 bytes), so it declares a
      payload of -28 bytes. */
  function Initial(): (r: SpinnerFields)
    ensures r.state == Initialized && !r.attached
    ensures r.remaining == 0 && r.position == 0
    ensures EventHeader.Decode(r.header.bytes) == Ok(EventHeader.Fields(0, 0, EventHeader.Uuid(0, 0), 0))
    ensures r.header.pos == 0 && EventHeader.Size(r.header) == -(EventHeader.HEADER_BYTE_SIZE as int)
  {
    SpinnerFields(Initialized, EventHeader.Allocate(), false, 0, 0)
  }

  /** `handleAccept`: ACCEPTED and one read-interest request.  The Java
      `assert` on the previous state is inert with assertions disabled. */
  function HandleAccept(c: Conn): (r: Reaction)
    ensures r.conn.spinner.state == Accepted
    ensures r.readInterest == 1 && r.exit == Returned && r.lookups == 0
    ensures r.conn.segment == c.segment && r.conn.socket == c.socket
    ensures r.conn.spinner == c.spinner.(state := Accepted)
  {
    Reaction(c.(spinner := c.spinner.(state := Accepted)), Returned, 1, 0)
  }

  /** `handleRead`: dispatch on the state, then request read interest. */
  function HandleRead(c: Conn, env: ReadEnv): (r: Reaction)
    ensures r.readInterest == (if r.exit == Returned then 1 else 0)
    ensures c.spinner.state == Initialized ==> r == Reaction(c, Returned, 1, 0)
    ensures r.exit == Threw ==> r.conn.spinner.remaining < 0
    ensures |r.conn.socket| <= |c.socket|
  {
    var s := match c.spinner.state
      case Accepted => ReadHeaderStep(StartHeader(c), env)
      case ReadHeader => ReadHeaderStep(c, env)
      case Append => AppendStep(c, env)
      case Initialized => Step(c, Returned, 0);
    Reaction(s.conn, s.exit, if s.exit == Returned then 1 else 0, s.lookups)
  }

  /** The ACCEPTED branch before it reads: clear the header, READ_HEADER. */
  function StartHeader(c: Conn): (r: Conn)
    ensures r.spinner.state == ReadHeader
    ensures r.spinner.header.pos == 0 && r.spinner.header.bytes == c.spinner.header.bytes
    ensures r.spinner == c.spinner.(state := ReadHeader, header := r.spinner.header)
    ensures r.segment == c.segment && r.socket == c.socket
  {
    c.(spinner := c.spinner.(header := EventHeader.Clear(c.spinner.header), state := ReadHeader))
  }

  /** `readHeader`: read what the socket has into the header; once full,
      look up the segment, note its size, write the header into it, set
      `remaining` to the declared payload size and go on to `append`. */
  function ReadHeaderStep(c: Conn, env: ReadEnv): (r: Step)
    ensures |r.conn.socket| <= |c.socket|
    ensures r.exit == Threw ==> r.conn.spinner.remaining < 0
    ensures env.headerRead.Fault? ==> r == Step(c, Returned, 0)
    ensures r.lookups <= 1
    ensures r.lookups == 1 <==>
              env.headerRead.Moved? &&
              c.spinner.header.pos + Min(env.headerRead.n, |c.socket|) >= EventHeader.HEADER_BYTE_SIZE
    ensures r.lookups == 0 ==> r.exit == Returned && r.conn.segment == c.segment
  {
    match env.headerRead
    case Fault => Step(c, Returned, 0)
    case Moved(n) =>
      var rr := EventHeader.Read(c.spinner.header, c.socket[..Min(n, |c.socket|)]);
      var c1 := c.(spinner := c.spinner.(header := rr.header), socket := c.socket[rr.taken..]);
      if !rr.complete then Step(c1, Returned, 0)
      else FinishHeader(c1.(spinner := c1.spinner.(attached := true)), env)
  }

  /** The rest of `readHeader` once the buffer is full and the segment
      has been looked up. */
  function FinishHeader(c: Conn, env: ReadEnv): (r: Step)
    ensures |r.conn.socket| <= |c.socket|
    ensures r.exit == Threw ==> r.conn.spinner.remaining < 0
    ensures r.lookups == 1
    ensures env.sizeFault ==> r.conn == c && r.exit == Returned
    ensures !env.sizeFault ==> r.conn.spinner.header.bytes == c.spinner.header.bytes
    ensures !env.sizeFault && r.exit == Threw ==> r.conn.spinner.remaining == EventHeader.Size(c.spinner.header)
  {
    if env.sizeFault then Step(c, Returned, 1)
    else
      var c1 := WriteHeader(c.(spinner := c.spinner.(position := |c.segment.data|)), env);
      var a := AppendStep(c1.(spinner := c1.spinner.(remaining := EventHeader.Size(c1.spinner.header))), env);
      a.(lookups := 1)
  }

  /** `writeHeader`: rewind the header and write it at the segment's
      position; a short write is only logged.  Unless a call throws, take
      the segment's new position and enter APPEND. */
  function WriteHeader(c: Conn, env: ReadEnv): (r: Conn)
    ensures r.socket == c.socket
    ensures r.spinner.remaining == c.spinner.remaining
    ensures r.spinner.header.bytes == c.spinner.header.bytes
    ensures env.headerWrite.Fault? ==> r.segment == c.segment && r.spinner.header.pos == 0
    ensures env.headerWrite.Moved? ==>
              var m := Min(env.headerWrite.n, EventHeader.HEADER_BYTE_SIZE);
              && r.spinner.header.pos == m
              && r.segment.pos == c.segment.pos + m <= |r.segment.data|
              && r.segment.data[c.segment.pos..r.segment.pos] == c.spinner.header.bytes[..m]
    ensures env.headerWrite.Moved? && !env.positionFault ==>
              r.spinner.state == Append && r.spinner.position == r.segment.pos
    ensures env.headerWrite.Fault? || env.positionFault ==>
              r.spinner.state == c.spinner.state && r.spinner.position == c.spinner.position
  {
    var h := EventHeader.Rewind(c.spinner.header);
    match env.headerWrite
    case Fault => c.(spinner := c.spinner.(header := h))
    case Moved(k) =>
      var wr := EventHeader.Write(h, k);
      var seg := Segment.Write(c.segment, wr.emitted);
      var c1 := Conn(c.spinner.(header := wr.header), seg, c.socket);
      if env.positionFault then c1
      else c1.(spinner := c1.spinner.(position := seg.pos, state := Append))
  }

  /** `append`: `transferFrom(socket, position, remaining)`, then advance
      both counters by what moved.  At zero remaining, reposition the
      segment, drop it and return to ACCEPTED.  A negative `remaining` is
      rejected by `transferFrom` with an unchecked exception. */
  function AppendStep(c: Conn, env: ReadEnv): (r: Step)
    ensures |r.conn.socket| <= |c.socket|
    ensures r.exit == Threw <==> c.spinner.remaining < 0
    ensures r.exit == Threw ==> r.conn == c
    ensures r.lookups == 0
  {
    var sp := c.spinner;
    if sp.remaining < 0 then Step(c, Threw, 0)
    else
      match env.transfer
      case Fault => Step(c, Returned, 0)
      case Moved(n) =>
        var t := Segment.TransferFrom(c.segment, c.socket, sp.position, sp.remaining, n);
        var sp1 := sp.(position := sp.position + t.moved, remaining := sp.remaining - t.moved);
        if sp1.remaining == 0 then
          var seg := if env.repositionFault then t.file else t.file.(pos := sp1.position);
          Step(Conn(sp1.(attached := false, state := Accepted), seg, t.source), Returned, 0)
        else Step(Conn(sp1, t.file, t.source), Returned, 0)
  }

  // ---------------------------------------------------------------------
  // Properties of single callbacks
  // ---------------------------------------------------------------------

  /** In ACCEPTED, a callback starts a fresh header: if the read throws,
      the connection is in READ_HEADER with an empty header buffer and
      nothing else has changed. */
  lemma AcceptedStartsHeader(c: Conn, env: ReadEnv)
    requires c.spinner.state == Accepted && env.headerRead.Fault?
    ensures var r := HandleRead(c, env);
            && r.conn.spinner.state == ReadHeader
            && r.conn.spinner.header.pos == 0
            && r.conn.spinner.header.bytes == c.spinner.header.bytes
            && r.conn.segment == c.segment && r.conn.socket == c.socket
            && r.readInterest == 1 && r.lookups == 0
  {
  }

  /** While the header is incomplete, a callback in READ_HEADER only
      extends the header buffer with the bytes it takes from the socket:
      no segment lookup, no change to the segment or the counters.  A
      read that throws changes nothing at all. */
  lemma PartialHeaderRead(c: Conn, env: ReadEnv)
    requires c.spinner.state == ReadHeader
    requires env.headerRead.Fault? ||
             c.spinner.header.pos + Min(env.headerRead.n, |c.socket|) < EventHeader.HEADER_BYTE_SIZE
    ensures var r := HandleRead(c, env);
            var k := |c.socket| - |r.conn.socket|;
            && r.conn.spinner == c.spinner.(header := r.conn.spinner.header)
            && r.conn.segment == c.segment
            && c.socket == c.socket[..k] + r.conn.socket
            && r.conn.spinner.header.pos == c.spinner.header.pos + k
            && r.conn.spinner.header.bytes[..r.conn.spinner.header.pos]
               == c.spinner.header.bytes[..c.spinner.header.pos] + c.socket[..k]
            && r.lookups == 0 && r.readInterest == 1
            && (env.headerRead.Fault? ==> r.conn == c)
  {
    match env.headerRead
    case Fault =>
    case Moved(n) =>
      var offered := c.socket[..Min(n, |c.socket|)];
      var rr := EventHeader.Read(c.spinner.header, offered);
      assert offered[..rr.taken] == c.socket[..rr.taken];
      assert c.socket == c.socket[..rr.taken] + c.socket[rr.taken..];
  }

  /** The I/O calls of a callback all succeed and the header goes into
      the segment whole. */
  predicate FaultFree(env: ReadEnv)
  {
    && env.headerRead.Moved?
    && !env.sizeFault
    && env.headerWrite.Moved? && env.headerWrite.n >= EventHeader.HEADER_BYTE_SIZE
    && !env.positionFault
    && env.transfer.Moved?
    && !env.repositionFault
  }

  /** What one header read takes: the front of the socket, as much as
      is ready and fits. */
  lemma HeaderReadTakes(c: Conn, n: nat)
    ensures var rr := EventHeader.Read(c.spinner.header, c.socket[..Min(n, |c.socket|)]);
            var h := c.spinner.header;
            && rr.taken == Min(Min(n, |c.socket|), EventHeader.HEADER_BYTE_SIZE - h.pos)
            && c.socket == c.socket[..rr.taken] + c.socket[rr.taken..]
            && rr.header.bytes[..rr.header.pos] == h.bytes[..h.pos] + c.socket[..rr.taken]
  {
    var offered := c.socket[..Min(n, |c.socket|)];
    var rr := EventHeader.Read(c.spinner.header, offered);
    assert offered[..rr.taken] == c.socket[..rr.taken];
  }

  /** The connection just after a full header has been written at the end
      of the segment: APPEND, `position` past the header, `remaining` the
      declared payload size. */
  function Appending(c: Conn): Conn
  {
    var d := c.segment.data;
    var hdr := c.spinner.header.(pos := EventHeader.HEADER_BYTE_SIZE);
    Conn(c.spinner.(state := Append, header := hdr, position := |d| + EventHeader.HEADER_BYTE_SIZE,
                    remaining := EventHeader.Size(hdr)),
         Segment.File(d + hdr.bytes, |d| + EventHeader.HEADER_BYTE_SIZE),
         c.socket)
  }

  lemma FinishHeaderFaultFree(c: Conn, env: ReadEnv)
    requires FaultFree(env) && c.segment.pos == |c.segment.data|
    ensures FinishHeader(c, env) == AppendStep(Appending(c), env).(lookups := 1)
  {
    var d := c.segment.data;
    var c0 := c.(spinner := c.spinner.(position := |d|));
    var wr := EventHeader.Write(EventHeader.Rewind(c.spinner.header), env.headerWrite.n);
    assert wr.emitted == c.spinner.header.bytes;
    Segment.WriteAtEnd(d, wr.emitted);
    var c1 := WriteHeader(c0, env);
    assert c1.segment == Segment.File(d + c.spinner.header.bytes, |d| + EventHeader.HEADER_BYTE_SIZE);
    assert c1.(spinner := c1.spinner.(remaining := EventHeader.Size(c1.spinner.header))) == Appending(c);
  }

  /** The moment the header buffer fills: the segment is looked up once,
      the 28 header bytes are appended at its end, `position` is the file
      position just past them, `remaining` is the declared payload size,
      the state is APPEND,
      and the payload the socket already has is transferred in the same
      callback. */
  lemma HeaderCompletes(c: Conn, env: ReadEnv)
    requires c.spinner.state == ReadHeader && FaultFree(env)
    requires c.segment.pos == |c.segment.data|
    requires c.spinner.header.pos + Min(env.headerRead.n, |c.socket|) >= EventHeader.HEADER_BYTE_SIZE
    ensures var k := EventHeader.HEADER_BYTE_SIZE - c.spinner.header.pos;
            var full := c.spinner.header.bytes[..c.spinner.header.pos] + c.socket[..k];
            var hdr := EventHeader.HeaderBuffer(full, EventHeader.HEADER_BYTE_SIZE);
            var d := c.segment.data;
            var mid := Conn(
              SpinnerFields(Append, hdr, true, EventHeader.Size(hdr), |d| + EventHeader.HEADER_BYTE_SIZE),
              Segment.File(d + full, |d| + EventHeader.HEADER_BYTE_SIZE),
              c.socket[k..]);
            var r := HandleRead(c, env);
            && r.conn == AppendStep(mid, env).conn
            && r.exit == AppendStep(mid, env).exit
            && r.lookups == 1
  {
    HeaderReadTakes(c, env.headerRead.n);
    var rr := EventHeader.Read(c.spinner.header, c.socket[..Min(env.headerRead.n, |c.socket|)]);
    var c1 := c.(spinner := c.spinner.(header := rr.header, attached := true), socket := c.socket[rr.taken..]);
    FinishHeaderFaultFree(c1, env);
    assert rr.header.bytes == rr.header.bytes[..rr.header.pos];
  }

  /** In APPEND, a transfer advances `position` and lowers `remaining` by
      exactly the bytes moved, never more than `remaining`, so `remaining`
      stays non-negative; the bytes are the front of the socket written at
      the old `position`.  An I/O fault changes nothing. */
  lemma AppendCounters(c: Conn, env: ReadEnv)
    requires c.spinner.state == Append && c.spinner.remaining >= 0
    ensures var r := HandleRead(c, env);
            var sp := c.spinner;
            var sp' := r.conn.spinner;
            var moved := sp'.position - sp.position;
            && r.exit == Returned && r.readInterest == 1 && r.lookups == 0
            && 0 <= moved <= sp.remaining
            && sp'.remaining == sp.remaining - moved >= 0
            && c.socket == c.socket[..moved] + r.conn.socket
            && (moved > 0 ==> r.conn.segment.data == Segment.WriteAt(c.segment.data, sp.position, c.socket[..moved]))
            && (moved == 0 ==> r.conn.segment.data == c.segment.data)
            && (env.transfer.Fault? ==> r.conn == c)
  {
  }

  /** When `remaining` reaches zero the segment is positioned at
      `position` (unless that call throws), dropped, and the state is
      ACCEPTED; otherwise the state stays APPEND with the segment held. */
  lemma AppendFinishes(c: Conn, env: ReadEnv)
    requires c.spinner.state == Append && c.spinner.remaining >= 0 && env.transfer.Moved?
    ensures var r := HandleRead(c, env);
            var sp' := r.conn.spinner;
            && (sp'.remaining == 0 ==>
                  && sp'.state == Accepted && !sp'.attached
                  && (!env.repositionFault ==> r.conn.segment.pos == sp'.position))
            && (sp'.remaining != 0 ==> sp'.state == Append && sp'.attached == c.spinner.attached)
  {
  }

  /** A throwing `segment.size()` leaves the full header buffer in
      READ_HEADER.  The next callback reads nothing into the full buffer,
      takes it as complete and looks the segment up again; if `size()`
      throws once more, that callback changes nothing either. */
  lemma SizeFaultRetries(c: Conn, env1: ReadEnv, env2: ReadEnv)
    requires c.spinner.state == ReadHeader
    requires env1.headerRead.Moved? && env1.sizeFault
    requires c.spinner.header.pos + Min(env1.headerRead.n, |c.socket|) >= EventHeader.HEADER_BYTE_SIZE
    requires env2.headerRead.Moved?
    ensures var r1 := HandleRead(c, env1);
            var r2 := HandleRead(r1.conn, env2);
            && r1.exit == Returned && r1.readInterest == 1 && r1.lookups == 1
            && r1.conn.spinner.state == ReadHeader
            && r1.conn.spinner.header.pos == EventHeader.HEADER_BYTE_SIZE
            && r1.conn.segment == c.segment
            && r2.lookups == 1
            && (env2.sizeFault ==> r2.conn == r1.conn && r2.exit == Returned)
  {
    var r1 := HandleRead(c, env1);
    var h := r1.conn.spinner.header;
    var rr := EventHeader.Read(h, r1.conn.socket[..Min(env2.headerRead.n, |r1.conn.socket|)]);
    assert rr.taken == 0;
    assert rr.header.bytes == rr.header.bytes[..rr.header.pos] == h.bytes[..h.pos] == h.bytes;
  }

  /** A throwing header write (or a throwing `position()` after it) does
      not stop `readHeader`: `remaining` is still the declared payload
      size and `append` still runs, from the file size noted before the
      write, but the state is not APPEND.  When the write itself threw,
      the payload is appended at the old end of the file with no header
      in front of it. */
  lemma WriteFaultStillAppends(c: Conn, env: ReadEnv)
    requires c.spinner.state == ReadHeader
    requires !env.sizeFault && (env.headerWrite.Fault? || env.positionFault)
    requires env.transfer.Moved?
    ensures var r := FinishHeader(c, env);
            var size := EventHeader.Size(c.spinner.header);
            var d := c.segment.data;
            var moved := r.conn.spinner.position - |d|;
            && r.lookups == 1
            && r.conn.spinner.state != Append
            && (size < 0 ==> r.exit == Threw && r.conn.spinner.remaining == size)
            && (size >= 0 ==>
                  && r.exit == Returned
                  && 0 <= moved <= size
                  && r.conn.spinner.remaining == size - moved
                  && (r.conn.spinner.state == Accepted <==> moved == size)
                  && (env.headerWrite.Fault? ==> r.conn.segment.data == d + c.socket[..moved]))
  {
    var d := c.segment.data;
    var c1 := WriteHeader(c.(spinner := c.spinner.(position := |d|)), env);
    assert c1.spinner.state == ReadHeader && c1.spinner.position == |d| <= |c1.segment.data|;
    assert EventHeader.Size(c1.spinner.header) == EventHeader.Size(c.spinner.header);
    var c2 := c1.(spinner := c1.spinner.(remaining := EventHeader.Size(c1.spinner.header)));
    AppendOutsideAppend(c2, env);
    if env.headerWrite.Fault? {
      Segment.WriteAtEnd(d, c.socket[..AppendStep(c2, env).conn.spinner.position - |d|]);
    }
  }

  /** `append` entered from READ_HEADER, as after a failed header write. */
  lemma AppendOutsideAppend(c: Conn, env: ReadEnv)
    requires c.spinner.state == ReadHeader && env.transfer.Moved?
    requires c.spinner.position <= |c.segment.data|
    ensures var a := AppendStep(c, env);
            var sp := a.conn.spinner;
            var moved := sp.position - c.spinner.position;
            && sp.state != Append
            && (c.spinner.remaining < 0 ==> a.exit == Threw && a.conn == c)
            && (c.spinner.remaining >= 0 ==>
                  && a.exit == Returned
                  && 0 <= moved <= c.spinner.remaining
                  && sp.remaining == c.spinner.remaining - moved
                  && (sp.state == Accepted <==> moved == c.spinner.remaining)
                  && a.conn.segment.data == Segment.WriteAt(c.segment.data, c.spinner.position, c.socket[..moved]))
  {
  }

  /** A header whose declared size is negative: a stored size in
      [-2^31 + 28, 27], since below that `size()` wraps around.
      The callback that completes it enters APPEND with a negative
      `remaining`; `transferFrom` then throws, so no read interest is
      requested, and every later callback throws the same way without
      changing anything. */
  lemma NegativeSizeStalls(c: Conn, env: ReadEnv, later: ReadEnv)
    requires c.spinner.state == ReadHeader && FaultFree(env)
    requires c.segment.pos == |c.segment.data|
    requires c.spinner.header.pos + Min(env.headerRead.n, |c.socket|) >= EventHeader.HEADER_BYTE_SIZE
    requires var k := EventHeader.HEADER_BYTE_SIZE - c.spinner.header.pos;
             PayloadSize(c.spinner.header.bytes[..c.spinner.header.pos] + c.socket[..k]) < 0
    ensures var r := HandleRead(c, env);
            && r.exit == Threw && r.readInterest == 0 && r.lookups == 1
            && r.conn.spinner.state == Append && r.conn.spinner.remaining < 0
            && HandleRead(r.conn, later) == Reaction(r.conn, Threw, 0, 0)
  {
    var k := EventHeader.HEADER_BYTE_SIZE - c.spinner.header.pos;
    var full := c.spinner.header.bytes[..c.spinner.header.pos] + c.socket[..k];
    var hdr := EventHeader.HeaderBuffer(full, EventHeader.HEADER_BYTE_SIZE);
    EventHeader.AccessorsDecode(hdr);
    assert EventHeader.Size(hdr) < 0;
    HeaderCompletes(c, env);
    var r := HandleRead(c, env);
    assert r.conn.spinner.state == Append && r.conn.spinner.remaining < 0;
    StalledAppend(r.conn, later);
  }

  /** In APPEND with a negative `remaining`, every callback throws from
      `transferFrom` and changes nothing. */
  lemma StalledAppend(c: Conn, env: ReadEnv)
    requires c.spinner.state == Append && c.spinner.remaining < 0
    ensures HandleRead(c, env) == Reaction(c, Threw, 0, 0)
  {
  }

  // ---------------------------------------------------------------------
  // One complete event, however the input is chunked
  // ---------------------------------------------------------------------

  /** The payload size a 28-byte header declares. */
  function PayloadSize(h: seq<byte>): int32
    requires |h| == EventHeader.HEADER_BYTE_SIZE
  {
    EventHeader.Size(EventHeader.HeaderBuffer(h, 0))
  }

  /** Where the connection is within the event `h ++ p` (followed on the
      socket by `rest`), appended to a segment that held `d`. */
  ghost predicate InEvent(c: Conn, d: seq<byte>, h: seq<byte>, p: seq<byte>, rest: seq<byte>)
  {
    && |h| == EventHeader.HEADER_BYTE_SIZE
    && PayloadSize(h) == |p|
    && match c.spinner.state
       case Initialized => false
       case ReadHeader => InHeader(c, d, h, p, rest)
       case Append => InPayload(c, d, h, p, rest)
       case Accepted =>
         && c.segment == Segment.File(d + h + p, |d + h + p|)
         && c.socket == rest
  }

  /** READ_HEADER within the event: the buffer holds a prefix of the
      header, the segment is untouched, the socket holds the rest. */
  ghost predicate InHeader(c: Conn, d: seq<byte>, h: seq<byte>, p: seq<byte>, rest: seq<byte>)
  {
    var k := c.spinner.header.pos;
    && k <= |h|
    && c.spinner.header.bytes[..k] == h[..k]
    && c.segment == Segment.File(d, |d|)
    && c.socket == h[k..] + p + rest
  }

  /** APPEND within the event: the segment holds the header and a prefix
      of the payload, the socket holds the rest. */
  ghost predicate InPayload(c: Conn, d: seq<byte>, h: seq<byte>, p: seq<byte>, rest: seq<byte>)
  {
    var data := c.segment.data;
    && |d| + |h| <= |data| <= |d| + |h| + |p|
    && var j := |data| - |d| - |h|;
    && data == d + h + p[..j]
    && c.spinner.position == |data|
    && c.spinner.remaining == |p| - j
    && c.socket == p[j..] + rest
  }

  /** A transfer in APPEND keeps the connection within the event. */
  lemma AppendInEvent(c: Conn, env: ReadEnv, d: seq<byte>, h: seq<byte>, p: seq<byte>, rest: seq<byte>)
    requires c.spinner.state == Append && InEvent(c, d, h, p, rest) && FaultFree(env)
    ensures InEvent(AppendStep(c, env).conn, d, h, p, rest)
  {
    AppendAtEnd(c, env);
    PayloadMoves(c, AppendStep(c, env).conn, d, h, p, rest);
  }

  /** Any move of payload bytes that has the shape of a fault-free
      transfer keeps the connection within the event. */
  lemma PayloadMoves(c: Conn, r: Conn, d: seq<byte>, h: seq<byte>, p: seq<byte>, rest: seq<byte>)
    requires |h| == EventHeader.HEADER_BYTE_SIZE && PayloadSize(h) == |p| && InPayload(c, d, h, p, rest)
    requires AppendedAtEnd(c, r)
    ensures InEvent(r, d, h, p, rest)
  {
    var j := |c.segment.data| - |d| - |h|;
    var m := |r.segment.data| - |c.segment.data|;
    PayloadAdvances(d + h, p, rest, j, m, r.segment.data, r.socket);
    if r.spinner.state == Append {
      assert InPayload(r, d, h, p, rest);
    } else {
      assert r.segment == Segment.File(d + h + p, |d + h + p|);
    }
  }

  /** `r` follows `c` by `m` socket bytes moved to the end of the
      segment, never more than `remaining`; it has left APPEND exactly
      when none remain, with the segment then positioned at its end. */
  ghost predicate AppendedAtEnd(c: Conn, r: Conn)
  {
    var m := |r.segment.data| - |c.segment.data|;
    && 0 <= m <= c.spinner.remaining
    && r.segment.data + r.socket == c.segment.data + c.socket
    && r.spinner.position == |r.segment.data|
    && r.spinner.remaining == c.spinner.remaining - m
    && (r.spinner.state == Append || r.spinner.state == Accepted)
    && (r.spinner.state == Accepted <==> r.spinner.remaining == 0)
    && (r.spinner.state == Accepted ==> r.segment.pos == |r.segment.data|)
  }

  /** A fault-free transfer in APPEND, with the transfer position at
      the end of the segment, is such a move. */
  lemma AppendAtEnd(c: Conn, env: ReadEnv)
    requires c.spinner.state == Append && c.spinner.remaining >= 0 && FaultFree(env)
    requires c.spinner.position == |c.segment.data|
    ensures AppendedAtEnd(c, AppendStep(c, env).conn)
  {
    TransferAtEnd(c.segment, c.socket, c.spinner.remaining, env.transfer.n);
  }

  /** Moving `m` more payload bytes from the socket to the end of a
      segment that holds `front` and the first `j` payload bytes. */
  lemma PayloadAdvances(front: seq<byte>, p: seq<byte>, rest: seq<byte>, j: nat, m: nat,
                        data: seq<byte>, source: seq<byte>)
    requires j + m <= |p|
    requires data + source == front + p[..j] + (p[j..] + rest)
    requires |data| == |front| + j + m
    ensures data == front + p[..j + m]
    ensures source == p[j + m..] + rest
    ensures j + m == |p| ==> data == front + p
  {
    var all := front + p[..j] + (p[j..] + rest);
    assert all == front + p[..j + m] + (p[j + m..] + rest) by {
      assert p[..j + m] == p[..j] + p[j..j + m];
      assert p[j..] == p[j..j + m] + p[j + m..];
    }
    assert data == all[..|data|];
    assert source == all[|data|..];
  }

  /** A header read in READ_HEADER keeps the connection within the event. */
  lemma ReadHeaderInEvent(c: Conn, env: ReadEnv, d: seq<byte>, h: seq<byte>, p: seq<byte>, rest: seq<byte>)
    requires c.spinner.state == ReadHeader && InEvent(c, d, h, p, rest) && FaultFree(env)
    ensures InEvent(ReadHeaderStep(c, env).conn, d, h, p, rest)
  {
    var rr := EventHeader.Read(c.spinner.header, c.socket[..Min(env.headerRead.n, |c.socket|)]);
    var c1 := c.(spinner := c.spinner.(header := rr.header), socket := c.socket[rr.taken..]);
    HeaderReadInEvent(c, env.headerRead.n, d, h, p, rest);
    if rr.complete {
      var c2 := c1.(spinner := c1.spinner.(attached := true));
      FinishHeaderFaultFree(c2, env);
      AppendingInEvent(c2, d, h, p, rest);
      AppendInEvent(Appending(c2), env, d, h, p, rest);
    }
  }

  /** The read itself: the header buffer and the socket stay split at a
      point of the header. */
  lemma HeaderReadInEvent(c: Conn, n: nat, d: seq<byte>, h: seq<byte>, p: seq<byte>, rest: seq<byte>)
    requires |h| == EventHeader.HEADER_BYTE_SIZE && InHeader(c, d, h, p, rest)
    ensures var rr := EventHeader.Read(c.spinner.header, c.socket[..Min(n, |c.socket|)]);
            InHeader(c.(spinner := c.spinner.(header := rr.header), socket := c.socket[rr.taken..]), d, h, p, rest)
  {
    HeaderReadTakes(c, n);
    var rr := EventHeader.Read(c.spinner.header, c.socket[..Min(n, |c.socket|)]);
    TakeIntoHeader(c, rr.taken, rr.header, d, h, p, rest);
  }

  /** Moving `k` bytes of the header from the socket into the buffer. */
  lemma TakeIntoHeader(c: Conn, k: nat, hb: EventHeader.Header, d: seq<byte>, h: seq<byte>, p: seq<byte>, rest: seq<byte>)
    requires |h| == EventHeader.HEADER_BYTE_SIZE && InHeader(c, d, h, p, rest)
    requires hb.pos == c.spinner.header.pos + k
    requires hb.bytes[..hb.pos] == c.spinner.header.bytes[..c.spinner.header.pos] + c.socket[..k]
    ensures InHeader(c.(spinner := c.spinner.(header := hb), socket := c.socket[k..]), d, h, p, rest)
  {
    var pos := c.spinner.header.pos;
    SplitHeaderInput(c.socket, h, pos, k, p + rest, c.spinner.header.bytes, hb.bytes);
  }

  /** Taking `k` more header bytes from input that holds the header from
      `pos` on, followed by `tail`, into a buffer that held its first
      `pos` bytes. */
  lemma SplitHeaderInput(socket: seq<byte>, h: seq<byte>, pos: nat, k: nat, tail: seq<byte>,
                         before: seq<byte>, after: seq<byte>)
    requires pos + k <= |h| && socket == h[pos..] + tail
    requires pos <= |before| && before[..pos] == h[..pos]
    requires pos + k <= |after| && after[..pos + k] == before[..pos] + socket[..k]
    ensures after[..pos + k] == h[..pos + k]
    ensures socket[k..] == h[pos + k..] + tail
  {
    assert h[pos..] == h[pos..pos + k] + h[pos + k..];
    assert socket[..k] == h[pos..pos + k];
    assert h[..pos + k] == h[..pos] + h[pos..pos + k];
  }

  /** The full header written at the end of the segment starts the
      payload part of the event. */
  lemma AppendingInEvent(c: Conn, d: seq<byte>, h: seq<byte>, p: seq<byte>, rest: seq<byte>)
    requires c.spinner.state == ReadHeader && c.spinner.header.pos == EventHeader.HEADER_BYTE_SIZE
    requires InEvent(c, d, h, p, rest)
    ensures InEvent(Appending(c), d, h, p, rest)
  {
    assert c.spinner.header.bytes == h;
    assert h[EventHeader.HEADER_BYTE_SIZE..] == [];
    assert p[..0] == [] && p[0..] == p;
  }

  /** Any fault-free callback during an event keeps the connection within
      it; the first callback from ACCEPTED starts it. */
  lemma StepInEvent(c: Conn, env: ReadEnv, d: seq<byte>, h: seq<byte>, p: seq<byte>, rest: seq<byte>)
    requires FaultFree(env)
    requires c.spinner.state != Initialized
    requires c.spinner.state == Accepted ==>
               && |h| == EventHeader.HEADER_BYTE_SIZE && PayloadSize(h) == |p|
               && c.segment == Segment.File(d, |d|) && c.socket == h + p + rest
    requires c.spinner.state != Accepted ==> InEvent(c, d, h, p, rest)
    ensures InEvent(HandleRead(c, env).conn, d, h, p, rest)
  {
    match c.spinner.state
    case Accepted =>
      var c0 := StartHeader(c);
      assert c0.spinner.header.bytes[..0] == h[..0];
      ReadHeaderInEvent(c0, env, d, h, p, rest);
    case ReadHeader =>
      ReadHeaderInEvent(c, env, d, h, p, rest);
    case Append =>
      AppendInEvent(c, env, d, h, p, rest);
  }

  /** Callbacks until the connection is back in ACCEPTED (or the schedule
      runs out). */
  function RunEvent(c: Conn, envs: seq<ReadEnv>): Conn
    decreases |envs|
  {
    if |envs| == 0 then c
    else
      var c1 := HandleRead(c, envs[0]).conn;
      if c1.spinner.state == Accepted then c1 else RunEvent(c1, envs[1..])
  }

  lemma {:induction false} RunInEvent(c: Conn, envs: seq<ReadEnv>, d: seq<byte>, h: seq<byte>, p: seq<byte>, rest: seq<byte>)
    requires forall i :: 0 <= i < |envs| ==> FaultFree(envs[i])
    requires InEvent(c, d, h, p, rest) && c.spinner.state != Accepted
    ensures InEvent(RunEvent(c, envs), d, h, p, rest)
    decreases |envs|
  {
    if |envs| > 0 {
      StepInEvent(c, envs[0], d, h, p, rest);
      var c1 := HandleRead(c, envs[0]).conn;
      if c1.spinner.state != Accepted {
        RunInEvent(c1, envs[1..], d, h, p, rest);
      }
    }
  }

  /** One complete event: once the connection is back in ACCEPTED, the
      segment holds its old contents, then the header, then the payload,
      it is positioned at its end, and the socket holds exactly what
      followed the event; before that, the segment never holds anything
      but a prefix of that. */
  lemma OneEventAppended(c: Conn, envs: seq<ReadEnv>, d: seq<byte>, h: seq<byte>, p: seq<byte>, rest: seq<byte>)
    requires forall i :: 0 <= i < |envs| ==> FaultFree(envs[i])
    requires |envs| > 0
    requires c.spinner.state == Accepted
    requires |h| == EventHeader.HEADER_BYTE_SIZE && PayloadSize(h) == |p|
    requires c.segment == Segment.File(d, |d|) && c.socket == h + p + rest
    ensures var c' := RunEvent(c, envs);
            && InEvent(c', d, h, p, rest)
            && (c'.spinner.state == Accepted ==>
                  && c'.segment.data == d + h + p
                  && c'.segment.pos == |d| + |h| + |p|
                  && c'.socket == rest)
  {
    StepInEvent(c, envs[0], d, h, p, rest);
    var c1 := HandleRead(c, envs[0]).conn;
    if c1.spinner.state != Accepted {
      RunInEvent(c1, envs[1..], d, h, p, rest);
    }
  }

  /** Chunking independence: two schedules that both complete the event
      leave byte-identical segments. */
  lemma ChunkingIndependent(c: Conn, e1: seq<ReadEnv>, e2: seq<ReadEnv>, d: seq<byte>, h: seq<byte>, p: seq<byte>, rest: seq<byte>)
    requires forall i :: 0 <= i < |e1| ==> FaultFree(e1[i])
    requires forall i :: 0 <= i < |e2| ==> FaultFree(e2[i])
    requires |e1| > 0 && |e2| > 0
    requires c.spinner.state == Accepted
    requires |h| == EventHeader.HEADER_BYTE_SIZE && PayloadSize(h) == |p|
    requires c.segment == Segment.File(d, |d|) && c.socket == h + p + rest
    requires RunEvent(c, e1).spinner.state == Accepted && RunEvent(c, e2).spinner.state == Accepted
    ensures RunEvent(c, e1).segment == RunEvent(c, e2).segment
    ensures RunEvent(c, e1).socket == RunEvent(c, e2).socket
  {
    OneEventAppended(c, e1, d, h, p, rest);
    OneEventAppended(c, e2, d, h, p, rest);
  }

  /** When the socket already holds the whole event, one callback appends
      it: the header is looked up once and, in particular, a zero-length
      payload completes in the same callback as its header. */
  lemma SameCallbackCompletion(c: Conn, env: ReadEnv, d: seq<byte>, h: seq<byte>, p: seq<byte>, rest: seq<byte>)
    requires FaultFree(env)
    requires env.headerRead.n >= EventHeader.HEADER_BYTE_SIZE && env.transfer.n >= |p|
    requires c.spinner.state == Accepted
    requires |h| == EventHeader.HEADER_BYTE_SIZE && PayloadSize(h) == |p|
    requires c.segment == Segment.File(d, |d|) && c.socket == h + p + rest
    ensures var r := HandleRead(c, env);
            && r.conn.spinner.state == Accepted
            && r.conn.segment.data == d + h + p
            && r.conn.socket == rest
            && r.lookups == 1 && r.readInterest == 1
  {
    StepInEvent(c, env, d, h, p, rest);
    SameCallbackFinishes(c, env, h, p, rest);
  }

  /** The state and lookup count part of `SameCallbackCompletion`. */
  lemma SameCallbackFinishes(c: Conn, env: ReadEnv, h: seq<byte>, p: seq<byte>, rest: seq<byte>)
    requires FaultFree(env)
    requires env.headerRead.n >= EventHeader.HEADER_BYTE_SIZE && env.transfer.n >= |p|
    requires c.spinner.state == Accepted
    requires |h| == EventHeader.HEADER_BYTE_SIZE && PayloadSize(h) == |p|
    requires c.segment.pos == |c.segment.data| && c.socket == h + p + rest
    ensures var r := HandleRead(c, env);
            r.conn.spinner.state == Accepted && r.lookups == 1
  {
    AcceptedReadsAsReadHeader(c, env);
    WholeEventOffered(StartHeader(c), env, h, p, rest);
  }

  /** `SameCallbackFinishes` from READ_HEADER with an empty header buffer. */
  lemma WholeEventOffered(c: Conn, env: ReadEnv, h: seq<byte>, p: seq<byte>, rest: seq<byte>)
    requires FaultFree(env)
    requires env.headerRead.n >= EventHeader.HEADER_BYTE_SIZE && env.transfer.n >= |p|
    requires c.spinner.state == ReadHeader && c.spinner.header.pos == 0
    requires |h| == EventHeader.HEADER_BYTE_SIZE && PayloadSize(h) == |p|
    requires c.segment.pos == |c.segment.data| && c.socket == h + p + rest
    ensures var r := HandleRead(c, env);
            r.conn.spinner.state == Accepted && r.lookups == 1
  {
    var d := c.segment.data;
    var hdr := EventHeader.HeaderBuffer(h, EventHeader.HEADER_BYTE_SIZE);
    var mid := Conn(SpinnerFields(Append, hdr, true, EventHeader.Size(hdr), |d| + EventHeader.HEADER_BYTE_SIZE),
                    Segment.File(d + h, |d| + EventHeader.HEADER_BYTE_SIZE), p + rest);
    assert c.socket == h + (p + rest);
    WholeHeaderOffered(c, env, h, p + rest);
    PayloadSizeAt(h, EventHeader.HEADER_BYTE_SIZE);
    AppendAllReady(mid, env);
  }

  /** `HeaderCompletes` for an empty header buffer and a socket that starts
      with a whole header `h`. */
  lemma WholeHeaderOffered(c: Conn, env: ReadEnv, h: seq<byte>, tail: seq<byte>)
    requires c.spinner.state == ReadHeader && c.spinner.header.pos == 0 && FaultFree(env)
    requires env.headerRead.n >= EventHeader.HEADER_BYTE_SIZE
    requires c.segment.pos == |c.segment.data|
    requires |h| == EventHeader.HEADER_BYTE_SIZE && c.socket == h + tail
    ensures var d := c.segment.data;
            var hdr := EventHeader.HeaderBuffer(h, EventHeader.HEADER_BYTE_SIZE);
            var mid := Conn(SpinnerFields(Append, hdr, true, EventHeader.Size(hdr), |d| + EventHeader.HEADER_BYTE_SIZE),
                            Segment.File(d + h, |d| + EventHeader.HEADER_BYTE_SIZE), tail);
            var r := HandleRead(c, env);
            r.conn == AppendStep(mid, env).conn && r.lookups == 1
  {
    assert c.socket[..EventHeader.HEADER_BYTE_SIZE] == h;
    assert c.socket[EventHeader.HEADER_BYTE_SIZE..] == tail;
    assert c.spinner.header.bytes[..0] + h == h;
    HeaderCompletes(c, env);
  }

  /** A callback in ACCEPTED is a callback in READ_HEADER on the cleared
      header. */
  lemma AcceptedReadsAsReadHeader(c: Conn, env: ReadEnv)
    requires c.spinner.state == Accepted
    ensures HandleRead(c, env) == HandleRead(StartHeader(c), env)
  {
  }

  /** The declared payload size does not depend on the buffer's cursor. */
  lemma PayloadSizeAt(h: seq<byte>, k: nat)
    requires |h| == EventHeader.HEADER_BYTE_SIZE && k <= EventHeader.HEADER_BYTE_SIZE
    ensures EventHeader.Size(EventHeader.HeaderBuffer(h, k)) == PayloadSize(h)
  {
  }

  /** A transfer that can move everything still due finishes the event. */
  lemma AppendAllReady(c: Conn, env: ReadEnv)
    requires c.spinner.state == Append && env.transfer.Moved?
    requires 0 <= c.spinner.remaining <= |c.socket| && c.spinner.remaining <= env.transfer.n
    requires c.spinner.position <= |c.segment.data|
    ensures AppendStep(c, env).conn.spinner.state == Accepted
  {
  }

  // ---------------------------------------------------------------------
  // Many events: every byte sent is in the segment, buffered, or unread
  // ---------------------------------------------------------------------

  /** Header bytes read but not yet written to the segment. */
  function Buffered(sp: SpinnerFields): seq<byte>
  {
    if sp.state == ReadHeader then sp.header.bytes[..sp.header.pos] else []
  }

  /** The segment is written at its end: the file position (outside
      APPEND) or the transfer position (in APPEND) is the file length. */
  predicate AtEnd(c: Conn)
  {
    if c.spinner.state == Append then c.spinner.position == |c.segment.data|
    else c.segment.pos == |c.segment.data|
  }

  /** The segment, then the buffered header bytes, then the unread socket
      bytes, are exactly the segment's original contents followed by
      everything the peer sent. */
  predicate Conserves(c: Conn, base: seq<byte>, input: seq<byte>)
  {
    c.segment.data + Buffered(c.spinner) + c.socket == base + input
  }

  function Run(c: Conn, envs: seq<ReadEnv>): Conn
    decreases |envs|
  {
    if |envs| == 0 then c else Run(HandleRead(c, envs[0]).conn, envs[1..])
  }

  lemma AppendConserves(c: Conn, env: ReadEnv, base: seq<byte>, input: seq<byte>)
    requires c.spinner.state == Append && AtEnd(c) && Conserves(c, base, input) && FaultFree(env)
    ensures AtEnd(AppendStep(c, env).conn) && Conserves(AppendStep(c, env).conn, base, input)
  {
    if c.spinner.remaining >= 0 {
      AppendAtEnd(c, env);
      AppendedConserves(c, AppendStep(c, env).conn, base, input);
    }
  }

  lemma AppendedConserves(c: Conn, r: Conn, base: seq<byte>, input: seq<byte>)
    requires c.spinner.state == Append && Conserves(c, base, input) && AppendedAtEnd(c, r)
    ensures AtEnd(r) && Conserves(r, base, input)
  {
    assert Buffered(c.spinner) == [] && Buffered(r.spinner) == [];
    assert c.segment.data + Buffered(c.spinner) + c.socket == c.segment.data + c.socket;
    assert r.segment.data + Buffered(r.spinner) + r.socket == r.segment.data + r.socket;
  }

  /** A transfer at the end of the file appends the bytes it takes from
      the source, so file then source is unchanged. */
  lemma TransferAtEnd(f: Segment.File, source: seq<byte>, count: nat, ready: nat)
    ensures var t := Segment.TransferFrom(f, source, |f.data|, count, ready);
            && t.file.data + t.source == f.data + source
            && |t.file.data| == |f.data| + t.moved
  {
    var t := Segment.TransferFrom(f, source, |f.data|, count, ready);
    Segment.WriteAtEnd(f.data, source[..t.moved]);
    assert t.file.data == f.data + source[..t.moved];
  }

  lemma ReadHeaderConserves(c: Conn, env: ReadEnv, base: seq<byte>, input: seq<byte>)
    requires c.spinner.state == ReadHeader && AtEnd(c) && Conserves(c, base, input) && FaultFree(env)
    ensures AtEnd(ReadHeaderStep(c, env).conn) && Conserves(ReadHeaderStep(c, env).conn, base, input)
  {
    var h := c.spinner.header;
    HeaderReadTakes(c, env.headerRead.n);
    var rr := EventHeader.Read(h, c.socket[..Min(env.headerRead.n, |c.socket|)]);
    var k := rr.taken;
    var c1 := c.(spinner := c.spinner.(header := rr.header), socket := c.socket[k..]);
    BufferTakes(c, k, rr.header, base, input);
    if rr.complete {
      var c2 := c1.(spinner := c1.spinner.(attached := true));
      FinishHeaderFaultFree(c2, env);
      AppendingConserves(c2, base, input);
      AppendConserves(Appending(c2), env, base, input);
    }
  }

  /** Moving `k` socket bytes into the header buffer keeps the sum. */
  lemma BufferTakes(c: Conn, k: nat, hb: EventHeader.Header, base: seq<byte>, input: seq<byte>)
    requires c.spinner.state == ReadHeader && Conserves(c, base, input)
    requires k <= |c.socket|
    requires hb.bytes[..hb.pos] == c.spinner.header.bytes[..c.spinner.header.pos] + c.socket[..k]
    ensures Conserves(c.(spinner := c.spinner.(header := hb), socket := c.socket[k..]), base, input)
  {
    var h := c.spinner.header;
    assert c.socket == c.socket[..k] + c.socket[k..];
    assert hb.bytes[..hb.pos] + c.socket[k..] == h.bytes[..h.pos] + c.socket;
  }

  /** Writing a full, buffered header at the end of the segment moves
      its bytes from the buffer to the segment. */
  lemma AppendingConserves(c: Conn, base: seq<byte>, input: seq<byte>)
    requires c.spinner.state == ReadHeader && c.spinner.header.pos == EventHeader.HEADER_BYTE_SIZE
    requires AtEnd(c) && Conserves(c, base, input)
    ensures AtEnd(Appending(c)) && Conserves(Appending(c), base, input)
  {
    assert Buffered(c.spinner) == c.spinner.header.bytes;
  }

  lemma StepConserves(c: Conn, env: ReadEnv, base: seq<byte>, input: seq<byte>)
    requires AtEnd(c) && Conserves(c, base, input) && FaultFree(env)
    ensures AtEnd(HandleRead(c, env).conn) && Conserves(HandleRead(c, env).conn, base, input)
  {
    match c.spinner.state
    case Accepted =>
      ReadHeaderConserves(StartHeader(c), env, base, input);
    case ReadHeader =>
      ReadHeaderConserves(c, env, base, input);
    case Append =>
      AppendConserves(c, env, base, input);
    case Initialized =>
  }

  /** Over any fault-free schedule of callbacks, no byte is lost,
      duplicated or reordered on its way from the socket to the segment. */
  lemma {:induction false} RunConserves(c: Conn, envs: seq<ReadEnv>, base: seq<byte>, input: seq<byte>)
    requires forall i :: 0 <= i < |envs| ==> FaultFree(envs[i])
    requires AtEnd(c) && Conserves(c, base, input)
    ensures AtEnd(Run(c, envs)) && Conserves(Run(c, envs), base, input)
    decreases |envs|
  {
    if |envs| > 0 {
      StepConserves(c, envs[0], base, input);
      RunConserves(HandleRead(c, envs[0]).conn, envs[1..], base, input);
    }
  }

  /** A fault-free schedule that reads the socket dry and does not stop
      in the middle of a header leaves the segment holding its original
      contents followed by every byte sent, whatever the chunk sizes were:
      the result does not mention the schedule. */
  lemma DrainedSegmentHoldsInput(c: Conn, envs: seq<ReadEnv>)
    requires forall i :: 0 <= i < |envs| ==> FaultFree(envs[i])
    requires AtEnd(c) && c.spinner.state != ReadHeader
    requires Run(c, envs).socket == [] && Run(c, envs).spinner.state != ReadHeader
    ensures Run(c, envs).segment.data == c.segment.data + c.socket
  {
    StartConserves(c);
    RunConserves(c, envs, c.segment.data, c.socket);
    DrainedHoldsInput(c, Run(c, envs));
  }

  /** Outside READ_HEADER nothing is buffered, so a connection conserves
      its own segment followed by its own unread bytes. */
  lemma StartConserves(c: Conn)
    requires c.spinner.state != ReadHeader
    ensures Conserves(c, c.segment.data, c.socket)
  {
    assert Buffered(c.spinner) == [];
  }

  lemma DrainedHoldsInput(c: Conn, r: Conn)
    requires c.spinner.state != ReadHeader && r.spinner.state != ReadHeader && r.socket == []
    requires Conserves(r, c.segment.data, c.socket)
    ensures r.segment.data == c.segment.data + c.socket
  {
    assert Buffered(r.spinner) == [];
    assert r.segment.data + Buffered(r.spinner) + r.socket == r.segment.data;
  }
}

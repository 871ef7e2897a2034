/**
  The sequential part of the replication state machine (`Replicator`).

  A replicator takes events, in sequence order, from a ring of entries
  guarded by a consumer barrier and sends each one to a peer through a
  socket.  The model is a value: the flags and counters of the replicator
  and the event being replicated.  The barrier, the bundle that maps a
  header to its segment, and what each I/O call does are oracles passed
  in; scheduling on the executor is a count of queued `processNext` tasks
  and alerting the barrier is a count of alerts.
 */
module Replicator {
  import opened Bytes
  import opened Io
  import EventHeader
  import Segment

  /** The ring buffer's initial cursor: no sequence consumed yet. */
  const INITIAL_CURSOR_VALUE: int64 := -1

  datatype State = Waiting | WriteHeader | WritePayload

  datatype Option<T> = None | Some(value: T)

  /** A ring entry: its sequence, the event's offset in its segment, and
      the event's header. */
  datatype Entry = Entry(sequence: int64, offset: int64, header: EventHeader.Header)

  /** `ReplicatedState`: the event being replicated, the segment it is
      read from, and how many payload bytes are still to be sent. */
  datatype Replicated = Replicated(
    header: EventHeader.Header,
    offset: int64,
    payloadRemaining: int32,
    segment: Segment.File)

  /** The fields of a `Replicator`.  `connected` says whether the socket
      handler has been set; `scheduled` counts the `processNext` tasks
      handed to the executor and not yet run; `alerts` counts the alerts
      sent to the barrier; `writeInterest` counts `selectForWrite` requests. */
  datatype ReplicatorFields = ReplicatorFields(
    running: bool,
    sequence: int64,
    state: State,
    current: Option<Replicated>,
    connected: bool,
    scheduled: nat,
    alerts: nat,
    writeInterest: nat)

  /** What the barrier does when asked for a sequence: the entry becomes
      available, or the wait is ended by an alert or an interrupt. */
  datatype Wait = Available(entry: Entry) | Alerted | Interrupted

  /** The oracles of one `processNext` task: the barrier's answer for each
      sequence, the bundle's segment for each header, and whether moving
      the segment's position throws `IOException`. */
  datatype TaskEnv = TaskEnv(
    barrier: int64 -> Wait,
    segmentFor: EventHeader.Header -> Segment.File,
    seekFault: bool)

  /** The replicator after a call, and how the call left. */
  datatype Outcome = Outcome(replicator: ReplicatorFields, exit: Exit)

  /** The constructor: stopped, WAITING, at the initial cursor. */
  function Init(): (r: ReplicatorFields)
    ensures r.state == Waiting && !r.running && r.sequence == INITIAL_CURSOR_VALUE
    ensures r.current.None? && !r.connected
    ensures r.scheduled == 0 && r.alerts == 0 && r.writeInterest == 0
  {
    ReplicatorFields(false, INITIAL_CURSOR_VALUE, Waiting, None, false, 0, 0, 0)
  }

  /** `start`: only a call made while stopped sets `running` and hands a
      `processNext` task to the executor. */
  function Start(r: ReplicatorFields): (r': ReplicatorFields)
    ensures r'.running
    ensures r'.scheduled == r.scheduled + (if r.running then 0 else 1)
    ensures r' == r.(running := true, scheduled := r'.scheduled)
  {
    if r.running then r else r.(running := true, scheduled := r.scheduled + 1)
  }

  /** `halt`: only a call made while running clears `running` and alerts
      the barrier. */
  function Halt(r: ReplicatorFields): (r': ReplicatorFields)
    ensures !r'.running
    ensures r'.alerts == r.alerts + (if r.running then 1 else 0)
    ensures r' == r.(running := false, alerts := r'.alerts)
  {
    if r.running then r.(running := false, alerts := r.alerts + 1) else r
  }

  /** `handleConnect`: remember the socket handler. */
  function HandleConnect(r: ReplicatorFields): (r': ReplicatorFields)
    ensures r'.connected
    ensures r' == r.(connected := true)
  {
    r.(connected := true)
  }

  /** Connecting is what lets `replicate` finish: with a handler set, an
      accepted seek ends with one write-interest request; without one, the
      state is WRITE_HEADER but `selectForWrite` throws. */
  lemma ConnectEnablesReplicate(r: ReplicatorFields, e: Entry, env: TaskEnv)
    requires SeekAccepted(e.offset)
    ensures var o := Replicate(HandleConnect(r), e, env);
            o.exit == Returned && o.replicator.state == WriteHeader
            && o.replicator.writeInterest == r.writeInterest + 1
    ensures !r.connected ==>
              var o := Replicate(r, e, env);
              o.exit == Threw && o.replicator.state == WriteHeader
              && o.replicator.writeInterest == r.writeInterest
  {
  }

  /** The sequence `processNext` waits for: one past the last consumed,
      with `long` wrap-around. */
  function NextSequence(r: ReplicatorFields): int64
  {
    Wrap64(r.sequence + 1)
  }

  /** `processNext`: nothing when stopped; otherwise wait for the next
      sequence, record the sequence of the entry the barrier returns and
      replicate it.  An alert or an interrupt ends the task quietly. */
  function ProcessNext(r: ReplicatorFields, env: TaskEnv): (o: Outcome)
    ensures !r.running ==> o == Outcome(r, Returned)
    ensures r.running && !env.barrier(NextSequence(r)).Available? ==> o == Outcome(r, Returned)
    ensures r.running && env.barrier(NextSequence(r)).Available? ==>
              o.replicator.sequence == env.barrier(NextSequence(r)).entry.sequence
    ensures o.replicator.running == r.running && o.replicator.scheduled == r.scheduled
    ensures o.replicator.state == r.state || o.replicator.state == WriteHeader
  {
    if !r.running then Outcome(r, Returned)
    else
      match env.barrier(NextSequence(r))
      case Alerted => Outcome(r, Returned)
      case Interrupted => Outcome(r, Returned)
      case Available(e) => Replicate(r.(sequence := e.sequence), e, env)
  }

  /** The executor runs one queued `processNext` task, if there is one. */
  function RunTask(r: ReplicatorFields, env: TaskEnv): (o: Outcome)
    ensures r.scheduled == 0 ==> o == Outcome(r, Returned)
    ensures r.scheduled > 0 ==> o.replicator.scheduled == r.scheduled - 1
    ensures o.replicator.running == r.running
    ensures o.replicator.alerts == r.alerts && o.replicator.connected == r.connected
    ensures !r.running ==> o == Outcome(r.(scheduled := Max(r.scheduled - 1, 0)), Returned)
    ensures o.replicator.state == r.state || o.replicator.state == WriteHeader
    ensures o.replicator.sequence != r.sequence || o.replicator.state != r.state ==>
              r.running && r.scheduled > 0 && env.barrier(NextSequence(r)).Available?
  {
    if r.scheduled == 0 then Outcome(r, Returned)
    else ProcessNext(r.(scheduled := r.scheduled - 1), env)
  }

  /** The offsets whose seek target `position(offset + 28)` is accepted:
      the `long` sum is non-negative exactly on this range. */
  predicate SeekAccepted(offset: int64)
  {
    -(EventHeader.HEADER_BYTE_SIZE as int) <= offset <= 0x7FFF_FFFF_FFFF_FFFF - EventHeader.HEADER_BYTE_SIZE
  }

  /** `replicate`: make the entry the current event, its whole payload
      still to send, and seek its segment to the payload.  An `IOException`
      from the seek is only logged, so the state becomes WRITE_HEADER
      anyway and write interest is requested.  A negative seek target
      throws an unchecked exception before the state changes, and
      requesting write interest with no handler set throws after it. */
  function Replicate(r: ReplicatorFields, e: Entry, env: TaskEnv): (o: Outcome)
    ensures var s := o.replicator;
            && s.current.Some?
            && s.current.value.header == e.header
            && s.current.value.offset == e.offset
            && s.current.value.payloadRemaining == EventHeader.Size(e.header)
            && s.current.value.segment.data == env.segmentFor(e.header).data
    ensures SeekAccepted(e.offset) ==> o.replicator.state == WriteHeader
    ensures !SeekAccepted(e.offset) ==> o.replicator.state == r.state
    ensures SeekAccepted(e.offset) && !env.seekFault ==>
              o.replicator.current.value.segment.pos == e.offset + EventHeader.HEADER_BYTE_SIZE
    ensures env.seekFault ==> o.replicator.current.value.segment == env.segmentFor(e.header)
    ensures o.exit == Returned <==> SeekAccepted(e.offset) && r.connected
    ensures o.replicator.writeInterest == r.writeInterest + (if o.exit == Returned then 1 else 0)
    ensures o.replicator == r.(current := o.replicator.current, state := o.replicator.state,
                               writeInterest := o.replicator.writeInterest)
  {
    var h := e.header;
    var rs := Replicated(h, e.offset, EventHeader.Size(h), env.segmentFor(h));
    var r1 := r.(current := Some(rs));
    match EventHeader.SeekToPayload(e.offset, rs.segment)
    case Err(_) => Outcome(r1, Threw)
    case Ok(seg) =>
      var rs1 := if env.seekFault then rs else rs.(segment := seg);
      var r2 := r1.(current := Some(rs1), state := WriteHeader);
      if !r.connected then Outcome(r2, Threw)
      else Outcome(r2.(writeInterest := r2.writeInterest + 1), Returned)
  }

  // ---------------------------------------------------------------------
  // Writing an event
  // ---------------------------------------------------------------------

  /** `ReplicatedState.writeHeader`: the header buffer is drained from its
      cursor into the segment, at the segment's position, as far as the
      file accepts; nothing goes to the socket. */
  function WriteHeaderToSegment(rs: Replicated, accepted: nat): (r: Replicated)
    ensures r.offset == rs.offset && r.payloadRemaining == rs.payloadRemaining
    ensures r.header.bytes == rs.header.bytes
    ensures r.segment.pos == rs.segment.pos + (r.header.pos - rs.header.pos)
    ensures rs.header.pos <= r.header.pos
    ensures |r.segment.data| == Max(|rs.segment.data|, r.segment.pos)
    ensures r.segment.data[rs.segment.pos..r.segment.pos] == rs.header.bytes[rs.header.pos..r.header.pos]
    ensures r.segment.data[..rs.segment.pos] == rs.segment.data[..Min(rs.segment.pos, |rs.segment.data|)]
              + r.segment.data[Min(rs.segment.pos, |rs.segment.data|)..rs.segment.pos]
  {
    var wr := EventHeader.Write(rs.header, accepted);
    rs.(header := wr.header, segment := Segment.Write(rs.segment, wr.emitted))
  }

  datatype PayloadOutcome =
    | Done        // nothing was transferred: the payload is finished
    | NotDone     // some bytes were transferred
    | Faulted     // `IOException`
    | Rejected    // negative position or count: an unchecked exception

  /** The replicated event after the call and the bytes sent to the socket. */
  datatype PayloadResult = PayloadResult(state: Replicated, sent: seq<byte>, outcome: PayloadOutcome)

  /** The absolute file position `writePayload` transfers from: the
      payload size less what remains, computed in `int` and then widened.
      It counts from the start of the file, not from the event. */
  function PayloadPosition(rs: Replicated): int32
  {
    Wrap32(Cursor(rs))
  }

  /** `ReplicatedState.writePayload`: transfer up to `payloadRemaining`
      bytes from `PayloadPosition` to the socket, which accepts what the
      oracle says.  Zero bytes means done; otherwise the counter drops by
      what was sent. */
  function SendPayload(rs: Replicated, io: IoResult): (p: PayloadResult)
    ensures p.outcome == Rejected <==> PayloadPosition(rs) < 0 || rs.payloadRemaining < 0
    ensures p.outcome == Faulted <==> p.outcome != Rejected && io.Fault?
    ensures p.outcome != NotDone ==> p.state == rs && p.sent == []
    ensures p.outcome == NotDone ==>
              0 <= PayloadPosition(rs) && PayloadPosition(rs) + |p.sent| <= |rs.segment.data|
    ensures p.outcome == NotDone ==>
              && 0 < |p.sent| <= rs.payloadRemaining
              && p.state == rs.(payloadRemaining := rs.payloadRemaining - |p.sent|)
              && p.sent == rs.segment.data[PayloadPosition(rs)..PayloadPosition(rs) + |p.sent|]
    ensures p.outcome == Done ==>
              io.Moved? && (rs.payloadRemaining == 0 || io.n == 0 || PayloadPosition(rs) >= |rs.segment.data|)
    ensures io.Moved? && p.outcome == NotDone ==> |p.sent| <= io.n
  {
    var remaining := rs.payloadRemaining;
    var position := PayloadPosition(rs);
    if position < 0 || remaining < 0 then PayloadResult(rs, [], Rejected)
    else
      match io
      case Fault => PayloadResult(rs, [], Faulted)
      case Moved(n) =>
        var out := Segment.TransferTo(rs.segment, position, remaining, n);
        if |out| == 0 then PayloadResult(rs, [], Done)
        else PayloadResult(rs.(payloadRemaining := remaining - |out|), out, NotDone)
  }

  /** The replicator after a write-readiness callback, the bytes it sent
      to the socket, and how the callback left. */
  datatype WriteReaction = WriteReaction(replicator: ReplicatorFields, sent: seq<byte>, exit: Exit)

  /** `handleWrite`: in WRITE_HEADER write the header (into the segment)
      and ignore the result; in WRITE_PAYLOAD send payload, and when done
      go back to WAITING and queue `processNext`; in WAITING only log.
      `IOException`s are only logged. */
  function HandleWrite(r: ReplicatorFields, io: IoResult): (w: WriteReaction)
    ensures r.state == Waiting ==> w == WriteReaction(r, [], Returned)
    ensures r.state == WriteHeader ==> w.replicator.state == WriteHeader && w.sent == []
    ensures r.state != WritePayload ==> w.replicator.state == r.state
    ensures w.exit == Threw ==> w.replicator == r
    ensures w.replicator.running == r.running && w.replicator.sequence == r.sequence
    ensures w.replicator.current.Some? == r.current.Some?
  {
    match r.state
    case Waiting => WriteReaction(r, [], Returned)
    case WriteHeader =>
      (match r.current
       case None => WriteReaction(r, [], Threw)
       case Some(rs) =>
         match io
         case Fault => WriteReaction(r, [], Returned)
         case Moved(k) => WriteReaction(r.(current := Some(WriteHeaderToSegment(rs, k))), [], Returned))
    case WritePayload =>
      match r.current
      case None => WriteReaction(r, [], Threw)
      case Some(rs) =>
        var p := SendPayload(rs, io);
        match p.outcome
        case Done => WriteReaction(r.(state := Waiting, scheduled := r.scheduled + 1), [], Returned)
        case NotDone => WriteReaction(r.(current := Some(p.state)), p.sent, Returned)
        case Faulted => WriteReaction(r, [], Returned)
        case Rejected => WriteReaction(r, [], Threw)
  }

  // ---------------------------------------------------------------------
  // Start and halt
  // ---------------------------------------------------------------------

  /** A second `start` does nothing; a `start` while running does nothing. */
  lemma StartIdempotent(r: ReplicatorFields)
    ensures Start(Start(r)) == Start(r)
    ensures r.running ==> Start(r) == r
  {
  }

  /** A second `halt` does nothing; a `halt` before any `start` does nothing. */
  lemma HaltIdempotent(r: ReplicatorFields)
    ensures Halt(Halt(r)) == Halt(r)
    ensures !r.running ==> Halt(r) == r
    ensures Halt(Init()) == Init()
  {
  }

  /** After `halt`, a queued `processNext` task runs without consulting the
      barrier and changes nothing but the queue. */
  lemma HaltStops(r: ReplicatorFields, env: TaskEnv)
    ensures ProcessNext(Halt(r), env) == Outcome(Halt(r), Returned)
    ensures Halt(r).scheduled > 0 ==>
              RunTask(Halt(r), env) == Outcome(Halt(r).(scheduled := r.scheduled - 1), Returned)
  {
  }

  /** A freshly constructed replicator ignores write callbacks and queued
      tasks until it is started. */
  lemma InitialQuiescent(io: IoResult, env: TaskEnv)
    ensures HandleWrite(Init(), io) == WriteReaction(Init(), [], Returned)
    ensures ProcessNext(Init(), env) == Outcome(Init(), Returned)
    ensures RunTask(Init(), env) == Outcome(Init(), Returned)
  {
  }

  /** `processNext` asks the barrier for exactly one sequence, one past the
      last consumed: barriers that agree there give the same result. */
  lemma ProcessNextAsksNext(r: ReplicatorFields, env1: TaskEnv, env2: TaskEnv)
    requires env1.barrier(NextSequence(r)) == env2.barrier(NextSequence(r))
    requires env1.segmentFor == env2.segmentFor && env1.seekFault == env2.seekFault
    ensures ProcessNext(r, env1) == ProcessNext(r, env2)
  {
  }

  /** Consuming the entry the barrier offers: `sequence` becomes its
      sequence, it becomes the current event with its whole payload still
      due, and, when the seek target is valid, the state is WRITE_HEADER. */
  lemma ProcessNextReplicates(r: ReplicatorFields, env: TaskEnv)
    requires r.running && env.barrier(NextSequence(r)).Available?
    ensures var e := env.barrier(NextSequence(r)).entry;
            var o := ProcessNext(r, env);
            && o == Replicate(r.(sequence := e.sequence), e, env)
            && o.replicator.sequence == e.sequence
            && o.replicator.current.value.payloadRemaining == EventHeader.Size(e.header)
            && (SeekAccepted(e.offset) ==> o.replicator.state == WriteHeader)
  {
  }

  // ---------------------------------------------------------------------
  // Write callbacks
  // ---------------------------------------------------------------------

  /** In WRITE_HEADER, whatever the file accepts, the state stays
      WRITE_HEADER, nothing is sent to the socket, and the header bytes
      from its cursor on land in the segment at the segment's position:
      right after `replicate`, that is over the event's payload. */
  lemma HeaderGoesToSegment(r: ReplicatorFields, k: nat)
    requires r.state == WriteHeader && r.current.Some?
    requires r.current.value.header.pos + k >= EventHeader.HEADER_BYTE_SIZE
    ensures var w := HandleWrite(r, Moved(k));
            var rs := r.current.value;
            var rs' := w.replicator.current.value;
            && w.exit == Returned && w.sent == []
            && w.replicator.state == WriteHeader
            && rs'.header.pos == EventHeader.HEADER_BYTE_SIZE
            && rs'.segment.pos == rs.segment.pos + EventHeader.HEADER_BYTE_SIZE - rs.header.pos
            && rs'.segment.data[rs.segment.pos..rs'.segment.pos] == rs.header.bytes[rs.header.pos..]
  {
  }

  /** However many write callbacks follow, a replicator in WRITE_HEADER
      stays there and sends nothing. */
  lemma HeaderStateIsFinal(r: ReplicatorFields, ios: seq<IoResult>)
    requires r.state == WriteHeader
    ensures var (r', sent) := Writes(r, ios);
            r'.state == WriteHeader && sent == []
    decreases |ios|
  {
    if |ios| > 0 {
      HeaderStateIsFinal(HandleWrite(r, ios[0]).replicator, ios[1..]);
    }
  }

  /** Successive write callbacks; returns the replicator and everything
      sent to the socket. */
  function Writes(r: ReplicatorFields, ios: seq<IoResult>): (ReplicatorFields, seq<byte>)
    decreases |ios|
  {
    if |ios| == 0 then (r, [])
    else
      var w := HandleWrite(r, ios[0]);
      var (r', more) := Writes(w.replicator, ios[1..]);
      (r', w.sent + more)
  }

  /** In WRITE_PAYLOAD, a finished payload returns to WAITING and queues
      exactly one `processNext`; a fault changes nothing. */
  lemma PayloadTransitions(r: ReplicatorFields, io: IoResult)
    requires r.state == WritePayload && r.current.Some?
    ensures var w := HandleWrite(r, io);
            var p := SendPayload(r.current.value, io);
            && (p.outcome == Done ==>
                  w == WriteReaction(r.(state := Waiting, scheduled := r.scheduled + 1), [], Returned))
            && (p.outcome == Faulted ==> w == WriteReaction(r, [], Returned))
            && (p.outcome == NotDone ==>
                  && w.replicator.state == WritePayload
                  && w.sent == p.sent
                  && w.replicator.current == Some(p.state))
  {
  }

  /** Successive `writePayload` calls, the socket accepting `accepts[i]`
      bytes at the i-th; stops at the first call that does not report
      progress.  Returns the state, the bytes sent, and whether it ended
      with "done". */
  function PayloadSteps(rs: Replicated, accepts: seq<nat>): (Replicated, seq<byte>, bool)
    decreases |accepts|
  {
    if |accepts| == 0 then (rs, [], false)
    else
      var p := SendPayload(rs, Moved(accepts[0]));
      if p.outcome != NotDone then (p.state, p.sent, p.outcome == Done)
      else
        var (rs', more, done) := PayloadSteps(p.state, accepts[1..]);
        (rs', p.sent + more, done)
  }

  /** Across successive `writePayload` calls the event stays the same and
      `payloadRemaining` drops by exactly the bytes sent, never below zero. */
  lemma {:induction false} PayloadCounters(rs: Replicated, accepts: seq<nat>)
    requires 0 <= rs.payloadRemaining <= EventHeader.Size(rs.header)
    ensures var (rs', sent, done) := PayloadSteps(rs, accepts);
            && rs' == rs.(payloadRemaining := rs'.payloadRemaining)
            && 0 <= rs'.payloadRemaining <= rs.payloadRemaining
            && |sent| == rs.payloadRemaining - rs'.payloadRemaining
    decreases |accepts|
  {
    if |accepts| > 0 {
      SendStep(rs, accepts[0]);
      var p := SendPayload(rs, Moved(accepts[0]));
      if p.outcome == NotDone {
        PayloadCounters(p.state, accepts[1..]);
      }
    }
  }

  /** `sent` is the run of `data` at `a`. */
  ghost predicate SentRun(data: seq<byte>, a: int, sent: seq<byte>)
  {
    0 <= a && a + |sent| <= |data| && sent == data[a..a + |sent|]
  }

  /** `PayloadPosition` before its `int` wrap-around: the payload size less
      what remains.  The two agree while no wrap-around is needed. */
  function Cursor(rs: Replicated): int
  {
    EventHeader.Size(rs.header) - rs.payloadRemaining
  }

  /** The payload is sent as one contiguous run of the segment's bytes,
      starting at the position `size - remaining`. */
  lemma {:induction false} PayloadContiguous(rs: Replicated, accepts: seq<nat>)
    requires 0 <= rs.payloadRemaining <= EventHeader.Size(rs.header)
    requires Cursor(rs) <= |rs.segment.data|
    ensures SentRun(rs.segment.data, Cursor(rs), PayloadSteps(rs, accepts).1)
    decreases |accepts|, 0
  {
    if |accepts| > 0 {
      var p := SendPayload(rs, Moved(accepts[0]));
      SendRun(rs, accepts[0]);
      StepsUnfold(rs, accepts);
      if p.outcome == NotDone {
        ContiguousAfter(rs.segment.data, Cursor(rs), p.sent, p.state, accepts[1..]);
      }
    }
  }

  /** A run already sent, followed by what the later calls send from the
      cursor it leaves behind, is one run. */
  lemma {:induction false} ContiguousAfter(data: seq<byte>, a: int, first: seq<byte>, next: Replicated, accepts: seq<nat>)
    requires SentRun(data, a, first)
    requires next.segment.data == data && Cursor(next) == a + |first| <= |data|
    requires 0 <= next.payloadRemaining <= EventHeader.Size(next.header)
    ensures SentRun(data, a, first + PayloadSteps(next, accepts).1)
    decreases |accepts|, 1
  {
    PayloadContiguous(next, accepts);
    Adjacent(data, a, first, PayloadSteps(next, accepts).1);
  }

  /** What successive calls send: the first call's bytes, then, if it made
      progress, what the rest send. */
  lemma StepsUnfold(rs: Replicated, accepts: seq<nat>)
    requires |accepts| > 0
    ensures var p := SendPayload(rs, Moved(accepts[0]));
            PayloadSteps(rs, accepts).1
              == if p.outcome == NotDone then p.sent + PayloadSteps(p.state, accepts[1..]).1 else p.sent
  {
  }

  /** Past the end of the file nothing is ever sent. */
  lemma {:induction false} PayloadPastEnd(rs: Replicated, accepts: seq<nat>)
    requires 0 <= rs.payloadRemaining <= EventHeader.Size(rs.header)
    requires Cursor(rs) > |rs.segment.data|
    ensures PayloadSteps(rs, accepts).1 == []
  {
    if |accepts| > 0 {
      SendStep(rs, accepts[0]);
    }
  }

  /** One `writePayload` call from a position that needs no wrap-around:
      it is never rejected, and what it sends is the run at the cursor. */
  lemma SendStep(rs: Replicated, n: nat)
    requires 0 <= rs.payloadRemaining <= EventHeader.Size(rs.header)
    ensures var p := SendPayload(rs, Moved(n));
            && PayloadPosition(rs) == Cursor(rs)
            && p.outcome != Rejected && p.outcome != Faulted
            && (p.outcome == NotDone ==>
                  && SentRun(rs.segment.data, Cursor(rs), p.sent)
                  && p.state == rs.(payloadRemaining := rs.payloadRemaining - |p.sent|)
                  && p.state.segment == rs.segment
                  && Cursor(p.state) == Cursor(rs) + |p.sent|
                  && 0 <= p.state.payloadRemaining <= EventHeader.Size(p.state.header))
            && (p.outcome != NotDone ==> p.state == rs && p.sent == [])
            && (Cursor(rs) > |rs.segment.data| ==> p.sent == [])
  {
    Wrap32Fits(Cursor(rs));
  }

  /** The part of `SendStep` that contiguity needs. */
  lemma SendRun(rs: Replicated, n: nat)
    requires 0 <= rs.payloadRemaining <= EventHeader.Size(rs.header)
    ensures var p := SendPayload(rs, Moved(n));
            && (p.outcome == NotDone ==>
                  && SentRun(rs.segment.data, Cursor(rs), p.sent)
                  && p.state.segment == rs.segment
                  && Cursor(p.state) == Cursor(rs) + |p.sent|
                  && 0 <= p.state.payloadRemaining <= EventHeader.Size(p.state.header))
            && (p.outcome != NotDone ==> p.sent == [])
  {
    SendStep(rs, n);
  }

  /** A run of `s` at `a` followed by the run at its end is one run. */
  lemma Adjacent(s: seq<byte>, a: int, x: seq<byte>, y: seq<byte>)
    requires SentRun(s, a, x) && SentRun(s, a + |x|, y)
    ensures SentRun(s, a, x + y)
  {
    assert s[a..a + |x| + |y|] == s[a..a + |x|] + s[a + |x|..a + |x| + |y|];
  }

  /** The offset is ignored: for a fresh event, whose whole payload is
      still due, every byte sent comes from the start of the segment file,
      not from the event's payload at `offset + 28`. */
  lemma PayloadFromFileStart(rs: Replicated, accepts: seq<nat>)
    requires 0 <= rs.payloadRemaining == EventHeader.Size(rs.header)
    ensures var sent := PayloadSteps(rs, accepts).1;
            |sent| <= |rs.segment.data| && sent == rs.segment.data[..|sent|]
  {
    PayloadContiguous(rs, accepts);
  }

  // ---------------------------------------------------------------------
  // Reachable states
  // ---------------------------------------------------------------------

  /** Everything that can happen to a replicator. */
  datatype Op =
    | StartOp
    | HaltOp
    | ConnectOp
    | TaskOp(env: TaskEnv)
    | WriteOp(io: IoResult)

  function Apply(r: ReplicatorFields, op: Op): ReplicatorFields
  {
    match op
    case StartOp => Start(r)
    case HaltOp => Halt(r)
    case ConnectOp => HandleConnect(r)
    case TaskOp(env) => RunTask(r, env).replicator
    case WriteOp(io) => HandleWrite(r, io).replicator
  }

  function Run(r: ReplicatorFields, ops: seq<Op>): ReplicatorFields
    decreases |ops|
  {
    if |ops| == 0 then r else Run(Apply(r, ops[0]), ops[1..])
  }

  /** Never in WRITE_PAYLOAD, and an event is current whenever the state
      is not WAITING. */
  predicate Consistent(r: ReplicatorFields)
  {
    && r.state != WritePayload
    && (r.state == WriteHeader ==> r.current.Some?)
  }

  lemma ApplyConsistent(r: ReplicatorFields, op: Op)
    requires Consistent(r)
    ensures Consistent(Apply(r, op))
  {
  }

  /** No sequence of calls from a fresh replicator reaches WRITE_PAYLOAD:
      nothing ever enters it, so no payload is ever sent and, once an
      event is taken, the replicator never returns to WAITING. */
  lemma {:induction false} NeverWritesPayload(r: ReplicatorFields, ops: seq<Op>)
    requires Consistent(r)
    ensures Consistent(Run(r, ops))
    decreases |ops|
  {
    if |ops| > 0 {
      ApplyConsistent(r, ops[0]);
      NeverWritesPayload(Apply(r, ops[0]), ops[1..]);
    }
  }

  lemma FreshNeverWritesPayload(ops: seq<Op>)
    ensures Run(Init(), ops).state != WritePayload
  {
    NeverWritesPayload(Init(), ops);
  }

  /** Once an event has been taken, the replicator stays in WRITE_HEADER:
      `processNext` never puts it back in WAITING, and neither does any
      write callback. */
  lemma {:induction false} HeaderStateSticks(r: ReplicatorFields, ops: seq<Op>)
    requires Consistent(r) && r.state == WriteHeader
    ensures Run(r, ops).state == WriteHeader
    decreases |ops|
  {
    if |ops| > 0 {
      ApplyConsistent(r, ops[0]);
      HeaderStateSticks(Apply(r, ops[0]), ops[1..]);
    }
  }
}

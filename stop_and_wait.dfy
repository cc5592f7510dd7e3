/** The alternating-bit engine of lib/protocols/stop_and_wait.py. The sender
    keeps one sequence bit and an attempt counter shared by all its sends; the
    receiver keeps the bit it expects next. The queue that the server or the
    client thread fills with ACK datagrams is a sequence field: taking from an
    empty queue is the timeout of `Queue.get(timeout=TIMEOUT)`. Datagrams that
    `socket.sendto` would emit are appended to an output log. */
module StopAndWaitEngine {
  import opened Wire
  import opened Segments
  import opened Constants

  /** What one `communication_queue.get(timeout=TIMEOUT)` yields. */
  datatype AckEvent = Timeout | AckBytes(bytes: seq<byte>)

  /** How `send` ends: it returns, raises `MaxSendAttemptsExceeded`, or lets
      an exception of the codec through. */
  datatype SendOutcome = Delivered | MaxSendAttemptsExceeded | Raised(error: CodecError)

  /** What `send` makes of one `get`: a timeout, or the result of decoding
      the ACK datagram it took. */
  datatype AckView = TimedOut | Decoded(ack: Result<StopAndWaitSegment, CodecError>)

  /** How `send` decodes an ACK datagram. The retry loop is stated for any
      decoder; the engine uses `DeserializeStopAndWait`. */
  type Decoder = seq<byte> -> Result<StopAndWaitSegment, CodecError>

  function View(decode: Decoder, e: AckEvent): AckView
  {
    match e
    case Timeout => TimedOut
    case AckBytes(b) => Decoded(decode(b))
  }

  /** An event that `send` answers by retransmitting: a timeout, or an ACK that
      decodes but names the other bit. */
  predicate Ignored(v: AckView, seqNum: bit)
  {
    v.TimedOut? || (v.ack.Ok? && v.ack.value.ackNum != seqNum)
  }

  /** An event that ends `send` successfully. */
  predicate MatchingAck(v: AckView, seqNum: bit)
  {
    v.Decoded? && v.ack.Ok? && v.ack.value.ackNum == seqNum
  }

  /** The sender's side of the state `send` reads and writes: the sequence
      bit, the attempt counter, the ACK queue and the datagrams sent so far. */
  datatype Sender = Sender(seqNum: bit, attempts: nat, queue: seq<AckEvent>, sent: seq<Datagram>)

  /** How one `send` ended and the sender state it left. */
  datatype SendRun = SendRun(outcome: SendOutcome, sender: Sender)

  /** The retry loop of `send` for one datagram `d`, one `get` per attempt.
      A `get` on an empty queue times out and takes nothing. */
  function RunSend(decode: Decoder, d: Datagram, s: Sender): (r: SendRun)
    decreases MAX_ATTEMPTS - s.attempts
  {
    if s.attempts >= MAX_ATTEMPTS then SendRun(MaxSendAttemptsExceeded, s)
    else
      var out := s.sent + [d];
      if s.queue == [] then RunSend(decode, d, Sender(s.seqNum, s.attempts + 1, [], out))
      else
        var rest := s.queue[1..];
        match View(decode, s.queue[0])
        case TimedOut => RunSend(decode, d, Sender(s.seqNum, s.attempts + 1, rest, out))
        case Decoded(Err(e)) => SendRun(Raised(e), Sender(s.seqNum, s.attempts, rest, out))
        case Decoded(Ok(ackPacket)) =>
          if ackPacket.ackNum == s.seqNum then SendRun(Delivered, Sender(1 - s.seqNum, 0, rest, out))
          else RunSend(decode, d, Sender(s.seqNum, s.attempts + 1, rest, out))
  }

  /** `k` copies of one datagram. */
  function Copies(d: Datagram, k: nat): (r: seq<Datagram>)
    ensures |r| == k && forall i :: 0 <= i < k ==> r[i] == d
  {
    if k == 0 then [] else Copies(d, k - 1) + [d]
  }

  /** What any run of `send` transmits: copies of its datagram appended to
      what was sent before, at most one per remaining attempt and at least
      one when the budget is not spent. */
  lemma {:induction false} RunSendTransmits(decode: Decoder, d: Datagram, s: Sender)
    requires s.attempts <= MAX_ATTEMPTS
    ensures var r := RunSend(decode, d, s).sender;
      && |s.sent| <= |r.sent| && r.sent == s.sent + Copies(d, |r.sent| - |s.sent|)
      && |r.sent| - |s.sent| <= MAX_ATTEMPTS - s.attempts
      && (s.attempts < MAX_ATTEMPTS ==> |r.sent| > |s.sent|)
    decreases MAX_ATTEMPTS - s.attempts
  {
    if s.attempts < MAX_ATTEMPTS {
      var out := s.sent + [d];
      var next := Sender(s.seqNum, s.attempts + 1, if s.queue == [] then [] else s.queue[1..], out);
      if s.queue == [] || RunSend(decode, d, s) == RunSend(decode, d, next) {
        RunSendTransmits(decode, d, next);
        var r := RunSend(decode, d, next).sender;
        assert Copies(d, |r.sent| - |s.sent|) == [d] + Copies(d, |r.sent| - |out|);
      }
    }
  }

  /** What any run of `send` takes and leaves: it takes a prefix of the
      queue, at most one event per transmission, flips the bit and resets
      the counter exactly when it delivers, and leaves the counter at the
      budget when it gives up. */
  lemma {:induction false} RunSendTakes(decode: Decoder, d: Datagram, s: Sender)
    requires s.attempts <= MAX_ATTEMPTS
    ensures var r := RunSend(decode, d, s).sender; var outcome := RunSend(decode, d, s).outcome;
      && |r.queue| <= |s.queue| && r.queue == s.queue[|s.queue| - |r.queue|..]
      && |s.queue| - |r.queue| <= |r.sent| - |s.sent|
      && r.attempts <= MAX_ATTEMPTS
      && (outcome.Delivered? ==> r.seqNum == 1 - s.seqNum && r.attempts == 0)
      && (!outcome.Delivered? ==> r.seqNum == s.seqNum)
      && (outcome.MaxSendAttemptsExceeded? ==> r.attempts == MAX_ATTEMPTS)
    decreases MAX_ATTEMPTS - s.attempts
  {
    if s.attempts < MAX_ATTEMPTS {
      var next := Sender(s.seqNum, s.attempts + 1, if s.queue == [] then [] else s.queue[1..], s.sent + [d]);
      if s.queue == [] || RunSend(decode, d, s) == RunSend(decode, d, next) {
        RunSendTakes(decode, d, next);
      }
    }
  }

  /** Each ignored event costs one attempt and one transmission: after `i`
      of them `send` is where it started, `i` attempts further on. */
  lemma {:induction false} IgnoredEventsAreRetransmitted(decode: Decoder, d: Datagram, s: Sender, i: nat)
    requires i <= |s.queue| && s.attempts + i <= MAX_ATTEMPTS
    requires forall j :: 0 <= j < i ==> Ignored(View(decode, s.queue[j]), s.seqNum)
    ensures RunSend(decode, d, s) == RunSend(decode, d, Sender(s.seqNum, s.attempts + i, s.queue[i..], s.sent + Copies(d, i)))
    decreases i
  {
    if i > 0 {
      assert Ignored(View(decode, s.queue[0]), s.seqNum);
      var next := Sender(s.seqNum, s.attempts + 1, s.queue[1..], s.sent + [d]);
      assert RunSend(decode, d, s) == RunSend(decode, d, next);
      assert forall j :: 0 <= j < i - 1 ==> next.queue[j] == s.queue[j + 1];
      IgnoredEventsAreRetransmitted(decode, d, next, i - 1);
      assert next.queue[i - 1..] == s.queue[i..];
      assert next.sent + Copies(d, i - 1) == s.sent + Copies(d, i);
      assert Sender(next.seqNum, next.attempts + (i - 1), next.queue[i - 1..], next.sent + Copies(d, i - 1))
        == Sender(s.seqNum, s.attempts + i, s.queue[i..], s.sent + Copies(d, i));
    } else {
      assert s.queue[0..] == s.queue && s.sent + Copies(d, 0) == s.sent;
      assert Sender(s.seqNum, s.attempts + i, s.queue[i..], s.sent + Copies(d, i)) == s;
    }
  }

  /** If the first event that is not ignored is a matching ACK within the
      remaining budget, `send` delivers after exactly one transmission per
      event up to and including it, and takes exactly those events. */
  lemma DeliveredByMatchingAck(decode: Decoder, d: Datagram, s: Sender, i: nat)
    requires i < |s.queue| && s.attempts + i < MAX_ATTEMPTS
    requires MatchingAck(View(decode, s.queue[i]), s.seqNum)
    requires forall j :: 0 <= j < i ==> Ignored(View(decode, s.queue[j]), s.seqNum)
    ensures RunSend(decode, d, s) == SendRun(Delivered, Sender(1 - s.seqNum, 0, s.queue[i + 1..], s.sent + Copies(d, i + 1)))
  {
    IgnoredEventsAreRetransmitted(decode, d, s, i);
    var later := Sender(s.seqNum, s.attempts + i, s.queue[i..], s.sent + Copies(d, i));
    assert later.queue[0] == s.queue[i] && later.queue[1..] == s.queue[i + 1..];
  }

  /** If the first event that is not ignored is an ACK that does not decode,
      `send` lets the codec's error through, keeping the bit and the counter
      it had reached. */
  lemma RaisedByUndecodableAck(decode: Decoder, d: Datagram, s: Sender, i: nat)
    requires i < |s.queue| && s.attempts + i < MAX_ATTEMPTS
    requires View(decode, s.queue[i]).Decoded? && View(decode, s.queue[i]).ack.Err?
    requires forall j :: 0 <= j < i ==> Ignored(View(decode, s.queue[j]), s.seqNum)
    ensures RunSend(decode, d, s) == SendRun(Raised(View(decode, s.queue[i]).ack.error),
      Sender(s.seqNum, s.attempts + i, s.queue[i + 1..], s.sent + Copies(d, i + 1)))
  {
    IgnoredEventsAreRetransmitted(decode, d, s, i);
    var later := Sender(s.seqNum, s.attempts + i, s.queue[i..], s.sent + Copies(d, i));
    assert later.queue[0] == s.queue[i] && later.queue[1..] == s.queue[i + 1..];
  }

  /** If every queued event is ignored, `send` transmits once per remaining
      attempt, timing out once the queue is empty, and then gives up with the
      bit unchanged. */
  lemma {:induction false} ExceededWithoutMatchingAck(decode: Decoder, d: Datagram, s: Sender)
    requires s.attempts <= MAX_ATTEMPTS
    requires forall j :: 0 <= j < |s.queue| ==> Ignored(View(decode, s.queue[j]), s.seqNum)
    ensures RunSend(decode, d, s).outcome == MaxSendAttemptsExceeded
    ensures RunSend(decode, d, s).sender.seqNum == s.seqNum && RunSend(decode, d, s).sender.attempts == MAX_ATTEMPTS
    ensures RunSend(decode, d, s).sender.sent == s.sent + Copies(d, MAX_ATTEMPTS - s.attempts)
    decreases MAX_ATTEMPTS - s.attempts
  {
    if s.attempts < MAX_ATTEMPTS {
      var next := Sender(s.seqNum, s.attempts + 1, if s.queue == [] then [] else s.queue[1..], s.sent + [d]);
      assert RunSend(decode, d, s) == RunSend(decode, d, next);
      assert forall j :: 0 <= j < |next.queue| ==> next.queue[j] == s.queue[j + 1];
      ExceededWithoutMatchingAck(decode, d, next);
      assert next.sent + Copies(d, MAX_ATTEMPTS - next.attempts) == s.sent + Copies(d, MAX_ATTEMPTS - s.attempts);
    }
  }

  /** A send whose budget is already spent raises at once without sending:
      the counter is never reset after `MaxSendAttemptsExceeded`. */
  lemma ExhaustedSenderTransmitsNothing(decode: Decoder, d: Datagram, s: Sender)
    requires s.attempts == MAX_ATTEMPTS
    ensures RunSend(decode, d, s) == SendRun(MaxSendAttemptsExceeded, s)
  {
  }

  /** What `unpack` returns: whether the segment was a duplicate, the segment
      itself and the serialized ACK to answer with. */
  datatype Unpacked = Unpacked(isRepeated: bool, segment: StopAndWaitSegment, ackBytes: seq<byte>)

  /** The ACK segment `unpack` builds: empty payload, seq 0, eof 0. */
  function AckSegment(ackNum: bit): StopAndWaitSegment
  {
    StopAndWaitSegment([], 0, ackNum, 0)
  }

  lemma AckSegmentBuilt(ackNum: bit)
    ensures NewStopAndWaitSegment([], 0, ackNum, 0) == AckSegment(ackNum)
  {
  }

  /** The serialized ACK segment for one bit. */
  function AckFrame(ackNum: bit): seq<byte>
  {
    SerializeStopAndWait(AckSegment(ackNum)).value
  }

  /** The ACK frame for a bit decodes back to the ACK segment for that bit. */
  lemma AckFrameDecodes(ackNum: bit)
    ensures DeserializeStopAndWait(AckFrame(ackNum)) == Ok(AckSegment(ackNum))
  {
    StopAndWaitRoundTrip(AckSegment(ackNum));
  }

  /** The receiver transition of `unpack` for the expected bit `ack`. The ACK
      always names the bit of the segment just received: in the expected case
      that is `ack`, otherwise it is `1 - ack`. */
  function UnpackStep(ack: bit, data: seq<byte>): (r: Result<Unpacked, CodecError>)
    ensures r.Ok? <==> DeserializeStopAndWait(data).Ok?
    ensures r.Err? ==> r.error == DeserializeStopAndWait(data).error
    ensures r.Ok? ==>
      && r.value.segment == DeserializeStopAndWait(data).value
      && (r.value.isRepeated <==> r.value.segment.seqNum != ack)
  {
    match DeserializeStopAndWait(data)
    case Err(e) => Err(e)
    case Ok(segment) => Ok(Unpacked(segment.seqNum != ack, segment, AckFrame(segment.seqNum)))
  }

  /** The receiver's bit after `unpack`: it flips exactly on a new segment. */
  function NextAck(ack: bit, r: Result<Unpacked, CodecError>): bit
  {
    if r.Ok? && !r.value.isRepeated then 1 - ack else ack
  }

  /** What `receive_file` reports for an unpacked segment: its payload,
      whether it was a duplicate and whether it carried the eof bit. */
  function Received(u: Result<Unpacked, CodecError>): Result<(seq<byte>, bool, bool), CodecError>
  {
    match u
    case Err(e) => Err(e)
    case Ok(x) => Ok((x.segment.payload, x.isRepeated, x.segment.eofNum == 1))
  }

  /** The ACK datagram `receive_file` sends for an unpacked segment. */
  function AckDatagrams(u: Result<Unpacked, CodecError>, to: Addr): seq<Datagram>
  {
    if u.Err? then [] else [Datagram(u.value.ackBytes, to)]
  }

  class StopAndWait {
    const destinationAddress: Addr
    var ack: bit
    var seqNum: bit
    var sendAttempts: nat
    var communicationQueue: seq<AckEvent>
    var outbox: seq<Datagram>

    constructor (address: Addr)
      ensures destinationAddress == address
      ensures ack == 0 && seqNum == 0 && sendAttempts == 0
      ensures communicationQueue == [] && outbox == []
    {
      destinationAddress := address;
      ack := 0;
      seqNum := 0;
      sendAttempts := 0;
      communicationQueue := [];
      outbox := [];
    }

    /** `send`: build the segment once with the current bit and the eof
        flag, then transmit it, take one event from the queue, and stop on a
        matching ACK, on an ACK that does not decode, or when the attempt
        budget shared by all sends is spent. */
    method Send(payload: seq<byte>, eof: int) returns (outcome: SendOutcome)
      modifies this
      ensures ack == old(ack)
      ensures var built := SerializeStopAndWait(NewStopAndWaitSegment(payload, old(seqNum), 0, eof));
        if built.Err? then
          outcome == Raised(built.error) && seqNum == old(seqNum) && sendAttempts == old(sendAttempts)
          && communicationQueue == old(communicationQueue) && outbox == old(outbox)
        else
          SendRun(outcome, Sender(seqNum, sendAttempts, communicationQueue, outbox))
          == RunSend(DeserializeStopAndWait, Datagram(built.value, destinationAddress),
                     Sender(old(seqNum), old(sendAttempts), old(communicationQueue), old(outbox)))
    {
      var segment := NewStopAndWaitSegment(payload, seqNum, 0, eof);
      var serialized := SerializeStopAndWait(segment);
      if serialized.Err? {
        return Raised(serialized.error);
      }
      outcome := Transmit(serialized.value, DeserializeStopAndWait);
    }

    /** The retry loop of `send` for the frame it has built, decoding each
        ACK it takes with `decode`. */
    method Transmit(frame: seq<byte>, decode: Decoder) returns (outcome: SendOutcome)
      modifies this
      ensures ack == old(ack)
      ensures SendRun(outcome, Sender(seqNum, sendAttempts, communicationQueue, outbox))
        == RunSend(decode, Datagram(frame, destinationAddress),
                   Sender(old(seqNum), old(sendAttempts), old(communicationQueue), old(outbox)))
    {
      var datagram := Datagram(frame, destinationAddress);
      var attempts, queue, log := sendAttempts, communicationQueue, outbox;
      var bit := seqNum;
      ghost var run := RunSend(decode, datagram, Sender(bit, attempts, queue, log));
      while MAX_ATTEMPTS > attempts
        invariant RunSend(decode, datagram, Sender(bit, attempts, queue, log)) == run
        decreases MAX_ATTEMPTS - attempts
      {
        log := log + [datagram];
        var event: AckEvent := Timeout;
        if queue != [] {
          event, queue := queue[0], queue[1..];
        }
        if event.AckBytes? {
          var ackPacket := decode(event.bytes);
          if ackPacket.Err? {
            outcome := Raised(ackPacket.error);
            seqNum, sendAttempts, communicationQueue, outbox := bit, attempts, queue, log;
            return;
          }
          if ackPacket.value.ackNum == bit {
            outcome := Delivered;
            seqNum, sendAttempts, communicationQueue, outbox := 1 - bit, 0, queue, log;
            return;
          }
        }
        attempts := attempts + 1;
      }
      outcome := MaxSendAttemptsExceeded;
      seqNum, sendAttempts, communicationQueue, outbox := bit, attempts, queue, log;
    }

    /** `put_bytes`: queue one ACK datagram for `send`. */
    method PutBytes(data: seq<byte>)
      modifies this`communicationQueue
      ensures communicationQueue == old(communicationQueue) + [AckBytes(data)]
    {
      communicationQueue := communicationQueue + [AckBytes(data)];
    }

    /** `unpack`: decode a data segment and build the ACK for it. */
    method Unpack(data: seq<byte>) returns (r: Result<Unpacked, CodecError>)
      modifies this`ack
      ensures r == UnpackStep(old(ack), data)
      ensures ack == NextAck(old(ack), r)
    {
      var deserialized := DeserializeStopAndWait(data);
      if deserialized.Err? {
        return Err(deserialized.error);
      }
      var segment := deserialized.value;
      var ackPacket: StopAndWaitSegment;
      var isRepeated: bool;
      if segment.seqNum == ack {
        ackPacket := NewStopAndWaitSegment([], 0, ack, 0);
        AckSegmentBuilt(ack);
        isRepeated := false;
        ack := 1 - ack;
      } else {
        var newAckNum := 1 - ack;
        isRepeated := true;
        ackPacket := NewStopAndWaitSegment([], 0, newAckNum, 0);
        AckSegmentBuilt(newAckNum);
      }
      var ackBytes := SerializeAck(ackPacket, segment.seqNum);
      return Ok(Unpacked(isRepeated, segment, ackBytes));
    }

    /** `ack_packet.serialize()` in `unpack`: an ACK segment has an empty
        payload, so it always fits and gives the ACK frame for its bit. */
    static method SerializeAck(ackPacket: StopAndWaitSegment, ackNum: bit) returns (bytes: seq<byte>)
      requires ackPacket == AckSegment(ackNum)
      ensures bytes == AckFrame(ackNum)
    {
      var serialized := SerializeStopAndWait(ackPacket);
      bytes := serialized.value;
    }

    /** `receive_file`: unpack, send the ACK to the peer and report the
        payload (also for a duplicate), whether it was a duplicate and whether
        the segment carried the eof bit. */
    method ReceiveFile(data: seq<byte>) returns (r: Result<(seq<byte>, bool, bool), CodecError>)
      modifies this`ack, this`outbox
      ensures r == Received(UnpackStep(old(ack), data))
      ensures ack == NextAck(old(ack), UnpackStep(old(ack), data))
      ensures outbox == old(outbox) + AckDatagrams(UnpackStep(old(ack), data), destinationAddress)
    {
      var unpacked := Unpack(data);
      if unpacked.Err? {
        return Err(unpacked.error);
      }
      var isEof := unpacked.value.segment.eofNum == 1;
      outbox := outbox + [Datagram(unpacked.value.ackBytes, destinationAddress)];
      return Ok((unpacked.value.segment.payload, unpacked.value.isRepeated, isEof));
    }
  }

  /** One round of the alternating-bit protocol on the receiver's side: a
      frame that decodes to a segment carrying bit `s` (the frame `send`
      builds with bit `s` is one, by `StopAndWaitRoundTrip`), received by a
      receiver that expects `s`, is delivered as new with its payload and eof
      bit, flips the receiver's bit, and is answered with the ACK for `s`. */
  lemma AlternatingBitHandshake(segment: StopAndWaitSegment, frame: seq<byte>)
    requires DeserializeStopAndWait(frame) == Ok(segment)
    ensures var u := UnpackStep(segment.seqNum, frame);
      && u == Ok(Unpacked(false, segment, AckFrame(segment.seqNum)))
      && NextAck(segment.seqNum, u) == 1 - segment.seqNum
  {
  }

  /** The other half of the round: the ACK the receiver answers with for bit
      `s` ends the sender's wait for bit `s`. */
  lemma AckFrameIsMatching(ackNum: bit)
    ensures MatchingAck(View(DeserializeStopAndWait, AckBytes(AckFrame(ackNum))), ackNum)
  {
    AckFrameDecodes(ackNum);
  }

  /** A retransmitted frame that the receiver already accepted (its bit has
      moved on) is reported as a duplicate, leaves the bit alone, and is
      answered with the same ACK as the first copy. */
  lemma DuplicateIsAckedAgain(ack: bit, data: seq<byte>)
    requires UnpackStep(ack, data).Ok? && !UnpackStep(ack, data).value.isRepeated
    ensures var again := UnpackStep(1 - ack, data);
      && again.Ok? && again.value.isRepeated && NextAck(1 - ack, again) == 1 - ack
      && again.value.ackBytes == UnpackStep(ack, data).value.ackBytes
  {
  }
}

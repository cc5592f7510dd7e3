/** The Selective-Repeat engine of lib/protocols/selective_repeat.py, as it is
    written: the window base is never advanced and no map entry is ever
    removed on the sender's side, so at most four frames are ever stored;
    the receiver buffers segments ahead of the number it expects and, when
    the expected one arrives, drains the contiguous buffered run after it
    but returns only the segment that arrived. `time.time()` is an integer
    clock in milliseconds passed in as `now`; `recvfrom` reads from an input
    sequence and `sendto` appends to an output log. */
module SelectiveRepeatEngine {
  import opened Wire
  import opened Segments
  import opened Constants

  /** `self.window_size`, fixed at 4. */
  const WINDOW_SIZE: nat := 4

  /** A datagram as `recvfrom` returns it: the bytes and the peer's address. */
  datatype Arrival = Arrival(bytes: seq<byte>, from: Addr)

  // ---------------------------------------------------------------------
  // Sender
  // ---------------------------------------------------------------------

  /** The sender's fields: the window base, the next number to use, and the
      three maps keyed by the numbers already used. */
  datatype SenderState = SenderState(
    sendBase: nat,
    nextSeqNum: nat,
    sendBuffer: map<nat, seq<byte>>,
    ackReceived: map<nat, bool>,
    timeSent: map<nat, int>)

  /** What no operation of the sender breaks: the base stays at 0, at most a
      window of numbers is used, and each map holds exactly the numbers
      below `nextSeqNum`. */
  ghost predicate SenderValid(s: SenderState)
  {
    && s.sendBase == 0
    && s.nextSeqNum <= s.sendBase + WINDOW_SIZE
    && (forall k: nat :: k in s.sendBuffer <==> k < s.nextSeqNum)
    && (forall k: nat :: k in s.ackReceived <==> k < s.nextSeqNum)
    && (forall k: nat :: k in s.timeSent <==> k < s.nextSeqNum)
  }

  /** The test `send` starts with. */
  predicate WindowFull(s: SenderState)
  {
    s.nextSeqNum >= s.sendBase + WINDOW_SIZE
  }

  /** The segment `send` builds: the payload, seq `next_seq_num % 256`, ack 0
      and the window size. */
  function DataSegment(payload: seq<byte>, nextSeqNum: nat): SelectiveRepeatSegment
  {
    NewSelectiveRepeatSegment(payload, nextSeqNum % 256, 0, WINDOW_SIZE)
  }

  /** The sender after `send` stored `frame`: the frame, "not acknowledged"
      and the send time under `next_seq_num`, which then moves on by one. */
  function Stored(s: SenderState, frame: seq<byte>, now: int): SenderState
  {
    SenderState(s.sendBase, s.nextSeqNum + 1,
      s.sendBuffer[s.nextSeqNum := frame],
      s.ackReceived[s.nextSeqNum := false],
      s.timeSent[s.nextSeqNum := now])
  }

  /** An entry `_check_timeouts` resends: not acknowledged, and sent more than
      `TIMEOUT` before `now`. */
  predicate Expired(s: SenderState, now: int, k: nat)
  {
    k in s.ackReceived && k in s.timeSent && !s.ackReceived[k] && now - s.timeSent[k] > TIMEOUT
  }

  /** The sender after `_check_timeouts`: the expired entries are stamped
      with `now`. */
  function Swept(s: SenderState, now: int): SenderState
  {
    s.(timeSent := map k | k in s.timeSent :: if Expired(s, now, k) then now else s.timeSent[k])
  }

  /** The datagrams `_check_timeouts` sends for the numbers below `n`, in the
      order of the map's keys. */
  function Resent(s: SenderState, now: int, to: Addr, n: nat): seq<Datagram>
  {
    if n == 0 then []
    else
      Resent(s, now, to, n - 1)
      + (if Expired(s, now, n - 1) && n - 1 in s.sendBuffer then [Datagram(s.sendBuffer[n - 1], to)] else [])
  }

  /** The sender after an ACK numbered `a`: every entry whose number is `a`
      modulo 256 is marked acknowledged. */
  function Acked(s: SenderState, a: int): SenderState
  {
    s.(ackReceived := map k | k in s.ackReceived :: s.ackReceived[k] || k % 256 == a)
  }

  /** Storing a frame keeps the sender valid when the window has room, and
      leaves every earlier entry as it was. */
  lemma StoredKeepsValid(s: SenderState, frame: seq<byte>, now: int)
    requires SenderValid(s) && !WindowFull(s)
    ensures var t := Stored(s, frame, now);
      && SenderValid(t)
      && t.sendBuffer[s.nextSeqNum] == frame && !t.ackReceived[s.nextSeqNum] && t.timeSent[s.nextSeqNum] == now
      && (forall k: nat :: k < s.nextSeqNum ==>
            t.sendBuffer[k] == s.sendBuffer[k] && t.ackReceived[k] == s.ackReceived[k] && t.timeSent[k] == s.timeSent[k])
  {
  }

  /** A timeout sweep keeps the sender valid, restamps exactly the expired
      entries, and changes nothing else. */
  lemma SweptKeepsValid(s: SenderState, now: int)
    requires SenderValid(s)
    ensures var t := Swept(s, now);
      && SenderValid(t)
      && t.nextSeqNum == s.nextSeqNum && t.sendBuffer == s.sendBuffer && t.ackReceived == s.ackReceived
      && (forall k: nat :: k in s.timeSent ==> (t.timeSent[k] != s.timeSent[k] ==> Expired(s, now, k) && t.timeSent[k] == now))
      && (forall k: nat :: k in s.timeSent && Expired(s, now, k) ==> t.timeSent[k] == now)
  {
  }

  /** The numbers below n, as a set. */
  function Below(n: nat): (r: set<nat>)
    ensures forall k: nat :: k in r <==> k < n
  {
    if n == 0 then {} else Below(n - 1) + {n - 1}
  }

  lemma CardAddOne(s: set<nat>, x: nat)
    requires x !in s
    ensures |s + {x}| == |s| + 1
  {
  }

  lemma {:induction false} BelowSize(n: nat)
    ensures |Below(n)| == n
  {
    if n > 0 {
      BelowSize(n - 1);
      CardAddOne(Below(n - 1), n - 1);
    }
  }

  /** Since the base never moves, the sender never holds more than a window
      of frames, however many times `send` is called. */
  lemma AtMostWindowStored(s: SenderState)
    requires SenderValid(s)
    ensures |s.sendBuffer| == s.nextSeqNum <= WINDOW_SIZE
    ensures |s.ackReceived| == |s.timeSent| == s.nextSeqNum
  {
    BelowSize(s.nextSeqNum);
    assert s.sendBuffer.Keys == Below(s.nextSeqNum);
    assert s.ackReceived.Keys == Below(s.nextSeqNum);
    assert s.timeSent.Keys == Below(s.nextSeqNum);
  }

  /** A full window stays full: neither a timeout sweep nor an ACK frees a
      slot, so every later `send` stores nothing. */
  lemma FullWindowStaysFull(s: SenderState, now: int, a: int)
    requires SenderValid(s) && WindowFull(s)
    ensures WindowFull(Swept(s, now)) && WindowFull(Acked(s, a))
    ensures s.nextSeqNum == WINDOW_SIZE
  {
  }

  /** What `_check_timeouts` resends for the numbers below `n` is, in order,
      one datagram per expired entry, carrying the stored frame: an
      acknowledged or recently sent entry is never resent. */
  lemma {:induction false} ResentAreExpired(s: SenderState, now: int, to: Addr, n: nat)
    ensures |Resent(s, now, to, n)| <= n
    ensures forall d :: d in Resent(s, now, to, n) <==>
      exists k :: k < n && k in s.sendBuffer && Expired(s, now, k) && d == Datagram(s.sendBuffer[k], to)
  {
    if n > 0 {
      ResentAreExpired(s, now, to, n - 1);
      var last := if Expired(s, now, n - 1) && n - 1 in s.sendBuffer then [Datagram(s.sendBuffer[n - 1], to)] else [];
      assert Resent(s, now, to, n) == Resent(s, now, to, n - 1) + last;
      forall d | d in Resent(s, now, to, n)
        ensures exists k :: k < n && k in s.sendBuffer && Expired(s, now, k) && d == Datagram(s.sendBuffer[k], to)
      {
        if d !in Resent(s, now, to, n - 1) {
          assert d in last;
        }
      }
      forall d | exists k :: k < n && k in s.sendBuffer && Expired(s, now, k) && d == Datagram(s.sendBuffer[k], to)
        ensures d in Resent(s, now, to, n)
      {
        var k :| k < n && k in s.sendBuffer && Expired(s, now, k) && d == Datagram(s.sendBuffer[k], to);
        if k == n - 1 {
          assert d in last;
        } else {
          assert d in Resent(s, now, to, n - 1);
        }
      }
    }
  }

  /** ACKs only ever set entries: one that was acknowledged stays so, and
      the entries newly set are exactly those whose number is `a` modulo
      256. Since at most four numbers are used, that is the entry `a` itself. */
  lemma AckMarksOnlyItsEntry(s: SenderState, a: int)
    requires SenderValid(s)
    ensures SenderValid(Acked(s, a))
    ensures forall k :: k in s.ackReceived ==> (Acked(s, a).ackReceived[k] <==> s.ackReceived[k] || k == a)
  {
    forall k | k in s.ackReceived
      ensures Acked(s, a).ackReceived[k] <==> s.ackReceived[k] || k == a
    {
      assert k < WINDOW_SIZE;
      assert k % 256 == k;
    }
  }

  /** The frame `send` stores for a payload under number `n` decodes to the
      payload with seq `n % 256`, ack 0 and the window size. */
  lemma DataFrameDecodes(payload: seq<byte>, n: nat)
    requires |payload| < 0x1_0000
    ensures SerializeSelectiveRepeat(DataSegment(payload, n)).Ok?
    ensures DeserializeSelectiveRepeat(SerializeSelectiveRepeat(DataSegment(payload, n)).value)
      == Ok(SelectiveRepeatSegment(payload, n % 256, 0, WINDOW_SIZE))
  {
    var s := SelectiveRepeatSegment(payload, n % 256, 0, WINDOW_SIZE);
    assert DataSegment(payload, n) == s;
    SelectiveRepeatRoundTrip(s);
  }

  // ---------------------------------------------------------------------
  // Receiver
  // ---------------------------------------------------------------------

  /** The receiver's fields: the number it expects next, kept modulo 256,
      and the segments that arrived ahead of it, by number. */
  datatype ReceiverState = ReceiverState(expectedSeqNum: nat, recvBuffer: map<int, SelectiveRepeatSegment>)

  /** What `receive` never breaks: the expected number is below 256 and not
      buffered, and every buffered segment is stored under its own number. */
  ghost predicate ReceiverValid(r: ReceiverState)
  {
    && r.expectedSeqNum < 256
    && r.expectedSeqNum !in r.recvBuffer
    && WellKeyed(r.recvBuffer)
  }

  /** A receiver state and the segments taken out of its buffer. */
  datatype Drained = Drained(receiver: ReceiverState, segments: seq<SelectiveRepeatSegment>)

  /** The inner loop of `receive`: while the expected number is buffered,
      pop it and move the expected number on, modulo 256. */
  function Drain(r: ReceiverState): Drained
    decreases |r.recvBuffer|
  {
    if r.expectedSeqNum in r.recvBuffer then
      var next := ReceiverState((r.expectedSeqNum + 1) % 256, r.recvBuffer - {r.expectedSeqNum});
      assert next.recvBuffer.Keys == r.recvBuffer.Keys - {r.expectedSeqNum};
      var rest := Drain(next);
      Drained(rest.receiver, [r.recvBuffer[r.expectedSeqNum]] + rest.segments)
    else Drained(r, [])
  }

  /** The numbers of a list of segments. */
  function SeqNums(segments: seq<SelectiveRepeatSegment>): set<int>
  {
    set i | 0 <= i < |segments| :: segments[i].seqNum
  }

  /** Every buffered segment is stored under its own number. */
  ghost predicate WellKeyed(m: map<int, SelectiveRepeatSegment>)
  {
    forall k :: k in m ==> m[k].seqNum == k
  }

  /** The number `i` places after `e` when counting modulo 256 as the
      receiver does: `(e + 1) % 256`, `i` times. */
  function Ahead(e: int, i: nat): (r: int)
    ensures (i > 0 || 0 <= e < 256) ==> 0 <= r < 256
    decreases i
  {
    if i == 0 then e else Ahead((e + 1) % 256, i - 1)
  }

  /** Counting modulo 256 from a number below 256 is adding modulo 256. */
  lemma {:induction false} AheadIsModulo(e: nat, i: nat)
    requires e < 256
    ensures Ahead(e, i) == (e + i) % 256
    decreases i
  {
    if i > 0 {
      AheadIsModulo((e + 1) % 256, i - 1);
      assert ((e + 1) % 256 + (i - 1)) % 256 == (e + i) % 256;
    }
  }

  /** The drain takes out the run of consecutive numbers (modulo 256) that
      starts at the expected one, in that order, and stops at the first
      number that is not buffered. */
  lemma {:induction false} DrainTakesRun(r: ReceiverState)
    ensures var d := Drain(r);
      && d.receiver.expectedSeqNum == Ahead(r.expectedSeqNum, |d.segments|)
      && d.receiver.expectedSeqNum !in d.receiver.recvBuffer
      && (forall i :: 0 <= i < |d.segments| ==>
            Ahead(r.expectedSeqNum, i) in r.recvBuffer && d.segments[i] == r.recvBuffer[Ahead(r.expectedSeqNum, i)])
    decreases |r.recvBuffer|
  {
    var e := r.expectedSeqNum;
    if e in r.recvBuffer {
      var next := ReceiverState((e + 1) % 256, r.recvBuffer - {e});
      assert next.recvBuffer.Keys == r.recvBuffer.Keys - {e};
      DrainTakesRun(next);
      var rest := Drain(next);
      var d := Drain(r);
      assert d.segments == [r.recvBuffer[e]] + rest.segments;
      forall i | 0 <= i < |d.segments|
        ensures Ahead(r.expectedSeqNum, i) in r.recvBuffer && d.segments[i] == r.recvBuffer[Ahead(r.expectedSeqNum, i)]
      {
        if i > 0 {
          assert d.segments[i] == rest.segments[i - 1];
          assert Ahead(e, i) == Ahead((e + 1) % 256, i - 1);
        }
      }
    } else {
      assert Drain(r) == Drained(r, []);
    }
  }

  /** The drain keeps every segment it does not take, under the same number. */
  lemma {:induction false} DrainKeeps(r: ReceiverState)
    ensures var d := Drain(r);
      forall k :: k in d.receiver.recvBuffer ==> k in r.recvBuffer && d.receiver.recvBuffer[k] == r.recvBuffer[k]
    decreases |r.recvBuffer|
  {
    var e := r.expectedSeqNum;
    if e in r.recvBuffer {
      var next := ReceiverState((e + 1) % 256, r.recvBuffer - {e});
      assert next.recvBuffer.Keys == r.recvBuffer.Keys - {e};
      DrainKeeps(next);
    }
  }

  /** The numbers the drain takes out are exactly those that leave the
      buffer. */
  lemma {:induction false} DrainSplitsKeys(r: ReceiverState)
    requires WellKeyed(r.recvBuffer)
    ensures var d := Drain(r);
      && d.receiver.recvBuffer.Keys + SeqNums(d.segments) == r.recvBuffer.Keys
      && d.receiver.recvBuffer.Keys !! SeqNums(d.segments)
    decreases |r.recvBuffer|, 1
  {
    if r.expectedSeqNum in r.recvBuffer {
      DrainSplitsOne(r);
    } else {
      assert SeqNums([]) == {};
    }
  }

  /** The inductive step of DrainSplitsKeys: the expected number is buffered. */
  lemma {:induction false} DrainSplitsOne(r: ReceiverState)
    requires WellKeyed(r.recvBuffer) && r.expectedSeqNum in r.recvBuffer
    ensures var d := Drain(r);
      && d.receiver.recvBuffer.Keys + SeqNums(d.segments) == r.recvBuffer.Keys
      && d.receiver.recvBuffer.Keys !! SeqNums(d.segments)
    decreases |r.recvBuffer|, 0
  {
    var e := r.expectedSeqNum;
    var x := r.recvBuffer[e];
    var next := ReceiverState((e + 1) % 256, r.recvBuffer - {e});
    var rest := Drain(next);
    assert rest.receiver.recvBuffer.Keys + SeqNums(rest.segments) == r.recvBuffer.Keys - {e}
      && rest.receiver.recvBuffer.Keys !! SeqNums(rest.segments) by {
      WellKeyedRemove(r.recvBuffer, e);
      DrainSplitsKeys(next);
    }
    DrainStep(r);
    SeqNumsAppend([x], rest.segments);
    SeqNumsOne(x);
    KeysLoseOne(r.recvBuffer.Keys, rest.receiver.recvBuffer.Keys, SeqNums(rest.segments), e);
  }



  /** What one arriving segment does to the receiver, and the segments it
      makes ready (`entregables`): the segment with the expected number and
      the buffered run after it; a later number is buffered unless already
      there; an earlier one changes nothing. */
  datatype Accepted = Accepted(receiver: ReceiverState, ready: seq<SelectiveRepeatSegment>)

  function Accept(r: ReceiverState, segment: SelectiveRepeatSegment): Accepted
  {
    if segment.seqNum == r.expectedSeqNum then
      var d := Drain(ReceiverState((r.expectedSeqNum + 1) % 256, r.recvBuffer));
      Accepted(d.receiver, [segment] + d.segments)
    else if segment.seqNum > r.expectedSeqNum then
      if segment.seqNum in r.recvBuffer then Accepted(r, [])
      else Accepted(ReceiverState(r.expectedSeqNum, r.recvBuffer[segment.seqNum := segment]), [])
    else Accepted(r, [])
  }

  /** The ACK `receive` answers every segment with: `Segment(ack_num=seq)`,
      an empty segment whose ack number is the received seq. */
  function AckFrameFor(seqNum: u16): seq<byte>
  {
    SerializeSelectiveRepeat(SelectiveRepeatSegment([], 0, seqNum, 0)).value
  }

  /** The ACK for a segment decodes to an ACK carrying its number, and fed to
      a valid sender that used number `n` for it, it acknowledges exactly
      entry `n`. */
  lemma AckFrameAcknowledges(s: SenderState, payload: seq<byte>, n: nat)
    requires SenderValid(s) && |payload| < 0x1_0000
    ensures var a := DeserializeSelectiveRepeat(AckFrameFor(DataSegment(payload, n).seqNum));
      && a.Ok? && a.value.ackNum == n % 256
      && (n < s.nextSeqNum ==> Acked(s, a.value.ackNum).ackReceived[n])
  {
    var seqNum := DataSegment(payload, n).seqNum;
    assert seqNum == n % 256;
    SelectiveRepeatRoundTrip(SelectiveRepeatSegment([], 0, seqNum, 0));
  }

  /** One call of `receive` on what `recvfrom` yields: the outcome (a
      segment, the codec's error, or `None` while it is still waiting for a
      datagram), the receiver it leaves, the datagrams left unread and the
      ACKs it sends. */
  datatype ReceiveRun = ReceiveRun(
    outcome: Result<Option<SelectiveRepeatSegment>, CodecError>,
    receiver: ReceiverState,
    inbox: seq<Arrival>,
    acks: seq<Datagram>)

  /** `receive` as written: it answers each datagram with an ACK and returns
      the first segment made ready, which is always the one that just
      arrived; the rest of the drained run is dropped. */
  function RunReceive(r: ReceiverState, inbox: seq<Arrival>): ReceiveRun
    decreases |inbox|
  {
    if inbox == [] then ReceiveRun(Ok(None), r, [], [])
    else
      match DeserializeSelectiveRepeat(inbox[0].bytes)
      case Err(e) => ReceiveRun(Err(e), r, inbox[1..], [])
      case Ok(segment) =>
        var ack := Datagram(AckFrameFor(segment.seqNum), inbox[0].from);
        var a := Accept(r, segment);
        if a.ready != [] then ReceiveRun(Ok(Some(a.ready[0])), a.receiver, inbox[1..], [ack])
        else
          var rest := RunReceive(a.receiver, inbox[1..]);
          ReceiveRun(rest.outcome, rest.receiver, rest.inbox, [ack] + rest.acks)
  }

  /** Every arrival keeps the receiver valid. */
  lemma AcceptKeepsValid(r: ReceiverState, segment: SelectiveRepeatSegment)
    requires ReceiverValid(r)
    ensures ReceiverValid(Accept(r, segment).receiver)
  {
    if segment.seqNum == r.expectedSeqNum {
      var start := ReceiverState((r.expectedSeqNum + 1) % 256, r.recvBuffer);
      DrainTakesRun(start);
      DrainKeeps(start);
    }
  }

  lemma AppendAssociates(a: seq<Datagram>, b: seq<Datagram>, c: seq<Datagram>)
    ensures a + (b + c) == (a + b) + c
  {
  }

  /** One step of `receive` on a datagram that does not decode, and on an
      empty input. */
  lemma RunReceiveErr(r: ReceiverState, inbox: seq<Arrival>)
    ensures inbox == [] ==> RunReceive(r, inbox) == ReceiveRun(Ok(None), r, [], [])
    ensures inbox != [] && DeserializeSelectiveRepeat(inbox[0].bytes).Err? ==>
      RunReceive(r, inbox) == ReceiveRun(Err(DeserializeSelectiveRepeat(inbox[0].bytes).error), r, inbox[1..], [])
  {
  }

  /** One step of `receive` on a datagram that decodes. */
  lemma RunReceiveOk(r: ReceiverState, inbox: seq<Arrival>, segment: SelectiveRepeatSegment)
    requires inbox != [] && DeserializeSelectiveRepeat(inbox[0].bytes) == Ok(segment)
    ensures var a := Accept(r, segment);
      var ack := Datagram(AckFrameFor(segment.seqNum), inbox[0].from);
      var rest := RunReceive(a.receiver, inbox[1..]);
      RunReceive(r, inbox) ==
        if a.ready != [] then ReceiveRun(Ok(Some(a.ready[0])), a.receiver, inbox[1..], [ack])
        else ReceiveRun(rest.outcome, rest.receiver, rest.inbox, [ack] + rest.acks)
  {
  }

  /** A whole `receive` call keeps the receiver valid. */
  lemma {:induction false} AcceptsKeepValid(r: ReceiverState, inbox: seq<Arrival>)
    requires ReceiverValid(r)
    ensures ReceiverValid(RunReceive(r, inbox).receiver)
    decreases |inbox|
  {
    RunReceiveErr(r, inbox);
    if inbox != [] {
      var decoded := DeserializeSelectiveRepeat(inbox[0].bytes);
      if decoded.Ok? {
        AcceptKeepsValid(r, decoded.value);
        AcceptsKeepValid(Accept(r, decoded.value).receiver, inbox[1..]);
      }
    }
  }

  /** What a run of `receive` over `inbox` read: a prefix of k datagrams,
      the rest left unread; one ACK per datagram read, except a last one that
      did not decode, which ends the run with the codec's error; `None` only
      once the input ran out. */
  ghost predicate ReadsPrefix(inbox: seq<Arrival>, run: ReceiveRun)
  {
    var k := |inbox| - |run.inbox|;
    && |run.inbox| <= |inbox| && run.inbox == inbox[k..]
    && |run.acks| == (if run.outcome.Err? then k - 1 else k)
    && (run.outcome.Err? ==> 0 < k && DeserializeSelectiveRepeat(inbox[k - 1].bytes) == Err(run.outcome.error))
    && (run.outcome.Ok? && run.outcome.value.None? ==> k == |inbox|)
    && (run.outcome.Ok? && run.outcome.value.Some? ==> 0 < k)
  }

  /** A run that read its first datagram, acknowledged it and went on reads
      a prefix when the rest of the run does. */
  lemma ReadsPrefixStep(inbox: seq<Arrival>, rest: ReceiveRun, ack: Datagram)
    requires inbox != [] && ReadsPrefix(inbox[1..], rest)
    ensures ReadsPrefix(inbox, ReceiveRun(rest.outcome, rest.receiver, rest.inbox, [ack] + rest.acks))
  {
    var tail := inbox[1..];
    var k := |inbox| - |rest.inbox|;
    assert tail[k - 1..] == inbox[k..];
    if rest.outcome.Err? {
      assert inbox[k - 1] == tail[k - 2];
    }
  }

  /** One call of `receive` reads a prefix of its input and leaves the rest
      unread. It stops at a datagram that does not decode, with the codec's
      error and no ACK for it; `None` means the input ran out. Every other
      datagram read gets one ACK. */
  lemma {:induction false} ReceiveReadsPrefix(r: ReceiverState, inbox: seq<Arrival>)
    ensures ReadsPrefix(inbox, RunReceive(r, inbox))
    decreases |inbox|
  {
    RunReceiveErr(r, inbox);
    if inbox != [] {
      var decoded := DeserializeSelectiveRepeat(inbox[0].bytes);
      if decoded.Ok? {
        var a := Accept(r, decoded.value);
        RunReceiveOk(r, inbox, decoded.value);
        if a.ready == [] {
          ReceiveReadsPrefix(a.receiver, inbox[1..]);
          ReadsPrefixStep(inbox, RunReceive(a.receiver, inbox[1..]), Datagram(AckFrameFor(decoded.value.seqNum), inbox[0].from));
        }
      }
    }
  }

  /** `acks` answers the datagrams at the head of `inbox`, one each and in
      order: the i-th ACK carries the sequence number of the i-th datagram,
      which decoded, and goes to the address it came from. */
  ghost predicate AcksEach(inbox: seq<Arrival>, acks: seq<Datagram>)
  {
    && |acks| <= |inbox|
    && forall i :: 0 <= i < |acks| ==> Answers(acks[i], inbox[i])
  }

  /** `ack` is the reply `receive` owes `arrival`: it decoded, and the ACK
      carries its sequence number back to its sender. */
  ghost predicate Answers(ack: Datagram, arrival: Arrival)
  {
    && DeserializeSelectiveRepeat(arrival.bytes).Ok?
    && ack == Datagram(AckFrameFor(DeserializeSelectiveRepeat(arrival.bytes).value.seqNum), arrival.from)
  }

  /** Acknowledging a decoded first datagram ahead of ACKs that answer the
      rest of the input answers the whole input. */
  lemma AcksEachStep(inbox: seq<Arrival>, acks: seq<Datagram>, segment: SelectiveRepeatSegment)
    requires inbox != [] && DeserializeSelectiveRepeat(inbox[0].bytes) == Ok(segment)
    requires AcksEach(inbox[1..], acks)
    ensures AcksEach(inbox, [Datagram(AckFrameFor(segment.seqNum), inbox[0].from)] + acks)
  {
    var ack := Datagram(AckFrameFor(segment.seqNum), inbox[0].from);
    assert Answers(ack, inbox[0]);
    PairwiseCons(inbox, acks, ack, Answers);
  }

  /** Index shifting behind `AcksEachStep`, stated for any pairing so that
      the decoder stays folded. */
  lemma PairwiseCons<A, B>(xs: seq<A>, ys: seq<B>, y: B, pairs: (B, A) -> bool)
    requires xs != [] && |ys| <= |xs| - 1 && pairs(y, xs[0])
    requires forall i :: 0 <= i < |ys| ==> pairs(ys[i], xs[1..][i])
    ensures forall i :: 0 <= i < |[y] + ys| ==> pairs(([y] + ys)[i], xs[i])
  {
    forall i | 1 <= i < |[y] + ys|
      ensures pairs(([y] + ys)[i], xs[i])
    {
      assert ([y] + ys)[i] == ys[i - 1] && xs[1..][i - 1] == xs[i];
    }
  }

  /** Each datagram `receive` reads and decodes is answered, in order of
      arrival, with the ACK carrying that datagram's sequence number, sent to
      the address it came from. */
  lemma {:induction false} ReceiveAcksEachDatagram(r: ReceiverState, inbox: seq<Arrival>)
    ensures AcksEach(inbox, RunReceive(r, inbox).acks)
    decreases |inbox|
  {
    RunReceiveErr(r, inbox);
    if inbox != [] {
      var decoded := DeserializeSelectiveRepeat(inbox[0].bytes);
      if decoded.Ok? {
        var a := Accept(r, decoded.value);
        RunReceiveOk(r, inbox, decoded.value);
        if a.ready == [] {
          ReceiveAcksEachDatagram(a.receiver, inbox[1..]);
          AcksEachStep(inbox, RunReceive(a.receiver, inbox[1..]).acks, decoded.value);
        } else {
          AcksEachStep(inbox, [], decoded.value);
        }
      }
    }
  }

  /** A segment the run returns is the last datagram it read, decoded, and
      its number is the one the receiver expected once the datagrams before
      it had been handled. */
  ghost predicate ReturnsExpected(r: ReceiverState, inbox: seq<Arrival>, run: ReceiveRun)
  {
    var k := |inbox| - |run.inbox|;
    run.outcome.Ok? && run.outcome.value.Some? ==>
      && 0 < k <= |inbox|
      && DeserializeSelectiveRepeat(inbox[k - 1].bytes) == Ok(run.outcome.value.value)
      && run.outcome.value.value.seqNum == RunReceive(r, inbox[..k - 1]).receiver.expectedSeqNum
  }

  /** An arrival makes something ready only when it carries the expected
      number, and then it comes first. */
  lemma AcceptReadyHead(r: ReceiverState, segment: SelectiveRepeatSegment)
    ensures Accept(r, segment).ready != [] ==>
      segment.seqNum == r.expectedSeqNum && Accept(r, segment).ready[0] == segment
  {
  }

  /** A first datagram that decodes but makes nothing ready is passed over:
      what the rest of the run returns keeps its property on the whole
      input. */
  lemma ReturnsExpectedStep(r: ReceiverState, inbox: seq<Arrival>, segment: SelectiveRepeatSegment)
    requires inbox != [] && DeserializeSelectiveRepeat(inbox[0].bytes) == Ok(segment)
    requires Accept(r, segment).ready == []
    requires ReturnsExpected(Accept(r, segment).receiver, inbox[1..], RunReceive(Accept(r, segment).receiver, inbox[1..]))
    ensures ReturnsExpected(r, inbox, RunReceive(r, inbox))
  {
    var a := Accept(r, segment);
    var tail := inbox[1..];
    var rest := RunReceive(a.receiver, tail);
    RunReceiveOk(r, inbox, segment);
    if rest.outcome.Ok? && rest.outcome.value.Some? {
      var k := |inbox| - |rest.inbox|;
      var kt := |tail| - |rest.inbox|;
      assert kt == k - 1 && inbox[k - 1] == tail[kt - 1];
      PassedOverPrefix(r, inbox, segment, k - 1);
    }
  }

  /** Running over the first m datagrams, the first of which is passed over,
      ends in the state the rest of those datagrams leave behind. */
  lemma PassedOverPrefix(r: ReceiverState, inbox: seq<Arrival>, segment: SelectiveRepeatSegment, m: nat)
    requires 0 < m <= |inbox| && DeserializeSelectiveRepeat(inbox[0].bytes) == Ok(segment)
    requires Accept(r, segment).ready == []
    ensures RunReceive(r, inbox[..m]).receiver == RunReceive(Accept(r, segment).receiver, inbox[1..][..m - 1]).receiver
  {
    var head := inbox[..m];
    assert head[0] == inbox[0] && head[1..] == inbox[1..][..m - 1];
    RunReceiveOk(r, head, segment);
  }

  /** A segment `receive` returns is the last datagram it read, and its
      number is the one the receiver expected once the datagrams before it
      had been handled. */
  lemma {:induction false} ReceiveReturnsExpected(r: ReceiverState, inbox: seq<Arrival>)
    ensures ReturnsExpected(r, inbox, RunReceive(r, inbox))
    decreases |inbox|
  {
    RunReceiveErr(r, inbox);
    if inbox != [] {
      var decoded := DeserializeSelectiveRepeat(inbox[0].bytes);
      if decoded.Ok? {
        var a := Accept(r, decoded.value);
        RunReceiveOk(r, inbox, decoded.value);
        if a.ready == [] {
          ReceiveReturnsExpected(a.receiver, inbox[1..]);
          ReturnsExpectedStep(r, inbox, decoded.value);
        } else {
          AcceptReadyHead(r, decoded.value);
          assert inbox[..0] == [];
        }
      }
    }
  }

  /** The segments made ready by an arrival with the expected number are that
      segment and then the buffered segments with the following numbers,
      modulo 256; the ready numbers leave the buffer and nothing else does.
      Together with what stays buffered they are exactly what was buffered
      plus the arrival: when the caller gets all of `ready`, no accepted
      segment is lost. */
  lemma {:induction false} AcceptConserves(r: ReceiverState, segment: SelectiveRepeatSegment)
    requires ReceiverValid(r)
    ensures var a := Accept(r, segment);
      && (forall i :: 0 <= i < |a.ready| ==> a.ready[i].seqNum == Ahead(r.expectedSeqNum, i))
      && (a.ready != [] ==> a.ready[0] == segment)
      && a.receiver.recvBuffer.Keys !! SeqNums(a.ready)
      && a.receiver.recvBuffer.Keys + SeqNums(a.ready)
         == r.recvBuffer.Keys + (if segment.seqNum >= r.expectedSeqNum then {segment.seqNum as int} else {})
  {
    if segment.seqNum == r.expectedSeqNum {
      AcceptExpected(r, segment);
    } else {
      assert SeqNums([]) == {};
      if segment.seqNum > r.expectedSeqNum && segment.seqNum !in r.recvBuffer {
        assert Accept(r, segment).receiver.recvBuffer.Keys == r.recvBuffer.Keys + {segment.seqNum as int};
      }
    }
  }

  /** The arrival of the expected segment, for AcceptConserves. */
  lemma AcceptExpected(r: ReceiverState, segment: SelectiveRepeatSegment)
    requires ReceiverValid(r) && segment.seqNum == r.expectedSeqNum
    ensures var a := Accept(r, segment);
      && (forall i :: 0 <= i < |a.ready| ==> a.ready[i].seqNum == Ahead(r.expectedSeqNum, i))
      && a.ready != [] && a.ready[0] == segment
      && a.receiver.recvBuffer.Keys !! SeqNums(a.ready)
      && a.receiver.recvBuffer.Keys + SeqNums(a.ready) == r.recvBuffer.Keys + {segment.seqNum as int}
  {
    var e := r.expectedSeqNum;
    var start := ReceiverState((e + 1) % 256, r.recvBuffer);
    DrainTakesRun(start);
    DrainSplitsKeys(start);
    var d := Drain(start);
    var ready := [segment] + d.segments;
    assert Accept(r, segment) == Accepted(d.receiver, ready);
    forall i | 0 <= i < |ready| ensures ready[i].seqNum == Ahead(e, i) {
      if i > 0 {
        assert ready[i] == d.segments[i - 1];
      }
    }
    SeqNumsAppend([segment], d.segments);
    SeqNumsOne(segment);
    KeysGainOne(r.recvBuffer.Keys, d.receiver.recvBuffer.Keys, SeqNums(d.segments), e);
  }

  lemma KeysLoseOne(keys: set<int>, kept: set<int>, taken: set<int>, e: int)
    requires kept + taken == keys - {e} && kept !! taken && e in keys
    ensures kept !! {e} + taken && kept + ({e} + taken) == keys
  {
  }

  lemma KeysGainOne(keys: set<int>, kept: set<int>, taken: set<int>, e: int)
    requires kept + taken == keys && kept !! taken && e !in keys
    ensures kept !! {e} + taken && kept + ({e} + taken) == keys + {e}
  {
  }


  // ---------------------------------------------------------------------
  // Dropped segments: the as-written receiver against the intended one
  // ---------------------------------------------------------------------

  /** The segments a caller gets from `receive` called again and again on a
      stream of already decoded segments, as written: only the first ready
      segment of each arrival. */
  function DeliveredAsWritten(r: ReceiverState, arrivals: seq<SelectiveRepeatSegment>): seq<SelectiveRepeatSegment>
    decreases |arrivals|
  {
    if arrivals == [] then []
    else
      var a := Accept(r, arrivals[0]);
      (if a.ready == [] then [] else [a.ready[0]]) + DeliveredAsWritten(a.receiver, arrivals[1..])
  }

  /** The evidently intended receiver: every segment made ready is delivered,
      in order. */
  function Delivered(r: ReceiverState, arrivals: seq<SelectiveRepeatSegment>): seq<SelectiveRepeatSegment>
    decreases |arrivals|
  {
    if arrivals == [] then []
    else
      var a := Accept(r, arrivals[0]);
      a.ready + Delivered(a.receiver, arrivals[1..])
  }

  /** Segments with numbers 0 to 3 and no payload. */
  function Numbered(n: u16): SelectiveRepeatSegment
  {
    SelectiveRepeatSegment([], n, 0, WINDOW_SIZE)
  }

  /** Arrivals 2, 0, 1, 3 at a fresh receiver: segment 2 waits in the
      buffer; when 1 arrives the drain pops 2 along with it, but `receive`
      returns only 1, so segment 2 never reaches the caller. */
  lemma AsWrittenDropsDrainedSegment()
    ensures DeliveredAsWritten(ReceiverState(0, map[]), [Numbered(2), Numbered(0), Numbered(1), Numbered(3)])
      == [Numbered(0), Numbered(1), Numbered(3)]
  {
    var r0 := ReceiverState(0, map[]);
    var r1 := ReceiverState(0, map[2 := Numbered(2)]);
    assert Accept(r0, Numbered(2)) == Accepted(r1, []);
    var r2 := ReceiverState(1, map[2 := Numbered(2)]);
    assert Drain(r2) == Drained(r2, []);
    assert Accept(r1, Numbered(0)) == Accepted(r2, [Numbered(0)]);
    var r3 := ReceiverState(3, map[]);
    assert map[2 := Numbered(2)] - {2} == map[];
    assert Drain(ReceiverState(3, map[])) == Drained(r3, []);
    assert Drain(ReceiverState(2, map[2 := Numbered(2)])) == Drained(r3, [Numbered(2)]);
    assert Accept(r2, Numbered(1)) == Accepted(r3, [Numbered(1), Numbered(2)]);
    var r4 := ReceiverState(4, map[]);
    assert Drain(r4) == Drained(r4, []);
    assert Accept(r3, Numbered(3)) == Accepted(r4, [Numbered(3)]);
  }

  /** The same arrivals at the intended receiver deliver all four segments
      in order. */
  lemma DeliveredKeepsDrainedSegment()
    ensures Delivered(ReceiverState(0, map[]), [Numbered(2), Numbered(0), Numbered(1), Numbered(3)])
      == [Numbered(0), Numbered(1), Numbered(2), Numbered(3)]
  {
    var r0 := ReceiverState(0, map[]);
    var r1 := ReceiverState(0, map[2 := Numbered(2)]);
    assert Accept(r0, Numbered(2)) == Accepted(r1, []);
    var r2 := ReceiverState(1, map[2 := Numbered(2)]);
    assert Drain(r2) == Drained(r2, []);
    assert Accept(r1, Numbered(0)) == Accepted(r2, [Numbered(0)]);
    var r3 := ReceiverState(3, map[]);
    assert map[2 := Numbered(2)] - {2} == map[];
    assert Drain(ReceiverState(3, map[])) == Drained(r3, []);
    assert Drain(ReceiverState(2, map[2 := Numbered(2)])) == Drained(r3, [Numbered(2)]);
    assert Accept(r2, Numbered(1)) == Accepted(r3, [Numbered(1), Numbered(2)]);
    var r4 := ReceiverState(4, map[]);
    assert Drain(r4) == Drained(r4, []);
    assert Accept(r3, Numbered(3)) == Accepted(r4, [Numbered(3)]);
  }

  /** The intended receiver invents nothing: every number it delivers was
      either buffered at the start or among the arrivals. */
  lemma {:induction false} DeliveredConserves(r: ReceiverState, arrivals: seq<SelectiveRepeatSegment>)
    requires ReceiverValid(r)
    ensures SeqNums(Delivered(r, arrivals)) <= r.recvBuffer.Keys + SeqNums(arrivals)
    decreases |arrivals|
  {
    if arrivals != [] {
      var a := Accept(r, arrivals[0]);
      AcceptConserves(r, arrivals[0]);
      AcceptKeepsValid(r, arrivals[0]);
      DeliveredConserves(a.receiver, arrivals[1..]);
      var rest := Delivered(a.receiver, arrivals[1..]);
      assert Delivered(r, arrivals) == a.ready + rest;
      SeqNumsAppend(a.ready, rest);
      SeqNumsAppend([arrivals[0]], arrivals[1..]);
      assert [arrivals[0]] + arrivals[1..] == arrivals;
      SeqNumsOne(arrivals[0]);
    } else {
      assert SeqNums([]) == {};
    }
  }

  /** Counting on from a number counted on already adds up. */
  lemma {:induction false} AheadAdds(e: int, m: nat, j: nat)
    ensures Ahead(Ahead(e, m), j) == Ahead(e, m + j)
    decreases m
  {
    if m > 0 {
      AheadAdds((e + 1) % 256, m - 1, j);
    }
  }

  /** An arrival moves the expected number on by exactly the number of
      segments it makes ready. */
  lemma AcceptAdvances(r: ReceiverState, segment: SelectiveRepeatSegment)
    ensures var a := Accept(r, segment);
      a.receiver.expectedSeqNum == Ahead(r.expectedSeqNum, |a.ready|)
  {
    if segment.seqNum == r.expectedSeqNum {
      var start := ReceiverState((r.expectedSeqNum + 1) % 256, r.recvBuffer);
      DrainTakesRun(start);
    }
  }

  /** The intended receiver delivers in sequence order without gaps or
      repeats: the i-th segment delivered carries the number i places after
      the one expected at the start, counting modulo 256. */
  lemma {:induction false} DeliveredInOrder(r: ReceiverState, arrivals: seq<SelectiveRepeatSegment>)
    requires ReceiverValid(r)
    ensures forall i :: 0 <= i < |Delivered(r, arrivals)| ==>
      Delivered(r, arrivals)[i].seqNum == Ahead(r.expectedSeqNum, i)
    decreases |arrivals|
  {
    if arrivals != [] {
      var a := Accept(r, arrivals[0]);
      AcceptConserves(r, arrivals[0]);
      AcceptKeepsValid(r, arrivals[0]);
      AcceptAdvances(r, arrivals[0]);
      DeliveredInOrder(a.receiver, arrivals[1..]);
      var rest := Delivered(a.receiver, arrivals[1..]);
      assert Delivered(r, arrivals) == a.ready + rest;
      forall i | 0 <= i < |a.ready + rest|
        ensures (a.ready + rest)[i].seqNum == Ahead(r.expectedSeqNum, i)
      {
        if i >= |a.ready| {
          assert (a.ready + rest)[i] == rest[i - |a.ready|];
          AheadAdds(r.expectedSeqNum, |a.ready|, i - |a.ready|);
        }
      }
    }
  }

  /** One turn of the drain loop. */
  lemma DrainStep(r: ReceiverState)
    requires r.expectedSeqNum in r.recvBuffer
    ensures var rest := Drain(ReceiverState((r.expectedSeqNum + 1) % 256, r.recvBuffer - {r.expectedSeqNum}));
      Drain(r) == Drained(rest.receiver, [r.recvBuffer[r.expectedSeqNum]] + rest.segments)
  {
  }

  lemma WellKeyedRemove(m: map<int, SelectiveRepeatSegment>, e: int)
    requires WellKeyed(m)
    ensures WellKeyed(m - {e}) && (m - {e}).Keys == m.Keys - {e}
    ensures e in m ==> |m - {e}| < |m|
  {
    if e in m {
      assert |(m - {e}).Keys| < |m.Keys|;
    }
  }

  lemma SeqNumsOne(x: SelectiveRepeatSegment)
    ensures SeqNums([x]) == {x.seqNum as int}
  {
    assert [x][0] == x;
  }

  lemma SeqNumsAppend(a: seq<SelectiveRepeatSegment>, b: seq<SelectiveRepeatSegment>)
    ensures SeqNums(a + b) == SeqNums(a) + SeqNums(b)
  {
    forall x | x in SeqNums(a + b) ensures x in SeqNums(a) + SeqNums(b) {
      var i :| 0 <= i < |a + b| && (a + b)[i].seqNum == x;
      if i >= |a| { assert b[i - |a|].seqNum == x; }
    }
    forall x | x in SeqNums(b) ensures x in SeqNums(a + b) {
      var i :| 0 <= i < |b| && b[i].seqNum == x;
      assert (a + b)[|a| + i].seqNum == x;
    }
    forall x | x in SeqNums(a) ensures x in SeqNums(a + b) {
      var i :| 0 <= i < |a| && a[i].seqNum == x;
      assert (a + b)[i].seqNum == x;
    }
  }

  // ---------------------------------------------------------------------
  // The engine
  // ---------------------------------------------------------------------

  datatype SendOutcome = Queued | WindowWasFull | Raised(error: CodecError)

  class SelectiveRepeat {
    const address: Addr
    var sendBase: nat
    var nextSeqNum: nat
    var sendBuffer: map<nat, seq<byte>>
    var ackReceived: map<nat, bool>
    var timeSent: map<nat, int>
    var expectedSeqNum: nat
    var recvBuffer: map<int, SelectiveRepeatSegment>
    /** What `recvfrom` will return, in order. */
    var inbox: seq<Arrival>
    /** What `sendto` has sent, in order. */
    var outbox: seq<Datagram>

    function SendSide(): SenderState
      reads this
    {
      SenderState(sendBase, nextSeqNum, sendBuffer, ackReceived, timeSent)
    }

    function ReceiveSide(): ReceiverState
      reads this
    {
      ReceiverState(expectedSeqNum, recvBuffer)
    }

    ghost predicate Valid()
      reads this
    {
      SenderValid(SendSide()) && ReceiverValid(ReceiveSide())
    }

    constructor (peer: Addr, arrivals: seq<Arrival>)
      ensures Valid() && address == peer
      ensures sendBase == 0 && nextSeqNum == 0 && expectedSeqNum == 0
      ensures sendBuffer == map[] && ackReceived == map[] && timeSent == map[] && recvBuffer == map[]
      ensures inbox == arrivals && outbox == []
    {
      address := peer;
      sendBase := 0;
      nextSeqNum := 0;
      sendBuffer := map[];
      ackReceived := map[];
      timeSent := map[];
      expectedSeqNum := 0;
      recvBuffer := map[];
      inbox := arrivals;
      outbox := [];
    }

    /** `send`: with the window full, sweep the timeouts and store nothing;
        otherwise store the serialized segment under `next_seq_num`, send it
        and move `next_seq_num` on by one. A payload of 65536 bytes or more
        makes the serializer raise before anything changes. */
    method Send(payload: seq<byte>, now: int) returns (outcome: SendOutcome)
      requires Valid()
      modifies this`nextSeqNum, this`sendBuffer, this`ackReceived, this`timeSent, this`outbox
      ensures Valid()
      ensures var s := old(SendSide());
        var built := SerializeSelectiveRepeat(DataSegment(payload, s.nextSeqNum));
        if WindowFull(s) then
          outcome == WindowWasFull && SendSide() == Swept(s, now)
          && outbox == old(outbox) + Resent(s, now, address, s.nextSeqNum)
        else if built.Err? then
          outcome == Raised(built.error) && SendSide() == s && outbox == old(outbox)
        else
          outcome == Queued && SendSide() == Stored(s, built.value, now)
          && outbox == old(outbox) + [Datagram(built.value, address)]
    {
      if nextSeqNum >= sendBase + WINDOW_SIZE {
        CheckTimeouts(now);
        return WindowWasFull;
      }
      var segment := DataSegment(payload, nextSeqNum);
      var serialized := SerializeSelectiveRepeat(segment);
      if serialized.Err? {
        return Raised(serialized.error);
      }
      Store(serialized.value, now);
      return Queued;
    }

    /** The tail of `send`: store the frame under `next_seq_num` with "not
        acknowledged" and the send time, send it, and move `next_seq_num` on. */
    method Store(frame: seq<byte>, now: int)
      requires Valid() && !WindowFull(SendSide())
      modifies this`nextSeqNum, this`sendBuffer, this`ackReceived, this`timeSent, this`outbox
      ensures Valid()
      ensures SendSide() == Stored(old(SendSide()), frame, now)
      ensures outbox == old(outbox) + [Datagram(frame, address)]
    {
      var stored := Stored(SendSide(), frame, now);
      StoredKeepsValid(SendSide(), frame, now);
      nextSeqNum, sendBuffer := stored.nextSeqNum, stored.sendBuffer;
      ackReceived, timeSent := stored.ackReceived, stored.timeSent;
      outbox := outbox + [Datagram(frame, address)];
    }

    /** `_check_timeouts`: in key order, resend and restamp every entry that
        is not acknowledged and was sent more than `TIMEOUT` ago. */
    method CheckTimeouts(now: int)
      requires Valid()
      modifies this`timeSent, this`outbox
      ensures Valid()
      ensures SendSide() == Swept(old(SendSide()), now)
      ensures outbox == old(outbox) + Resent(old(SendSide()), now, address, nextSeqNum)
    {
      SweptKeepsValid(SendSide(), now);
      var times, resent := Sweep(SendSide(), now, address);
      timeSent := times;
      outbox := outbox + resent;
    }

    /** The loop of `_check_timeouts` over the entries in key order: the
        new send times and the frames resent. */
    static method Sweep(s: SenderState, now: int, to: Addr) returns (times: map<nat, int>, resent: seq<Datagram>)
      requires SenderValid(s)
      ensures times == Swept(s, now).timeSent
      ensures resent == Resent(s, now, to, s.nextSeqNum)
    {
      times, resent := s.timeSent, [];
      var k := 0;
      while k < s.nextSeqNum
        invariant 0 <= k <= s.nextSeqNum
        invariant forall j :: j in times <==> j in s.timeSent
        invariant forall j :: j in times && j < k ==> times[j] == if Expired(s, now, j) then now else s.timeSent[j]
        invariant forall j :: j in times && j >= k ==> times[j] == s.timeSent[j]
        invariant resent == Resent(s, now, to, k)
      {
        ghost var expired := Expired(s, now, k);
        assert Resent(s, now, to, k + 1) == resent + (if expired then [Datagram(s.sendBuffer[k], to)] else []);
        if !s.ackReceived[k] && now - times[k] > TIMEOUT {
          resent := resent + [Datagram(s.sendBuffer[k], to)];
          times := times[k := now];
        }
        k := k + 1;
      }
      assert forall j :: j in times ==> times[j] == Swept(s, now).timeSent[j];
    }

    /** The body of `receive_ack_loop` for one datagram: decode it (a
        decoding error escapes the loop) and mark every entry whose number
        is the ACK's number modulo 256. */
    method ReceiveAck(data: seq<byte>) returns (r: Result<u16, CodecError>)
      requires Valid()
      modifies this`ackReceived
      ensures Valid()
      ensures var ack := DeserializeSelectiveRepeat(data);
        if ack.Err? then r == Err(ack.error) && ackReceived == old(ackReceived)
        else r == Ok(ack.value.ackNum) && SendSide() == Acked(old(SendSide()), ack.value.ackNum)
    {
      var ackSegment := DeserializeSelectiveRepeat(data);
      if ackSegment.Err? {
        return Err(ackSegment.error);
      }
      var ackNum := ackSegment.value.ackNum;
      MarkAcked(ackNum);
      return Ok(ackNum);
    }

    /** The `for seq in self.ack_received` loop: mark every entry whose
        number is `ackNum` modulo 256. */
    method MarkAcked(ackNum: u16)
      requires Valid()
      modifies this`ackReceived
      ensures Valid()
      ensures SendSide() == Acked(old(SendSide()), ackNum)
    {
      AckMarksOnlyItsEntry(SendSide(), ackNum);
      var acks := Mark(SendSide(), ackNum);
      ackReceived := acks;
    }

    /** The loop of the ACK marking over the entries: the new
        acknowledgement flags. */
    static method Mark(s: SenderState, ackNum: u16) returns (acks: map<nat, bool>)
      requires SenderValid(s)
      ensures acks == Acked(s, ackNum).ackReceived
    {
      acks := s.ackReceived;
      var k := 0;
      while k < s.nextSeqNum
        invariant 0 <= k <= s.nextSeqNum
        invariant forall j :: j in acks <==> j in s.ackReceived
        invariant forall j :: j in acks ==>
          acks[j] == if j < k then s.ackReceived[j] || j % 256 == ackNum else s.ackReceived[j]
      {
        if ackNum == k % 256 {
          acks := acks[k := true];
        }
        k := k + 1;
      }
      assert forall j :: j in acks ==> acks[j] == Acked(s, ackNum).ackReceived[j];
    }

    /** The inner loop of `receive`: pop the expected number while it is
        buffered, moving it on modulo 256. */
    static method DrainBuffer(r: ReceiverState) returns (d: Drained)
      ensures d == Drain(r)
    {
      var expected, buffer, ready := r.expectedSeqNum, r.recvBuffer, [];
      while expected in buffer
        invariant ready + Drain(ReceiverState(expected, buffer)).segments == Drain(r).segments
        invariant Drain(ReceiverState(expected, buffer)).receiver == Drain(r).receiver
        decreases |buffer|
      {
        assert (buffer - {expected}).Keys == buffer.Keys - {expected};
        ready := ready + [buffer[expected]];
        buffer := buffer - {expected};
        expected := (expected + 1) % 256;
      }
      d := Drained(ReceiverState(expected, buffer), ready);
    }

    /** `receive`: read datagrams until one makes a segment ready, answering
        each with an ACK to its sender; return the first ready segment. A
        decoding error escapes; `None` means the input ran out while it was
        still waiting. */
    method Receive() returns (r: Result<Option<SelectiveRepeatSegment>, CodecError>)
      requires Valid()
      modifies this`expectedSeqNum, this`recvBuffer, this`inbox, this`outbox
      ensures Valid()
      ensures var run := RunReceive(old(ReceiveSide()), old(inbox));
        && r == run.outcome && ReceiveSide() == run.receiver && inbox == run.inbox
        && outbox == old(outbox) + run.acks
    {
      AcceptsKeepValid(ReceiveSide(), inbox);
      var run := ReceiveLoop(ReceiveSide(), inbox);
      expectedSeqNum, recvBuffer := run.receiver.expectedSeqNum, run.receiver.recvBuffer;
      inbox := run.inbox;
      outbox := outbox + run.acks;
      r := run.outcome;
    }

    /** One arrival's handling in `receive`: deliver the expected segment and
        the run it completes, or buffer one from ahead of the window. */
    static method AcceptSegment(r: ReceiverState, segment: SelectiveRepeatSegment) returns (a: Accepted)
      ensures a == Accept(r, segment)
    {
      if segment.seqNum == r.expectedSeqNum {
        var drained := DrainBuffer(ReceiverState((r.expectedSeqNum + 1) % 256, r.recvBuffer));
        a := Accepted(drained.receiver, [segment] + drained.segments);
      } else if segment.seqNum > r.expectedSeqNum && segment.seqNum !in r.recvBuffer {
        a := Accepted(r.(recvBuffer := r.recvBuffer[segment.seqNum := segment]), []);
      } else {
        a := Accepted(r, []);
      }
    }

    /** The loop of `receive` over the receiver's state: each datagram is
        decoded, acknowledged and accepted until one makes a segment ready. */
    static method ReceiveLoop(start: ReceiverState, arrivals: seq<Arrival>) returns (run: ReceiveRun)
      ensures run == RunReceive(start, arrivals)
    {
      var receiver, inbox, acks := start, arrivals, [];
      while inbox != []
        invariant RunReceive(start, arrivals).outcome == RunReceive(receiver, inbox).outcome
        invariant RunReceive(start, arrivals).receiver == RunReceive(receiver, inbox).receiver
        invariant RunReceive(start, arrivals).inbox == RunReceive(receiver, inbox).inbox
        invariant RunReceive(start, arrivals).acks == acks + RunReceive(receiver, inbox).acks
        decreases |inbox|
      {
        var arrival := inbox[0];
        ghost var before := inbox;
        inbox := inbox[1..];
        var decoded := DeserializeSelectiveRepeat(arrival.bytes);
        if decoded.Err? {
          return ReceiveRun(Err(decoded.error), receiver, inbox, acks);
        }
        var segment := decoded.value;
        RunReceiveOk(receiver, before, segment);
        var ack := Datagram(AckFrameFor(segment.seqNum), arrival.from);
        ghost var earlier := acks;
        acks := acks + [ack];
        var accepted := AcceptSegment(receiver, segment);
        receiver := accepted.receiver;
        if accepted.ready != [] {
          return ReceiveRun(Ok(Some(accepted.ready[0])), receiver, inbox, acks);
        }
        ghost var rest := RunReceive(receiver, inbox).acks;
        AppendAssociates(earlier, [ack], rest);
      }
      run := ReceiveRun(Ok(None), receiver, [], acks);
    }
  }
}

/** The download side of lib/client/downloader.py. The main thread reads
    datagrams, counting consecutive socket timeouts, and for each datagram
    runs `protocol_worker`, which puts the payload (or `None` for a repeated
    segment) on `data_queue` and reports end of file on `result_queue`.
    `data_worker` drains `data_queue` into the file. The threads are run here
    one after the other: `TransferForClient` plays the main thread with its
    protocol workers and `DataWorker` the writer. */
module DownloaderWorkers {
  import opened Wire
  import opened Transfer
  import opened Constants

  /** What `protocol_handler.receive_file` makes of one datagram: its
      payload, whether it repeats an earlier segment and whether it is the
      last one, or the exception it raises. */
  datatype Delivery = Delivered(data: seq<byte>, isRepeated: bool, isEof: bool) | Raised

  /** One `recvfrom` on the socket: a datagram, with what the engine makes of
      it, or `socket.timeout`. */
  datatype SocketEvent = Arrived(delivery: Delivery) | SocketTimeout

  /** How `transfer_for_client` ends: a datagram reported end of file;
      `MAX_ATTEMPTS` timeouts in a row; a protocol worker raised, so nothing
      reaches `result_queue` and `result_queue.get()` never returns; or the
      events ran out while it still waits for the socket. */
  datatype Outcome = Finished | TimedOut | Stalled | Waiting

  /** How a client transfer ends and how many socket events it consumed. */
  datatype Run = Run(outcome: Outcome, consumed: nat)

  /** The bytes `data_worker` appends to the file from `queue`: the payloads
      in order, skipping `None`, up to the first `EOF_MARKER`. */
  function Written(queue: seq<Item>): seq<byte>
  {
    if queue == [] then []
    else match queue[0]
      case Chunk(bytes) => bytes + Written(queue[1..])
      case NoneSignal => Written(queue[1..])
      case EofMarker => []
  }

  /** How many items `data_worker` takes from `queue`: through the first
      `EOF_MARKER`, or all of them. */
  function Taken(queue: seq<Item>): (n: nat)
    ensures n <= |queue|
    ensures EofMarker !in queue ==> n == |queue|
    ensures EofMarker in queue ==> 0 < n && queue[n - 1] == EofMarker && EofMarker !in queue[..n - 1]
  {
    if queue == [] then 0
    else if queue[0] == EofMarker then 1
    else
      var n := 1 + Taken(queue[1..]);
      assert queue == [queue[0]] + queue[1..];
      assert EofMarker in queue ==> EofMarker in queue[1..] && queue[..n - 1] == [queue[0]] + queue[1..][..n - 2];
      n
  }

  /** A queue without an end-of-file marker writes its parts one after the
      other. */
  lemma {:induction false} WrittenAppend(a: seq<Item>, b: seq<Item>)
    requires EofMarker !in a
    ensures Written(a + b) == Written(a) + Written(b)
  {
    if a == [] {
      assert a + b == b;
    } else {
      assert (a + b)[1..] == a[1..] + b;
      WrittenAppend(a[1..], b);
    }
  }

  /** Nothing after the first end-of-file marker reaches the file. */
  lemma WrittenStopsAtEof(a: seq<Item>, b: seq<Item>)
    requires EofMarker !in a
    ensures Written(a + [EofMarker] + b) == Written(a)
  {
    WrittenAppend(a, [EofMarker] + b);
    assert a + [EofMarker] + b == a + ([EofMarker] + b);
  }

  /** The item `protocol_worker` puts on `data_queue`: `None` for a repeated
      segment or an exception, the payload otherwise. */
  function Enqueued(d: Delivery): (item: Item)
    ensures item != EofMarker
    ensures item.Chunk? <==> d.Delivered? && !d.isRepeated
    ensures item.Chunk? ==> item.bytes == d.data
  {
    match d
    case Delivered(data, isRepeated, _) => if isRepeated then NoneSignal else Chunk(data)
    case Raised => NoneSignal
  }

  /** What `protocol_worker` puts on `result_queue`: `is_eof` for every
      datagram it decodes, repeated or not, and nothing when it raises. */
  function Reported(d: Delivery): (r: seq<bool>)
    ensures |r| == (if d.Raised? then 0 else 1)
    ensures d.Delivered? ==> r == [d.isEof]
  {
    if d.Raised? then [] else [d.isEof]
  }

  /** The items the protocol workers of `events` put on `data_queue`. */
  function Queued(events: seq<SocketEvent>): seq<Item>
  {
    if events == [] then []
    else
      var last := events[|events| - 1];
      Queued(events[..|events| - 1]) + (if last.Arrived? then [Enqueued(last.delivery)] else [])
  }

  /** No protocol worker puts `EOF_MARKER` on `data_queue`: the line that
      would have done so at end of file is commented out, so `data_worker`
      takes every item it is given. */
  lemma {:induction false} NeverQueuesEof(events: seq<SocketEvent>)
    ensures EofMarker !in Queued(events)
    ensures Taken(Queued(events)) == |Queued(events)|
    decreases |events|
  {
    if events != [] {
      NeverQueuesEof(events[..|events| - 1]);
    }
  }

  /** The payloads of the datagrams of `events` that are not repeats, in
      order of arrival. */
  function Fresh(events: seq<SocketEvent>): seq<byte>
  {
    if events == [] then []
    else
      var last := events[|events| - 1];
      Fresh(events[..|events| - 1])
        + (if last.Arrived? && last.delivery.Delivered? && !last.delivery.isRepeated then last.delivery.data else [])
  }

  /** The file receives the payload of every datagram that is not a repeat,
      each once and in order, and nothing from a repeated one. */
  lemma {:induction false} DuplicatesNeverWritten(events: seq<SocketEvent>)
    ensures Written(Queued(events)) == Fresh(events)
    decreases |events|
  {
    if events != [] {
      var init := events[..|events| - 1];
      var last := events[|events| - 1];
      DuplicatesNeverWritten(init);
      NeverQueuesEof(init);
      var tail := if last.Arrived? then [Enqueued(last.delivery)] else [];
      WrittenAppend(Queued(init), tail);
      if last.Arrived? {
        assert tail[1..] == [];
      }
    }
  }

  /** `transfer_for_client` from timeout counter `counter`: a timeout that
      brings the counter to `MAX_ATTEMPTS` aborts, any datagram resets it, a
      datagram reporting end of file finishes, and one whose protocol worker
      raises stalls. */
  function ClientRun(events: seq<SocketEvent>, counter: nat): (r: Run)
    ensures r.consumed <= |events|
    ensures r.outcome == Waiting ==> r.consumed == |events|
    ensures r.outcome != Waiting ==> 0 < r.consumed
  {
    if events == [] then Run(Waiting, 0)
    else match events[0]
      case SocketTimeout =>
        if counter + 1 >= MAX_ATTEMPTS then Run(TimedOut, 1)
        else Later(ClientRun(events[1..], counter + 1))
      case Arrived(Raised) => Run(Stalled, 1)
      case Arrived(Delivered(_, _, isEof)) =>
        if isEof then Run(Finished, 1) else Later(ClientRun(events[1..], 0))
  }

  /** A run that started one event later. */
  function Later(r: Run): (l: Run)
    ensures l.outcome == r.outcome && l.consumed == r.consumed + 1
  {
    Run(r.outcome, r.consumed + 1)
  }

  /** A timeout consumed after `events[..i]` adds nothing to `data_queue`,
      and the run from it on counts it against `MAX_ATTEMPTS`. */
  lemma TimeoutStep(events: seq<SocketEvent>, i: nat, counter: nat)
    requires i < |events| && events[i] == SocketTimeout
    ensures Queued(events[..i + 1]) == Queued(events[..i])
    ensures ClientRun(events[i..], counter) ==
      if counter + 1 >= MAX_ATTEMPTS then Run(TimedOut, 1) else Later(ClientRun(events[i + 1..], counter + 1))
  {
    assert events[..i + 1][..i] == events[..i];
    assert events[i..][1..] == events[i + 1..];
  }

  /** A datagram consumed after `events[..i]` adds what its protocol worker
      queues and reports, and the run from it on resets the counter. */
  lemma ArrivalStep(events: seq<SocketEvent>, i: nat, counter: nat, queue: seq<Item>)
    requires i < |events| && events[i].Arrived?
    ensures queue + Queued(events[..i + 1]) == queue + Queued(events[..i]) + [Enqueued(events[i].delivery)]
    ensures ClientRun(events[i..], counter) ==
      if events[i].delivery.Raised? then Run(Stalled, 1)
      else if events[i].delivery.isEof then Run(Finished, 1)
      else Later(ClientRun(events[i + 1..], 0))
  {
    assert events[..i + 1][..i] == events[..i];
    assert events[i..][1..] == events[i + 1..];
  }

  /** A timeout abort comes after at least `MAX_ATTEMPTS - counter` events,
      and the last `MAX_ATTEMPTS` events consumed (all of them, if fewer)
      are timeouts. */
  lemma {:induction false} TimedOutAfterTimeouts(events: seq<SocketEvent>, counter: nat)
    requires counter < MAX_ATTEMPTS
    ensures var r := ClientRun(events, counter);
      r.outcome == TimedOut ==>
        && r.consumed >= MAX_ATTEMPTS - counter
        && forall i :: 0 <= i < r.consumed && r.consumed - MAX_ATTEMPTS <= i ==> events[i] == SocketTimeout
    decreases |events|
  {
    if events != [] && events[0] == SocketTimeout && counter + 1 < MAX_ATTEMPTS {
      TimedOutAfterTimeouts(events[1..], counter + 1);
      var r := ClientRun(events[1..], counter + 1);
      if r.outcome == TimedOut {
        forall i | 0 <= i < r.consumed + 1 && r.consumed + 1 - MAX_ATTEMPTS <= i
          ensures events[i] == SocketTimeout
        {
          if i > 0 { assert events[i] == events[1..][i - 1]; }
        }
      }
    } else if events != [] && events[0].Arrived? && events[0].delivery.Delivered? && !events[0].delivery.isEof {
      TimedOutAfterTimeouts(events[1..], 0);
      var r := ClientRun(events[1..], 0);
      if r.outcome == TimedOut {
        forall i | 0 <= i < r.consumed + 1 && r.consumed + 1 - MAX_ATTEMPTS <= i
          ensures events[i] == SocketTimeout
        {
          assert events[i] == events[1..][i - 1];
        }
      }
    }
  }

  /** A client transfer that sees only timeouts aborts after exactly
      `MAX_ATTEMPTS - counter` of them. */
  lemma {:induction false} TimeoutsAbort(events: seq<SocketEvent>, counter: nat)
    requires counter < MAX_ATTEMPTS <= |events| + counter
    requires forall i :: 0 <= i < MAX_ATTEMPTS - counter ==> events[i] == SocketTimeout
    ensures ClientRun(events, counter) == Run(TimedOut, MAX_ATTEMPTS - counter)
    decreases MAX_ATTEMPTS - counter
  {
    if counter + 1 < MAX_ATTEMPTS {
      TimeoutsAbort(events[1..], counter + 1);
    }
  }

  /** A transfer finishes at the first datagram that reports end of file,
      and no datagram before it raised or reported end of file. */
  lemma {:induction false} FinishesAtFirstEof(events: seq<SocketEvent>, counter: nat)
    ensures var r := ClientRun(events, counter);
      r.outcome == Finished ==>
        && 0 < r.consumed
        && events[r.consumed - 1].Arrived?
        && events[r.consumed - 1].delivery.Delivered?
        && events[r.consumed - 1].delivery.isEof
        && forall i :: 0 <= i < r.consumed - 1 ==>
             events[i].Arrived? ==> events[i].delivery.Delivered? && !events[i].delivery.isEof
    decreases |events|
  {
    if events != [] && events[0] == SocketTimeout && counter + 1 < MAX_ATTEMPTS {
      FinishesAtFirstEof(events[1..], counter + 1);
    } else if events != [] && events[0].Arrived? && events[0].delivery.Delivered? && !events[0].delivery.isEof {
      FinishesAtFirstEof(events[1..], 0);
    }
  }

  /** The client side of the download: the queues of its threads, the file
      it writes, the error it records and what it sends to the server. */
  class Downloader {
    const destinationAddress: Addr
    var dataQueue: seq<Item>
    var file: seq<byte>
    var fileOpen: bool
    var error: Option<Failure>
    var outbox: seq<Datagram>

    /** `__init__`: empty queues and the destination opened in append mode,
        so the file starts with whatever `existing` it already held. */
    constructor (destination: Addr, existing: seq<byte>)
      ensures destinationAddress == destination
      ensures dataQueue == [] && file == existing && fileOpen
      ensures error == None && outbox == []
    {
      destinationAddress := destination;
      dataQueue := [];
      file := existing;
      fileOpen := true;
      error := None;
      outbox := [];
    }

    /** `data_worker`: takes items off `data_queue` until the first
        `EOF_MARKER`, skipping `None` and appending every payload. */
    method DataWorker()
      modifies this`dataQueue, this`file
      ensures file == old(file) + Written(old(dataQueue))
      ensures dataQueue == old(dataQueue)[Taken(old(dataQueue))..]
    {
      var queue, written := dataQueue, file;
      while queue != []
        invariant written + Written(queue) == old(file) + Written(old(dataQueue))
        invariant queue[Taken(queue)..] == old(dataQueue)[Taken(old(dataQueue))..]
        decreases |queue|
      {
        var data := queue[0];
        queue := queue[1..];
        if data == NoneSignal {
          continue;
        }
        if data == EofMarker {
          break;
        }
        written := written + data.bytes;
      }
      dataQueue, file := queue, written;
    }

    /** `protocol_worker` for one datagram, with the `result_queue` it is
        given. */
    method ProtocolWorker(d: Delivery, resultQueue: seq<bool>) returns (results: seq<bool>)
      modifies this`dataQueue, this`error
      ensures dataQueue == old(dataQueue) + [Enqueued(d)]
      ensures results == resultQueue + Reported(d)
      ensures error == if d.Raised? then Some(ProtocolError) else old(error)
    {
      if d.Raised? {
        error := Some(ProtocolError);
        dataQueue := dataQueue + [NoneSignal];
        return resultQueue;
      }
      if d.isRepeated {
        dataQueue := dataQueue + [NoneSignal];
      } else {
        dataQueue := dataQueue + [Chunk(d.data)];
      }
      results := resultQueue + [d.isEof];
    }

    /** `transfer_for_client` over the socket events `events`. Each datagram
        runs a protocol worker, whose report on the local `result_queue` the
        loop then takes. A finished or aborted transfer closes the file and
        sends `b"FIN"` to the server; a stalled or waiting one does
        neither. */
    method TransferForClient(events: seq<SocketEvent>) returns (outcome: Outcome)
      modifies this`dataQueue, this`error, this`fileOpen, this`outbox
      ensures var r := ClientRun(events, 0);
        && outcome == r.outcome
        && dataQueue == old(dataQueue) + Queued(events[..r.consumed])
        && error == (match outcome
                     case TimedOut => Some(ConnectionTimeout)
                     case Stalled => Some(ProtocolError)
                     case _ => old(error))
        && (outcome == Finished || outcome == TimedOut ==>
              !fileOpen && outbox == old(outbox) + [Datagram(FIN, destinationAddress)])
        && (outcome == Stalled || outcome == Waiting ==>
              fileOpen == old(fileOpen) && outbox == old(outbox))
    {
      var resultQueue: seq<bool> := [];
      var counter: nat := 0;
      var i := 0;
      var queue0, error0 := dataQueue, error;
      outcome := Waiting;
      while outcome == Waiting && i < |events|
        invariant 0 <= i <= |events| && resultQueue == []
        invariant outcome == Waiting ==> counter < MAX_ATTEMPTS
        invariant outcome == Waiting ==> ClientRun(events, 0) == Shift(ClientRun(events[i..], counter), i)
        invariant outcome != Waiting ==> ClientRun(events, 0) == Run(outcome, i)
        invariant dataQueue == queue0 + Queued(events[..i])
        invariant error == (match outcome
                            case TimedOut => Some(ConnectionTimeout)
                            case Stalled => Some(ProtocolError)
                            case _ => error0)
        invariant fileOpen == old(fileOpen) && outbox == old(outbox)
        decreases |events| - i
      {
        var event := events[i];
        if event == SocketTimeout {
          TimeoutStep(events, i, counter);
          counter := counter + 1;
          if counter >= MAX_ATTEMPTS {
            error := Some(ConnectionTimeout);
            outcome := TimedOut;
          }
        } else {
          ArrivalStep(events, i, counter, queue0);
          counter := 0;
          resultQueue := ProtocolWorker(event.delivery, resultQueue);
          if resultQueue == [] {
            outcome := Stalled;
          } else {
            var isFinished := resultQueue[0];
            resultQueue := resultQueue[1..];
            if isFinished {
              outcome := Finished;
            }
          }
        }
        i := i + 1;
      }
      if outcome == Finished || outcome == TimedOut {
        fileOpen := false;
        outbox := outbox + [Datagram(FIN, destinationAddress)];
      }
    }
  }

  /** A run from event `i` on, counted from the first event. */
  function Shift(r: Run, i: nat): (s: Run)
    ensures s.outcome == r.outcome && s.consumed == r.consumed + i
  {
    Run(r.outcome, r.consumed + i)
  }
}

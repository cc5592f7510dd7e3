/** The upload side of lib/client/uploader.py. `data_worker` reads the
    source file in slices of `DATA_SIZE` bytes onto `data_queue` and ends it
    with `EOF_MARKER`; `protocol_worker` takes the items off the queue and
    hands each to the protocol handler's `send`, closing with an empty
    end-of-file call. The two threads are run here one after the other. */
module UploaderWorkers {
  import opened Wire
  import opened Transfer
  import opened Constants

  /** The queue items for a list of slices, in order. */
  function ChunkItems(parts: seq<seq<byte>>): (items: seq<Item>)
    ensures |items| == |parts|
    ensures forall i :: 0 <= i < |parts| ==> items[i] == Chunk(parts[i])
  {
    if parts == [] then [] else [Chunk(parts[0])] + ChunkItems(parts[1..])
  }

  /** Reading one slice at `pos` takes the first chunk of what is left. */
  lemma ReadStep(queue: seq<Item>, data: seq<byte>, pos: nat)
    requires pos < |data|
    ensures var end := SliceEnd(pos, |data|, DATA_SIZE);
      queue + ChunkItems(Chunks(data[pos..], DATA_SIZE))
        == queue + [Chunk(data[pos..end])] + ChunkItems(Chunks(data[end..], DATA_SIZE))
  {
    SliceStep(data, pos, DATA_SIZE);
  }

  /** The items `data_worker` queues for a file holding `data`. */
  function FileItems(data: seq<byte>): seq<Item>
  {
    ChunkItems(Chunks(data, DATA_SIZE)) + [EofMarker]
  }

  /** `protocol_worker` on `queue`, when the `send` call numbered `failAt`
      (counting from 0, with `made` calls already made) raises. */
  function Upload(queue: seq<Item>, made: nat, failAt: Option<nat>): (u: UploadRun)
    ensures u.taken <= |queue|
    ensures u.ending == Blocked ==> u.taken == |queue|
  {
    if queue == [] then UploadRun([], 0, Blocked)
    else match queue[0]
      case NoneSignal => UploadRun([], 1, Signalled)
      case EofMarker => UploadRun([SendCall([], 1)], 1, if failAt == Some(made) then Failed else Completed)
      case Chunk(bytes) =>
        if failAt == Some(made) then UploadRun([SendCall(bytes, 0)], 1, Failed)
        else Then(SendCall(bytes, 0), Upload(queue[1..], made + 1, failAt))
  }

  /** Without failures, the items of a list of slices followed by
      `EOF_MARKER` make one data call per slice, in order, and then the
      empty end-of-file call. */
  lemma {:induction false} UploadChunks(parts: seq<seq<byte>>, made: nat)
    ensures Upload(ChunkItems(parts) + [EofMarker], made, None)
      == UploadRun(DataCalls(parts) + [SendCall([], 1)], |parts| + 1, Completed)
    decreases |parts|
  {
    if parts != [] {
      var items := ChunkItems(parts) + [EofMarker];
      assert items[0] == Chunk(parts[0]);
      assert items[1..] == ChunkItems(parts[1..]) + [EofMarker];
      UploadChunks(parts[1..], made + 1);
      assert DataCalls(parts) == [SendCall(parts[0], 0)] + DataCalls(parts[1..]);
    } else {
      assert ChunkItems(parts) + [EofMarker] == [EofMarker];
    }
  }

  /** An upload of a file without failures ends with the end-of-file call,
      every earlier call carries a slice of at most `DATA_SIZE` bytes and no
      end-of-file flag, and joining their payloads gives the file back. */
  lemma UploadDeliversFile(data: seq<byte>)
    ensures var u := Upload(FileItems(data), 0, None);
      && u.ending == Completed
      && u.taken == |FileItems(data)|
      && |u.calls| > 0 && u.calls[|u.calls| - 1] == SendCall([], 1)
      && (forall i :: 0 <= i < |u.calls| - 1 ==> u.calls[i].eof == 0 && 0 < |u.calls[i].payload| <= DATA_SIZE)
      && Concat(Payloads(u.calls[..|u.calls| - 1])) == data
  {
    var parts := Chunks(data, DATA_SIZE);
    UploadChunks(parts, 0);
    var u := Upload(FileItems(data), 0, None);
    assert u.calls[..|u.calls| - 1] == DataCalls(parts);
    PayloadsOfDataCalls(parts);
    ConcatChunks(data, DATA_SIZE);
  }

  /** A `send` that raises is the last call made: the worker stops there,
      having made exactly the calls numbered `made` to `failAt`. */
  lemma {:induction false} FailureStopsUpload(queue: seq<Item>, made: nat, failAt: nat)
    ensures var u := Upload(queue, made, Some(failAt));
      u.ending == Failed ==> made <= failAt && |u.calls| == failAt - made + 1
    decreases |queue|
  {
    if queue != [] && queue[0].Chunk? && failAt != made {
      FailureStopsUpload(queue[1..], made + 1, failAt);
    }
  }

  /** What the upload is left with when the source cannot be read: the
      error text is queued as if it were file data, so the protocol worker
      sends it as a data call and then waits, never making the end-of-file
      call. */
  lemma ReadErrorIsSentAsData(detail: seq<byte>)
    ensures Upload([Chunk(ReadErrorMessage(detail))], 0, None)
      == UploadRun([SendCall(ReadErrorMessage(detail), 0)], 1, Blocked)
  {
    assert [Chunk(ReadErrorMessage(detail))][1..] == [];
  }

  /** A chunk whose call does not raise moves that call from the rest of
      the run to what was done. */
  lemma UploadPassesChunk(queue: seq<Item>, i: nat, done: seq<SendCall>, failAt: Option<nat>)
    requires i < |queue| && queue[i].Chunk? && failAt != Some(|done|)
    ensures After(done, i, Upload(queue[i..], |done|, failAt))
      == After(done + [SendCall(queue[i].bytes, 0)], i + 1, Upload(queue[i + 1..], |done| + 1, failAt))
  {
    assert queue[i..][0] == queue[i] && queue[i..][1..] == queue[i + 1..];
    ThenAfter(done, i, SendCall(queue[i].bytes, 0), Upload(queue[i + 1..], |done| + 1, failAt));
  }

  /** `None` ends the run without a call. */
  lemma UploadSignalled(queue: seq<Item>, i: nat, done: seq<SendCall>, failAt: Option<nat>)
    requires i < |queue| && queue[i] == NoneSignal
    ensures After(done, i, Upload(queue[i..], |done|, failAt)) == UploadRun(done, i + 1, Signalled)
  {
    assert queue[i..][0] == queue[i];
    assert done + [] == done;
  }

  /** `EOF_MARKER` ends the run with the end-of-file call. */
  lemma UploadReachesEof(queue: seq<Item>, i: nat, done: seq<SendCall>, failAt: Option<nat>)
    requires i < |queue| && queue[i] == EofMarker
    ensures After(done, i, Upload(queue[i..], |done|, failAt))
      == UploadRun(done + [SendCall([], 1)], i + 1, if failAt == Some(|done|) then Failed else Completed)
  {
    assert queue[i..][0] == queue[i];
  }

  /** A chunk whose call raises ends the run with that call. */
  lemma UploadFailsAt(queue: seq<Item>, i: nat, done: seq<SendCall>, failAt: Option<nat>)
    requires i < |queue| && queue[i].Chunk? && failAt == Some(|done|)
    ensures After(done, i, Upload(queue[i..], |done|, failAt)) == UploadRun(done + [SendCall(queue[i].bytes, 0)], i + 1, Failed)
  {
    assert queue[i..][0] == queue[i];
  }

  /** The client side of the upload: its queue, the calls it makes to the
      protocol handler's `send`, the error it records and the
      `transfer_complete` event. */
  class Uploader {
    const filePath: string
    var dataQueue: seq<Item>
    var sent: seq<SendCall>
    var error: Option<Failure>
    var transferComplete: bool

    constructor (src: string)
      ensures filePath == src
      ensures dataQueue == [] && sent == [] && error == None && !transferComplete
    {
      filePath := src;
      dataQueue := [];
      sent := [];
      error := None;
      transferComplete := false;
    }

    /** `__init__`: refuses an empty source path and one that names no
        file among `present`. */
    static method Create(src: string, present: set<string>) returns (r: Result<Uploader, Failure>)
      ensures r.Ok? <==> src != "" && src in present
      ensures r.Err? ==> r.error == SourceNotFound
      ensures r.Ok? ==>
        && fresh(r.value) && r.value.filePath == src && r.value.dataQueue == []
        && r.value.sent == [] && r.value.error == None && !r.value.transferComplete
    {
      if src == "" || src !in present {
        return Err(SourceNotFound);
      }
      var u := new Uploader(src);
      return Ok(u);
    }

    /** `data_worker` on a source that holds `source`, or that cannot be
        opened (`None`), in which case the exception's message encodes to
        `detail`. */
    method DataWorker(source: Option<seq<byte>>, detail: seq<byte>)
      modifies this`dataQueue, this`error, this`transferComplete
      ensures source.Some? ==>
        && dataQueue == old(dataQueue) + FileItems(source.value)
        && error == old(error) && transferComplete == old(transferComplete)
      ensures source.None? ==>
        && dataQueue == old(dataQueue) + [Chunk(ReadErrorMessage(detail))]
        && error == Some(ReadError) && transferComplete
    {
      if source.None? {
        error := Some(ReadError);
        dataQueue := dataQueue + [Chunk(ReadErrorMessage(detail))];
        transferComplete := true;
        return;
      }
      var data := source.value;
      var queue := dataQueue;
      var fileSize := |data|;
      var pos := 0;
      while fileSize > 0
        invariant 0 <= pos <= |data| && fileSize == |data| - pos
        invariant old(dataQueue) + ChunkItems(Chunks(data, DATA_SIZE))
          == queue + ChunkItems(Chunks(data[pos..], DATA_SIZE))
        invariant unchanged(this)
        decreases fileSize
      {
        var end := SliceEnd(pos, |data|, DATA_SIZE);
        ReadStep(queue, data, pos);
        var chunk := data[pos..end];
        queue := queue + [Chunk(chunk)];
        fileSize := fileSize - |chunk|;
        pos := pos + |chunk|;
      }
      assert Chunks(data[pos..], DATA_SIZE) == [];
      assert old(dataQueue) + ChunkItems(Chunks(data, DATA_SIZE)) == queue;
      assert old(dataQueue) + FileItems(data) == queue + [EofMarker];
      dataQueue := queue + [EofMarker];
    }

    /** The loop of `protocol_worker` over the items of `queue`, when the
        `send` call numbered `failAt` raises: the calls it makes, how many
        items it takes and how it leaves the loop. */
    static method TakeItems(queue: seq<Item>, failAt: Option<nat>) returns (calls: seq<SendCall>, taken: nat, ending: Ending)
      ensures UploadRun(calls, taken, ending) == Upload(queue, 0, failAt)
    {
      calls := [];
      taken := 0;
      while taken < |queue|
        invariant 0 <= taken <= |queue|
        invariant Upload(queue, 0, failAt) == After(calls, taken, Upload(queue[taken..], |calls|, failAt))
        decreases |queue| - taken
      {
        var data := queue[taken];
        if data == NoneSignal {
          UploadSignalled(queue, taken, calls, failAt);
          return calls, taken + 1, Signalled;
        } else if data == EofMarker {
          UploadReachesEof(queue, taken, calls, failAt);
          var last := |calls|;
          calls := calls + [SendCall([], 1)];
          return calls, taken + 1, if failAt == Some(last) then Failed else Completed;
        } else if failAt == Some(|calls|) {
          UploadFailsAt(queue, taken, calls, failAt);
          calls := calls + [SendCall(data.bytes, 0)];
          return calls, taken + 1, Failed;
        }
        UploadPassesChunk(queue, taken, calls, failAt);
        calls := calls + [SendCall(data.bytes, 0)];
        taken := taken + 1;
      }
      assert queue[taken..] == [];
      ending := Blocked;
    }

    /** `protocol_worker`, when the `send` call numbered `failAt` raises. */
    method ProtocolWorker(failAt: Option<nat>) returns (ending: Ending)
      modifies this`dataQueue, this`sent, this`error, this`transferComplete
      ensures var u := Upload(old(dataQueue), 0, failAt);
        && ending == u.ending
        && sent == old(sent) + u.calls
        && dataQueue == old(dataQueue)[u.taken..]
        && error == (if ending == Failed then Some(ProtocolError) else old(error))
        && transferComplete == (old(transferComplete) || ending != Blocked)
    {
      var calls, taken;
      calls, taken, ending := TakeItems(dataQueue, failAt);
      dataQueue := dataQueue[taken..];
      sent := sent + calls;
      if ending == Failed {
        error := Some(ProtocolError);
      }
      if ending != Blocked {
        transferComplete := true;
      }
    }
  }
}

/** The upload side of lib/client/upload_client.py. `data_worker` reads the
    source file in slices of `BUFFER_SIZE` bytes onto `data_queue` and ends
    it with the bytes `b"EOF"`; `protocol_worker` cuts every item into slices
    of `BUFFER_SIZE - 7` bytes for the handler's `send`, and after the item
    `b"EOF"` makes the empty end-of-file call. The end of file travels in
    band, as three bytes of data followed by the end-of-file call. */
module UploadClientWorkers {
  import opened Wire
  import opened Transfer
  import opened Constants

  /** The bytes of a queue item other than `None`: a `str` is encoded
      first. */
  function ItemBytes(item: ClientItem): (data: seq<byte>)
    requires item != NoItem
    ensures item.Bytes? ==> data == item.bytes
    ensures item.Text? ==> data == item.encoded
  {
    if item.Bytes? then item.bytes else item.encoded
  }

  /** The calls `protocol_worker` makes for one item: one data call per
      slice of `DATA_SIZE` bytes, and after `b"EOF"` the end-of-file call. */
  function ItemCalls(data: seq<byte>): seq<SendCall>
  {
    DataCalls(Chunks(data, DATA_SIZE)) + (if IsEofBytes(data) then [SendCall([], 1)] else [])
  }

  /** The items `data_worker` queues for a list of slices. */
  function BytesItems(parts: seq<seq<byte>>): (items: seq<ClientItem>)
    ensures |items| == |parts|
    ensures forall i :: 0 <= i < |parts| ==> items[i] == Bytes(parts[i])
  {
    if parts == [] then [] else [Bytes(parts[0])] + BytesItems(parts[1..])
  }

  /** The items `data_worker` queues for a file holding `data`. */
  function FileItems(data: seq<byte>): seq<ClientItem>
  {
    BytesItems(Chunks(data, BUFFER_SIZE)) + [Bytes(EOF_BYTES)]
  }

  /** The calls the worker makes for one item, with `made` calls already
      made, and whether it stops there: at a raising call, or after the
      end-of-file call that follows `b"EOF"`. */
  datatype ItemRun = ItemRun(calls: seq<SendCall>, stop: Option<Ending>)

  /** The body of `protocol_worker`'s loop for an item holding `data`, when
      the `send` call numbered `failAt` raises. */
  function SendItemRun(data: seq<byte>, made: nat, failAt: Option<nat>): (r: ItemRun)
    ensures r.stop == None <==> !IsEofBytes(data) && r.calls == DataCalls(Chunks(data, DATA_SIZE))
                                 && !(failAt.Some? && made <= failAt.value < made + |r.calls|)
  {
    var all := DataCalls(Chunks(data, DATA_SIZE));
    if failAt.Some? && made <= failAt.value < made + |all| then
      ItemRun(all[..failAt.value - made + 1], Some(Failed))
    else if IsEofBytes(data) then
      ItemRun(all + [SendCall([], 1)], Some(if failAt == Some(made + |all|) then Failed else Completed))
    else ItemRun(all, None)
  }

  /** `protocol_worker` on `queue`, when the `send` call numbered `failAt`
      (counting from 0, with `made` calls already made) raises: the calls of
      each item are made in turn, and the worker stops at `None`, at a
      raising call or after `b"EOF"`. */
  function ClientUpload(queue: seq<ClientItem>, made: nat, failAt: Option<nat>): (u: UploadRun)
    ensures u.taken <= |queue|
    ensures u.ending == Blocked ==> u.taken == |queue|
  {
    if queue == [] then UploadRun([], 0, Blocked)
    else if queue[0] == NoItem then UploadRun([], 1, Signalled)
    else
      var r := SendItemRun(ItemBytes(queue[0]), made, failAt);
      if r.stop.Some? then UploadRun(r.calls, 1, r.stop.value)
      else After(r.calls, 1, ClientUpload(queue[1..], made + |r.calls|, failAt))
  }

  /** An item that does not stop the worker moves its calls from the rest
      of the run to what was done. */
  lemma PassStep(queue: seq<ClientItem>, i: nat, done: seq<SendCall>, failAt: Option<nat>)
    requires i < |queue| && queue[i] != NoItem
    requires SendItemRun(ItemBytes(queue[i]), |done|, failAt).stop == None
    ensures var r := SendItemRun(ItemBytes(queue[i]), |done|, failAt);
      After(done, i, ClientUpload(queue[i..], |done|, failAt))
        == After(done + r.calls, i + 1, ClientUpload(queue[i + 1..], |done + r.calls|, failAt))
  {
    var r := SendItemRun(ItemBytes(queue[i]), |done|, failAt);
    var rest := ClientUpload(queue[i + 1..], |done + r.calls|, failAt);
    assert ClientUpload(queue[i..], |done|, failAt) == After(r.calls, 1, rest) by {
      assert queue[i..][0] == queue[i] && queue[i..][1..] == queue[i + 1..];
    }
    AfterAfter(done, i, r.calls, 1, rest);
  }

  /** An item that stops the worker ends the run with its calls. */
  lemma StopStep(queue: seq<ClientItem>, i: nat, done: seq<SendCall>, failAt: Option<nat>)
    requires i < |queue| && queue[i] != NoItem
    requires SendItemRun(ItemBytes(queue[i]), |done|, failAt).stop.Some?
    ensures var r := SendItemRun(ItemBytes(queue[i]), |done|, failAt);
      After(done, i, ClientUpload(queue[i..], |done|, failAt)) == UploadRun(done + r.calls, i + 1, r.stop.value)
  {
    assert queue[i..][0] == queue[i];
  }

  /** `None` on the queue ends the run without a call. */
  lemma SignalStep(queue: seq<ClientItem>, i: nat, done: seq<SendCall>, failAt: Option<nat>)
    requires i < |queue| && queue[i] == NoItem
    ensures After(done, i, ClientUpload(queue[i..], |done|, failAt)) == UploadRun(done, i + 1, Signalled)
  {
    assert queue[i..][0] == queue[i];
  }

  /** An emptied queue leaves the worker waiting with what it has done. */
  lemma EndStep(queue: seq<ClientItem>, done: seq<SendCall>, failAt: Option<nat>)
    ensures After(done, |queue|, ClientUpload(queue[|queue|..], |done|, failAt)) == UploadRun(done, |queue|, Blocked)
  {
    assert queue[|queue|..] == [];
  }

  /** The data calls of one item carry its bytes, slice by slice, without
      the end-of-file flag. */
  lemma ItemCallsCarryItem(data: seq<byte>)
    ensures Concat(Payloads(DataCalls(Chunks(data, DATA_SIZE)))) == data
    ensures forall i :: 0 <= i < |DataCalls(Chunks(data, DATA_SIZE))| ==>
      DataCalls(Chunks(data, DATA_SIZE))[i].eof == 0 && |DataCalls(Chunks(data, DATA_SIZE))[i].payload| <= DATA_SIZE
  {
    PayloadsOfDataCalls(Chunks(data, DATA_SIZE));
    ConcatChunks(data, DATA_SIZE);
  }

  /** Sending the slice at `i` moves its call from what is left to what was
      sent. */
  lemma SendStep(calls: seq<SendCall>, data: seq<byte>, i: nat)
    requires i < |data|
    ensures var end := SliceEnd(i, |data|, DATA_SIZE);
      calls + DataCalls(Chunks(data[i..], DATA_SIZE))
        == (calls + [SendCall(data[i..end], 0)]) + DataCalls(Chunks(data[end..], DATA_SIZE))
  {
    var end := SliceEnd(i, |data|, DATA_SIZE);
    SliceStep(data, i, DATA_SIZE);
    DataCallsAppend([data[i..end]], Chunks(data[end..], DATA_SIZE));
  }

  /** The calls made so far are a prefix of all the calls. */
  lemma PrefixOfAppend(a: seq<SendCall>, b: seq<SendCall>)
    ensures (a + b)[..|a|] == a
  {
  }

  /** An empty item makes no call. */
  lemma EmptyItemSendsNothing()
    ensures ItemCalls([]) == []
  {
  }

  /** The item `b"EOF"` is sent as three bytes of data and then the empty
      end-of-file call. */
  lemma EofItemCalls()
    ensures ItemCalls(EOF_BYTES) == [SendCall(EOF_BYTES, 0), SendCall([], 1)]
  {
    assert Chunks(EOF_BYTES, DATA_SIZE) == [EOF_BYTES];
  }

  /** The data calls for a list of items, one item after the other. */
  function PartsCalls(parts: seq<seq<byte>>): seq<SendCall>
  {
    if parts == [] then [] else DataCalls(Chunks(parts[0], DATA_SIZE)) + PartsCalls(parts[1..])
  }

  /** Without failures, items none of which is `b"EOF"`, followed by
      `b"EOF"`, are sent slice by slice and closed with the end-of-file
      call. */
  lemma {:induction false} ClientUploadParts(parts: seq<seq<byte>>, made: nat)
    requires forall i :: 0 <= i < |parts| ==> !IsEofBytes(parts[i])
    ensures ClientUpload(BytesItems(parts) + [Bytes(EOF_BYTES)], made, None)
      == UploadRun(PartsCalls(parts) + [SendCall(EOF_BYTES, 0), SendCall([], 1)], |parts| + 1, Completed)
    decreases |parts|
  {
    var items := BytesItems(parts) + [Bytes(EOF_BYTES)];
    var tail := [SendCall(EOF_BYTES, 0), SendCall([], 1)];
    if parts == [] {
      EofItemCalls();
      assert items == [Bytes(EOF_BYTES)];
    } else {
      var calls := ItemCalls(parts[0]);
      assert calls == DataCalls(Chunks(parts[0], DATA_SIZE));
      var rest := ClientUpload(BytesItems(parts[1..]) + [Bytes(EOF_BYTES)], made + |calls|, None);
      assert rest == UploadRun(PartsCalls(parts[1..]) + tail, |parts|, Completed) by {
        ClientUploadParts(parts[1..], made + |calls|);
      }
      assert items[0] == Bytes(parts[0]);
      assert items[1..] == BytesItems(parts[1..]) + [Bytes(EOF_BYTES)];
      ClientUploadStep(items, made);
      assert calls + (PartsCalls(parts[1..]) + tail) == PartsCalls(parts) + tail by {
        assert PartsCalls(parts) == calls + PartsCalls(parts[1..]);
      }
    }
  }

  /** Without failures, an item other than `b"EOF"` is sent and the worker
      goes on with the next. */
  lemma ClientUploadStep(queue: seq<ClientItem>, made: nat)
    requires queue != [] && queue[0].Bytes? && !IsEofBytes(queue[0].bytes)
    ensures ClientUpload(queue, made, None)
      == After(ItemCalls(queue[0].bytes), 1, ClientUpload(queue[1..], made + |ItemCalls(queue[0].bytes)|, None))
  {
    assert SendItemRun(queue[0].bytes, made, None) == ItemRun(ItemCalls(queue[0].bytes), None);
  }

  /** The bytes of the data calls for a list of items are those items,
      joined. */
  lemma {:induction false} PartsCallsCarryParts(parts: seq<seq<byte>>)
    ensures Concat(Payloads(PartsCalls(parts))) == Concat(parts)
    decreases |parts|
  {
    if parts != [] {
      var first := DataCalls(Chunks(parts[0], DATA_SIZE));
      PartsCallsCarryParts(parts[1..]);
      ItemCallsCarryItem(parts[0]);
      PayloadsAppend(first, PartsCalls(parts[1..]));
      ConcatAppend(Payloads(first), Payloads(PartsCalls(parts[1..])));
    }
  }

  /** An upload of a file none of whose slices is `b"EOF"` ends with the
      end-of-file call, and the bytes it hands to `send` before that are the
      file followed by the text `EOF`. */
  lemma UploadClientDeliversFile(data: seq<byte>)
    requires forall i :: 0 <= i < |Chunks(data, BUFFER_SIZE)| ==> !IsEofBytes(Chunks(data, BUFFER_SIZE)[i])
    ensures var u := ClientUpload(FileItems(data), 0, None);
      && u.ending == Completed
      && u.taken == |FileItems(data)|
      && |u.calls| > 0 && u.calls[|u.calls| - 1] == SendCall([], 1)
      && (forall i :: 0 <= i < |u.calls| - 1 ==> u.calls[i].eof == 0)
      && Concat(Payloads(u.calls[..|u.calls| - 1])) == data + EOF_BYTES
  {
    var parts := Chunks(data, BUFFER_SIZE);
    ClientUploadParts(parts, 0);
    var u := ClientUpload(FileItems(data), 0, None);
    assert u.calls[..|u.calls| - 1] == PartsCalls(parts) + [SendCall(EOF_BYTES, 0)];
    assert Concat(Payloads(u.calls[..|u.calls| - 1])) == data + EOF_BYTES by {
      PartsThenEofCarry(parts);
      ConcatChunks(data, BUFFER_SIZE);
    }
    PartsCallsHaveNoEof(parts);
  }

  /** The bytes of the data calls for a list of items followed by the
      call carrying `b"EOF"` are the items, joined, and then `EOF`. */
  lemma PartsThenEofCarry(parts: seq<seq<byte>>)
    ensures Concat(Payloads(PartsCalls(parts) + [SendCall(EOF_BYTES, 0)])) == Concat(parts) + EOF_BYTES
  {
    PartsCallsCarryParts(parts);
    PayloadsAppend(PartsCalls(parts), [SendCall(EOF_BYTES, 0)]);
    assert Payloads([SendCall(EOF_BYTES, 0)]) == [EOF_BYTES];
    ConcatAppend(Payloads(PartsCalls(parts)), [EOF_BYTES]);
    assert Concat([EOF_BYTES]) == EOF_BYTES + Concat([]);
  }

  /** Every data call for a list of items has no end-of-file flag. */
  lemma {:induction false} PartsCallsHaveNoEof(parts: seq<seq<byte>>)
    ensures forall i :: 0 <= i < |PartsCalls(parts)| ==> PartsCalls(parts)[i].eof == 0
    decreases |parts|
  {
    if parts != [] {
      PartsCallsHaveNoEof(parts[1..]);
    }
  }

  /** Because the end of file travels in band, the file holding the three
      bytes `EOF` is sent with exactly the calls of an empty file. */
  lemma EofFileLooksEmpty()
    ensures ClientUpload(FileItems(EOF_BYTES), 0, None) == UploadRun([SendCall(EOF_BYTES, 0), SendCall([], 1)], 1, Completed)
    ensures ClientUpload(FileItems([]), 0, None) == UploadRun([SendCall(EOF_BYTES, 0), SendCall([], 1)], 1, Completed)
  {
    EofItemCalls();
    assert Chunks(EOF_BYTES, BUFFER_SIZE) == [EOF_BYTES];
    assert FileItems(EOF_BYTES)[0] == Bytes(EOF_BYTES);
    assert FileItems([]) == [Bytes(EOF_BYTES)];
  }

  /** The client side of an upload built on `BaseClient`: its queue, the
      calls it makes to the protocol handler's `send`, the error it records
      and the `transfer_complete` event. */
  class UploadClient {
    var dataQueue: seq<ClientItem>
    var sent: seq<SendCall>
    var error: Option<Failure>
    var transferComplete: bool

    constructor ()
      ensures dataQueue == [] && sent == [] && error == None && !transferComplete
    {
      dataQueue := [];
      sent := [];
      error := None;
      transferComplete := false;
    }

    /** `data_worker` on a source that holds `source`, or that cannot be
        read (`None`), in which case the exception's message encodes to
        `detail`. */
    method DataWorker(source: Option<seq<byte>>, detail: seq<byte>)
      modifies this`dataQueue, this`error, this`transferComplete
      ensures source.Some? ==>
        && dataQueue == old(dataQueue) + FileItems(source.value)
        && error == old(error) && transferComplete == old(transferComplete)
      ensures source.None? ==>
        && dataQueue == old(dataQueue) + [Bytes(ReadErrorMessage(detail))]
        && error == Some(ReadError) && transferComplete
    {
      if source.None? {
        error := Some(ReadError);
        dataQueue := dataQueue + [Bytes(ReadErrorMessage(detail))];
        transferComplete := true;
        return;
      }
      var data := source.value;
      var queue := dataQueue;
      var fileSize := |data|;
      var pos := 0;
      while fileSize > 0
        invariant 0 <= pos <= |data| && fileSize == |data| - pos
        invariant old(dataQueue) + BytesItems(Chunks(data, BUFFER_SIZE))
          == queue + BytesItems(Chunks(data[pos..], BUFFER_SIZE))
        invariant unchanged(this)
        decreases fileSize
      {
        var end := SliceEnd(pos, |data|, BUFFER_SIZE);
        SliceStep(data, pos, BUFFER_SIZE);
        var chunk := data[pos..end];
        assert BytesItems([chunk] + Chunks(data[end..], BUFFER_SIZE))
          == [Bytes(chunk)] + BytesItems(Chunks(data[end..], BUFFER_SIZE));
        queue := queue + [Bytes(chunk)];
        fileSize := fileSize - |chunk|;
        pos := pos + |chunk|;
      }
      assert Chunks(data[pos..], BUFFER_SIZE) == [];
      assert old(dataQueue) + BytesItems(Chunks(data, BUFFER_SIZE)) == queue;
      assert old(dataQueue) + FileItems(data) == queue + [Bytes(EOF_BYTES)];
      dataQueue := queue + [Bytes(EOF_BYTES)];
    }

    /** The chunking loop of `protocol_worker`:
        `for i in range(0, len(data), chunk_size)`, one `send` per slice,
        stopping at the call numbered `failAt` if it is among them. */
    static method SendChunks(data: seq<byte>, made: nat, failAt: Option<nat>) returns (calls: seq<SendCall>, failed: bool)
      ensures var all := DataCalls(Chunks(data, DATA_SIZE));
        && (failed <==> failAt.Some? && made <= failAt.value < made + |all|)
        && (failed ==> calls == all[..failAt.value - made + 1])
        && (!failed ==> calls == all)
    {
      ghost var all := DataCalls(Chunks(data, DATA_SIZE));
      ghost var left := all;
      calls := [];
      failed := false;
      var i := 0;
      while i < |data|
        invariant 0 <= i <= |data|
        invariant left == DataCalls(Chunks(data[i..], DATA_SIZE))
        invariant calls + left == all
        invariant failAt.Some? ==> failAt.value < made || made + |calls| <= failAt.value
        decreases |data| - i
      {
        var end := SliceEnd(i, |data|, DATA_SIZE);
        SendStep(calls, data, i);
        ghost var next := DataCalls(Chunks(data[end..], DATA_SIZE));
        assert calls + left == (calls + [SendCall(data[i..end], 0)]) + next;
        calls := calls + [SendCall(data[i..end], 0)];
        left := next;
        if failAt == Some(made + |calls| - 1) {
          assert calls == all[..failAt.value - made + 1] && made + |calls| <= made + |all| by {
            PrefixOfAppend(calls, left);
          }
          failed := true;
          break;
        }
        i := end;
      }
      if !failed {
        assert calls == all by {
          assert data[i..] == [];
        }
      }
    }

    /** The `try` block of `protocol_worker` for an item holding `data`:
        its slices, then the end-of-file call if it is `b"EOF"`. */
    static method SendItem(data: seq<byte>, made: nat, failAt: Option<nat>) returns (r: ItemRun)
      ensures r == SendItemRun(data, made, failAt)
    {
      var calls, failed := SendChunks(data, made, failAt);
      if failed {
        return ItemRun(calls, Some(Failed));
      }
      if IsEofBytes(data) {
        calls := calls + [SendCall([], 1)];
        return ItemRun(calls, Some(if failAt == Some(made + |calls| - 1) then Failed else Completed));
      }
      return ItemRun(calls, None);
    }

    /** `protocol_worker`, when the `send` call numbered `failAt` raises. */
    method ProtocolWorker(failAt: Option<nat>) returns (ending: Ending)
      modifies this`dataQueue, this`sent, this`error, this`transferComplete
      ensures var u := ClientUpload(old(dataQueue), 0, failAt);
        && ending == u.ending
        && sent == old(sent) + u.calls
        && dataQueue == old(dataQueue)[u.taken..]
        && error == (if ending == Failed then Some(ProtocolError) else old(error))
        && transferComplete == (old(transferComplete) || ending != Blocked)
    {
      var queue0 := dataQueue;
      var calls: seq<SendCall> := [];
      var i := 0;
      ending := Blocked;
      while ending == Blocked && i < |queue0|
        invariant 0 <= i <= |queue0|
        invariant ending == Blocked ==> ClientUpload(queue0, 0, failAt) == After(calls, i, ClientUpload(queue0[i..], |calls|, failAt))
        invariant ending != Blocked ==> ClientUpload(queue0, 0, failAt) == UploadRun(calls, i, ending)
        invariant unchanged(this)
        decreases |queue0| - i
      {
        var item := queue0[i];
        if item == NoItem {
          SignalStep(queue0, i, calls, failAt);
          ending := Signalled;
        } else {
          var r := SendItem(ItemBytes(item), |calls|, failAt);
          if r.stop.Some? {
            StopStep(queue0, i, calls, failAt);
            ending := r.stop.value;
          } else {
            PassStep(queue0, i, calls, failAt);
          }
          calls := calls + r.calls;
        }
        i := i + 1;
      }
      if ending == Blocked {
        EndStep(queue0, calls, failAt);
      }
      dataQueue := queue0[i..];
      sent := sent + calls;
      if ending == Failed {
        error := Some(ProtocolError);
      }
      if ending != Blocked {
        transferComplete := true;
      }
    }
  }
}

/** The download side of lib/client/download_client.py, built on
    `BaseClient`. `protocol_worker` puts every block `receive_file` returns on
    `data_queue` and stops once it has put `b"EOF"`; a receive that raises is
    skipped. `data_worker` writes the queued blocks to the file until `None`
    or `b"EOF"`. The two threads are run here one after the other. */
module DownloadClientWorkers {
  import opened Wire
  import opened Transfer

  /** An item that ends `data_worker`'s loop: `None` or `b"EOF"`. */
  predicate Stops(item: ClientItem)
  {
    item == NoItem || (item.Bytes? && IsEofBytes(item.bytes))
  }

  /** What `data_worker` does with a queue: the bytes it writes, how many
      items it takes and whether it reached an item that ends its loop. */
  datatype Drain = Drain(written: seq<byte>, taken: nat, stopped: bool)

  /** `data_worker` on `queue`. A text item reaches `write` of a file opened
      in binary mode, which raises inside `FileManager.write` and is
      swallowed there, so nothing of it is written. */
  function DrainQueue(queue: seq<ClientItem>): (d: Drain)
    ensures d.taken <= |queue|
    ensures !d.stopped ==> d.taken == |queue|
  {
    if queue == [] then Drain([], 0, false)
    else if Stops(queue[0]) then Drain([], 1, true)
    else
      var rest := DrainQueue(queue[1..]);
      Drain(Wrote(queue[0]) + rest.written, rest.taken + 1, rest.stopped)
  }

  /** `data_worker` takes items up to and including the first `None` or
      `b"EOF"`, and takes them all, without stopping, when there is none. */
  lemma {:induction false} DrainStopsAtFirst(queue: seq<ClientItem>)
    ensures var d := DrainQueue(queue);
      && (!d.stopped <==> forall i :: 0 <= i < |queue| ==> !Stops(queue[i]))
      && (d.stopped ==> 0 < d.taken && Stops(queue[d.taken - 1]))
      && (forall i :: 0 <= i < d.taken - 1 ==> !Stops(queue[i]))
    decreases |queue|
  {
    if queue != [] && !Stops(queue[0]) {
      DrainStopsAtFirst(queue[1..]);
      assert forall i :: 1 <= i < |queue| ==> queue[i] == queue[1..][i - 1];
    }
  }

  /** A queue that does not end the loop is written whole, and the worker
      goes on with what follows it. */
  lemma {:induction false} DrainAppend(x: seq<ClientItem>, y: seq<ClientItem>)
    requires !DrainQueue(x).stopped
    ensures DrainQueue(x + y)
      == Drain(DrainQueue(x).written + DrainQueue(y).written, |x| + DrainQueue(y).taken, DrainQueue(y).stopped)
    decreases |x|
  {
    if x == [] {
      assert x + y == y;
    } else {
      assert !Stops(x[0]);
      assert (x + y)[0] == x[0] && (x + y)[1..] == x[1..] + y;
      DrainAppend(x[1..], y);
      DrainCons(x);
      DrainCons(x + y);
      var head := Wrote(x[0]);
      var a, b := DrainQueue(x[1..]).written, DrainQueue(y).written;
      assert head + (a + b) == (head + a) + b;
    }
  }

  /** The bytes `data_worker` writes for one item that does not end its
      loop. */
  function Wrote(item: ClientItem): seq<byte>
  {
    if item.Bytes? then item.bytes else []
  }

  /** Unfolds `DrainQueue` once, at an item that does not end the loop. */
  lemma DrainCons(queue: seq<ClientItem>)
    requires queue != [] && !Stops(queue[0])
    ensures var rest := DrainQueue(queue[1..]);
      DrainQueue(queue) == Drain(Wrote(queue[0]) + rest.written, rest.taken + 1, rest.stopped)
  {
  }

  /** The drain of a queue after `done` bytes were written from its first
      `skipped` items. */
  function Resume(done: seq<byte>, skipped: nat, d: Drain): (r: Drain)
    ensures r.written == done + d.written && r.taken == skipped + d.taken && r.stopped == d.stopped
  {
    Drain(done + d.written, skipped + d.taken, d.stopped)
  }

  /** An item that does not end the loop moves its bytes from what is left
      to what was written. */
  lemma DrainPassStep(queue: seq<ClientItem>, i: nat, done: seq<byte>)
    requires i < |queue| && !Stops(queue[i])
    ensures Resume(done, i, DrainQueue(queue[i..])) == Resume(done + Wrote(queue[i]), i + 1, DrainQueue(queue[i + 1..]))
  {
    assert queue[i..][0] == queue[i] && queue[i..][1..] == queue[i + 1..];
    DrainCons(queue[i..]);
    var rest := DrainQueue(queue[i + 1..]);
    assert done + (Wrote(queue[i]) + rest.written) == (done + Wrote(queue[i])) + rest.written;
  }

  /** An item that ends the loop is taken and nothing more is written. */
  lemma DrainStopStep(queue: seq<ClientItem>, i: nat, done: seq<byte>)
    requires i < |queue| && Stops(queue[i])
    ensures Resume(done, i, DrainQueue(queue[i..])) == Drain(done, i + 1, true)
  {
    assert queue[i..][0] == queue[i];
    assert done + [] == done;
  }

  /** What `protocol_worker` does with the results of its `receive_file`
      calls: the items it puts on `data_queue`, how many calls it makes and
      whether it stopped after putting `b"EOF"`. */
  datatype Reception = Reception(items: seq<ClientItem>, consumed: nat, finished: bool)

  /** `protocol_worker` when its successive `receive_file` calls return the
      blocks in `receipts`, `None` standing for a call that raises. */
  function Receive(receipts: seq<Option<seq<byte>>>): (r: Reception)
    ensures r.consumed <= |receipts|
    ensures !r.finished ==> r.consumed == |receipts|
    ensures r.finished ==> 0 < r.consumed && receipts[r.consumed - 1].Some? && IsEofBytes(receipts[r.consumed - 1].value)
  {
    if receipts == [] then Reception([], 0, false)
    else
      var before := Receive(receipts[..|receipts| - 1]);
      var last := receipts[|receipts| - 1];
      if before.finished then before
      else if last.None? then Reception(before.items, before.consumed + 1, false)
      else Reception(before.items + [Bytes(last.value)], before.consumed + 1, IsEofBytes(last.value))
  }

  /** Once `b"EOF"` has been put, later receipts change nothing. */
  lemma {:induction false} ReceiveStaysFinished(receipts: seq<Option<seq<byte>>>, i: nat)
    requires i <= |receipts| && Receive(receipts[..i]).finished
    ensures Receive(receipts) == Receive(receipts[..i])
    decreases |receipts| - i
  {
    if i < |receipts| {
      assert receipts[..i + 1][..i] == receipts[..i];
      ReceiveStaysFinished(receipts, i + 1);
    } else {
      assert receipts[..i] == receipts;
    }
  }

  /** The received blocks, in order, leaving out the calls that raised. */
  function Got(receipts: seq<Option<seq<byte>>>): (blocks: seq<seq<byte>>)
    ensures |blocks| <= |receipts|
  {
    if receipts == [] then []
    else
      var last := receipts[|receipts| - 1];
      Got(receipts[..|receipts| - 1]) + (if last.Some? then [last.value] else [])
  }

  /** No received block is `b"EOF"`. */
  predicate NoEof(receipts: seq<Option<seq<byte>>>)
  {
    forall i :: 0 <= i < |receipts| ==> receipts[i].None? || !IsEofBytes(receipts[i].value)
  }

  /** Without `b"EOF"` the receiver puts every received block and keeps
      waiting, and the file gets the blocks joined, in order. */
  lemma {:induction false} DownloadWaitsWithoutEof(receipts: seq<Option<seq<byte>>>)
    requires NoEof(receipts)
    ensures var r := Receive(receipts);
      && !r.finished && r.consumed == |receipts|
      && DrainQueue(r.items) == Drain(Concat(Got(receipts)), |r.items|, false)
    decreases |receipts|
  {
    if receipts != [] {
      var front := receipts[..|receipts| - 1];
      var last := receipts[|receipts| - 1];
      assert NoEof(front) by {
        assert forall i :: 0 <= i < |front| ==> front[i] == receipts[i];
      }
      DownloadWaitsWithoutEof(front);
      var items := Receive(front).items;
      assert last.None? || !IsEofBytes(last.value);
      if last.Some? {
        assert Receive(receipts).items == items + [Bytes(last.value)];
        assert Got(receipts) == Got(front) + [last.value];
        DrainAppend(items, [Bytes(last.value)]);
        assert DrainQueue([Bytes(last.value)]) == Drain(last.value, 1, false) by {
          assert !Stops(Bytes(last.value));
          assert [Bytes(last.value)][1..] == [];
          assert last.value + [] == last.value;
        }
        assert DrainQueue(items + [Bytes(last.value)]) == Drain(Concat(Got(front)) + last.value, |items| + 1, false);
        ConcatAppend(Got(front), [last.value]);
        assert Concat([last.value]) == last.value + Concat([]);
        assert Concat(Got(receipts)) == Concat(Got(front)) + last.value;
      } else {
        assert Receive(receipts).items == items;
        assert Got(receipts) == Got(front);
      }
    }
  }

  /** A download ends at the first received `b"EOF"`: the receiver stops
      right after putting it, and the file gets exactly the blocks received
      before it, joined in order; whatever would have come later is never
      received. */
  lemma DownloadStopsAtEof(a: seq<Option<seq<byte>>>, b: seq<Option<seq<byte>>>)
    requires NoEof(a)
    ensures var r := Receive(a + [Some(EOF_BYTES)] + b);
      && r.finished && r.consumed == |a| + 1
      && r == Receive(a + [Some(EOF_BYTES)])
      && DrainQueue(r.items) == Drain(Concat(Got(a)), |r.items|, true)
  {
    var whole := a + [Some(EOF_BYTES)] + b;
    var upTo := a + [Some(EOF_BYTES)];
    assert whole[..|a| + 1] == upTo;
    assert upTo[..|upTo| - 1] == a;
    DownloadWaitsWithoutEof(a);
    var items := Receive(a).items;
    assert Receive(upTo) == Reception(items + [Bytes(EOF_BYTES)], |a| + 1, true);
    ReceiveStaysFinished(whole, |a| + 1);
    DrainAppend(items, [Bytes(EOF_BYTES)]);
    assert DrainQueue([Bytes(EOF_BYTES)]) == Drain([], 1, true);
    assert Concat(Got(a)) + [] == Concat(Got(a));
  }

  /** Because the end of transfer travels in band, a received block that
      happens to hold the bytes `EOF` ends the download as if the sender had
      finished: the file gets nothing of it or of anything sent after it. */
  lemma EofBlockEndsDownload(a: seq<Option<seq<byte>>>, b: seq<Option<seq<byte>>>, rest: seq<byte>)
    requires NoEof(a)
    ensures DrainQueue(Receive(a + [Some(EOF_BYTES)] + b).items).written
      == DrainQueue(Receive(a + [Some(EOF_BYTES)] + [Some(rest)]).items).written
  {
    DownloadStopsAtEof(a, b);
    DownloadStopsAtEof(a, [Some(rest)]);
  }

  /** The client side of a download built on `BaseClient`: its queue, the
      file it writes and the `transfer_complete` event. */
  class DownloadClient {
    var dataQueue: seq<ClientItem>
    var file: seq<byte>
    var transferComplete: bool

    constructor ()
      ensures dataQueue == [] && file == [] && !transferComplete
    {
      dataQueue := [];
      file := [];
      transferComplete := false;
    }

    /** `data_worker`, when the destination could be opened for writing
        (`canOpen`) or not, in which case `FileManager` drops every write and
        the file is left as it was. */
    method DataWorker(canOpen: bool)
      modifies this`dataQueue, this`file, this`transferComplete
      ensures var d := DrainQueue(old(dataQueue));
        && dataQueue == old(dataQueue)[d.taken..]
        && file == (if canOpen then d.written else old(file))
        && transferComplete == (old(transferComplete) || d.stopped)
    {
      var queue0 := dataQueue;
      var written: seq<byte> := [];
      var i := 0;
      var stopped := false;
      while !stopped && i < |queue0|
        invariant 0 <= i <= |queue0|
        invariant !stopped ==> DrainQueue(queue0) == Resume(written, i, DrainQueue(queue0[i..]))
        invariant stopped ==> DrainQueue(queue0) == Drain(written, i, true)
        invariant unchanged(this)
        decreases |queue0| - i
      {
        var data := queue0[i];
        if data == NoItem || (data.Bytes? && IsEofBytes(data.bytes)) {
          DrainStopStep(queue0, i, written);
          stopped := true;
        } else {
          DrainPassStep(queue0, i, written);
          written := written + Wrote(data);
        }
        i := i + 1;
      }
      if !stopped {
        assert queue0[i..] == [];
      }
      dataQueue := queue0[i..];
      if canOpen {
        file := written;
      }
      if stopped {
        transferComplete := true;
      }
    }

    /** `protocol_worker` when its successive `receive_file` calls return
        the blocks in `receipts`, `None` standing for a call that raises;
        it answers how many calls it made and whether it put `b"EOF"`. */
    method ProtocolWorker(receipts: seq<Option<seq<byte>>>) returns (consumed: nat, finished: bool)
      modifies this`dataQueue
      ensures var r := Receive(receipts);
        && consumed == r.consumed && finished == r.finished
        && dataQueue == old(dataQueue) + r.items
    {
      var items: seq<ClientItem> := [];
      consumed := 0;
      finished := false;
      while !finished && consumed < |receipts|
        invariant consumed <= |receipts|
        invariant Receive(receipts[..consumed]) == Reception(items, consumed, finished)
        decreases |receipts| - consumed
      {
        var data := receipts[consumed];
        assert receipts[..consumed + 1][..consumed] == receipts[..consumed];
        consumed := consumed + 1;
        if data.None? {
          continue;
        }
        items := items + [Bytes(data.value)];
        if IsEofBytes(data.value) {
          finished := true;
        }
      }
      if finished {
        ReceiveStaysFinished(receipts, consumed);
      } else {
        assert receipts[..consumed] == receipts;
      }
      dataQueue := dataQueue + items;
    }
  }
}

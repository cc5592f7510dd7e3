/** What the client workers of lib/client/ share: the items their threads
    pass through `data_queue`, the calls they make to a protocol handler's
    `send`, and the cutting of bytes into chunks. */
module Transfer {
  import opened Wire

  /** An item of the `data_queue` of `Downloader` and `Uploader`: bytes, the
      `None` signal, or `EOF_MARKER`. lib/utils/constants.py does not define
      `EOF_MARKER`; it is a marker distinct from every byte string. */
  datatype Item = Chunk(bytes: seq<byte>) | NoneSignal | EofMarker

  /** An item of the `data_queue` of `UploadClient` and `DownloadClient`:
      bytes, `None`, or a `str`, here held as its encoding. Their end of file
      is the byte string `b"EOF"` itself. */
  datatype ClientItem = Bytes(bytes: seq<byte>) | NoItem | Text(encoded: seq<byte>)

  /** `b"EOF"`. */
  const EOF_BYTES: seq<byte> := [69, 79, 70]

  /** `data == b"EOF"`, byte by byte. */
  predicate IsEofBytes(data: seq<byte>)
    ensures IsEofBytes(data) <==> data == EOF_BYTES
  {
    |data| == 3 && data[0] == 69 && data[1] == 79 && data[2] == 70
  }

  /** One call `protocol_handler.send(payload, eof=eof)`. */
  datatype SendCall = SendCall(payload: seq<byte>, eof: int)

  /** What the workers record in `self.error`. The text after the prefix is
      the exception's message, which is not modelled. */
  datatype Failure = SourceNotFound | ReadError | WriteError | ProtocolError | ConnectionTimeout

  /** The bytes `f"Error reading file: {e}".encode()` for an exception whose
      message encodes to `detail`. */
  function ReadErrorMessage(detail: seq<byte>): (r: seq<byte>)
    ensures |r| == 20 + |detail| && r[20..] == detail
  {
    [69, 114, 114, 111, 114, 32, 114, 101, 97, 100, 105, 110, 103, 32, 102, 105, 108, 101, 58, 32] + detail
  }

  /** The consecutive slices of at most `n` bytes that
      `for i in range(0, len(data), n): data[i:i + n]` cuts, and that
      repeated `read(n)` calls return from a file holding `data`. */
  function Chunks(data: seq<byte>, n: nat): (r: seq<seq<byte>>)
    requires n > 0
    ensures |data| == 0 <==> r == []
    ensures forall i :: 0 <= i < |r| ==> 0 < |r[i]| <= n
    ensures forall i :: 0 <= i < |r| - 1 ==> |r[i]| == n
    decreases |data|
  {
    if |data| == 0 then []
    else if |data| <= n then [data]
    else [data[..n]] + Chunks(data[n..], n)
  }

  /** Where the slice of at most `n` bytes that starts at `pos` of `size`
      bytes ends. */
  function SliceEnd(pos: nat, size: nat, n: nat): (end: nat)
    requires pos < size && n > 0
    ensures pos < end <= size && end - pos <= n
    ensures end < size ==> end - pos == n
  {
    if pos + n <= size then pos + n else size
  }

  /** The chunks from `pos` on are the slice at `pos` and the chunks after
      it. */
  lemma SliceStep(data: seq<byte>, pos: nat, n: nat)
    requires pos < |data| && n > 0
    ensures var end := SliceEnd(pos, |data|, n);
      Chunks(data[pos..], n) == [data[pos..end]] + Chunks(data[end..], n)
  {
    var end := SliceEnd(pos, |data|, n);
    if end < |data| {
      assert data[pos..][..n] == data[pos..end];
      assert data[pos..][n..] == data[end..];
    } else {
      assert data[pos..] == data[pos..end];
      assert data[end..] == [];
    }
  }

  /** `b"".join(parts)`. */
  function Concat(parts: seq<seq<byte>>): seq<byte>
  {
    if parts == [] then [] else parts[0] + Concat(parts[1..])
  }

  /** Joining the chunks gives the bytes back. */
  lemma {:induction false} ConcatChunks(data: seq<byte>, n: nat)
    requires n > 0
    ensures Concat(Chunks(data, n)) == data
    decreases |data|
  {
    if |data| > n {
      ConcatChunks(data[n..], n);
      assert Chunks(data, n)[1..] == Chunks(data[n..], n);
    } else if |data| > 0 {
      assert Concat(Chunks(data, n)) == data + Concat([]);
    }
  }

  lemma {:induction false} ConcatAppend(a: seq<seq<byte>>, b: seq<seq<byte>>)
    ensures Concat(a + b) == Concat(a) + Concat(b)
  {
    if a != [] {
      assert (a + b)[1..] == a[1..] + b;
      ConcatAppend(a[1..], b);
    } else {
      assert a + b == b;
    }
  }

  /** The payloads of a list of send calls. */
  function Payloads(calls: seq<SendCall>): (r: seq<seq<byte>>)
    ensures |r| == |calls| && forall i :: 0 <= i < |calls| ==> r[i] == calls[i].payload
  {
    seq(|calls|, i requires 0 <= i < |calls| => calls[i].payload)
  }

  /** One data call per chunk, in order. */
  function DataCalls(parts: seq<seq<byte>>): (r: seq<SendCall>)
    ensures |r| == |parts| && forall i :: 0 <= i < |parts| ==> r[i] == SendCall(parts[i], 0)
  {
    seq(|parts|, i requires 0 <= i < |parts| => SendCall(parts[i], 0))
  }

  /** The payloads of the data calls for a list of slices are those slices. */
  lemma PayloadsOfDataCalls(parts: seq<seq<byte>>)
    ensures Payloads(DataCalls(parts)) == parts
  {
  }

  /** The data calls of two lists of slices, one after the other. */
  lemma DataCallsAppend(a: seq<seq<byte>>, b: seq<seq<byte>>)
    ensures DataCalls(a + b) == DataCalls(a) + DataCalls(b)
  {
  }

  /** How the protocol worker of an upload leaves its loop: after the
      end-of-file call, after a `send` that raised, at a `None` item, or
      still waiting on an empty queue. */
  datatype Ending = Completed | Failed | Signalled | Blocked

  /** The `send` calls an upload's protocol worker makes, how many queue
      items it takes, and how it ends. */
  datatype UploadRun = UploadRun(calls: seq<SendCall>, taken: nat, ending: Ending)

  /** A run preceded by one more call and one more item. */
  function Then(call: SendCall, u: UploadRun): (r: UploadRun)
    ensures r.calls == [call] + u.calls && r.taken == u.taken + 1 && r.ending == u.ending
  {
    UploadRun([call] + u.calls, u.taken + 1, u.ending)
  }

  /** A run preceded by the calls `done` and `skipped` items. */
  function After(done: seq<SendCall>, skipped: nat, u: UploadRun): (r: UploadRun)
    ensures r.calls == done + u.calls && r.taken == skipped + u.taken && r.ending == u.ending
  {
    UploadRun(done + u.calls, skipped + u.taken, u.ending)
  }

  /** Taking one more chunk moves its call from the run to what was done. */
  lemma ThenAfter(done: seq<SendCall>, skipped: nat, call: SendCall, u: UploadRun)
    ensures After(done, skipped, Then(call, u)) == After(done + [call], skipped + 1, u)
  {
    assert done + ([call] + u.calls) == (done + [call]) + u.calls;
  }

  /** Calls and items done in two stretches add up. */
  lemma AfterAfter(a: seq<SendCall>, s: nat, b: seq<SendCall>, t: nat, u: UploadRun)
    ensures After(a, s, After(b, t, u)) == After(a + b, s + t, u)
  {
    assert a + (b + u.calls) == (a + b) + u.calls;
  }

  /** The payloads of two lists of calls, one after the other. */
  lemma PayloadsAppend(a: seq<SendCall>, b: seq<SendCall>)
    ensures Payloads(a + b) == Payloads(a) + Payloads(b)
  {
  }
}

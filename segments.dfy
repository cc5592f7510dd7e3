/** The three wire formats of lib/utils/segments.py: the Stop-and-Wait data
    segment, the Init segment and the Selective-Repeat data segment. Each frame
    is a header, big-endian length fields, the variable parts, and a 4-byte
    big-endian CRC-32 of everything before it. */
module Segments {
  import opened Wire
  import opened Crc

  type bit = b: int | 0 <= b < 2
  type u16 = n: int | 0 <= n < 0x1_0000

  /** Python's `x & 0b1` (two's complement, so it also holds for negative x). */
  function LowBit(x: int): bit
  {
    x % 2
  }

  /** Python's `x & 0xFFFF`. */
  function Low16(x: int): u16
  {
    x % 0x1_0000
  }

  // ---------------------------------------------------------------------
  // StopAndWaitSegment
  // ---------------------------------------------------------------------

  datatype StopAndWaitSegment = StopAndWaitSegment(payload: seq<byte>, seqNum: bit, ackNum: bit, eofNum: bit)

  /** The constructor keeps the payload and only the low bit of each flag. */
  function NewStopAndWaitSegment(payload: seq<byte>, seqNum: int, ackNum: int, eofNum: int): (s: StopAndWaitSegment)
    ensures s.payload == payload
    ensures (seqNum - s.seqNum) % 2 == 0 && (ackNum - s.ackNum) % 2 == 0 && (eofNum - s.eofNum) % 2 == 0
  {
    StopAndWaitSegment(payload, LowBit(seqNum), LowBit(ackNum), LowBit(eofNum))
  }

  /** `seq << 2 | ack << 1 | eof`: five zero padding bits, then the three flags. */
  function StopAndWaitHeader(s: StopAndWaitSegment): (h: byte)
    ensures h < 8
    ensures (h / 4) % 2 == s.seqNum && (h / 2) % 2 == s.ackNum && h % 2 == s.eofNum
  {
    s.seqNum * 4 + s.ackNum * 2 + s.eofNum
  }

  /** Header byte, 2-byte payload length, payload, CRC-32 of those. The length
      field is `len(payload).to_bytes(2)`, which overflows from 65536 bytes on. */
  function SerializeStopAndWait(s: StopAndWaitSegment): (r: Result<seq<byte>, CodecError>)
    ensures r.Ok? <==> |s.payload| < 0x1_0000
    ensures r.Err? ==> r.error == Overflow
    ensures r.Ok? ==>
      var f, n := r.value, |s.payload|;
      && |f| == 7 + n
      && f[0] == StopAndWaitHeader(s)
      && FromBigEndian(f[1..3]) == n
      && f[3..3 + n] == s.payload
      && FromBigEndian(f[3 + n..]) == Crc32(f[..3 + n])
  {
    if |s.payload| >= 0x1_0000 then Err(Overflow)
    else
      LengthFramedLayout(StopAndWaitHeader(s), s.payload);
      Ok(LengthFramed(StopAndWaitHeader(s), s.payload))
  }

  /** Fails on buffers under 7 bytes, on buffers shorter than the declared
      payload plus CRC, and on a CRC that does not match. Exactly four CRC bytes
      are read, so anything after them is ignored. An accepted buffer starts
      with the canonical frame of the result, up to the header's padding bits. */
  function DeserializeStopAndWait(data: seq<byte>): (r: Result<StopAndWaitSegment, CodecError>)
    ensures |data| < 7 ==> r == Err(PacketTooShort)
    ensures 7 <= |data| < 7 + FromBigEndian(data[1..3]) ==> r == Err(IncompletePacket)
    ensures r.Ok? ==>
      var n := |r.value.payload|;
      && |data| >= 7 + n
      && FromBigEndian(data[1..3]) == n
      && StopAndWaitHeader(r.value) == data[0] % 8
      && r.value.payload == data[3..3 + n]
      && FromBigEndian(data[3 + n..7 + n]) == Crc32(data[..3 + n])
  {
    if |data| < 7 then Err(PacketTooShort)
    else
      var header := data[0];
      var n := FromBigEndian(data[1..3]);
      if |data| < 3 + n + 4 then Err(IncompletePacket)
      else
        var crcReceived := FromBigEndian(data[3 + n..3 + n + 4]);
        if Crc32(data[..3 + n]) != crcReceived then Err(CrcMismatch)
        else
          var s := NewStopAndWaitSegment(data[3..3 + n], header / 4, header / 2, header);
          HeaderBits(header, s);
          Ok(s)
  }

  /** The Stop-and-Wait deserializer on a buffer whose length field is n and
      that is long enough for it: the segment of its fields exactly when the
      CRC matches, a CRC mismatch otherwise. */
  lemma StopAndWaitDecode(d: seq<byte>, n: nat)
    requires |d| >= 7 + n && FromBigEndian(d[1..3]) == n
    ensures DeserializeStopAndWait(d) ==
      if Crc32(d[..3 + n]) == FromBigEndian(d[3 + n..7 + n])
      then Ok(NewStopAndWaitSegment(d[3..3 + n], d[0] / 4, d[0] / 2, d[0]))
      else Err(CrcMismatch)
  {
    assert |d| >= 3 + n + 4 && d[3 + n..3 + n + 4] == d[3 + n..7 + n];
    if Crc32(d[..3 + n]) != FromBigEndian(d[3 + n..7 + n]) {
      assert DeserializeStopAndWait(d) == Err(CrcMismatch);
    }
  }

  /** An accepted buffer whose header has no padding bits set starts with the
      canonical frame of the segment it decodes to: serializing that segment
      gives back the bytes that were read. */
  lemma StopAndWaitSerializeOfDeserialize(data: seq<byte>, s: StopAndWaitSegment)
    requires DeserializeStopAndWait(data) == Ok(s) && data[0] < 8
    ensures SerializeStopAndWait(s) == Ok(data[..7 + |s.payload|])
  {
    var n := FromBigEndian(data[1..3]);
    assert |data| >= 7 + n;
    assert s == NewStopAndWaitSegment(data[3..3 + n], data[0] / 4, data[0] / 2, data[0]);
    assert |s.payload| == n;
    CanonicalStopAndWait(data, n, s);
  }

  lemma CanonicalStopAndWait(data: seq<byte>, n: nat, s: StopAndWaitSegment)
    requires |data| >= 7 + n && n == FromBigEndian(data[1..3])
    requires s == NewStopAndWaitSegment(data[3..3 + n], data[0] / 4, data[0] / 2, data[0])
    requires Crc32(data[..3 + n]) == FromBigEndian(data[3 + n..3 + n + 4])
    requires data[0] < 8
    ensures SerializeStopAndWait(s) == Ok(data[..7 + n])
  {
    HeaderBits(data[0], s);
    LengthFramedAt(data, n);
  }

  lemma HeaderBits(h: byte, s: StopAndWaitSegment)
    requires s.seqNum == LowBit(h / 4) && s.ackNum == LowBit(h / 2) && s.eofNum == LowBit(h)
    ensures StopAndWaitHeader(s) == h % 8
  {
    FlagBits(h);
  }

  /** The three low bits of a header byte, read back as flags and packed
      again, give the byte modulo 8. */
  lemma FlagBits(h: byte)
    ensures LowBit(h / 4) * 4 + LowBit(h / 2) * 2 + LowBit(h) == h % 8
  {
    var q, r := h / 8, h % 8;
    assert h == 8 * q + r && 0 <= r < 8;
    assert h / 4 == 2 * q + r / 4;
    assert h / 2 == 4 * q + r / 2;
    LowBits(r);
  }

  /** A number below 8 is the sum of its three bits. */
  lemma LowBits(r: nat)
    requires r < 8
    ensures r == 4 * (r / 4) + 2 * ((r / 2) % 2) + r % 2
  {
    assert r == 0 || r == 1 || r == 2 || r == 3 || r == 4 || r == 5 || r == 6 || r == 7;
  }

  /** Serializing and then deserializing a Stop-and-Wait segment gives back the
      same payload and flags. */
  lemma StopAndWaitRoundTrip(s: StopAndWaitSegment)
    requires |s.payload| < 0x1_0000
    ensures SerializeStopAndWait(s).Ok?
    ensures DeserializeStopAndWait(SerializeStopAndWait(s).value) == Ok(s)
  {
    var f, n := SerializeStopAndWait(s).value, |s.payload|;
    WholeFrame(f, n);
    assert NewStopAndWaitSegment(f[3..3 + n], f[0] / 4, f[0] / 2, f[0]) == s;
  }

  /** The Stop-and-Wait deserializer reads exactly four CRC bytes, so bytes
      appended to an accepted buffer change nothing. */
  lemma StopAndWaitIgnoresTrailingBytes(data: seq<byte>, extra: seq<byte>)
    requires DeserializeStopAndWait(data).Ok?
    ensures DeserializeStopAndWait(data + extra) == DeserializeStopAndWait(data)
  {
    var n := FromBigEndian(data[1..3]);
    assert |data| >= 7 + n;
    PrefixFields(data, extra, n);
    var d := data + extra;
    assert FromBigEndian(d[1..3]) == n;
    assert Crc32(d[..3 + n]) == FromBigEndian(d[3 + n..3 + n + 4]);
  }

  /** The slices the Stop-and-Wait deserializer reads from a buffer are the
      same once bytes are appended to it. */
  lemma PrefixFields(data: seq<byte>, extra: seq<byte>, n: nat)
    requires 7 + n <= |data|
    ensures var d := data + extra;
      && d[0] == data[0] && d[1..3] == data[1..3] && d[..3 + n] == data[..3 + n]
      && d[3..3 + n] == data[3..3 + n] && d[3 + n..3 + n + 4] == data[3 + n..3 + n + 4]
  {
    var d := data + extra;
    assert d[..|data|] == data;
    SliceWithin(d, data, 1, 3);
    SliceWithin(d, data, 0, 3 + n);
    SliceWithin(d, data, 3 + n, 3 + n + 4);
    SliceWithin(d, data, 3, 3 + n);
    assert d[..3 + n] == d[0..3 + n];
    assert data[..3 + n] == data[0..3 + n];
  }

  /** A frame whose four CRC bytes were replaced by any other four bytes is
      rejected as a CRC mismatch. */
  lemma StopAndWaitRejectsDamagedCrc(s: StopAndWaitSegment, t: seq<byte>)
    requires |s.payload| < 0x1_0000 && |t| == 4
    requires t != SerializeStopAndWait(s).value[3 + |s.payload|..]
    ensures DeserializeStopAndWait(SerializeStopAndWait(s).value[..3 + |s.payload|] + t) == Err(CrcMismatch)
  {
    StopAndWaitTrailerDamaged(SerializeStopAndWait(s).value, |s.payload|, t);
  }

  lemma StopAndWaitTrailerDamaged(f: seq<byte>, n: nat, t: seq<byte>)
    requires |f| == 7 + n && FromBigEndian(f[1..3]) == n && FromBigEndian(f[3 + n..]) == Crc32(f[..3 + n])
    requires |t| == 4 && t != f[3 + n..]
    ensures DeserializeStopAndWait(f[..3 + n] + t) == Err(CrcMismatch)
  {
    var d := f[..3 + n] + t;
    assert d[..3 + n] == f[..3 + n];
    SameSlice(d, f, 3 + n, 1, 3);
    assert d[3 + n..3 + n + 4] == t;
    TrailersDiffer(t, f[3 + n..]);
  }

  // ---------------------------------------------------------------------
  // InitSegment
  // ---------------------------------------------------------------------

  /** The segment a client opens a session with: direction (opcode), ARQ
      variant (protocol), and two length-prefixed byte strings. */
  datatype InitSegment = InitSegment(opcode: bit, protocol: bit, fileName: seq<byte>, filePath: seq<byte>)

  /** The constructor keeps the byte strings and only the low bit of each flag. */
  function NewInitSegment(opcode: int, protocol: int, fileName: seq<byte>, filePath: seq<byte>): (s: InitSegment)
    ensures s.fileName == fileName && s.filePath == filePath
    ensures (opcode - s.opcode) % 2 == 0 && (protocol - s.protocol) % 2 == 0
  {
    InitSegment(LowBit(opcode), LowBit(protocol), fileName, filePath)
  }

  /** `opcode << 1 | protocol`: six zero padding bits, then the two flags. */
  function InitHeader(s: InitSegment): (h: byte)
    ensures h < 4
    ensures (h / 2) % 2 == s.opcode && h % 2 == s.protocol
  {
    s.opcode * 2 + s.protocol
  }

  /** Header, 1-byte name length, name, 1-byte path length, path, CRC-32 of
      those. Each length is `to_bytes(1)`, which overflows from 256 on. */
  function SerializeInit(s: InitSegment): (r: Result<seq<byte>, CodecError>)
    ensures r.Ok? <==> |s.fileName| < 256 && |s.filePath| < 256
    ensures r.Err? ==> r.error == Overflow
    ensures r.Ok? ==>
      var f, p, q := r.value, |s.fileName|, |s.filePath|;
      && |f| == 7 + p + q
      && f[0] == InitHeader(s)
      && f[1] == p && f[2..2 + p] == s.fileName
      && f[2 + p] == q && f[3 + p..3 + p + q] == s.filePath
      && FromBigEndian(f[3 + p + q..]) == Crc32(f[..3 + p + q])
  {
    if |s.fileName| >= 256 || |s.filePath| >= 256 then Err(Overflow)
    else
      InitFrame(InitHeader(s), s.fileName, s.filePath);
      var f := Sealed(InitBody(InitHeader(s), s.fileName, s.filePath));
      Ok(f)
  }

  /** The fields of a sealed Init frame: header, name length, name, path
      length, path and the CRC of all of them. */
  lemma InitFrame(h: byte, name: seq<byte>, path: seq<byte>)
    requires |name| < 256 && |path| < 256
    ensures var p, q := |name|, |path|;
      var f := Sealed(InitBody(h, name, path));
      && |f| == 7 + p + q && f[0] == h && f[1] == p && f[2..2 + p] == name
      && f[2 + p] == q && f[3 + p..3 + p + q] == path
      && FromBigEndian(f[3 + p + q..]) == Crc32(f[..3 + p + q])
  {
    var p, q := |name|, |path|;
    var body := InitBody(h, name, path);
    InitLayout(h, name, path);
    var f := Sealed(body);
    SliceWithin(f, body, 2, 2 + p);
    SliceWithin(f, body, 3 + p, 3 + p + q);
    assert f[0] == f[..3 + p + q][0] && f[1] == f[..3 + p + q][1] && f[2 + p] == f[..3 + p + q][2 + p];
  }

  /** An Init frame before its CRC: header, name length, name, path length,
      path. */
  function InitBody(h: byte, name: seq<byte>, path: seq<byte>): seq<byte>
    requires |name| < 256 && |path| < 256
  {
    [h, |name| as byte] + name + [|path| as byte] + path
  }

  /** The fields of an Init body: header, name length, name, path length,
      path. */
  lemma InitLayout(h: byte, name: seq<byte>, path: seq<byte>)
    requires |name| < 256 && |path| < 256
    ensures var p, q, b := |name|, |path|, InitBody(h, name, path);
      && |b| == 3 + p + q && b[0] == h && b[1] == p && b[2..2 + p] == name
      && b[2 + p] == q && b[3 + p..3 + p + q] == path
  {
    var p, q, b := |name|, |path|, InitBody(h, name, path);
    assert b[2..2 + p] == name;
    assert b[3 + p..3 + p + q] == path;
  }

  /** Fails on buffers under 7 bytes; raises IndexError when the name length
      points past the buffer; fails when the buffer is shorter than both
      strings plus four CRC bytes; fails when the CRC, read big-endian from ALL
      the remaining bytes, does not match. */
  function DeserializeInit(data: seq<byte>): (r: Result<InitSegment, CodecError>)
    ensures |data| < 7 ==> r == Err(PacketTooShort)
    ensures |data| >= 7 && 2 + data[1] >= |data| ==> r == Err(IndexError)
    ensures |data| >= 7 && 2 + data[1] < |data| && |data| < 7 + data[1] as int + data[2 + data[1]] as int ==> r == Err(IncompletePacket)
    ensures r.Ok? ==>
      var p, q := |r.value.fileName|, |r.value.filePath|;
      && |data| >= 7 + p + q
      && InitHeader(r.value) == data[0] % 4
      && data[1] == p && r.value.fileName == data[2..2 + p]
      && data[2 + p] == q && r.value.filePath == data[3 + p..3 + p + q]
      && FromBigEndian(data[3 + p + q..]) == Crc32(data[..3 + p + q])
  {
    if |data| < 7 then Err(PacketTooShort)
    else
      var header, p := data[0], data[1];
      if 2 + p >= |data| then Err(IndexError)
      else
        var q := data[2 + p];
        if |data| < 3 + p + q + 4 then Err(IncompletePacket)
        else
          var crcReceived := FromBigEndian(data[3 + p + q..]);
          if Crc32(data[..3 + p + q]) != crcReceived then Err(CrcMismatch)
          else
            var s := NewInitSegment(header / 2, header, data[2..2 + p], data[3 + p..3 + p + q]);
            InitHeaderBits(header, s);
            Ok(s)
  }

  lemma InitHeaderBits(h: byte, s: InitSegment)
    requires s.opcode == LowBit(h / 2) && s.protocol == LowBit(h)
    ensures InitHeader(s) == h % 4
  {
  }

  /** With name and path under 256 bytes, deserializing a serialized Init
      segment gives back the same opcode, protocol, name and path. */
  lemma InitRoundTrip(s: InitSegment)
    requires |s.fileName| < 256 && |s.filePath| < 256
    ensures SerializeInit(s).Ok?
    ensures DeserializeInit(SerializeInit(s).value) == Ok(s)
  {
  }

  /** The Init deserializer reads the CRC from every byte after the path, so
      bytes appended to a frame make it fail, unless the CRC and the extra
      bytes are all zero (a big-endian zero prefix does not change a value). */
  lemma InitRejectsTrailingBytes(s: InitSegment, extra: seq<byte>)
    requires |s.fileName| < 256 && |s.filePath| < 256 && |extra| > 0
    ensures
      var f := SerializeInit(s).value;
      var crc := Crc32(f[..|f| - 4]);
      DeserializeInit(f + extra) == if crc == 0 && FromBigEndian(extra) == 0 then Ok(s) else Err(CrcMismatch)
  {
    var f := SerializeInit(s).value;
    var p, q := |s.fileName|, |s.filePath|;
    var k := 3 + p + q;
    var d := f + extra;
    assert |f| == k + 4;
    assert |d| == |f| + |extra|;
    SliceOfAppend(f, extra, k);
    assert d[..k] == f[..k];
    InitFields(d, f, p, q);
    var crc, received, trailer := Crc32(f[..k]), FromBigEndian(d[k..]), f[k..];
    assert |trailer| == 4;
    assert FromBigEndian(trailer) == crc;
    TrailerWithExtra(crc, trailer, extra);
    InitDecode(d, p, q);
    InitDecode(f, p, q);
    InitRoundTrip(s);
  }

  /** The Init deserializer on a buffer whose length fields are p and q and
      that is long enough for both. */
  lemma InitDecode(d: seq<byte>, p: nat, q: nat)
    requires |d| >= 7 + p + q && d[1] == p && d[2 + p] == q
    ensures DeserializeInit(d) ==
      if Crc32(d[..3 + p + q]) == FromBigEndian(d[3 + p + q..])
      then Ok(NewInitSegment(d[0] / 2, d[0], d[2..2 + p], d[3 + p..3 + p + q]))
      else Err(CrcMismatch)
  {
    if Crc32(d[..3 + p + q]) != FromBigEndian(d[3 + p + q..]) {
      InitCrcMismatch(d, p, q);
    } else {
      assert 2 + p < |d|;
    }
  }

  lemma SliceOfAppend(a: seq<byte>, b: seq<byte>, k: nat)
    requires k <= |a|
    ensures (a + b)[k..] == a[k..] + b && (a + b)[..k] == a[..k]
  {
  }

  /** Two buffers that agree on their first 3 + p + q bytes agree on every
      field the Init deserializer reads before the CRC. */
  lemma InitFields(d: seq<byte>, f: seq<byte>, p: nat, q: nat)
    requires 3 + p + q <= |d| && 3 + p + q <= |f| && d[..3 + p + q] == f[..3 + p + q]
    ensures d[0] == f[0] && d[1] == f[1] && d[2 + p] == f[2 + p]
    ensures d[2..2 + p] == f[2..2 + p] && d[3 + p..3 + p + q] == f[3 + p..3 + p + q]
  {
    var k := 3 + p + q;
    assert d[0] == d[..k][0] && d[1] == d[..k][1] && d[2 + p] == d[..k][2 + p];
    assert forall i :: 2 <= i < k ==> d[i] == d[..k][i];
    assert forall i :: 2 <= i < k ==> f[i] == f[..k][i];
  }

  /** A 4-byte big-endian value followed by more bytes reads as the same value
      only when that value and the extra bytes are all zero. */
  lemma TrailerWithExtra(crc: nat, t: seq<byte>, extra: seq<byte>)
    requires |t| == 4 && FromBigEndian(t) == crc && |extra| > 0
    ensures FromBigEndian(t + extra) == crc <==> crc == 0 && FromBigEndian(extra) == 0
  {
    FromBigEndianAppend(t, extra);
    var w, e := Pow256(|extra|), FromBigEndian(extra);
    assert FromBigEndian(t + extra) == crc * w + e;
    PowAtLeast(|extra|);
    if crc > 0 {
      MulMonotone(crc, 256, w);
      assert crc * w + e > crc;
    } else {
      assert crc * w == 0;
    }
  }

  lemma {:induction false} PowAtLeast(k: nat)
    requires k > 0
    ensures Pow256(k) >= 256
  {
    if k > 1 { PowAtLeast(k - 1); }
  }

  lemma MulMonotone(a: nat, b: nat, c: nat)
    requires b <= c
    ensures a * b <= a * c
  {
  }

  /** A frame of an Init segment whose four CRC bytes were replaced by any
      other four bytes is rejected as a CRC mismatch. */
  lemma InitRejectsDamagedCrc(s: InitSegment, t: seq<byte>)
    requires |s.fileName| < 256 && |s.filePath| < 256 && |t| == 4
    requires t != SerializeInit(s).value[3 + |s.fileName| + |s.filePath|..]
    ensures DeserializeInit(SerializeInit(s).value[..3 + |s.fileName| + |s.filePath|] + t) == Err(CrcMismatch)
  {
    var f, p, q := SerializeInit(s).value, |s.fileName|, |s.filePath|;
    assert f[..3 + p + q][1] == p && f[..3 + p + q][2 + p] == q;
    InitTrailerDamaged(f[..3 + p + q], p, q, f[3 + p + q..], t);
  }

  lemma InitTrailerDamaged(body: seq<byte>, p: nat, q: nat, good: seq<byte>, t: seq<byte>)
    requires |body| == 3 + p + q && body[1] == p && body[2 + p] == q
    requires |good| == 4 && FromBigEndian(good) == Crc32(body) && |t| == 4 && t != good
    ensures DeserializeInit(body + t) == Err(CrcMismatch)
  {
    var d := body + t;
    assert d[..3 + p + q] == body && d[3 + p + q..] == t;
    assert d[1] == body[1] && d[2 + p] == body[2 + p];
    TrailersDiffer(t, good);
    InitCrcMismatch(d, p, q);
  }

  /** The Init deserializer on a buffer long enough for its length fields
      whose CRC field does not match fails with a CRC mismatch. */
  lemma InitCrcMismatch(d: seq<byte>, p: nat, q: nat)
    requires |d| >= 7 + p + q && d[1] == p && d[2 + p] == q
    requires Crc32(d[..3 + p + q]) != FromBigEndian(d[3 + p + q..])
    ensures DeserializeInit(d) == Err(CrcMismatch)
  {
    assert 2 + p < |d|;
  }

  // ---------------------------------------------------------------------
  // SelectiveRepeatSegment
  // ---------------------------------------------------------------------

  /** A Selective-Repeat data or ACK segment: three 16-bit numbers and a
      payload. It has no end-of-file field. */
  datatype SelectiveRepeatSegment = SelectiveRepeatSegment(payload: seq<byte>, seqNum: u16, ackNum: u16, winSize: u16)

  /** The constructor keeps the payload and the low 16 bits of each number. */
  function NewSelectiveRepeatSegment(payload: seq<byte>, seqNum: int, ackNum: int, winSize: int): (s: SelectiveRepeatSegment)
    ensures s.payload == payload
    ensures (seqNum - s.seqNum) % 0x1_0000 == 0 && (ackNum - s.ackNum) % 0x1_0000 == 0
    ensures (winSize - s.winSize) % 0x1_0000 == 0
  {
    SelectiveRepeatSegment(payload, Low16(seqNum), Low16(ackNum), Low16(winSize))
  }

  /** seq, ack, window and payload length, two bytes each, then the payload
      and the CRC-32 of all of it. */
  function SerializeSelectiveRepeat(s: SelectiveRepeatSegment): (r: Result<seq<byte>, CodecError>)
    ensures r.Ok? <==> |s.payload| < 0x1_0000
    ensures r.Err? ==> r.error == Overflow
    ensures r.Ok? ==>
      var f, n := r.value, |s.payload|;
      && |f| == 12 + n
      && FromBigEndian(f[0..2]) == s.seqNum && FromBigEndian(f[2..4]) == s.ackNum
      && FromBigEndian(f[4..6]) == s.winSize && FromBigEndian(f[6..8]) == n
      && f[8..8 + n] == s.payload
      && FromBigEndian(f[8 + n..]) == Crc32(f[..8 + n])
  {
    if |s.payload| >= 0x1_0000 then Err(Overflow)
    else
      var n := |s.payload|;
      var body := U16Bytes(s.seqNum) + U16Bytes(s.ackNum) + U16Bytes(s.winSize) + U16Bytes(n) + s.payload;
      SelectiveRepeatLayout(U16Bytes(s.seqNum), U16Bytes(s.ackNum), U16Bytes(s.winSize), U16Bytes(n), s.payload);
      var f := Sealed(body);
      SliceWithin(f, body, 0, 2);
      SliceWithin(f, body, 2, 4);
      SliceWithin(f, body, 4, 6);
      SliceWithin(f, body, 6, 8);
      SliceWithin(f, body, 8, 8 + n);
      Ok(f)
  }

  /** The fields of a Selective Repeat body: four two-byte fields, then the
      payload. */
  lemma SelectiveRepeatLayout(a: seq<byte>, b: seq<byte>, c: seq<byte>, d: seq<byte>, payload: seq<byte>)
    requires |a| == 2 && |b| == 2 && |c| == 2 && |d| == 2
    ensures var f := a + b + c + d + payload;
      && |f| == 8 + |payload| && f[0..2] == a && f[2..4] == b && f[4..6] == c && f[6..8] == d
      && f[8..8 + |payload|] == payload
  {
    var f := a + b + c + d + payload;
    assert f[0..2] == a && f[2..4] == b && f[4..6] == c && f[6..8] == d;
    assert f[8..8 + |payload|] == payload;
  }

  /** Fails on buffers under 12 bytes, on buffers shorter than the declared
      payload plus four CRC bytes, and when the CRC, read big-endian from ALL
      the remaining bytes, does not match. */
  function DeserializeSelectiveRepeat(data: seq<byte>): (r: Result<SelectiveRepeatSegment, CodecError>)
    ensures |data| < 12 ==> r == Err(PacketTooShort)
    ensures 12 <= |data| < 12 + FromBigEndian(data[6..8]) ==> r == Err(IncompletePacket)
    ensures r.Ok? ==>
      var n := |r.value.payload|;
      && |data| >= 12 + n
      && FromBigEndian(data[0..2]) == r.value.seqNum && FromBigEndian(data[2..4]) == r.value.ackNum
      && FromBigEndian(data[4..6]) == r.value.winSize && FromBigEndian(data[6..8]) == n
      && r.value.payload == data[8..8 + n]
      && FromBigEndian(data[8 + n..]) == Crc32(data[..8 + n])
  {
    if |data| < 12 then Err(PacketTooShort)
    else
      var seqNum, ackNum, winSize := FromBigEndian(data[0..2]), FromBigEndian(data[2..4]), FromBigEndian(data[4..6]);
      var n := FromBigEndian(data[6..8]);
      if |data| < 8 + n + 4 then Err(IncompletePacket)
      else
        var crcReceived := FromBigEndian(data[8 + n..]);
        if Crc32(data[..8 + n]) != crcReceived then Err(CrcMismatch)
        else
          var s := NewSelectiveRepeatSegment(data[8..8 + n], seqNum, ackNum, winSize);
          SelectiveRepeatFields(data, n, s);
          Ok(s)
  }

  lemma SelectiveRepeatFields(data: seq<byte>, n: nat, s: SelectiveRepeatSegment)
    requires |data| >= 12 + n && n == FromBigEndian(data[6..8])
    requires s == NewSelectiveRepeatSegment(data[8..8 + n], FromBigEndian(data[0..2]), FromBigEndian(data[2..4]), FromBigEndian(data[4..6]))
    ensures |s.payload| == n
    ensures FromBigEndian(data[0..2]) == s.seqNum && FromBigEndian(data[2..4]) == s.ackNum
    ensures FromBigEndian(data[4..6]) == s.winSize
  {
    U16Range(data[0..2]);
    U16Range(data[2..4]);
    U16Range(data[4..6]);
  }

  /** Deserializing a serialized Selective-Repeat segment gives back all four
      fields. */
  lemma SelectiveRepeatRoundTrip(s: SelectiveRepeatSegment)
    requires |s.payload| < 0x1_0000
    ensures SerializeSelectiveRepeat(s).Ok?
    ensures DeserializeSelectiveRepeat(SerializeSelectiveRepeat(s).value) == Ok(s)
  {
  }

  /** The Selective-Repeat deserializer on a buffer whose length field is n
      and that is long enough for it. */
  lemma SelectiveRepeatDecode(d: seq<byte>, n: nat)
    requires |d| >= 12 + n && FromBigEndian(d[6..8]) == n
    ensures DeserializeSelectiveRepeat(d) ==
      if Crc32(d[..8 + n]) == FromBigEndian(d[8 + n..])
      then Ok(NewSelectiveRepeatSegment(d[8..8 + n], FromBigEndian(d[0..2]), FromBigEndian(d[2..4]), FromBigEndian(d[4..6])))
      else Err(CrcMismatch)
  {
    assert |d| >= 8 + n + 4;
    if Crc32(d[..8 + n]) != FromBigEndian(d[8 + n..]) {
      assert DeserializeSelectiveRepeat(d) == Err(CrcMismatch);
    }
  }

  /** Bytes appended to a Selective-Repeat frame make it fail, unless the CRC
      and the extra bytes are all zero. */
  lemma SelectiveRepeatRejectsTrailingBytes(s: SelectiveRepeatSegment, extra: seq<byte>)
    requires |s.payload| < 0x1_0000 && |extra| > 0
    ensures
      var f := SerializeSelectiveRepeat(s).value;
      var crc := Crc32(f[..|f| - 4]);
      DeserializeSelectiveRepeat(f + extra) == if crc == 0 && FromBigEndian(extra) == 0 then Ok(s) else Err(CrcMismatch)
  {
    var f := SerializeSelectiveRepeat(s).value;
    var n := |s.payload|;
    var k := 8 + n;
    var d := f + extra;
    SliceOfAppend(f, extra, k);
    SameSlice(d, f, k, 0, 2);
    SameSlice(d, f, k, 2, 4);
    SameSlice(d, f, k, 4, 6);
    SameSlice(d, f, k, 6, 8);
    SameSlice(d, f, k, 8, k);
    var crc, trailer := Crc32(f[..k]), f[k..];
    assert |trailer| == 4 && FromBigEndian(trailer) == crc;
    TrailerWithExtra(crc, trailer, extra);
    SelectiveRepeatDecode(d, n);
    SelectiveRepeatDecode(f, n);
    SelectiveRepeatRoundTrip(s);
  }

  /** A Selective-Repeat frame whose four CRC bytes were replaced by any other
      four bytes is rejected as a CRC mismatch. */
  lemma SelectiveRepeatRejectsDamagedCrc(s: SelectiveRepeatSegment, t: seq<byte>)
    requires |s.payload| < 0x1_0000 && |t| == 4
    requires t != SerializeSelectiveRepeat(s).value[8 + |s.payload|..]
    ensures DeserializeSelectiveRepeat(SerializeSelectiveRepeat(s).value[..8 + |s.payload|] + t) == Err(CrcMismatch)
  {
    SelectiveRepeatTrailerDamaged(SerializeSelectiveRepeat(s).value, |s.payload|, t);
  }

  lemma SelectiveRepeatTrailerDamaged(f: seq<byte>, n: nat, t: seq<byte>)
    requires |f| == 12 + n && FromBigEndian(f[6..8]) == n && FromBigEndian(f[8 + n..]) == Crc32(f[..8 + n])
    requires |t| == 4 && t != f[8 + n..]
    ensures DeserializeSelectiveRepeat(f[..8 + n] + t) == Err(CrcMismatch)
  {
    var k := 8 + n;
    var d := f[..k] + t;
    assert d[..k] == f[..k];
    SameSlice(d, f, k, 6, 8);
    assert d[k..] == t;
    TrailersDiffer(t, f[k..]);
    SelectiveRepeatDecode(d, n);
  }
}

/** The older Stop-and-Wait frame of lib/utils/packets.py, written with
    `struct.pack`: a flags byte (seq, ACK/NAK, ack), a `!H` payload length, the
    payload, and a `!I` CRC-32 of everything before it. */
module Packets {
  import opened Wire
  import opened Crc
  import opened Segments

  datatype StopAndWaitPacket = StopAndWaitPacket(payload: seq<byte>, seqNum: bit, ackNak: bit, ackNum: bit)

  /** The constructor keeps the payload and only the low bit of each flag. */
  function NewStopAndWaitPacket(payload: seq<byte>, seqNum: int, ackNak: int, ackNum: int): (p: StopAndWaitPacket)
    ensures p.payload == payload
    ensures (seqNum - p.seqNum) % 2 == 0 && (ackNak - p.ackNak) % 2 == 0 && (ackNum - p.ackNum) % 2 == 0
  {
    StopAndWaitPacket(payload, LowBit(seqNum), LowBit(ackNak), LowBit(ackNum))
  }

  /** `seq_num << 2 | ack_nak << 1 | ack_num`. */
  function PacketHeader(p: StopAndWaitPacket): (h: byte)
    ensures h < 8
    ensures (h / 4) % 2 == p.seqNum && (h / 2) % 2 == p.ackNak && h % 2 == p.ackNum
  {
    p.seqNum * 4 + p.ackNak * 2 + p.ackNum
  }

  /** `struct.pack("!H", len(payload))` raises `struct.error` from 65536 bytes on. */
  function SerializePacket(p: StopAndWaitPacket): (r: Result<seq<byte>, CodecError>)
    ensures r.Ok? <==> |p.payload| < 0x1_0000
    ensures r.Err? ==> r.error == StructError
    ensures r.Ok? ==>
      var f, n := r.value, |p.payload|;
      && |f| == 7 + n
      && f[0] == PacketHeader(p)
      && FromBigEndian(f[1..3]) == n
      && f[3..3 + n] == p.payload
      && FromBigEndian(f[3 + n..]) == Crc32(f[..3 + n])
  {
    if |p.payload| >= 0x1_0000 then Err(StructError)
    else
      LengthFramedLayout(PacketHeader(p), p.payload);
      Ok(LengthFramed(PacketHeader(p), p.payload))
  }

  /** Fails on buffers under 7 bytes. The CRC is unpacked with `!I` from all
      bytes after the declared payload, which raises unless exactly four are
      left, so only buffers of exactly 7 + payload length bytes can succeed; the
      CRC is then checked over all but the last four bytes. */
  function DeserializePacket(data: seq<byte>): (r: Result<StopAndWaitPacket, CodecError>)
    ensures |data| < 7 ==> r == Err(PacketTooShort)
    ensures |data| >= 7 && |data| != 7 + FromBigEndian(data[1..3]) ==> r == Err(StructError)
    ensures r.Ok? ==>
      && |data| == 7 + |r.value.payload|
      && FromBigEndian(data[1..3]) == |r.value.payload|
      && PacketHeader(r.value) == data[0] % 8
      && r.value.payload == data[3..|data| - 4]
      && FromBigEndian(data[|data| - 4..]) == Crc32(data[..|data| - 4])
  {
    if |data| < 7 then Err(PacketTooShort)
    else
      var header := data[0];
      var n := FromBigEndian(data[1..3]);
      // `data[3 + n:]` is empty when 3 + n runs past the end
      var left := if 3 + n <= |data| then |data| - (3 + n) else 0;
      if left != 4 then Err(StructError)
      else
        var crcReceived := FromBigEndian(data[3 + n..]);
        if Crc32(data[..|data| - 4]) != crcReceived then Err(CrcMismatch)
        else
          var p := NewStopAndWaitPacket(data[3..3 + n], header / 4, header / 2, header);
          PacketHeaderBits(header, p);
          Ok(p)
  }

  /** The packet deserializer on a buffer of exactly 7 + its declared length:
      the packet of its header bits and payload exactly when the CRC over all
      but the last four bytes matches them, a CRC mismatch otherwise. */
  lemma PacketDecode(data: seq<byte>)
    requires |data| >= 7 && |data| == 7 + FromBigEndian(data[1..3])
    ensures DeserializePacket(data) ==
      if Crc32(data[..|data| - 4]) == FromBigEndian(data[|data| - 4..])
      then Ok(NewStopAndWaitPacket(data[3..|data| - 4], data[0] / 4, data[0] / 2, data[0]))
      else Err(CrcMismatch)
  {
    var n := FromBigEndian(data[1..3]);
    assert data[3 + n..] == data[|data| - 4..] && data[3..3 + n] == data[3..|data| - 4];
    if Crc32(data[..|data| - 4]) != FromBigEndian(data[|data| - 4..]) {
      assert DeserializePacket(data) == Err(CrcMismatch);
    }
  }

  /** An accepted buffer whose header has no padding bits set is the
      canonical frame of the packet it decodes to. */
  lemma PacketSerializeOfDeserialize(data: seq<byte>)
    requires DeserializePacket(data).Ok? && data[0] < 8
    ensures SerializePacket(DeserializePacket(data).value) == Ok(data)
  {
    CanonicalPacket(data, FromBigEndian(data[1..3]), DeserializePacket(data).value);
  }

  lemma CanonicalPacket(data: seq<byte>, n: nat, p: StopAndWaitPacket)
    requires |data| == 7 + n && n == FromBigEndian(data[1..3])
    requires p == NewStopAndWaitPacket(data[3..3 + n], data[0] / 4, data[0] / 2, data[0])
    requires Crc32(data[..3 + n]) == FromBigEndian(data[3 + n..])
    requires data[0] < 8
    ensures SerializePacket(p) == Ok(data)
  {
    PacketHeaderBits(data[0], p);
    WholeFrame(data, n);
    LengthFramedAt(data, n);
  }

  /** Deserializing a serialized packet gives back the same payload and the
      three flag bits. */
  lemma PacketRoundTrip(p: StopAndWaitPacket)
    requires |p.payload| < 0x1_0000
    ensures SerializePacket(p).Ok?
    ensures DeserializePacket(SerializePacket(p).value) == Ok(p)
  {
    var f, n := SerializePacket(p).value, |p.payload|;
    assert f[..|f| - 4] == f[..3 + n];
  }

  /** A serialized packet with any bytes appended no longer has exactly four
      bytes after the payload and is refused. */
  lemma PacketRejectsExtraBytes(p: StopAndWaitPacket, extra: seq<byte>)
    requires |p.payload| < 0x1_0000 && |extra| > 0
    ensures DeserializePacket(SerializePacket(p).value + extra) == Err(StructError)
  {
    ExtendedFrameRejected(SerializePacket(p).value, |p.payload|, extra);
  }

  /** A serialized packet with one to four bytes cut off its end is refused:
      as too short when fewer than seven bytes remain, otherwise because fewer
      than four bytes follow the payload. */
  lemma PacketRejectsCutBytes(p: StopAndWaitPacket, cut: nat)
    requires |p.payload| < 0x1_0000 && 0 < cut <= 4
    ensures DeserializePacket(SerializePacket(p).value[..7 + |p.payload| - cut]) ==
      if |p.payload| < cut then Err(PacketTooShort) else Err(StructError)
  {
    CutFrameRejected(SerializePacket(p).value, |p.payload|, cut);
  }

  lemma ExtendedFrameRejected(f: seq<byte>, n: nat, extra: seq<byte>)
    requires |f| == 7 + n && FromBigEndian(f[1..3]) == n && |extra| > 0
    ensures DeserializePacket(f + extra) == Err(StructError)
  {
    var longer := f + extra;
    assert longer[..|f|] == f;
    SameSlice(longer, f, |f|, 1, 3);
  }

  lemma CutFrameRejected(f: seq<byte>, n: nat, cut: nat)
    requires |f| == 7 + n && FromBigEndian(f[1..3]) == n && 0 < cut <= 4
    ensures DeserializePacket(f[..7 + n - cut]) == if n < cut then Err(PacketTooShort) else Err(StructError)
  {
    var shorter := f[..7 + n - cut];
    if |shorter| >= 7 {
      SameSlice(shorter, f, |shorter|, 1, 3);
    }
  }

  /** A packet whose four CRC bytes were replaced by any other four bytes is
      rejected as a CRC mismatch. */
  lemma PacketRejectsDamagedCrc(p: StopAndWaitPacket, t: seq<byte>)
    requires |p.payload| < 0x1_0000 && |t| == 4
    requires t != SerializePacket(p).value[3 + |p.payload|..]
    ensures DeserializePacket(SerializePacket(p).value[..3 + |p.payload|] + t) == Err(CrcMismatch)
  {
    PacketTrailerDamaged(SerializePacket(p).value, |p.payload|, t);
  }

  lemma PacketTrailerDamaged(f: seq<byte>, n: nat, t: seq<byte>)
    requires |f| == 7 + n && FromBigEndian(f[1..3]) == n && FromBigEndian(f[3 + n..]) == Crc32(f[..3 + n])
    requires |t| == 4 && t != f[3 + n..]
    ensures DeserializePacket(f[..3 + n] + t) == Err(CrcMismatch)
  {
    var d := f[..3 + n] + t;
    assert d[..3 + n] == f[..3 + n];
    SameSlice(d, f, 3 + n, 1, 3);
    assert d[..|d| - 4] == f[..3 + n];
    assert d[3 + n..] == t;
    TrailersDiffer(t, f[3 + n..]);
  }

  lemma PacketHeaderBits(h: byte, p: StopAndWaitPacket)
    requires p.seqNum == LowBit(h / 4) && p.ackNak == LowBit(h / 2) && p.ackNum == LowBit(h)
    ensures PacketHeader(p) == h % 8
  {
    FlagBits(h);
  }
}

/** The CRC-32 that every frame carries as its trailer: `zlib.crc32(b) & 0xFFFFFFFF`,
    the reflected CRC with polynomial 0xEDB88320, initial value and final
    xor 0xFFFFFFFF, updated a byte at a time through eight
    register shifts. The framing proofs never look inside
    it: they hold for any function with these arguments and range. */
module Crc {
  import opened Wire

  const POLYNOMIAL: bv32 := 0xEDB8_8320

  function ShiftBit(c: bv32): bv32
  {
    if c & 1 == 1 then (c >> 1) ^ POLYNOMIAL else c >> 1
  }

  function ShiftBits(c: bv32, k: nat): bv32
    decreases k
  {
    if k == 0 then c else ShiftBits(ShiftBit(c), k - 1)
  }

  function UpdateByte(c: bv32, b: byte): bv32
  {
    ShiftBits(c ^ (b as bv32), 8)
  }

  /** The register after the bytes of `s` from index `i` on. */
  function Update(c: bv32, s: seq<byte>, i: nat): bv32
    requires i <= |s|
    decreases |s| - i
  {
    if i == |s| then c else Update(UpdateByte(c, s[i]), s, i + 1)
  }

  /** The checksum as a non-negative Python int below 2^32. */
  function Crc32(s: seq<byte>): (r: nat)
    ensures r < 0x1_0000_0000
  {
    (Update(0xFFFF_FFFF, s, 0) ^ 0xFFFF_FFFF) as nat
  }

  /** A frame body followed by the `!I` big-endian CRC-32 of it, the trailer
      every frame of the protocol ends with. */
  function Sealed(body: seq<byte>): (f: seq<byte>)
    ensures |f| == |body| + 4 && f[..|body|] == body && FromBigEndian(f[|body|..]) == Crc32(body)
  {
    var f := body + U32Bytes(Crc32(body));
    assert f[..|body|] == body;
    assert f[|body|..] == U32Bytes(Crc32(body));
    f
  }

  /** The frame of a one-byte header, a two-byte big-endian payload length
      and the payload, sealed with its CRC: the layout of both Stop-and-Wait
      frame kinds. */
  function LengthFramed(h: byte, payload: seq<byte>): seq<byte>
    requires |payload| < 0x1_0000
  {
    Sealed([h] + U16Bytes(|payload|) + payload)
  }

  /** The fields of a length-framed buffer, as a reader finds them. */
  lemma LengthFramedLayout(h: byte, payload: seq<byte>)
    requires |payload| < 0x1_0000
    ensures var f, n := LengthFramed(h, payload), |payload|;
      && |f| == 7 + n && f[0] == h
      && FromBigEndian(f[1..3]) == n && f[3..3 + n] == payload
      && FromBigEndian(f[3 + n..]) == Crc32(f[..3 + n])
  {
    var n := |payload|;
    var body := [h] + U16Bytes(n) + payload;
    HeaderLayout(h, U16Bytes(n), payload);
    var f := Sealed(body);
    SliceWithin(f, body, 1, 3);
    SliceWithin(f, body, 3, 3 + n);
    assert body[3..3 + n] == body[3..];
    assert f[0] == f[..3 + n][0];
  }

  /** A header byte, a two-byte length field holding the payload's length,
      the payload and a trailer holding the CRC of all three are exactly the
      frame rebuilt from the header byte and the payload. */
  lemma LengthFramedOf(h: byte, len: seq<byte>, payload: seq<byte>, trailer: seq<byte>)
    requires |len| == 2 && FromBigEndian(len) == |payload|
    requires |trailer| == 4 && FromBigEndian(trailer) == Crc32([h] + len + payload)
    ensures |payload| < 0x1_0000 && LengthFramed(h, payload) == [h] + len + payload + trailer
  {
    U16BytesOfFromBigEndian(len);
    U32BytesOfFromBigEndian(trailer);
  }

  /** A buffer that starts with a length-framed frame (a length field n, n
      payload bytes and the CRC of both after them) starts with exactly the
      frame rebuilt from its header byte and payload. */
  lemma LengthFramedAt(data: seq<byte>, n: nat)
    requires |data| >= 7 + n && FromBigEndian(data[1..3]) == n
    requires Crc32(data[..3 + n]) == FromBigEndian(data[3 + n..7 + n])
    ensures n < 0x1_0000 && LengthFramed(data[0], data[3..3 + n]) == data[..7 + n]
  {
    FrameParts(data, n);
    LengthFramedOf(data[0], data[1..3], data[3..3 + n], data[3 + n..7 + n]);
  }

  /** A buffer whose four bytes after offset k are the CRC of the k bytes
      before them starts with the sealed frame of those k bytes. */
  lemma SealedPrefix(data: seq<byte>, k: nat)
    requires k + 4 <= |data| && FromBigEndian(data[k..k + 4]) == Crc32(data[..k])
    ensures Sealed(data[..k]) == data[..k + 4]
  {
    U32BytesOfFromBigEndian(data[k..k + 4]);
    assert data[..k + 4] == data[..k] + data[k..k + 4];
  }
}

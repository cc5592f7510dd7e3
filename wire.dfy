/** Bytes, big-endian integers, addresses and datagrams shared by every layer.
    Python's `bytes` are modelled as `seq<byte>`, where a byte is the int that
    indexing a `bytes` object yields. */
module Wire {

  type byte = b: int | 0 <= b < 256

  /** The peer of a UDP socket: Python's `(host, port)` tuple. */
  datatype Addr = Addr(host: string, port: int)

  /** One `socket.sendto(bytes, addr)` call, as recorded in an output log. */
  datatype Datagram = Datagram(bytes: seq<byte>, to: Addr)

  /** Why a codec call raised: the `ValueError` messages of the deserializers,
      `OverflowError` from `int.to_bytes`, `IndexError` from indexing past the
      end of a buffer, and `struct.error` from unpacking the wrong number of bytes. */
  datatype CodecError =
    | PacketTooShort
    | IncompletePacket
    | CrcMismatch
    | Overflow
    | IndexError
    | StructError

  datatype Option<T> = None | Some(value: T)

  /** The outcome of Python code that either returns a value or raises. */
  datatype Result<T, E> = Ok(value: T) | Err(error: E)

  function Pow256(k: nat): (r: nat)
    ensures r >= 1
  {
    if k == 0 then 1 else 256 * Pow256(k - 1)
  }

  /** `int.from_bytes(s, byteorder="big")`: the value of all of `s`, most
      significant byte first. */
  function FromBigEndian(s: seq<byte>): (r: nat)
    ensures r < Pow256(|s|)
  {
    if |s| == 0 then 0 else FromBigEndian(s[..|s| - 1]) * 256 + s[|s| - 1]
  }

  /** `n.to_bytes(2, byteorder="big")` for an `n` that fits. */
  function U16Bytes(n: nat): (r: seq<byte>)
    requires n < 0x1_0000
    ensures |r| == 2 && FromBigEndian(r) == n
  {
    var r := [n / 256, n % 256];
    assert r[..1] == [n / 256];
    r
  }

  /** `n.to_bytes(4, byteorder="big")` (and `struct.pack("!I", n)`) for an `n` that fits. */
  function U32Bytes(n: nat): (r: seq<byte>)
    requires n < 0x1_0000_0000
    ensures |r| == 4 && FromBigEndian(r) == n
  {
    var hi, lo := U16Bytes(n / 0x1_0000), U16Bytes(n % 0x1_0000);
    FromBigEndianAppend(hi, lo);
    hi + lo
  }

  /** Reading a concatenation big-endian shifts the first part left by the
      width of the second. */
  lemma {:induction false} FromBigEndianAppend(a: seq<byte>, b: seq<byte>)
    ensures FromBigEndian(a + b) == FromBigEndian(a) * Pow256(|b|) + FromBigEndian(b)
  {
    if |b| == 0 {
      assert a + b == a;
    } else {
      var b' := b[..|b| - 1];
      assert (a + b)[..|a + b| - 1] == a + b';
      FromBigEndianAppend(a, b');
      var x, y, z, w := FromBigEndian(a), Pow256(|b'|), FromBigEndian(b'), b[|b| - 1];
      assert FromBigEndian(a + b) == FromBigEndian(a + b') * 256 + w;
      assert FromBigEndian(b) == z * 256 + w;
      assert Pow256(|b|) == 256 * y;
      ShiftDistributes(x, y, z);
    }
  }

  lemma ShiftDistributes(x: nat, y: nat, z: nat)
    ensures (x * y + z) * 256 == x * (256 * y) + z * 256
  {
  }

  /** Two bytes read big-endian are a 16-bit value. */
  lemma U16Range(s: seq<byte>)
    requires |s| == 2
    ensures FromBigEndian(s) < 0x1_0000
  {
    assert Pow256(2) == 0x1_0000;
  }

  /** Two bytes read big-endian and written back are the same two bytes. */
  lemma U16BytesOfFromBigEndian(s: seq<byte>)
    requires |s| == 2
    ensures FromBigEndian(s) < 0x1_0000 && U16Bytes(FromBigEndian(s)) == s
  {
    assert s[..1][..0] == [];
  }

  /** Four bytes read big-endian and written back are the same four bytes. */
  lemma U32BytesOfFromBigEndian(s: seq<byte>)
    requires |s| == 4
    ensures FromBigEndian(s) < 0x1_0000_0000 && U32Bytes(FromBigEndian(s)) == s
  {
    var hi, lo := s[..2], s[2..];
    assert s == hi + lo;
    FromBigEndianAppend(hi, lo);
    U16BytesOfFromBigEndian(hi);
    U16BytesOfFromBigEndian(lo);
    assert Pow256(2) == 0x1_0000;
    HalvesOf32(FromBigEndian(hi), FromBigEndian(lo));
  }

  /** A 32-bit value made of two 16-bit halves splits back into them. */
  lemma HalvesOf32(hi: nat, lo: nat)
    requires hi < 0x1_0000 && lo < 0x1_0000
    ensures (hi * 0x1_0000 + lo) / 0x1_0000 == hi && (hi * 0x1_0000 + lo) % 0x1_0000 == lo
    ensures hi * 0x1_0000 + lo < 0x1_0000_0000
  {
  }

  /** Two different 4-byte trailers read as different numbers. */
  lemma TrailersDiffer(a: seq<byte>, b: seq<byte>)
    requires |a| == 4 && |b| == 4 && a != b
    ensures FromBigEndian(a) != FromBigEndian(b)
  {
    U32BytesOfFromBigEndian(a);
    U32BytesOfFromBigEndian(b);
  }

  /** A big-endian reading is zero exactly when every byte is zero. */
  lemma {:induction false} FromBigEndianZero(s: seq<byte>)
    ensures FromBigEndian(s) == 0 <==> forall i :: 0 <= i < |s| ==> s[i] == 0
  {
    if |s| > 0 {
      FromBigEndianZero(s[..|s| - 1]);
      assert forall i :: 0 <= i < |s| - 1 ==> s[..|s| - 1][i] == s[i];
    }
  }

  /** The fields of a buffer made of a one-byte header, a two-byte length
      and a payload. */
  lemma HeaderLayout(h: byte, len: seq<byte>, payload: seq<byte>)
    requires |len| == 2
    ensures var b := [h] + len + payload;
      |b| == 3 + |payload| && b[0] == h && b[1..3] == len && b[3..] == payload
  {
    var b := [h] + len + payload;
    assert b[1..3] == len;
    assert b[3..] == payload;
  }

  /** Slices of a buffer inside a prefix it starts with are slices of that
      prefix. */
  lemma SliceWithin(f: seq<byte>, body: seq<byte>, i: nat, j: nat)
    requires |body| <= |f| && f[..|body|] == body && i <= j <= |body|
    ensures f[i..j] == body[i..j]
  {
    forall k | 0 <= k < j - i
      ensures f[i..j][k] == body[i..j][k]
    {
      assert f[i + k] == f[..|body|][i + k];
    }
  }

  /** Two buffers that agree on their first k bytes agree on every slice
      inside them. */
  lemma SameSlice(d: seq<byte>, f: seq<byte>, k: nat, i: nat, j: nat)
    requires i <= j <= k <= |d| && k <= |f| && d[..k] == f[..k]
    ensures d[i..j] == f[i..j]
  {
    assert d[i..j] == d[..k][i..j];
    assert f[i..j] == f[..k][i..j];
  }

  /** A buffer of at least 7 + n bytes starts with its header byte, its
      two-byte length field, n payload bytes and a four-byte trailer. */
  lemma FrameParts(data: seq<byte>, n: nat)
    requires |data| >= 7 + n
    ensures data[..3 + n] == [data[0]] + data[1..3] + data[3..3 + n]
    ensures data[..7 + n] == [data[0]] + data[1..3] + data[3..3 + n] + data[3 + n..7 + n]
  {
    var body := [data[0]] + data[1..3] + data[3..3 + n];
    assert data[..3 + n] == body by {
      forall k | 0 <= k < 3 + n ensures data[k] == body[k] {
        if 1 <= k < 3 { assert data[k] == data[1..3][k - 1]; }
        else if 3 <= k { assert data[k] == data[3..3 + n][k - 3]; }
      }
    }
    assert data[..7 + n] == data[..3 + n] + data[3 + n..7 + n];
  }

  /** In a buffer of exactly 7 + n bytes the trailer is everything after the
      payload, and the first 7 + n bytes are the whole buffer. */
  lemma WholeFrame(data: seq<byte>, n: nat)
    requires |data| == 7 + n
    ensures data[3 + n..7 + n] == data[3 + n..] && data[..7 + n] == data
  {
  }

  /** The bytes of a string of ASCII characters (`str.encode()` on ASCII text). */
  function Ascii(s: string): (r: seq<byte>)
    requires forall i :: 0 <= i < |s| ==> s[i] < 128 as char
    ensures |r| == |s| && forall i :: 0 <= i < |s| ==> r[i] == s[i] as int
  {
    seq(|s|, i requires 0 <= i < |s| => s[i] as int)
  }
}

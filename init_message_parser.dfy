/** The INIT message of lib/utils/init_message_parser.py: one byte of opcode
    (1 download, 2 upload), one byte of protocol (1 Stop-and-Wait, 2
    Selective-Repeat), a length-prefixed file name used by uploads, a
    length-prefixed path used by downloads, and a big-endian CRC-32 of all the
    preceding bytes. Parsing walks a cursor over the buffer; building appends
    to a byte array. Both are methods here, each proved equal to a function
    that states the format without the cursor. */
module InitMessageParser {
  import opened Wire
  import opened Crc

  const OPCODE_DOWNLOAD: byte := 1
  const OPCODE_UPLOAD: byte := 2
  const PROTOCOL_SW: byte := 1
  const PROTOCOL_SR: byte := 2

  /** What a valid INIT message yields. The protocol handler that `parse` also
      builds is not part of this model. */
  datatype ConnectionInfo = ConnectionInfo(isDownload: bool, protocol: string, filePath: seq<byte>)

  /** The configuration `create_init_message` reads; the path is already
      UTF-8 encoded. */
  datatype TransferConfig = TransferConfig(isDownload: bool, protocol: string, filePath: seq<byte>)

  /** Each `ValueError` that `parse` raises and then returns as `(False, str(e))`. */
  datatype ParseError =
    | MessageTooShort
    | InvalidOpcode(opcode: byte)
    | InvalidProtocol(protocol: byte)
    | TruncatedDownloadPath
    | TruncatedUploadFilename
    | DownloadFileNotFound(path: seq<byte>)
    | Crc32Mismatch(expected: nat, actual: nat)
    | HandlerTypeError

  /** `bytearray` refuses a length that is not a byte. */
  datatype CreateError = ByteOutOfRange

  /** The protocol name `parse` reports for a protocol byte already known to be 1 or 2. */
  function ProtocolName(protocol: byte): string
  {
    if protocol == PROTOCOL_SW then "sw" else "sr"
  }

  /** Whether a download message of first-field length p leaves room for
      its path: the cursor check `3 + p >= len - 5` wants more than the length
      byte and the CRC after the first field, and the path of length q and
      the CRC must fit after the length byte. */
  predicate DownloadFits(data: seq<byte>, p: byte)
  {
    3 + p as int < |data| - 5 && 8 + p as int + data[3 + p] as int <= |data|
  }

  /** Whether an upload message of first-field length p holds its name and
      four more bytes. */
  predicate UploadFits(data: seq<byte>, p: byte)
  {
    7 + p as int <= |data|
  }

  /** A download message: the path sits in the second field, after an
      (ignored) first field of length p. */
  function DownloadPath(data: seq<byte>, p: byte, files: set<seq<byte>>): (r: Result<seq<byte>, ParseError>)
    requires |data| >= 7
    ensures r == Err(TruncatedDownloadPath) <==> !DownloadFits(data, p)
    ensures DownloadFits(data, p) ==>
      var path := data[4 + p as int..4 + p as int + data[3 + p] as int];
      r == if path in files then Ok(path) else Err(DownloadFileNotFound(path))
  {
    if 3 + p >= |data| - 5 then Err(TruncatedDownloadPath)
    else
      var q := data[3 + p];
      if 4 + p + q + 4 > |data| then Err(TruncatedDownloadPath)
      else
        var path := data[4 + p..4 + p + q];
        if path !in files then Err(DownloadFileNotFound(path)) else Ok(path)
  }

  /** An upload message: the file name sits in the first field. */
  function UploadName(data: seq<byte>, p: byte): (r: Result<seq<byte>, ParseError>)
    requires |data| >= 7
    ensures r == Err(TruncatedUploadFilename) <==> !UploadFits(data, p)
    ensures UploadFits(data, p) ==> r == Ok(data[3..3 + p as int])
  {
    if 3 + p + 4 > |data| then Err(TruncatedUploadFilename) else Ok(data[3..3 + p])
  }

  /** The message format `parse` accepts. `files` is the set of paths that
      exist on the server. The CRC is always the last four bytes, whatever the
      length fields say. */
  function ParseSpec(data: seq<byte>, files: set<seq<byte>>): (r: Result<ConnectionInfo, ParseError>)
    ensures |data| < 7 ==> r == Err(MessageTooShort)
    ensures |data| >= 7 && data[0] != OPCODE_DOWNLOAD && data[0] != OPCODE_UPLOAD ==> r == Err(InvalidOpcode(data[0]))
    ensures |data| >= 7 && (data[0] == OPCODE_DOWNLOAD || data[0] == OPCODE_UPLOAD) && data[1] != PROTOCOL_SW && data[1] != PROTOCOL_SR
      ==> r == Err(InvalidProtocol(data[1]))
    ensures r.Ok? ==>
      && |data| >= 7
      && r.value.isDownload == (data[0] == OPCODE_DOWNLOAD)
      && (r.value.protocol == "sw" <==> data[1] == PROTOCOL_SW)
      && (r.value.protocol == "sr" <==> data[1] == PROTOCOL_SR)
      && Crc32(data[..|data| - 4]) == FromBigEndian(data[|data| - 4..])
      && (r.value.isDownload ==>
            DownloadFits(data, data[2]) && r.value.filePath in files
            && r.value.filePath == data[4 + data[2] as int..4 + data[2] as int + data[3 + data[2]] as int])
      && (!r.value.isDownload ==> UploadFits(data, data[2]) && r.value.filePath == data[3..3 + data[2] as int])
    ensures |data| >= 7 && data[0] == OPCODE_DOWNLOAD && (data[1] == PROTOCOL_SW || data[1] == PROTOCOL_SR)
      ==> (r == Err(TruncatedDownloadPath) <==> !DownloadFits(data, data[2]))
    ensures |data| >= 7 && data[0] == OPCODE_UPLOAD && (data[1] == PROTOCOL_SW || data[1] == PROTOCOL_SR)
      ==> (r == Err(TruncatedUploadFilename) <==> !UploadFits(data, data[2]))
  {
    if |data| < 7 then Err(MessageTooShort)
    else if data[0] != OPCODE_DOWNLOAD && data[0] != OPCODE_UPLOAD then Err(InvalidOpcode(data[0]))
    else if data[1] != PROTOCOL_SW && data[1] != PROTOCOL_SR then Err(InvalidProtocol(data[1]))
    else
      var isDownload := data[0] == OPCODE_DOWNLOAD;
      var path := if isDownload then DownloadPath(data, data[2], files) else UploadName(data, data[2]);
      if path.Err? then Err(path.error)
      else
        var expected, actual := FromBigEndian(data[|data| - 4..]), Crc32(data[..|data| - 4]);
        if expected != actual then Err(Crc32Mismatch(expected, actual))
        else Ok(ConnectionInfo(isDownload, ProtocolName(data[1]), path.value))
  }

  /** `InitMessageParser.parse`: never raises, every failure is an `Err`. */
  method Parse(data: seq<byte>, files: set<seq<byte>>) returns (r: Result<ConnectionInfo, ParseError>)
    ensures r == ParseSpec(data, files)
  {
    if |data| < 7 {
      return Err(MessageTooShort);
    }
    var opcode, protocol, pathLengthP := data[0], data[1], data[2];
    var currentPos := 3;
    if opcode != OPCODE_DOWNLOAD && opcode != OPCODE_UPLOAD {
      return Err(InvalidOpcode(opcode));
    }
    if protocol != PROTOCOL_SW && protocol != PROTOCOL_SR {
      return Err(InvalidProtocol(protocol));
    }
    var protocolStr := if protocol == PROTOCOL_SW then "sw" else "sr";
    var isDownload := opcode == OPCODE_DOWNLOAD;
    var filePath := ReadFilePath(data, isDownload, pathLengthP, files);
    if filePath.Err? {
      return Err(filePath.error);
    }
    var expectedCrc := FromBigEndian(data[|data| - 4..]);
    var actualCrc := Crc32(data[..|data| - 4]);
    if expectedCrc != actualCrc {
      return Err(Crc32Mismatch(expectedCrc, actualCrc));
    }
    return Ok(ConnectionInfo(isDownload, protocolStr, filePath.value));
  }

  /** The cursor walk of `parse` over the two length-prefixed fields, from
      offset 3 on, ending with the field the direction selects. */
  method ReadFilePath(data: seq<byte>, isDownload: bool, pathLengthP: byte, files: set<seq<byte>>)
    returns (r: Result<seq<byte>, ParseError>)
    requires |data| >= 7
    ensures r == if isDownload then DownloadPath(data, pathLengthP, files) else UploadName(data, pathLengthP)
  {
    var currentPos := 3;
    var filePath: seq<byte>;
    if isDownload {
      currentPos := currentPos + pathLengthP;
      if currentPos >= |data| - 5 {
        return Err(TruncatedDownloadPath);
      }
      var pathLengthQ := data[currentPos];
      currentPos := currentPos + 1;
      if currentPos + pathLengthQ + 4 > |data| {
        return Err(TruncatedDownloadPath);
      }
      filePath := data[currentPos..currentPos + pathLengthQ];
      currentPos := currentPos + pathLengthQ;
      if filePath !in files {
        return Err(DownloadFileNotFound(filePath));
      }
    } else {
      if currentPos + pathLengthP + 4 > |data| {
        return Err(TruncatedUploadFilename);
      }
      filePath := data[currentPos..currentPos + pathLengthP];
      currentPos := currentPos + pathLengthP;
      var pathLengthQ := data[currentPos];
      currentPos := currentPos + pathLengthQ + 1;
    }
    return Ok(filePath);
  }

  /** The message `create_init_message` builds: opcode 1 for a download and 2
      for an upload, protocol 1 for "sw" and 2 for anything else; a download
      sends its path in the second field after an empty first field, an upload
      its name in the first field before an empty second field; then the CRC. */
  function InitMessage(c: TransferConfig): (r: Result<seq<byte>, CreateError>)
    ensures r.Ok? <==> |c.filePath| < 256
    ensures r.Ok? ==>
      var m, n := r.value, |c.filePath|;
      && |m| == 8 + n
      && m[0] == (if c.isDownload then OPCODE_DOWNLOAD else OPCODE_UPLOAD)
      && m[1] == (if c.protocol == "sw" then PROTOCOL_SW else PROTOCOL_SR)
      && (c.isDownload ==> m[2] == 0 && m[3] == n && m[4..4 + n] == c.filePath)
      && (!c.isDownload ==> m[2] == n && m[3..3 + n] == c.filePath && m[3 + n] == 0)
      && FromBigEndian(m[4 + n..]) == Crc32(m[..4 + n])
  {
    if |c.filePath| >= 256 then Err(ByteOutOfRange)
    else
      var opcode := if c.isDownload then OPCODE_DOWNLOAD else OPCODE_UPLOAD;
      var protocol := if c.protocol == "sw" then PROTOCOL_SW else PROTOCOL_SR;
      var name := if c.isDownload then [] else c.filePath;
      var path := if c.isDownload then c.filePath else [];
      var body := [opcode, protocol, |name|] + name + [|path|] + path;
      MessageLayout(opcode, protocol, name, path);
      var m := Sealed(body);
      SliceWithin(m, body, 3, 3 + |name|);
      SliceWithin(m, body, 4 + |name|, 4 + |name| + |path|);
      Ok(m)
  }

  /** The fields of an Init message body: opcode, protocol, name length,
      name, path length, path. */
  lemma MessageLayout(opcode: byte, protocol: byte, name: seq<byte>, path: seq<byte>)
    requires |name| < 256 && |path| < 256
    ensures var p, q, b := |name|, |path|, [opcode, protocol, |name|] + name + [|path|] + path;
      && |b| == 4 + p + q && b[0] == opcode && b[1] == protocol && b[2] == p
      && b[3..3 + p] == name && b[3 + p] == q && b[4 + p..4 + p + q] == path
  {
    var p, q, b := |name|, |path|, [opcode, protocol, |name|] + name + [|path|] + path;
    assert b[3..3 + p] == name;
    assert b[4 + p..4 + p + q] == path;
  }

  /** `InitMessageParser.create_init_message`, filling a byte array in place. */
  method CreateInitMessage(c: TransferConfig) returns (r: Result<seq<byte>, CreateError>)
    ensures r == InitMessage(c)
  {
    var opcode := if c.isDownload then OPCODE_DOWNLOAD else OPCODE_UPLOAD;
    var protocol := if c.protocol == "sw" then PROTOCOL_SW else PROTOCOL_SR;
    var filename: seq<byte>, path: seq<byte>;
    if c.isDownload {
      filename, path := [], c.filePath;
    } else {
      filename, path := c.filePath, [];
    }
    if |filename| >= 256 {
      return Err(ByteOutOfRange);
    }
    var message: seq<byte> := [opcode, protocol, |filename|];
    message := message + filename;
    if |path| >= 256 {
      return Err(ByteOutOfRange);
    }
    message := message + [|path|];
    message := message + path;
    var crc := Crc32(message);
    message := message + U32Bytes(crc);
    return Ok(message);
  }

  /** Parsing a created message gives back its direction, protocol name and
      path. An upload always succeeds; a download needs a non-empty path that
      exists. */
  lemma ParseOfInitMessage(c: TransferConfig, files: set<seq<byte>>)
    requires |c.filePath| < 256
    requires c.isDownload ==> c.filePath != [] && c.filePath in files
    ensures ParseSpec(InitMessage(c).value, files) ==
      Ok(ConnectionInfo(c.isDownload, if c.protocol == "sw" then "sw" else "sr", c.filePath))
  {
    var m, n := InitMessage(c).value, |c.filePath|;
    assert m[..|m| - 4] == m[..4 + n];
    assert m[|m| - 4..] == m[4 + n..];
  }

  /** `parse` as written. Once the message checks out, lines 99-105 build the
      protocol handler: for "sw" they call the Stop-and-Wait constructor with
      three arguments where lib/protocols/stop_and_wait.py:9 takes four, and
      the `TypeError` is caught at line 114 and returned as a failure. So only
      Selective-Repeat messages are accepted. */
  function ParseAsWritten(data: seq<byte>, files: set<seq<byte>>): (r: Result<ConnectionInfo, ParseError>)
    ensures r.Ok? ==> |data| >= 7 && data[1] == PROTOCOL_SR && r == ParseSpec(data, files)
    ensures r.Err? ==> r == ParseSpec(data, files) || (ParseSpec(data, files).Ok? && data[1] == PROTOCOL_SW && r == Err(HandlerTypeError))
  {
    match ParseSpec(data, files)
    case Err(e) => Err(e)
    case Ok(info) => if info.protocol == "sw" then Err(HandlerTypeError) else Ok(info)
  }

  /** As written, a well-formed Stop-and-Wait Init that the intended parser
      accepts is refused with the handler's `TypeError`. */
  lemma AsWrittenRefusesStopAndWait(c: TransferConfig, files: set<seq<byte>>)
    requires |c.filePath| < 256 && c.protocol == "sw"
    requires c.isDownload ==> c.filePath != [] && c.filePath in files
    ensures ParseSpec(InitMessage(c).value, files).Ok?
    ensures ParseAsWritten(InitMessage(c).value, files) == Err(HandlerTypeError)
  {
    ParseOfInitMessage(c, files);
  }

  /** A download of the empty path never parses: its cursor check fires
      although the length byte and the CRC fit. */
  lemma EmptyDownloadPathRejected(protocol: string, files: set<seq<byte>>)
    ensures ParseSpec(InitMessage(TransferConfig(true, protocol, [])).value, files) == Err(TruncatedDownloadPath)
  {
  }

  /** A download of a path that does not exist is refused with that path. */
  lemma MissingDownloadFileRejected(c: TransferConfig, files: set<seq<byte>>)
    requires c.isDownload && 0 < |c.filePath| < 256 && c.filePath !in files
    ensures ParseSpec(InitMessage(c).value, files) == Err(DownloadFileNotFound(c.filePath))
  {
  }

  /** A created message whose last four bytes were replaced by other bytes is
      refused with a CRC mismatch, whenever it would otherwise parse. */
  lemma DamagedInitMessageRejected(c: TransferConfig, files: set<seq<byte>>, t: seq<byte>)
    requires |c.filePath| < 256
    requires c.isDownload ==> c.filePath != [] && c.filePath in files
    requires |t| == 4 && t != InitMessage(c).value[4 + |c.filePath|..]
    ensures ParseSpec(InitMessage(c).value[..4 + |c.filePath|] + t, files).Err?
    ensures ParseSpec(InitMessage(c).value[..4 + |c.filePath|] + t, files).error.Crc32Mismatch?
  {
    var m, n := InitMessage(c).value, |c.filePath|;
    var d := m[..4 + n] + t;
    ParseOfInitMessage(c, files);
    assert d[..|d| - 4] == m[..|m| - 4];
    assert d[|d| - 4..] == t;
    assert m[|m| - 4..] == m[4 + n..];
    U32BytesOfFromBigEndian(t);
    U32BytesOfFromBigEndian(m[4 + n..]);
    OnlyCrcDiffers(m, d, files);
  }

  /** Two messages of one length that differ only in their last four bytes
      pass or fail every check before the CRC alike, so when the first parses
      and the CRC fields read differently the second fails on its CRC. */
  lemma OnlyCrcDiffers(a: seq<byte>, b: seq<byte>, files: set<seq<byte>>)
    requires |a| == |b| >= 7 && a[..|a| - 4] == b[..|b| - 4]
    requires ParseSpec(a, files).Ok? && FromBigEndian(a[|a| - 4..]) != FromBigEndian(b[|b| - 4..])
    ensures ParseSpec(b, files).Err? && ParseSpec(b, files).error.Crc32Mismatch?
  {
    PathFieldsAgree(a, b, files);
  }

  /** Two messages of one length that agree up to their last four bytes have
      the same header bytes and the same path field. */
  lemma PathFieldsAgree(a: seq<byte>, b: seq<byte>, files: set<seq<byte>>)
    requires |a| == |b| >= 7 && a[..|a| - 4] == b[..|b| - 4]
    ensures a[0] == b[0] && a[1] == b[1] && a[2] == b[2]
    ensures DownloadPath(a, a[2], files) == DownloadPath(b, a[2], files)
    ensures UploadName(a, a[2]) == UploadName(b, a[2])
  {
    var k := |a| - 4;
    assert a[0] == a[..k][0] && a[1] == a[..k][1] && a[2] == a[..k][2];
    assert b[0] == b[..k][0] && b[1] == b[..k][1] && b[2] == b[..k][2];
    var p := a[2];
    if 3 + p < |a| - 5 {
      assert a[3 + p] == a[..k][3 + p] && b[3 + p] == b[..k][3 + p];
      var q := a[3 + p];
      if 4 + p + q + 4 <= |a| {
        SameSlice(a, b, k, 4 + p, 4 + p + q);
      }
    }
    if 3 + p + 4 <= |a| {
      SameSlice(a, b, k, 3, 3 + p);
    }
  }
}

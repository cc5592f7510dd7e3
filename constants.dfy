/** The constants of lib/utils/constants.py the model uses, the `b"FIN"`
    literal that lib/client/downloader.py and lib/server/server_manager.py
    both write out, and the protocol codes lib/utils/static.py imports. `WRITE_MODE` and `READ_MODE` name file modes, which stay
    outside the model. */
module Constants {
  import opened Wire

  /** `BUFFER_SIZE`: the bytes read per slice and received per datagram. */
  const BUFFER_SIZE: nat := 1024

  /** `HEADER_SIZE`: flags byte, 2-byte length, 4-byte checksum. */
  const HEADER_SIZE: nat := 7

  /** `DATA_SIZE`: the largest payload of one Stop-and-Wait segment. */
  const DATA_SIZE: nat := BUFFER_SIZE - HEADER_SIZE

  /** `TIMEOUT` (0.5 s), in milliseconds. */
  const TIMEOUT: int := 500

  /** `MAX_ATTEMPTS`: sends of one segment, or timeouts in a row, before
      giving up. */
  const MAX_ATTEMPTS: nat := 10

  /** `b"FIN"`, the datagram that closes a connection. */
  const FIN: seq<byte> := [70, 73, 78]

  /** `STOP_AND_WAIT` and `SELECTIVE_REPEAT`, which lib/utils/static.py
      imports but lib/utils/constants.py does not define: the protocol
      codes, equal to the protocol bytes of the Init message. */
  const STOP_AND_WAIT: int := 1
  const SELECTIVE_REPEAT: int := 2
}

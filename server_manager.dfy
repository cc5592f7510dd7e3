/** The peer table of lib/server/server_manager.py. `process_message`
    handles one datagram from one peer against the table of open
    connections: `b"FIN"` closes the peer's entry, a datagram from an
    unknown peer must be an Init segment that opens one and is answered with
    an Init-ACK, and a datagram from a known peer goes to that peer's
    handler. Any exception is answered with a fixed error text. */
module ServerManager {
  import opened Wire
  import opened Segments
  import opened Constants

  /** What the server records for a peer: the Init segment the peer opened
      with. The protocol handler the record would carry is not modelled. */
  datatype Conn = Conn(init: InitSegment)

  /** A datagram passed to the handler of the peer it came from. */
  datatype Handed = Handed(peer: Addr, bytes: seq<byte>)

  /** The two replies `process_message` sends: the Init-ACK echoing an
      Init's opcode and protocol, and the error text. */
  datatype Reply = InitAckFor(opcode: bit, protocol: bit) | InternalError

  /** A reply and the peer it goes to. */
  datatype Sent = Sent(reply: Reply, to: Addr)

  /** The new table, the replies sent and the datagrams handed to handlers. */
  datatype Effect = Effect(table: map<Addr, Conn>, replies: seq<Sent>, handed: seq<Handed>)

  /** How a datagram from an unknown peer is read as an Init segment. The
      table is stated for any reader; the server uses `DeserializeInit`. */
  type InitReader = seq<byte> -> Result<InitSegment, CodecError>

  /** `"ERROR: Internal server error".encode()`. */
  function ErrorText(): seq<byte>
  {
    Ascii("ERROR: Internal server error")
  }

  /** The bytes of a reply. The Init-ACK is an Init segment with the same
      opcode and protocol and an empty name and path. */
  function ReplyBytes(r: Reply): seq<byte>
  {
    match r
    case InitAckFor(opcode, protocol) => SerializeInit(InitSegment(opcode, protocol, [], [])).value
    case InternalError => ErrorText()
  }

  /** The Init-ACK decodes to the opcode and protocol it echoes, and its
      bytes are not the error text. */
  lemma InitAckEchoes(opcode: bit, protocol: bit)
    ensures DeserializeInit(ReplyBytes(InitAckFor(opcode, protocol))) == Ok(InitSegment(opcode, protocol, [], []))
    ensures ReplyBytes(InitAckFor(opcode, protocol)) != ReplyBytes(InternalError)
  {
    InitRoundTrip(InitSegment(opcode, protocol, [], []));
    assert |ReplyBytes(InitAckFor(opcode, protocol))| == 7;
  }

  /** What `process_message` does with `data` from `peer`:
      - `b"FIN"` drops the peer's entry, if any, and sends nothing;
      - from an unknown peer, a datagram that is not an Init segment is
        answered with the error text and changes nothing; an Init segment
        adds the peer and is answered with the Init-ACK;
      - from a known peer, the datagram is handed to its handler. */
  function Dispatch(read: InitReader, table: map<Addr, Conn>, data: seq<byte>, peer: Addr): Effect
  {
    if data == FIN then Effect(table - {peer}, [], [])
    else if peer !in table then
      match read(data)
      case Err(_) => Effect(table, [Sent(InternalError, peer)], [])
      case Ok(init) => Effect(table[peer := Conn(init)], [Sent(InitAckFor(init.opcode, init.protocol), peer)], [])
    else Effect(table, [], [Handed(peer, data)])
  }

  /** `process_message` as written. The extra `verbose` argument given to
      `deserialize` at line 58 and `serialize` at line 71 is ignored, as
      throughout the model: taken literally, line 58 raises `TypeError` before
      the entry is inserted at line 66, and no Init from a new peer is ever
      recorded. With that convention, three lines raise where the design does
      not, and the handler at line 94 turns each exception into the error
      text:
      - line 51: the record built at line 63 holds the server's `args` where
        the protocol handler belongs, and `args` has no `socket`, so a FIN
        from a known peer raises before the entry is deleted;
      - line 68: the Init-ACK is built with the integer 1 as its file name,
        and `serialize` takes `len` of it, after the peer was added;
      - line 84: a connection record has no `operation_handler`, so a
        datagram from a known peer never reaches a handler. */
  function DispatchAsWritten(read: InitReader, table: map<Addr, Conn>, data: seq<byte>, peer: Addr): Effect
  {
    if data == FIN then
      if peer in table then Effect(table, [Sent(InternalError, peer)], [])
      else Effect(table, [], [])
    else if peer !in table then
      match read(data)
      case Err(_) => Effect(table, [Sent(InternalError, peer)], [])
      case Ok(init) => Effect(table[peer := Conn(init)], [Sent(InternalError, peer)], [])
    else Effect(table, [Sent(InternalError, peer)], [])
  }

  /** FIN removes exactly the sender's entry and sends nothing back. */
  lemma FinRemovesPeer(read: InitReader, table: map<Addr, Conn>, peer: Addr)
    ensures var e := Dispatch(read, table, FIN, peer);
      && e.table.Keys == table.Keys - {peer}
      && (forall a :: a in e.table ==> e.table[a] == table[a])
      && e.replies == [] && e.handed == []
  {
  }

  /** An Init segment from an unknown peer adds that peer with it, and the
      reply sent to the peer decodes to an Init segment with the same opcode
      and protocol. */
  lemma InitOpensConnection(read: InitReader, table: map<Addr, Conn>, data: seq<byte>, peer: Addr)
    requires data != FIN && peer !in table && read(data).Ok?
    ensures var e := Dispatch(read, table, data, peer);
      var init := read(data).value;
      && e.table == table[peer := Conn(init)]
      && |e.replies| == 1 && e.replies[0].to == peer
      && DeserializeInit(ReplyBytes(e.replies[0].reply)).Ok?
      && DeserializeInit(ReplyBytes(e.replies[0].reply)).value.opcode == init.opcode
      && DeserializeInit(ReplyBytes(e.replies[0].reply)).value.protocol == init.protocol
      && e.handed == []
  {
    var init := read(data).value;
    InitAckEchoes(init.opcode, init.protocol);
  }

  /** A datagram from an unknown peer that is not an Init segment leaves the
      table alone and is answered with the error text. */
  lemma FailedInitChangesNothing(read: InitReader, table: map<Addr, Conn>, data: seq<byte>, peer: Addr)
    requires data != FIN && peer !in table && read(data).Err?
    ensures Dispatch(read, table, data, peer) == Effect(table, [Sent(InternalError, peer)], [])
  {
  }

  /** A datagram from a known peer reaches that peer's handler unchanged and
      nothing else happens. */
  lemma KnownPeerIsHanded(read: InitReader, table: map<Addr, Conn>, data: seq<byte>, peer: Addr)
    requires data != FIN && peer in table
    ensures Dispatch(read, table, data, peer) == Effect(table, [], [Handed(peer, data)])
  {
  }

  /** Only the sender's entry can change, only FIN removes an entry, and an
      existing entry is never replaced. */
  lemma OnlySenderEntryChanges(read: InitReader, table: map<Addr, Conn>, data: seq<byte>, peer: Addr)
    ensures var e := Dispatch(read, table, data, peer);
      && (forall a :: a != peer ==> (a in e.table <==> a in table))
      && (forall a :: a in e.table && a in table ==> e.table[a] == table[a])
      && (data != FIN ==> table.Keys <= e.table.Keys)
      && (data == FIN ==> peer !in e.table)
  {
  }

  /** Every reply goes to the sender, and at most one is sent. */
  lemma RepliesGoToSender(read: InitReader, table: map<Addr, Conn>, data: seq<byte>, peer: Addr)
    ensures var e := Dispatch(read, table, data, peer);
      && |e.replies| + |e.handed| <= 1
      && (forall i :: 0 <= i < |e.replies| ==> e.replies[i].to == peer)
      && (forall i :: 0 <= i < |e.handed| ==> e.handed[i] == Handed(peer, data))
  {
  }

  /** As written, an Init from an unknown peer is recorded but answered with
      the error text: the peer never receives an Init-ACK. */
  lemma AsWrittenAnswersInitWithError(read: InitReader, table: map<Addr, Conn>, data: seq<byte>, peer: Addr)
    requires data != FIN && peer !in table && read(data).Ok?
    ensures var w := DispatchAsWritten(read, table, data, peer);
      && peer in w.table
      && w.replies == [Sent(InternalError, peer)]
      && |Dispatch(read, table, data, peer).replies| == 1
      && ReplyBytes(w.replies[0].reply) != ReplyBytes(Dispatch(read, table, data, peer).replies[0].reply)
  {
    var init := read(data).value;
    InitAckEchoes(init.opcode, init.protocol);
  }

  /** As written, a datagram from a known peer never reaches a handler. */
  lemma AsWrittenNeverHands(read: InitReader, table: map<Addr, Conn>, data: seq<byte>, peer: Addr)
    requires data != FIN && peer in table
    ensures DispatchAsWritten(read, table, data, peer).handed == []
    ensures Dispatch(read, table, data, peer).handed == [Handed(peer, data)]
  {
  }

  /** As written, FIN from a known peer keeps its entry. */
  lemma AsWrittenFinKeepsPeer(read: InitReader, table: map<Addr, Conn>, peer: Addr)
    requires peer in table
    ensures DispatchAsWritten(read, table, FIN, peer).table == table
    ensures peer !in Dispatch(read, table, FIN, peer).table
  {
  }

  /** The server's shared state: the table of connections, what it has sent
      and what it has handed to connection handlers. */
  class Server {
    const read: InitReader
    var clientConnections: map<Addr, Conn>
    var sent: seq<Sent>
    var handed: seq<Handed>

    constructor ()
      ensures read == DeserializeInit
      ensures clientConnections == map[] && sent == [] && handed == []
    {
      read := DeserializeInit;
      clientConnections := map[];
      sent := [];
      handed := [];
    }

    /** `process_message`, with the connection record, the Init-ACK and the
        hand-over done as designed. */
    method ProcessMessage(data: seq<byte>, peer: Addr)
      modifies this
      ensures var e := Dispatch(read, old(clientConnections), data, peer);
        && clientConnections == e.table
        && sent == old(sent) + e.replies
        && handed == old(handed) + e.handed
    {
      if data == FIN {
        if peer in clientConnections {
          clientConnections := clientConnections - {peer};
        }
        return;
      }
      if peer !in clientConnections {
        var decoded := read(data);
        if decoded.Err? {
          sent := sent + [Sent(InternalError, peer)];
          return;
        }
        var init := decoded.value;
        clientConnections := clientConnections[peer := Conn(init)];
        sent := sent + [Sent(InitAckFor(init.opcode, init.protocol), peer)];
      } else {
        handed := handed + [Handed(peer, data)];
      }
    }
  }
}

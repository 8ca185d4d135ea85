/** The peer wire protocol of src/core/peer.cpp (BEP 3, "peer protocol").

    The socket is abstract: `inbox` holds the bytes the remote side will
    still deliver, `outbox` logs every byte written, and `open` is the state
    of the socket. A read of n bytes succeeds when the socket is open and n
    bytes remain; otherwise `read_some` drains what is left and reports an
    error. A write succeeds exactly when the socket is open. */
module PeerWire {
  import opened Base
  import Hash

  // Peer::Message::Type (peer.h:14-24).
  const CHOKE: byte := 0
  const UNCHOKE: byte := 1
  const INTERESTED: byte := 2
  const NOT_INTERESTED: byte := 3
  const HAVE: byte := 4
  const BITFIELD: byte := 5
  const REQUEST: byte := 6
  const PIECE: byte := 7
  const CANCEL: byte := 8

  /** The default BLOCK_SIZE of downloadPiece, 16 KiB (peer.h:44). */
  const DEFAULT_BLOCK_SIZE: nat := 16 * 1024

  const UINT32_MODULUS: int := 0x1_0000_0000
  const INT32_LIMIT: int := 0x8000_0000

  /** A message: its type byte (any byte read from the wire is cast to the
      enum) and its payload. */
  datatype Message = Message(kind: byte, payload: bytes)

  /** The socket as seen by one peer. */
  datatype Wire = Wire(open: bool, inbox: bytes, outbox: bytes)

  datatype Sent = Sent(wire: Wire, ok: bool)
  datatype Received = Received(msg: Option<Message>, wire: Wire)

  // ---------------------------------------------------------------------
  // Framing

  /** sendMessage's bytes: the 32-bit big-endian count 1 + |payload|
      (truncated to uint32_t), the type byte, then the payload. */
  function Frame(m: Message): bytes
  {
    Be32((1 + |m.payload|) % UINT32_MODULUS) + [m.kind] + m.payload
  }

  /** Peer::sendMessage on the abstract socket. */
  function Send(w: Wire, m: Message): Sent
  {
    if w.open then Sent(w.(outbox := w.outbox + Frame(m)), true) else Sent(w, false)
  }

  /** Peer::receiveMessage on the abstract socket: four length bytes, then
      that many bytes of type and payload. A zero length is a keep-alive,
      which the source reports as a CHOKE with no payload. */
  function Receive(w: Wire): Received
  {
    if !w.open then Received(None, w)
    else if |w.inbox| < 4 then Received(None, w.(inbox := []))
    else
      var n := FromBe32(w.inbox[..4]);
      if n == 0 then Received(Some(Message(CHOKE, [])), w.(inbox := w.inbox[4..]))
      else if |w.inbox| - 4 < n then Received(None, w.(inbox := []))
      else Received(Some(Message(w.inbox[4], w.inbox[5..4 + n])), w.(inbox := w.inbox[4 + n..]))
  }

  /** The four parts of a frame followed by more bytes. */
  lemma {:induction false} FrameSplit(s: bytes, h: bytes, k: byte, p: bytes, rest: bytes)
    requires |h| == 4 && s == h + [k] + p + rest
    ensures s[..4] == h && s[4] == k && s[5..5 + |p|] == p && s[5 + |p|..] == rest
  {
    assert s == h + ([k] + (p + rest));
  }

  /** A frame that sendMessage built reads back as the same message, and
      the bytes after it stay queued. */
  lemma ReceiveFrame(w: Wire, m: Message, rest: bytes)
    requires w.open && w.inbox == Frame(m) + rest
    requires 1 + |m.payload| < UINT32_MODULUS
    ensures Receive(w) == Received(Some(m), w.(inbox := rest))
  {
    var n := 1 + |m.payload|;
    assert n % UINT32_MODULUS == n;
    Be32RoundTrip(n);
    FrameSplit(w.inbox, Be32(n), m.kind, m.payload, rest);
  }

  /** A zero length prefix reads as a CHOKE with an empty payload. */
  lemma KeepAliveIsChoke(w: Wire, rest: bytes)
    requires w.open && w.inbox == [0, 0, 0, 0] + rest
    ensures Receive(w) == Received(Some(Message(CHOKE, [])), w.(inbox := rest))
  {
    assert w.inbox[..4] == [0, 0, 0, 0];
    assert w.inbox[4..] == rest;
  }

  // ---------------------------------------------------------------------
  // Handshake

  /** The 68 bytes performHandshake writes: 19, the protocol name, eight
      zero reserved bytes, the info hash, the local peer id. */
  function HandshakeMsg(infoHash: bytes, peerId: bytes): bytes
    requires |infoHash| == 20 && |peerId| == 20
  {
    [19] + Hash.Protocol() + Zeros(8) + infoHash + peerId
  }

  lemma HandshakeLayout(infoHash: bytes, peerId: bytes)
    requires |infoHash| == 20 && |peerId| == 20
    ensures |HandshakeMsg(infoHash, peerId)| == 68
    ensures HandshakeMsg(infoHash, peerId)[0] == 19
    ensures HandshakeMsg(infoHash, peerId)[1..20] == Hash.Protocol()
    ensures forall i :: 20 <= i < 28 ==> HandshakeMsg(infoHash, peerId)[i] == 0
    ensures HandshakeMsg(infoHash, peerId)[28..48] == infoHash
    ensures HandshakeMsg(infoHash, peerId)[48..68] == peerId
  {
    var h := HandshakeMsg(infoHash, peerId);
    assert h == [19] + (Hash.Protocol() + (Zeros(8) + (infoHash + peerId)));
    assert h[1..20] == Hash.Protocol();
    assert h[28..48] == infoHash;
    assert h[48..68] == peerId;
  }

  /** A handshake built for an info hash passes the check for that hash and
      yields the sender's peer id. */
  lemma HandshakeAccepted(infoHash: bytes, peerId: bytes)
    requires |infoHash| == 20 && |peerId| == 20
    ensures Hash.VerifyHandshakeResponse(HandshakeMsg(infoHash, peerId), infoHash) == (true, peerId)
  {
    HandshakeLayout(infoHash, peerId);
  }

  /** The outcome of performHandshake: the verdict, the socket after it and
      the new m_peer_id, or None where it is left as it was. */
  datatype Shaken = Shaken(ok: bool, wire: Wire, remoteId: Option<bytes>)

  /** Bytes 48..67 of the handshake: the local peer id, and after it
      whatever handshake_msg held before (std::copy writes only |peerId|
      bytes, and connectToPeers passes the tracker's peer id, which is
      empty for compact responses). `stale` stands for the array's earlier
      contents. */
  function IdField(peerId: bytes, stale: bytes): (r: bytes)
    requires |peerId| <= 20 && |stale| == 20
    ensures |r| == 20 && r[..|peerId|] == peerId
  {
    peerId + stale[|peerId|..]
  }

  /** Peer::performHandshake on the abstract socket. */
  function Handshake(w: Wire, infoHash: bytes, peerId: bytes, stale: bytes): Shaken
    requires |peerId| <= 20 && |stale| == 20
  {
    if |infoHash| != 20 then Shaken(false, w, None)
    else if !w.open then Shaken(false, w, None)
    else
      var w1 := w.(outbox := w.outbox + HandshakeMsg(infoHash, IdField(peerId, stale)));
      if |w1.inbox| < 68 then Shaken(false, w1.(open := false, inbox := []), None)
      else
        var v := Hash.VerifyHandshakeResponse(w1.inbox[..68], infoHash);
        Shaken(v.0, w1.(inbox := w1.inbox[68..]), Some(v.1))
  }

  /** An info hash that is not 20 bytes is refused before anything is written. */
  lemma HandshakeRejectsBadHash(w: Wire, infoHash: bytes, peerId: bytes, stale: bytes)
    requires |peerId| <= 20 && |stale| == 20 && |infoHash| != 20
    ensures !Handshake(w, infoHash, peerId, stale).ok
    ensures Handshake(w, infoHash, peerId, stale).wire == w
  {
  }

  /** Two peers with the same info hash complete the handshake: each side
      accepts the other's 68 bytes and learns its peer id. */
  lemma HandshakeWithPeer(w: Wire, infoHash: bytes, peerId: bytes, stale: bytes, remoteId: bytes, rest: bytes)
    requires |infoHash| == 20 && |peerId| == 20 && |stale| == 20 && |remoteId| == 20
    requires w.open && w.inbox == HandshakeMsg(infoHash, remoteId) + rest
    ensures Handshake(w, infoHash, peerId, stale) ==
            Shaken(true, Wire(true, rest, w.outbox + HandshakeMsg(infoHash, peerId)), Some(remoteId))
  {
    HandshakeLayout(infoHash, remoteId);
    assert w.inbox[..68] == HandshakeMsg(infoHash, remoteId);
    assert w.inbox[68..] == rest;
    HandshakeAccepted(infoHash, remoteId);
    assert IdField(peerId, stale) == peerId;
  }

  // ---------------------------------------------------------------------
  // Requests and blocks

  /** requestPiece's 12-byte payload: index, begin, length, each big-endian. */
  function RequestMsg(index: uint32, begin: uint32, length: uint32): Message
  {
    Message(REQUEST, Be32(index) + Be32(begin) + Be32(length))
  }

  function Min(a: int, b: int): int { if a < b then a else b }

  /** `data` written over `buf` from `offset` on (std::copy). */
  function Overwrite(buf: bytes, offset: nat, data: bytes): (r: bytes)
    requires offset + |data| <= |buf|
    ensures |r| == |buf|
  {
    buf[..offset] + data + buf[offset + |data|..]
  }

  /** The outcome of downloadPiece. `Overrun` is a PIECE block that does not
      fit the buffer at its offset: std::copy at peer.cpp:257 writes past the
      end of pieceData, which is undefined behaviour. */
  datatype PieceOutcome = Piece(data: bytes) | Failed | Overrun

  datatype BlocksResult = BlocksResult(outcome: PieceOutcome, wire: Wire)

  /** What one turn of the request loop does: return with an outcome, or go
      on with the new socket and buffer. */
  datatype Turned = Stop(outcome: PieceOutcome, wire: Wire) | Next(wire: Wire, buf: bytes)

  /** One turn of the request loop at `offset`: REQUEST min(B, L - offset)
      bytes, read the reply, and copy the bytes after index and begin into
      the buffer. A failed write, a missing reply, a reply that is not a
      PIECE and a payload shorter than 8 bytes stop the loop. */
  function Turn(w: Wire, index: uint32, buf: bytes, offset: nat, blockSize: nat): (r: Turned)
    requires 0 < blockSize && |buf| + blockSize <= INT32_LIMIT && offset < |buf|
    ensures r.Next? ==> |r.buf| == |buf|
  {
    var s := Send(w, RequestMsg(index, offset, Min(blockSize, |buf| - offset)));
    if !s.ok then Stop(Failed, s.wire)
    else
      var rc := Receive(s.wire);
      if rc.msg.None? || rc.msg.value.kind != PIECE || |rc.msg.value.payload| < 8 then Stop(Failed, rc.wire)
      else
        var block := rc.msg.value.payload[8..];
        if offset + |block| > |buf| then Stop(Overrun, rc.wire)
        else Next(rc.wire, Overwrite(buf, offset, block))
  }

  /** The request loop of downloadPiece from `offset` on, with the blocks
      received so far in `buf`. */
  function Blocks(w: Wire, index: uint32, buf: bytes, offset: nat, blockSize: nat): BlocksResult
    requires 0 < blockSize && |buf| + blockSize <= INT32_LIMIT
  {
    Loop(w, index, buf, offset, blockSize)
  }

  /** The recursion behind Blocks: one turn, then the rest of the loop. */
  function Loop(w: Wire, index: uint32, buf: bytes, offset: nat, blockSize: nat): BlocksResult
    requires 0 < blockSize && |buf| + blockSize <= INT32_LIMIT
    decreases |buf| - offset
  {
    if offset >= |buf| then BlocksResult(Piece(buf), w)
    else
      match Turn(w, index, buf, offset, blockSize)
      case Stop(outcome, w') => BlocksResult(outcome, w')
      case Next(w', buf') => Loop(w', index, buf', offset + blockSize, blockSize)
  }

  /** The loop after turn `t` at `offset`: stopped with the turn's outcome,
      or continued at the next offset with the turn's socket and buffer. */
  predicate Continues(w: Wire, index: uint32, buf: bytes, offset: nat, blockSize: nat, t: Turned)
    requires 0 < blockSize && |buf| + blockSize <= INT32_LIMIT
  {
    match t
    case Stop(outcome, w') => Blocks(w, index, buf, offset, blockSize) == BlocksResult(outcome, w')
    case Next(w', buf') =>
      |buf'| == |buf| && Blocks(w, index, buf, offset, blockSize) == Blocks(w', index, buf', offset + blockSize, blockSize)
  }

  lemma BlocksNext(w: Wire, index: uint32, buf: bytes, offset: nat, blockSize: nat, t: Turned)
    requires 0 < blockSize && |buf| + blockSize <= INT32_LIMIT && offset < |buf|
    requires t == Turn(w, index, buf, offset, blockSize)
    ensures Continues(w, index, buf, offset, blockSize, t)
  {
  }

  /** A loop that goes on after its turn ends where the rest of it ends. */
  lemma GoesOn(w: Wire, index: uint32, buf: bytes, offset: nat, blockSize: nat, w': Wire, buf': bytes, next: nat,
               r: BlocksResult)
    requires 0 < blockSize && |buf| + blockSize <= INT32_LIMIT && next == offset + blockSize
    requires Continues(w, index, buf, offset, blockSize, Next(w', buf')) && Blocks(w, index, buf, offset, blockSize) == r
    ensures |buf'| == |buf| && Blocks(w', index, buf', next, blockSize) == r
  {
  }


  /** The outcome of downloadPiece with the new socket and flags. */
  datatype Download = Download(outcome: PieceOutcome, wire: Wire, interested: bool, choked: bool)

  /** Peer::downloadPiece: INTERESTED once, then wait for UNCHOKE while
      choked, then the request loop over a zeroed buffer. */
  function DownloadSpec(w: Wire, interested: bool, choked: bool, index: uint32, pieceLength: nat, blockSize: nat): Download
    requires 0 < blockSize && pieceLength + blockSize <= INT32_LIMIT
  {
    var s := if interested then Sent(w, true) else Send(w, Message(INTERESTED, []));
    if !s.ok then Download(Failed, s.wire, interested, choked)
    else if !choked then
      var b := Blocks(s.wire, index, Zeros(pieceLength), 0, blockSize);
      Download(b.outcome, b.wire, true, false)
    else
      var rc := Receive(s.wire);
      if rc.msg.None? || rc.msg.value.kind != UNCHOKE then Download(Failed, rc.wire, true, true)
      else
        var b := Blocks(rc.wire, index, Zeros(pieceLength), 0, blockSize);
        Download(b.outcome, b.wire, true, false)
  }

  /** The bytes a cooperating peer sends for the requests from `offset` on:
      one PIECE message per block, carrying index, begin and the block. */
  function Served(index: uint32, data: bytes, offset: nat, blockSize: nat): bytes
    requires 0 < blockSize && |data| + blockSize <= INT32_LIMIT
    decreases |data| - offset
  {
    if offset >= |data| then []
    else Frame(BlockMsg(index, data, offset, blockSize)) + Served(index, data, offset + blockSize, blockSize)
  }

  /** An open socket whose peer has queued the blocks from `offset` on,
      then `rest`, after `outbox` was written. */
  function Cooperating(outbox: bytes, index: uint32, data: bytes, offset: nat, blockSize: nat, rest: bytes): Wire
    requires 0 < blockSize && |data| + blockSize <= INT32_LIMIT
  {
    Wire(true, Served(index, data, offset, blockSize) + rest, outbox)
  }

  /** The PIECE message for the block at `offset`: index, begin, the bytes. */
  function BlockMsg(index: uint32, data: bytes, offset: nat, blockSize: nat): Message
    requires 0 < blockSize && offset < |data| && |data| + blockSize <= INT32_LIMIT
  {
    Message(PIECE, Be32(index) + Be32(offset) + data[offset..offset + Min(blockSize, |data| - offset)])
  }

  /** The REQUEST frames downloadPiece writes from `offset` on. */
  function Requested(index: uint32, pieceLength: nat, offset: nat, blockSize: nat): bytes
    requires 0 < blockSize && pieceLength + blockSize <= INT32_LIMIT
    decreases pieceLength - offset
  {
    if offset >= pieceLength then []
    else Frame(RequestMsg(index, offset, Min(blockSize, pieceLength - offset)))
           + Requested(index, pieceLength, offset + blockSize, blockSize)
  }

  /** The spans downloadPiece requests from `offset` on: starts offset,
      offset + B, ..., each of length min(B, L - start). */
  function Spans(pieceLength: nat, offset: nat, blockSize: nat): seq<(nat, nat)>
    requires 0 < blockSize
    decreases pieceLength - offset
  {
    if offset >= pieceLength then []
    else [(offset, Min(blockSize, pieceLength - offset))] + Spans(pieceLength, offset + blockSize, blockSize)
  }

  /** The bytes of `data` that the spans cover, in order. */
  function Covered(data: bytes, spans: seq<(nat, nat)>): bytes
    requires forall k :: 0 <= k < |spans| ==> spans[k].0 + spans[k].1 <= |data|
  {
    if spans == [] then [] else data[spans[0].0 .. spans[0].0 + spans[0].1] + Covered(data, spans[1..])
  }

  /** The requested spans tile [offset, L) exactly: in order, without gap
      or overlap, none longer than B. */
  lemma {:induction false} SpansCover(data: bytes, offset: nat, blockSize: nat)
    requires 0 < blockSize && offset <= |data|
    ensures forall k :: 0 <= k < |Spans(|data|, offset, blockSize)| ==>
              var sp := Spans(|data|, offset, blockSize)[k];
              1 <= sp.1 <= blockSize && sp.0 + sp.1 <= |data|
    ensures Covered(data, Spans(|data|, offset, blockSize)) == data[offset..]
    decreases |data| - offset
  {
    var spans := Spans(|data|, offset, blockSize);
    if offset < |data| {
      var length := Min(blockSize, |data| - offset);
      if offset + blockSize <= |data| {
        SpansCover(data, offset + blockSize, blockSize);
        assert data[offset..] == data[offset..offset + length] + data[offset + blockSize..];
      } else {
        assert Spans(|data|, offset + blockSize, blockSize) == [];
        assert data[offset..] == data[offset..offset + length];
      }
      assert spans[1..] == Spans(|data|, offset + blockSize, blockSize);
    }
  }

  /** One turn of the request loop against a cooperating peer. */
  lemma BlockServed(w: Wire, index: uint32, data: bytes, offset: nat, blockSize: nat, rest: bytes)
    requires 0 < blockSize && |data| + blockSize <= INT32_LIMIT
    requires offset < |data| && w.open
    requires w.inbox == Served(index, data, offset, blockSize) + rest
    ensures var s := Send(w, RequestMsg(index, offset, Min(blockSize, |data| - offset)));
            s.ok && Receive(s.wire) ==
            Received(Some(BlockMsg(index, data, offset, blockSize)),
                     Wire(true, Served(index, data, offset + blockSize, blockSize) + rest, s.wire.outbox))
  {
    var m := BlockMsg(index, data, offset, blockSize);
    var tail := Served(index, data, offset + blockSize, blockSize) + rest;
    ServedHead(index, data, offset, blockSize, rest);
    var s := Send(w, RequestMsg(index, offset, Min(blockSize, |data| - offset)));
    ReceiveFrame(s.wire, m, tail);
  }

  lemma ServedHead(index: uint32, data: bytes, offset: nat, blockSize: nat, rest: bytes)
    requires 0 < blockSize && |data| + blockSize <= INT32_LIMIT && offset < |data|
    ensures Served(index, data, offset, blockSize) + rest ==
            Frame(BlockMsg(index, data, offset, blockSize)) + (Served(index, data, offset + blockSize, blockSize) + rest)
  {
  }

  /** Against a peer that answers every request with the matching block of
      `data`, the request loop fills the buffer with `data` and writes one
      REQUEST per span. */
  predicate Cooperated(outbox: bytes, index: uint32, data: bytes, buf: bytes, offset: nat, blockSize: nat, rest: bytes)
    requires 0 < blockSize && |data| + blockSize <= INT32_LIMIT && |buf| == |data|
  {
    Blocks(Cooperating(outbox, index, data, offset, blockSize, rest), index, buf, offset, blockSize) ==
    BlocksResult(Piece(data), Wire(true, rest, outbox + Requested(index, |data|, offset, blockSize)))
  }

  lemma {:induction false} BlocksFromCooperatingPeer(outbox: bytes, index: uint32, data: bytes, buf: bytes, offset: nat,
                                                     blockSize: nat, rest: bytes)
    requires 0 < blockSize && |data| + blockSize <= INT32_LIMIT && |buf| == |data|
    requires offset <= |data| && buf[..offset] == data[..offset]
    ensures Cooperated(outbox, index, data, buf, offset, blockSize, rest)
    decreases |data| - offset
  {
    if offset == |data| {
      assert buf == buf[..offset] && data == data[..offset];
      LastBlock(outbox, index, data, buf, offset, blockSize, rest);
    } else {
      var outbox', buf' := outbox + Frame(RequestMsg(index, offset, Min(blockSize, |data| - offset))),
                           ServedBuf(buf, data, offset, blockSize);
      ServedPrefix(buf, data, offset, blockSize);
      if offset + blockSize <= |data| {
        BlocksFromCooperatingPeer(outbox', index, data, buf', offset + blockSize, blockSize, rest);
      } else {
        LastBlock(outbox', index, data, buf', offset + blockSize, blockSize, rest);
      }
      CooperatedStep(outbox, index, data, buf, offset, blockSize, rest);
    }
  }

  /** The buffer after one turn against a cooperating peer: the block
      copied in at `offset`. */
  function ServedBuf(buf: bytes, data: bytes, offset: nat, blockSize: nat): (r: bytes)
    requires 0 < blockSize && |buf| == |data| && offset < |data|
    ensures |r| == |data|
  {
    Overwrite(buf, offset, data[offset..offset + Min(blockSize, |data| - offset)])
  }

  /** The served block extends a correct prefix by one block. */
  lemma ServedPrefix(buf: bytes, data: bytes, offset: nat, blockSize: nat)
    requires 0 < blockSize && |buf| == |data| && offset < |data| && buf[..offset] == data[..offset]
    ensures offset + blockSize <= |data| ==>
            ServedBuf(buf, data, offset, blockSize)[..offset + blockSize] == data[..offset + blockSize]
    ensures offset + blockSize > |data| ==> ServedBuf(buf, data, offset, blockSize) == data
  {
    OverwritePrefix(buf, data, offset, Min(blockSize, |data| - offset));
  }

  /** If the loop from the next offset goes as a cooperating peer would
      have it, so does the loop from this one. */
  lemma CooperatedStep(outbox: bytes, index: uint32, data: bytes, buf: bytes, offset: nat, blockSize: nat, rest: bytes)
    requires 0 < blockSize && |data| + blockSize <= INT32_LIMIT && |buf| == |data| && offset < |data|
    requires Cooperated(outbox + Frame(RequestMsg(index, offset, Min(blockSize, |data| - offset))), index, data,
                        ServedBuf(buf, data, offset, blockSize), offset + blockSize, blockSize, rest)
    ensures Cooperated(outbox, index, data, buf, offset, blockSize, rest)
  {
    var w := Cooperating(outbox, index, data, offset, blockSize, rest);
    var w' := Cooperating(outbox + Frame(RequestMsg(index, offset, Min(blockSize, |data| - offset))),
                          index, data, offset + blockSize, blockSize, rest);
    CooperativeTurn(outbox, index, data, buf, offset, blockSize, rest);
    BlocksNext(w, index, buf, offset, blockSize, Next(w', ServedBuf(buf, data, offset, blockSize)));
    RequestedHead(index, |data|, offset, blockSize, outbox);
  }

  /** One turn against a cooperating peer: the REQUEST is logged, the
      matching PIECE is consumed and its block copied in, and the loop goes
      on at the next offset. */
  lemma CooperativeTurn(outbox: bytes, index: uint32, data: bytes, buf: bytes, offset: nat, blockSize: nat, rest: bytes)
    requires 0 < blockSize && |data| + blockSize <= INT32_LIMIT && |buf| == |data| && offset < |data|
    ensures Turn(Cooperating(outbox, index, data, offset, blockSize, rest), index, buf, offset, blockSize) ==
            Next(Cooperating(outbox + Frame(RequestMsg(index, offset, Min(blockSize, |data| - offset))),
                             index, data, offset + blockSize, blockSize, rest),
                 ServedBuf(buf, data, offset, blockSize))
  {
    BlockServed(Cooperating(outbox, index, data, offset, blockSize, rest), index, data, offset, blockSize, rest);
    BlockPayload(index, data, offset, blockSize);
  }

  /** The data of the PIECE message for a block is that block. */
  lemma BlockPayload(index: uint32, data: bytes, offset: nat, blockSize: nat)
    requires 0 < blockSize && offset < |data| && |data| + blockSize <= INT32_LIMIT
    ensures BlockMsg(index, data, offset, blockSize).payload[8..] == data[offset..offset + Min(blockSize, |data| - offset)]
  {
  }

  /** Copying the right block after a correct prefix extends the prefix. */
  lemma OverwritePrefix(buf: bytes, data: bytes, offset: nat, length: nat)
    requires |buf| == |data| && offset + length <= |data| && buf[..offset] == data[..offset]
    ensures Overwrite(buf, offset, data[offset..offset + length])[..offset + length] == data[..offset + length]
    ensures offset + length == |data| ==> Overwrite(buf, offset, data[offset..offset + length]) == data
  {
    var r := Overwrite(buf, offset, data[offset..offset + length]);
    assert forall k :: 0 <= k < offset + length ==> r[k] == data[k];
  }

  lemma RequestedHead(index: uint32, pieceLength: nat, offset: nat, blockSize: nat, log: bytes)
    requires 0 < blockSize && pieceLength + blockSize <= INT32_LIMIT && offset < pieceLength
    ensures log + Requested(index, pieceLength, offset, blockSize) ==
            (log + Frame(RequestMsg(index, offset, Min(blockSize, pieceLength - offset))))
              + Requested(index, pieceLength, offset + blockSize, blockSize)
  {
  }

  /** Past the last block the loop stops with the buffer as it is. */
  lemma LastBlock(outbox: bytes, index: uint32, data: bytes, buf: bytes, offset: nat, blockSize: nat, rest: bytes)
    requires 0 < blockSize && |data| + blockSize <= INT32_LIMIT && |buf| == |data| && |data| <= offset
    ensures Cooperated(outbox, index, data, buf, offset, blockSize, rest) <==> buf == data
  {
    assert Served(index, data, offset, blockSize) + rest == rest;
  }

  /** A fresh peer (not interested, choked) downloading from a peer that
      unchokes it and then serves `data` gets exactly `data`, after writing
      INTERESTED and one REQUEST per span. */
  lemma DownloadFromCooperatingPeer(w: Wire, index: uint32, data: bytes, blockSize: nat, rest: bytes)
    requires 0 < blockSize && |data| + blockSize <= INT32_LIMIT
    requires w.open && w.inbox == Frame(Message(UNCHOKE, [])) + Served(index, data, 0, blockSize) + rest
    ensures DownloadSpec(w, false, true, index, |data|, blockSize) ==
            Download(Piece(data),
                     Wire(true, rest, w.outbox + Frame(Message(INTERESTED, [])) + Requested(index, |data|, 0, blockSize)),
                     true, false)
  {
    var s := Send(w, Message(INTERESTED, []));
    ReceiveFrame(s.wire, Message(UNCHOKE, []), Served(index, data, 0, blockSize) + rest);
    BlocksFromCooperatingPeer(s.wire.outbox, index, data, Zeros(|data|), 0, blockSize, rest);
  }

  /** INTERESTED is written at most once: an interested peer writes nothing
      before its requests, and a download that got past the first step
      leaves the peer interested. */
  lemma InterestedLatched(w: Wire, interested: bool, choked: bool, index: uint32, pieceLength: nat, blockSize: nat)
    requires 0 < blockSize && pieceLength + blockSize <= INT32_LIMIT
    ensures interested ==> DownloadSpec(w, interested, choked, index, pieceLength, blockSize).interested
    ensures DownloadSpec(w, interested, choked, index, pieceLength, blockSize).interested == (interested || w.open)
  {
  }

  /** The choked flag is cleared only by an UNCHOKE reply. */
  lemma ChokedClearedOnlyByUnchoke(w: Wire, interested: bool, index: uint32, pieceLength: nat, blockSize: nat)
    requires 0 < blockSize && pieceLength + blockSize <= INT32_LIMIT
    requires !DownloadSpec(w, interested, true, index, pieceLength, blockSize).choked
    ensures var s := if interested then w else Send(w, Message(INTERESTED, [])).wire;
            Receive(s).msg.Some? && Receive(s).msg.value.kind == UNCHOKE
  {
  }

  /** A PIECE reply too short for index and begin fails the download. */
  lemma {:induction false} ShortBlockFails(w: Wire, index: uint32, buf: bytes, offset: nat, blockSize: nat, p: bytes, rest: bytes)
    requires 0 < blockSize && |buf| + blockSize <= INT32_LIMIT
    requires offset < |buf| && w.open && |p| < 8
    requires w.inbox == Frame(Message(PIECE, p)) + rest
    ensures Blocks(w, index, buf, offset, blockSize).outcome == Failed
  {
    var s := Send(w, RequestMsg(index, offset, Min(blockSize, |buf| - offset)));
    ReceiveFrame(s.wire, Message(PIECE, p), rest);
  }

  /** A finished download carries `n` bytes. */
  predicate LengthKept(r: BlocksResult, n: nat)
  {
    r.outcome.Piece? ==> |r.outcome.data| == n
  }

  /** Every successful download has exactly pieceLength bytes. */
  lemma {:induction false} BlocksLength(w: Wire, index: uint32, buf: bytes, offset: nat, blockSize: nat)
    requires 0 < blockSize && |buf| + blockSize <= INT32_LIMIT
    ensures LengthKept(Blocks(w, index, buf, offset, blockSize), |buf|)
    decreases |buf| - offset
  {
    if offset < |buf| {
      var t := Turn(w, index, buf, offset, blockSize);
      BlocksNext(w, index, buf, offset, blockSize, t);
      if t.Next? {
        var w', buf' := t.wire, t.buf;
        BlocksLength(w', index, buf', offset + blockSize, blockSize);
        LengthStep(w, index, buf, offset, blockSize, w', buf');
      }
    }
  }

  lemma LengthStep(w: Wire, index: uint32, buf: bytes, offset: nat, blockSize: nat, w': Wire, buf': bytes)
    requires 0 < blockSize && |buf| + blockSize <= INT32_LIMIT && |buf'| == |buf|
    requires Continues(w, index, buf, offset, blockSize, Next(w', buf'))
    requires LengthKept(Blocks(w', index, buf', offset + blockSize, blockSize), |buf'|)
    ensures LengthKept(Blocks(w, index, buf, offset, blockSize), |buf|)
  {
  }

  // ---------------------------------------------------------------------
  // The bitfield

  /** 2^i for a bit position of a byte. */
  function BitWeight(i: nat): (r: nat)
    requires i < 8
    ensures r >= 1
  {
    if i == 0 then 1 else if i == 1 then 2 else if i == 2 then 4 else if i == 3 then 8
    else if i == 4 then 16 else if i == 5 then 32 else if i == 6 then 64 else 128
  }

  /** (b >> i) & 1. */
  function Bit(b: byte, i: nat): bool
    requires i < 8
  {
    (b / BitWeight(i)) % 2 == 1
  }

  /** The flags one byte contributes: bits 7 down to 0. */
  function ByteFlags(b: byte): (r: seq<bool>)
    ensures |r| == 8
  {
    seq(8, j requires 0 <= j < 8 => Bit(b, 7 - j))
  }

  /** updateBitfield's result: each byte's bits, most significant first. */
  function Unpack(bits: bytes): seq<bool>
  {
    if bits == [] then [] else ByteFlags(bits[0]) + Unpack(bits[1..])
  }

  /** Flag k is bit 7 - k % 8 of byte k / 8. */
  lemma {:induction false} UnpackAt(bits: bytes)
    ensures |Unpack(bits)| == 8 * |bits|
    ensures forall k :: 0 <= k < 8 * |bits| ==> Unpack(bits)[k] == Bit(bits[k / 8], 7 - k % 8)
  {
    if bits != [] {
      UnpackAt(bits[1..]);
      forall k | 0 <= k < 8 * |bits| ensures Unpack(bits)[k] == Bit(bits[k / 8], 7 - k % 8) {
        if k >= 8 {
          DivModShift(k);
          assert Unpack(bits)[k] == Unpack(bits[1..])[k - 8];
          assert bits[k / 8] == bits[1..][(k - 8) / 8];
        } else {
          assert Unpack(bits)[k] == ByteFlags(bits[0])[k];
        }
      }
    }
  }

  lemma DivModShift(k: nat)
    requires k >= 8
    ensures (k - 8) / 8 == k / 8 - 1 && (k - 8) % 8 == k % 8
  {
  }

  lemma {:induction false} UnpackSnoc(bits: bytes, b: byte)
    ensures Unpack(bits + [b]) == Unpack(bits) + ByteFlags(b)
  {
    if bits == [] {
      assert bits + [b] == [b];
      assert Unpack([b]) == ByteFlags(b) + [];
    } else {
      assert (bits + [b])[1..] == bits[1..] + [b];
      UnpackSnoc(bits[1..], b);
    }
  }

  /** hasPiece on a bitfield. */
  predicate HasPieceIn(bitfield: seq<bool>, index: uint32)
  {
    index < |bitfield| && bitfield[index]
  }

  /** After updateBitfield, hasPiece(k) is bit 7 - k % 8 of byte k / 8, and
      false past 8 flags per byte. */
  lemma HasPieceAfterUpdate(bits: bytes, index: uint32)
    ensures HasPieceIn(Unpack(bits), index) <==> index < 8 * |bits| && Bit(bits[index / 8], 7 - index % 8)
  {
    UnpackAt(bits);
  }

  /** The bitfield a new Peer starts from: every piece marked present. */
  function AllPresent(n: nat): (r: seq<bool>)
    ensures |r| == n && forall i :: 0 <= i < n ==> r[i]
  {
    seq(n, _ => true)
  }

  // ---------------------------------------------------------------------
  // The class

  class Peer {
    var ip: bytes
    var port: uint16
    var connected: bool
    var bitfield: seq<bool>
    var choked: bool
    var remoteId: bytes
    var interested: bool
    // The abstract socket.
    var open: bool
    var inbox: bytes
    var outbox: bytes

    /** The socket state as a value. */
    function Socket(): Wire
      reads this
    {
      Wire(open, inbox, outbox)
    }

    /** Peer::Peer: not connected, every piece marked present, choked and
        not interested (peer.h:55-57), and a socket that is not yet open;
        `incoming` is what the remote side will send once it is. */
    constructor (ip: bytes, port: uint16, totalLength: nat, incoming: bytes)
      ensures this.ip == ip && this.port == port
      ensures !connected && choked && !interested && remoteId == []
      ensures bitfield == AllPresent(totalLength)
      ensures !open && inbox == incoming && outbox == []
    {
      this.ip := ip;
      this.port := port;
      connected := false;
      bitfield := AllPresent(totalLength);
      choked := true;
      remoteId := [];
      interested := false;
      open := false;
      inbox := incoming;
      outbox := [];
    }

    /** Peer::hasPiece. */
    predicate HasPiece(index: uint32)
      reads this
    {
      HasPieceIn(bitfield, index)
    }

    /** Peer::sendMessage: builds length, type and payload, then writes. */
    method SendMessage(m: Message) returns (ok: bool)
      modifies this`outbox
      ensures Sent(Socket(), ok) == Send(old(Socket()), m)
    {
      var length := (1 + |m.payload|) % UINT32_MODULUS;
      var data := [ByteOf(length, 0), ByteOf(length, 1), ByteOf(length, 2), ByteOf(length, 3)];
      data := data + [m.kind];
      data := data + m.payload;
      if !open {
        return false;
      }
      outbox := outbox + data;
      return true;
    }

    /** Peer::readMessage: n bytes off the socket, or failure after
        draining what was left. */
    method ReadBytes(n: nat) returns (ok: bool, data: bytes)
      modifies this`inbox
      ensures ok <==> old(open) && n <= |old(inbox)|
      ensures ok ==> data == old(inbox)[..n] && inbox == old(inbox)[n..]
      ensures !ok && open ==> inbox == []
      ensures !open ==> inbox == old(inbox)
    {
      if !open {
        return false, [];
      }
      if |inbox| < n {
        inbox := [];
        return false, [];
      }
      data := inbox[..n];
      inbox := inbox[n..];
      return true, data;
    }

    /** Peer::receiveMessage. */
    method ReceiveMessage() returns (msg: Option<Message>)
      modifies this`inbox
      ensures Received(msg, Socket()) == Receive(old(Socket()))
    {
      var ok, lengthBuf := ReadBytes(4);
      if !ok {
        return None;
      }
      var length := FromBe32(lengthBuf);
      if length == 0 {
        return Some(Message(CHOKE, []));
      }
      var messageData;
      ok, messageData := ReadBytes(length);
      if !ok {
        return None;
      }
      assert old(inbox)[4..][..length] == old(inbox)[4..4 + length];
      assert old(inbox)[4..][length..] == old(inbox)[4 + length..];
      return Some(Message(messageData[0], messageData[1..]));
    }

    /** Peer::performHandshake; a peer id longer than 20 bytes would
        overflow handshake_msg and is excluded. */
    method PerformHandshake(infoHash: bytes, peerId: bytes, stale: bytes) returns (ok: bool)
      requires |peerId| <= 20 && |stale| == 20
      modifies this`outbox, this`inbox, this`open, this`remoteId
      ensures var h := Handshake(old(Socket()), infoHash, peerId, stale);
              ok == h.ok && Socket() == h.wire && remoteId == (if h.remoteId.Some? then h.remoteId.value else old(remoteId))
    {
      if |infoHash| != 20 {
        return false;
      }
      var msg := BuildHandshake(infoHash, peerId, stale);
      if !open {
        return false;
      }
      outbox := outbox + msg;
      var read, response := ReadBytes(68);
      if !read {
        open := false;
        return false;
      }
      var verdict := Hash.VerifyHandshakeResponse(response, infoHash);
      remoteId := verdict.1;
      return verdict.0;
    }

    /** Peer::connect: `reachable` is whether resolve and connect succeed,
        which opens the socket. The handshake decides m_connected;
        the first message must then be a BITFIELD, whose payload is not
        applied. */
    method Connect(infoHash: bytes, peerId: bytes, stale: bytes, reachable: bool) returns (ok: bool)
      requires |peerId| <= 20 && |stale| == 20
      modifies this`outbox, this`inbox, this`open, this`remoteId, this`connected
      ensures !reachable ==> !ok && Socket() == old(Socket()) && connected == old(connected) && remoteId == old(remoteId)
      ensures reachable ==>
                var h := Handshake(old(Socket()).(open := true), infoHash, peerId, stale);
                connected == h.ok &&
                remoteId == (if h.remoteId.Some? then h.remoteId.value else old(remoteId)) &&
                (!h.ok ==> !ok && Socket() == h.wire) &&
                (h.ok ==> var rc := Receive(h.wire);
                          Socket() == rc.wire && (ok <==> rc.msg.Some? && rc.msg.value.kind == BITFIELD))
    {
      if !reachable {
        return false;
      }
      open := true;
      connected := PerformHandshake(infoHash, peerId, stale);
      if !connected {
        return false;
      }
      var response := ReceiveMessage();
      if response.None? || response.value.kind != BITFIELD {
        return false;
      }
      return true;
    }

    /** Peer::updateBitfield: eight flags per byte, most significant bit first. */
    method UpdateBitfield(bits: bytes)
      modifies this`bitfield
      ensures bitfield == Unpack(bits)
    {
      bitfield := [];
      var j := 0;
      while j < |bits|
        invariant 0 <= j <= |bits|
        invariant bitfield == Unpack(bits[..j])
      {
        PushBits(bits[j]);
        UnpackSnoc(bits[..j], bits[j]);
        assert bits[..j + 1] == bits[..j] + [bits[j]];
        j := j + 1;
      }
      assert bits[..j] == bits;
    }

    /** The inner loop of updateBitfield: push (b >> i) & 1 for i = 7 down to 0. */
    method PushBits(b: byte)
      modifies this`bitfield
      ensures bitfield == old(bitfield) + ByteFlags(b)
    {
      var i := 7;
      while i >= 0
        invariant -1 <= i <= 7
        invariant |bitfield| == |old(bitfield)| + 7 - i
        invariant forall k :: 0 <= k < |bitfield| ==>
                    bitfield[k] == if k < |old(bitfield)| then old(bitfield)[k] else ByteFlags(b)[k - |old(bitfield)|]
      {
        bitfield := bitfield + [Bit(b, i)];
        i := i - 1;
      }
      assert bitfield == old(bitfield) + ByteFlags(b);
    }

    /** Peer::requestPiece: REQUEST with index, begin and length big-endian. */
    method RequestPiece(index: uint32, begin: uint32, length: uint32) returns (ok: bool)
      modifies this`outbox
      ensures Sent(Socket(), ok) == Send(old(Socket()), RequestMsg(index, begin, length))
    {
      var payload := RequestPayload(index, begin, length);
      ok := SendMessage(Message(REQUEST, payload));
    }

    /** Peer::downloadPiece. */
    method DownloadPiece(index: uint32, pieceLength: int32, blockSize: int32) returns (r: PieceOutcome)
      requires 0 <= pieceLength && 0 < blockSize && pieceLength + blockSize <= INT32_LIMIT
      modifies this`outbox, this`inbox, this`interested, this`choked
      ensures Download(r, Socket(), interested, choked) ==
              DownloadSpec(old(Socket()), old(interested), old(choked), index, pieceLength, blockSize)
    {
      if !interested {
        var ok := SendMessage(Message(INTERESTED, []));
        if !ok {
          return Failed;
        }
        interested := true;
      }
      if choked {
        var response := ReceiveMessage();
        if response.None? || response.value.kind != UNCHOKE {
          return Failed;
        }
        choked := false;
      }
      r := RequestBlocks(index, pieceLength, blockSize);
    }

    /** The request loop of downloadPiece: offsets 0, B, 2B, ... below the
        piece length, one REQUEST and one reply per block, each block
        copied into the zeroed pieceData vector at its offset. */
    method RequestBlocks(index: uint32, pieceLength: int32, blockSize: int32) returns (r: PieceOutcome)
      requires 0 <= pieceLength && 0 < blockSize && pieceLength + blockSize <= INT32_LIMIT
      modifies this`outbox, this`inbox
      ensures BlocksResult(r, Socket()) == Blocks(old(Socket()), index, Zeros(pieceLength), 0, blockSize)
    {
      var pieceData := new byte[pieceLength](_ => 0);
      assert pieceData[..] == Zeros(pieceLength);
      ghost var whole := Blocks(Socket(), index, pieceData[..], 0, blockSize);
      var offset := 0;
      while offset < pieceLength
        invariant 0 <= offset < pieceLength + blockSize && pieceData.Length == pieceLength
        invariant Blocks(Socket(), index, pieceData[..], offset, blockSize) == whole
        decreases pieceLength - offset
      {
        ghost var before, buf, at := Socket(), pieceData[..], offset;
        var stop := FetchBlock(index, pieceData, offset, blockSize);
        if stop.Some? {
          return stop.value;
        }
        offset := offset + blockSize;
        GoesOn(before, index, buf, at, blockSize, Socket(), pieceData[..], offset, whole);
      }
      return Piece(pieceData[..]);
    }

    /** The body of the request loop at `offset`: REQUEST the block, read
        the reply, copy its data into pieceData. Some(outcome) where the
        source returns, None where the loop goes on. */
    method FetchBlock(index: uint32, pieceData: array<byte>, offset: int32, blockSize: int32) returns (stop: Option<PieceOutcome>)
      requires 0 <= offset < pieceData.Length && 0 < blockSize && pieceData.Length + blockSize <= INT32_LIMIT
      modifies this`outbox, this`inbox, pieceData
      ensures stop.Some? ==> Turn(old(Socket()), index, old(pieceData[..]), offset, blockSize) == Stop(stop.value, Socket())
      ensures stop.None? ==> Turn(old(Socket()), index, old(pieceData[..]), offset, blockSize) == Next(Socket(), pieceData[..])
      ensures Continues(old(Socket()), index, old(pieceData[..]), offset, blockSize,
                        if stop.Some? then Stop(stop.value, Socket()) else Next(Socket(), pieceData[..]))
    {
      ghost var before, buf := Socket(), pieceData[..];
      var length := Min(blockSize, pieceData.Length - offset);
      var ok := RequestPiece(index, offset, length);
      if !ok {
        stop := Some(Failed);
      } else {
        var block := ReceiveMessage();
        if block.None? || block.value.kind != PIECE {
          stop := Some(Failed);
        } else if |block.value.payload| < 8 {
          stop := Some(Failed);
        } else {
          var data := block.value.payload[8..];
          if offset + |data| > pieceData.Length {
            stop := Some(Overrun);
          } else {
            CopyInto(pieceData, offset, data);
            stop := None;
          }
        }
      }
      BlocksNext(before, index, buf, offset, blockSize,
                 if stop.Some? then Stop(stop.value, Socket()) else Next(Socket(), pieceData[..]));
    }
  }

  /** The handshake_msg array of performHandshake, filled in place with
      std::copy and std::fill. Every byte before 48 is written; bytes 48..67
      start out as `stale` and only the first |peerId| of them are
      overwritten. */
  method BuildHandshake(infoHash: bytes, peerId: bytes, stale: bytes) returns (out: bytes)
    requires |infoHash| == 20 && |peerId| <= 20 && |stale| == 20
    ensures out == HandshakeMsg(infoHash, IdField(peerId, stale))
  {
    var msg := HandshakeBuffer(stale);
    ghost var start := msg[..];
    CopyInto(msg, 1, Hash.Protocol());
    CopyInto(msg, 20, Zeros(8));
    CopyInto(msg, 28, infoHash);
    CopyInto(msg, 48, peerId);
    HandshakeFill(start, infoHash, peerId, stale);
    out := msg[..];
  }

  /** The four writes of BuildHandshake over its initial array. */
  lemma HandshakeFill(start: bytes, infoHash: bytes, peerId: bytes, stale: bytes)
    requires |infoHash| == 20 && |peerId| <= 20 && |stale| == 20
    requires |start| == 68 && start[0] == 19 && start[48..] == stale
    ensures Overwrite(Overwrite(Overwrite(Overwrite(start, 1, Hash.Protocol()), 20, Zeros(8)), 28, infoHash), 48, peerId)
            == HandshakeMsg(infoHash, IdField(peerId, stale))
  {
    var s1 := Overwrite(start, 1, Hash.Protocol());
    var s2 := Overwrite(s1, 20, Zeros(8));
    var s3 := Overwrite(s2, 28, infoHash);
    var s4 := Overwrite(s3, 48, peerId);
    var h := HandshakeMsg(infoHash, IdField(peerId, stale));
    HandshakeLayout(infoHash, IdField(peerId, stale));
    OverwriteAt(start, 1, Hash.Protocol());
    OverwriteAt(s1, 20, Zeros(8));
    OverwriteAt(s2, 28, infoHash);
    OverwriteAt(s3, 48, peerId);
    forall k | 0 <= k < 68 ensures s4[k] == h[k] {
      if 1 <= k < 20 {
        assert h[k] == h[1..20][k - 1];
      } else if 28 <= k < 48 {
        assert h[k] == h[28..48][k - 28];
      } else if 48 <= k {
        assert h[k] == h[48..68][k - 48];
        assert start[k] == start[48..][k - 48];
      }
    }
  }

  /** Byte k after a copy: from `data` inside the written range, from
      `buf` outside it. */
  lemma OverwriteAt(buf: bytes, offset: nat, data: bytes)
    requires offset + |data| <= |buf|
    ensures forall k :: 0 <= k < |buf| ==>
              Overwrite(buf, offset, data)[k] == if offset <= k < offset + |data| then data[k - offset] else buf[k]
  {
  }

  /** The 12-byte payload vector of requestPiece, filled byte by byte:
      payload[i], payload[i + 4] and payload[i + 8] are byte i of index,
      begin and length, most significant first. */
  method RequestPayload(index: uint32, begin: uint32, length: uint32) returns (out: bytes)
    ensures out == Be32(index) + Be32(begin) + Be32(length)
  {
    var payload := new byte[12](_ => 0);
    var i := 0;
    while i < 4
      invariant 0 <= i <= 4
      invariant forall k :: 0 <= k < i ==>
                  payload[k] == ByteOf(index, k) && payload[k + 4] == ByteOf(begin, k) && payload[k + 8] == ByteOf(length, k)
    {
      payload[i] := ByteOf(index, i);
      payload[i + 4] := ByteOf(begin, i);
      payload[i + 8] := ByteOf(length, i);
      i := i + 1;
    }
    out := payload[..];
  }

  /** The 68-byte handshake buffer before the copies: the protocol-name
      length in front and, where the peer id goes, the bytes left there. */
  method HandshakeBuffer(stale: bytes) returns (msg: array<byte>)
    requires |stale| == 20
    ensures fresh(msg) && msg.Length == 68 && msg[0] == 19 && msg[48..] == stale
  {
    msg := new byte[68](k => if 48 <= k < 68 then stale[k - 48] else 0);
    msg[0] := 19;
    assert msg[48..] == stale;
  }

  /** std::copy of `data` into `buf` at `offset`. */
  method CopyInto(buf: array<byte>, offset: nat, data: bytes)
    requires offset + |data| <= buf.Length
    modifies buf
    ensures buf[..] == Overwrite(old(buf[..]), offset, data)
  {
    var j := 0;
    while j < |data|
      invariant 0 <= j <= |data|
      invariant forall k :: 0 <= k < buf.Length ==>
                  buf[k] == (if offset <= k < offset + j then data[k - offset] else old(buf[k]))
    {
      buf[offset + j] := data[j];
      j := j + 1;
    }
    assert buf[..] == Overwrite(old(buf[..]), offset, data);
  }
}

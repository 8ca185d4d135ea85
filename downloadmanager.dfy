/** The download coordinator of src/core/DownloadManager.cpp: it connects
    to the peers the tracker named, picks the next missing piece and a peer
    to fetch it from, checks the piece against its SHA-1 from the
    descriptor, and writes the pieces out in order once all are present.

    The network is an input: for every connection attempt a `Link` says
    whether resolve and connect succeed and which bytes the remote side
    will send. The file system is reduced to whether the output file can
    be opened, and the bytes that would be written are returned. */
module DownloadManagement {
  import opened Base
  import Hash
  import PeerWire
  import Torrent
  import Tracker

  /** The 20 bytes a fresh handshake_msg array holds before connect fills it. */
  type Stale = s: bytes | |s| == 20 witness seq(20, _ => 0)

  /** What one connection attempt meets: whether the network lets it
      through, what the remote side sends, and the bytes that call's
      handshake_msg happens to hold. */
  datatype Link = Link(reachable: bool, incoming: bytes, stale: Stale)

  /** The outcome of downloadPiece: the verified piece, std::nullopt, or
      undefined behaviour (a null peer dereferenced, a piece hash read past
      the end of m_pieceHashes, a block copied past the end of the piece). */
  datatype Fetch = Fetched(data: bytes) | Rejected | Undefined

  /** An int converted to uint32_t, as selectPeerForPiece hands its index
      to hasPiece. */
  function AsUint32(n: int32): uint32
  {
    if n < 0 then n + 0x1_0000_0000 else n
  }

  // ---------------------------------------------------------------------
  // Piece sizes

  /** actualPieceLength on plain numbers: the last of `count` pieces holds
      what is left of `total`, every other piece `pieceLength` bytes. */
  function PieceSize(total: int, pieceLength: int, count: int, index: int): int
  {
    if index == count - 1 then total - (count - 1) * pieceLength else pieceLength
  }

  /** With the piece count of getTotalPieces, every piece, the last one
      included, holds between 1 and pieceLength bytes. */
  lemma PieceSizeBounds(total: nat, pieceLength: nat, index: int)
    requires 0 < pieceLength
    ensures var count := (total + pieceLength - 1) / pieceLength;
            1 <= PieceSize(total, pieceLength, count, index) <= pieceLength
  {
    var count := (total + pieceLength - 1) / pieceLength;
    Torrent.Ceiling(total, pieceLength);
    Torrent.MulPred(count, pieceLength);
    if count == 0 {
      Torrent.MulZero(count, pieceLength);
    }
  }

  /** A file cut into pieces of pieceLength bytes, the last one shorter. */
  function Cut(content: bytes, pieceLength: nat): seq<bytes>
    requires 0 < pieceLength
    decreases |content|
  {
    if |content| <= pieceLength then (if content == [] then [] else [content])
    else [content[..pieceLength]] + Cut(content[pieceLength..], pieceLength)
  }

  /** Writing the pieces of a file one after the other gives the file back. */
  lemma {:induction false} CutConcat(content: bytes, pieceLength: nat)
    requires 0 < pieceLength
    ensures Concat(Cut(content, pieceLength)) == content
  {
    if |content| > pieceLength {
      var rest := content[pieceLength..];
      CutConcat(rest, pieceLength);
      var c := Cut(content, pieceLength);
      assert c[0] == content[..pieceLength];
      assert c[1..] == Cut(rest, pieceLength);
      assert content == content[..pieceLength] + rest;
    }
  }

  /** The pieces of a file are as many as getTotalPieces counts, and each is
      as long as actualPieceLength says. */
  lemma {:induction false} CutSizes(content: bytes, pieceLength: nat)
    requires 0 < pieceLength
    ensures var count := (|content| + pieceLength - 1) / pieceLength;
            |Cut(content, pieceLength)| == count &&
            forall i :: 0 <= i < count ==> |Cut(content, pieceLength)[i]| == PieceSize(|content|, pieceLength, count, i)
  {
    var n := |content|;
    var count := (n + pieceLength - 1) / pieceLength;
    if n <= pieceLength {
      if n == 0 {
        DivUnique(n + pieceLength - 1, pieceLength, 0);
      } else {
        DivUnique(n + pieceLength - 1, pieceLength, 1);
      }
    } else {
      var rest := content[pieceLength..];
      CutSizes(rest, pieceLength);
      DivShift(n + pieceLength - 1, pieceLength);
      assert (|rest| + pieceLength - 1) / pieceLength == count - 1;
      var c := Cut(content, pieceLength);
      forall i | 0 <= i < count
        ensures |c[i]| == PieceSize(n, pieceLength, count, i)
      {
        if 0 < i {
          assert c[i] == Cut(rest, pieceLength)[i - 1];
          Torrent.MulPred(count - 1, pieceLength);
        }
      }
    }
  }

  lemma DivUnique(x: nat, d: nat, q: nat)
    requires 0 < d && q * d <= x < q * d + d
    ensures x / d == q
  {
    Torrent.DivMod(x, d);
    var p := x / d;
    Torrent.MulPred(q + 1, d);
    Torrent.MulPred(p + 1, d);
    MulMonotone(p, q, d);
    MulMonotone(q, p, d);
  }

  lemma MulMonotone(a: int, b: int, d: nat)
    ensures a > b ==> a * d >= (b + 1) * d
  {
  }

  lemma DivShift(x: nat, d: nat)
    requires 0 < d <= x
    ensures (x - d) / d == x / d - 1
  {
    Torrent.DivMod(x, d);
    Torrent.MulPred(x / d, d);
    DivUnique(x - d, d, x / d - 1);
  }

  // ---------------------------------------------------------------------
  // Peer selection

  /** A peer selectPeerForPiece may choose: connected and, in the first
      pass, holding the piece. */
  predicate Eligible(p: PeerWire.Peer, index: uint32, holding: bool)
    reads p
  {
    p.connected && (holding ==> p.HasPiece(index))
  }

  /** The position of the first eligible peer; |peers| when there is none. */
  function FirstEligible(peers: seq<PeerWire.Peer>, index: uint32, holding: bool): (k: nat)
    reads peers
    ensures k <= |peers|
    ensures k < |peers| ==> Eligible(peers[k], index, holding)
    ensures forall j :: 0 <= j < k ==> !Eligible(peers[j], index, holding)
  {
    if peers == [] then 0
    else if Eligible(peers[0], index, holding) then 0
    else 1 + FirstEligible(peers[1..], index, holding)
  }

  /** DownloadManager::selectPeerForPiece: the first connected peer that
      has the piece, else the first connected peer, else null. */
  function Pick(peers: seq<PeerWire.Peer>, index: uint32): (p: PeerWire.Peer?)
    reads peers
    ensures p == null <==> forall k :: 0 <= k < |peers| ==> !peers[k].connected
    ensures p != null ==> p in peers && p.connected
    ensures (exists k :: 0 <= k < |peers| && Eligible(peers[k], index, true)) ==> p != null && p.HasPiece(index)
  {
    var h := FirstEligible(peers, index, true);
    var c := FirstEligible(peers, index, false);
    if h < |peers| then peers[h] else if c < |peers| then peers[c] else null
  }

  /** `k` is where FirstEligible stops when peers[k] is eligible and no peer
      before it is. */
  lemma FirstEligibleAt(peers: seq<PeerWire.Peer>, index: uint32, holding: bool, k: nat)
    requires k <= |peers|
    requires k < |peers| ==> Eligible(peers[k], index, holding)
    requires forall j :: 0 <= j < k ==> !Eligible(peers[j], index, holding)
    ensures FirstEligible(peers, index, holding) == k
  {
  }

  // ---------------------------------------------------------------------
  // Piece download

  /** What downloadPiece makes of the peer's outcome: a failed download is
      refused, a complete one is kept only when its SHA-1 is the expected
      hash of the piece. */
  function Verdict(outcome: PeerWire.PieceOutcome, hashes: seq<bytes>, index: nat, sha1: Sha1): Fetch
  {
    match outcome
    case Failed => Rejected
    case Overrun => Undefined
    case Piece(data) =>
      if index >= |hashes| then Undefined
      else if sha1(data) != hashes[index] then Rejected
      else Fetched(data)
  }

  /** A fresh peer that unchokes and then serves the piece: the piece is
      fetched exactly when its hash matches, and refused otherwise. */
  lemma FetchFromCooperatingPeer(w: PeerWire.Wire, index: uint32, data: bytes, hashes: seq<bytes>, sha1: Sha1, rest: bytes)
    requires index < |hashes| && |data| + PeerWire.DEFAULT_BLOCK_SIZE <= PeerWire.INT32_LIMIT
    requires w.open && w.inbox == PeerWire.Frame(PeerWire.Message(PeerWire.UNCHOKE, [])) +
                                  PeerWire.Served(index, data, 0, PeerWire.DEFAULT_BLOCK_SIZE) + rest
    ensures var d := PeerWire.DownloadSpec(w, false, true, index, |data|, PeerWire.DEFAULT_BLOCK_SIZE);
            Verdict(d.outcome, hashes, index, sha1) == if sha1(data) == hashes[index] then Fetched(data) else Rejected
  {
    PeerWire.DownloadFromCooperatingPeer(w, index, data, PeerWire.DEFAULT_BLOCK_SIZE, rest);
  }

  // ---------------------------------------------------------------------
  // Connecting

  /** Whether a new Peer joins m_peers: resolve and connect succeed, the
      handshake is accepted and the first message is a BITFIELD. `id` is
      the peer id handed to connect. */
  predicate Joins(id: bytes, link: Link, infoHash: bytes)
    requires |id| <= 20
  {
    var h := PeerWire.Handshake(PeerWire.Wire(true, link.incoming, []), infoHash, id, link.stale);
    link.reachable && h.ok && PeerWire.Receive(h.wire).msg.Some? &&
    PeerWire.Receive(h.wire).msg.value.kind == PeerWire.BITFIELD
  }

  predicate ShortIds(ids: seq<bytes>)
  {
    forall i :: 0 <= i < |ids| ==> |ids[i]| <= 20
  }

  /** The positions, in order, of the attempts that join. */
  function Joining(ids: seq<bytes>, links: seq<Link>, infoHash: bytes): (r: seq<nat>)
    requires |ids| == |links| && ShortIds(ids)
    ensures forall k :: 0 <= k < |r| ==> r[k] < |ids|
    ensures forall a, b :: 0 <= a < b < |r| ==> r[a] < r[b]
  {
    if ids == [] then []
    else
      var n := |ids| - 1;
      Joining(ids[..n], links[..n], infoHash) + (if Joins(ids[n], links[n], infoHash) then [n] else [])
  }

  /** Exactly the attempts that succeed are kept. */
  lemma {:induction false} JoiningExactly(ids: seq<bytes>, links: seq<Link>, infoHash: bytes, i: nat)
    requires |ids| == |links| && ShortIds(ids) && i < |ids|
    ensures i in Joining(ids, links, infoHash) <==> Joins(ids[i], links[i], infoHash)
  {
    var n := |ids| - 1;
    if i < n {
      JoiningExactly(ids[..n], links[..n], infoHash, i);
    }
  }

    /** A peer connectToPeers kept after `link`: the tracker's address and
      port, connected, every piece marked present, still choked and not
      interested, and its socket open, holding the handshake for `id` in its
      output and what the remote side sent after its handshake and its first
      message in its input; the remote id is the one that handshake read. */
  predicate Kept(p: PeerWire.Peer, info: Tracker.PeerInfo, totalLength: nat, infoHash: bytes, id: bytes, link: Link)
    requires |id| <= 20
    reads p
  {
    var h := PeerWire.Handshake(PeerWire.Wire(true, link.incoming, []), infoHash, id, link.stale);
    |infoHash| == 20 &&
    p.ip == info.ip && p.port == info.port && p.connected &&
    p.bitfield == PeerWire.AllPresent(totalLength) &&
    p.choked && !p.interested && p.open &&
    p.outbox == PeerWire.HandshakeMsg(infoHash, PeerWire.IdField(id, link.stale)) &&
    p.Socket() == PeerWire.Receive(h.wire).wire &&
    h.remoteId.Some? && p.remoteId == h.remoteId.value
  }

  /** The peer ids connectToPeers hands to connect: the tracker's. */
  function TrackerIds(infos: seq<Tracker.PeerInfo>): (ids: seq<bytes>)
    ensures |ids| == |infos| && forall i :: 0 <= i < |infos| ==> ids[i] == infos[i].peerId
  {
    seq(|infos|, i requires 0 <= i < |infos| => infos[i].peerId)
  }

  /** connectToPeers sends, in the peer-id field of every handshake to a
      peer from a compact tracker reply, the bytes handshake_msg happened
      to hold: compact entries carry no peer id. */
  lemma CompactPeersGetStaleId(es: seq<Tracker.Endpoint>, partial: bytes, infoHash: bytes, stale: bytes, k: nat)
    requires forall j :: 0 <= j < |es| ==> Tracker.ValidEndpoint(es[j])
    requires |partial| < Tracker.COMPACT_PEER_LENGTH && |infoHash| == 20 && |stale| == 20 && k < |es|
    ensures var infos := Tracker.CompactPeers(Tracker.Compact(es) + partial);
            k < |infos| &&
            PeerWire.HandshakeMsg(infoHash, PeerWire.IdField(TrackerIds(infos)[k], stale))[48..68] == stale
  {
    var infos := Tracker.CompactPeers(Tracker.Compact(es) + partial);
    Tracker.CompactPeersOfCompact(es, partial);
    assert infos[k].peerId == [];
    PeerWire.HandshakeLayout(infoHash, PeerWire.IdField([], stale));
  }

  // ---------------------------------------------------------------------
  // The class

  /** What `new DownloadManager(&metadata, peers)` yields for a descriptor
      fromFile loaded: a manager, or undefined behaviour when the piece
      length is 0 and getTotalPieces divides by it. */
  datatype Creation = Created(manager: DownloadManager) | DividedByZero

  /** Constructing a manager from any loaded descriptor: the piece length 0
      divides by zero; any other gives a fresh manager with nothing
      downloaded and no peer, the piece count that of getTotalPieces, and
      the expected hashes cut from `pieces` as the constructor cuts them. */
  method Create(meta: Torrent.Metadata, peersInfo: seq<Tracker.PeerInfo>) returns (r: Creation)
    requires meta.pieceLength + PeerWire.DEFAULT_BLOCK_SIZE <= PeerWire.INT32_LIMIT
    requires meta.totalLength < PeerWire.INT32_LIMIT
    ensures r.DividedByZero? <==> meta.pieceLength == 0
    ensures r.Created? ==>
              fresh(r.manager) && r.manager.Valid() && r.manager.meta == meta &&
              r.manager.peersInfo == peersInfo && r.manager.peers == [] &&
              Torrent.PieceCount(meta) == Some(r.manager.totalPieces) &&
              r.manager.downloaded == seq(r.manager.totalPieces, _ => false) &&
              r.manager.pieceData == seq(r.manager.totalPieces, _ => [])
    ensures r.Created? ==>
              Concat(r.manager.pieceHashes) == meta.pieces && |r.manager.pieceHashes| == (|meta.pieces| + 19) / 20 &&
              forall k :: 0 <= k < |r.manager.pieceHashes| ==>
                r.manager.pieceHashes[k] == meta.pieces[20 * k .. Hash.Min(20 * k + 20, |meta.pieces|)]
  {
    var count := Torrent.PieceCount(meta);
    if count.None? {
      return DividedByZero;
    }
    var m := new DownloadManager(meta, peersInfo);
    return Created(m);
  }

  class DownloadManager {
    /** m_metadata, which the manager never changes. */
    const meta: Torrent.Metadata
    var peersInfo: seq<Tracker.PeerInfo>
    var peers: seq<PeerWire.Peer>
    var downloaded: seq<bool>
    var pieceData: seq<bytes>
    var pieceHashes: seq<bytes>
    var totalPieces: int32
    var pieceLength: int32

    /** The sizes agree with the descriptor: one flag and one data slot per
        piece, the piece count that of getTotalPieces. The descriptor's
        lengths are below 2^31 so that the int conversions keep them. */
    predicate Valid()
      reads this
    {
      0 < meta.pieceLength && meta.pieceLength + PeerWire.DEFAULT_BLOCK_SIZE <= PeerWire.INT32_LIMIT &&
      meta.totalLength < PeerWire.INT32_LIMIT &&
      pieceLength == meta.pieceLength &&
      totalPieces == (meta.totalLength + meta.pieceLength - 1) / meta.pieceLength &&
      |downloaded| == totalPieces && |pieceData| == totalPieces
    }

    /** DownloadManager::DownloadManager: nothing downloaded, one empty slot
        per piece, and the piece hashes cut from the descriptor's `pieces`
        20 bytes at a time. */
    constructor (meta: Torrent.Metadata, peersInfo: seq<Tracker.PeerInfo>)
      requires 0 < meta.pieceLength && meta.pieceLength + PeerWire.DEFAULT_BLOCK_SIZE <= PeerWire.INT32_LIMIT
      requires meta.totalLength < PeerWire.INT32_LIMIT
      ensures Valid() && this.meta == meta && this.peersInfo == peersInfo && peers == []
      ensures totalPieces == Torrent.TotalPieces(meta)
      ensures downloaded == seq(totalPieces, _ => false) && pieceData == seq(totalPieces, _ => [])
      ensures Concat(pieceHashes) == meta.pieces && |pieceHashes| == (|meta.pieces| + 19) / 20
      ensures forall k :: 0 <= k < |pieceHashes| ==>
                pieceHashes[k] == meta.pieces[20 * k .. Hash.Min(20 * k + 20, |meta.pieces|)]
    {
      this.meta := meta;
      this.peersInfo := peersInfo;
      peers := [];
      Torrent.TotalPiecesCeiling(meta);
      totalPieces := Torrent.TotalPieces(meta);
      downloaded := seq(Torrent.TotalPieces(meta), _ => false);
      pieceData := seq(Torrent.TotalPieces(meta), _ => []);
      var hashes := Hash.SplitPieceHashes(meta.pieces);
      pieceHashes := hashes;
      pieceLength := meta.pieceLength;
    }

    /** DownloadManager::selectNextPiece: the lowest piece not yet
        downloaded, or -1 when every piece is. */
    method SelectNextPiece() returns (r: int32)
      requires Valid()
      ensures -1 <= r < totalPieces
      ensures r == -1 <==> forall i :: 0 <= i < totalPieces ==> downloaded[i]
      ensures 0 <= r ==> !downloaded[r] && forall i :: 0 <= i < r ==> downloaded[i]
    {
      var i := 0;
      while i < totalPieces
        invariant 0 <= i <= totalPieces
        invariant forall k :: 0 <= k < i ==> downloaded[k]
      {
        if !downloaded[i] {
          return i;
        }
        i := i + 1;
      }
      return -1;
    }

    /** DownloadManager::selectPeerForPiece: two passes over m_peers. */
    method SelectPeerForPiece(index: int32) returns (p: PeerWire.Peer?)
      ensures p == Pick(peers, AsUint32(index))
    {
      var u := AsUint32(index);
      var k := 0;
      while k < |peers|
        invariant 0 <= k <= |peers|
        invariant forall j :: 0 <= j < k ==> !Eligible(peers[j], u, true)
      {
        if peers[k].connected && peers[k].HasPiece(u) {
          FirstEligibleAt(peers, u, true, k);
          return peers[k];
        }
        k := k + 1;
      }
      FirstEligibleAt(peers, u, true, |peers|);
      k := 0;
      while k < |peers|
        invariant 0 <= k <= |peers|
        invariant forall j :: 0 <= j < k ==> !Eligible(peers[j], u, false)
      {
        if peers[k].connected {
          FirstEligibleAt(peers, u, false, k);
          return peers[k];
        }
        k := k + 1;
      }
      FirstEligibleAt(peers, u, false, |peers|);
      return null;
    }

    /** DownloadManager::actualPieceLength: never empty and never longer
        than the piece length. */
    function ActualPieceLength(index: int32): (n: int32)
      reads this
      requires Valid()
      ensures 1 <= n <= pieceLength
    {
      PieceSizeBounds(meta.totalLength, pieceLength, index);
      PieceSize(meta.totalLength, pieceLength, totalPieces, index)
    }

    /** The piece lengths are those of the file cut into pieces: as many
        pieces as totalPieces, each as long as actualPieceLength says. */
    lemma PieceLengthsCut(content: bytes)
      requires Valid() && |content| == meta.totalLength
      ensures |Cut(content, pieceLength)| == totalPieces
      ensures forall i :: 0 <= i < totalPieces ==> |Cut(content, pieceLength)[i]| == ActualPieceLength(i)
    {
      CutSizes(content, pieceLength);
    }

    /** DownloadManager::updateDownloadedPiece: stores the data and sets the
        flag of a piece in range; any other index changes nothing. */
    method UpdateDownloadedPiece(index: int32, data: bytes)
      requires Valid()
      modifies this`downloaded, this`pieceData
      ensures Valid()
      ensures 0 <= index < totalPieces ==>
                downloaded == old(downloaded)[index := true] && pieceData == old(pieceData)[index := data]
      ensures !(0 <= index < totalPieces) ==> downloaded == old(downloaded) && pieceData == old(pieceData)
    {
      if 0 <= index < totalPieces {
        pieceData := pieceData[index := data];
        downloaded := downloaded[index := true];
      }
    }

    /** DownloadManager::downloadPiece. An index outside 0..totalPieces is
        refused (the bound is inclusive, as written); otherwise the chosen
        peer runs its download with actualPieceLength, and the result is
        stored only when its hash matches. */
    method DownloadPiece(index: int32, sha1: Sha1) returns (r: Fetch)
      requires Valid()
      modifies this`downloaded, this`pieceData, peers`outbox, peers`inbox, peers`interested, peers`choked
      ensures Valid()
      ensures index < 0 || index > totalPieces ==>
                r == Rejected && downloaded == old(downloaded) && pieceData == old(pieceData) && unchanged(peers)
      ensures 0 <= index <= totalPieces ==>
                var p := old(Pick(peers, index));
                (p == null ==> r == Undefined && unchanged(peers)) &&
                (p != null ==>
                   var d := old(PeerWire.DownloadSpec(p.Socket(), p.interested, p.choked, index,
                                                      ActualPieceLength(index), PeerWire.DEFAULT_BLOCK_SIZE));
                   p.Socket() == d.wire && p.interested == d.interested && p.choked == d.choked &&
                   r == Verdict(d.outcome, pieceHashes, index, sha1) &&
                   forall q :: q in peers && q != p ==> unchanged(q))
      ensures r.Fetched? && index < totalPieces ==>
                downloaded == old(downloaded)[index := true] && pieceData == old(pieceData)[index := r.data]
      ensures !(r.Fetched? && index < totalPieces) ==> downloaded == old(downloaded) && pieceData == old(pieceData)
    {
      if index < 0 || index > totalPieces {
        return Rejected;
      }
      r := DownloadFrom(index, sha1);
    }

    /** downloadPiece past its index check: select a peer, then fetch. */
    method DownloadFrom(index: int32, sha1: Sha1) returns (r: Fetch)
      requires Valid() && 0 <= index <= totalPieces
      modifies this`downloaded, this`pieceData, peers`outbox, peers`inbox, peers`interested, peers`choked
      ensures Valid()
      ensures var p := old(Pick(peers, index));
              (p == null ==> r == Undefined && unchanged(peers)) &&
              (p != null ==>
                 var d := old(PeerWire.DownloadSpec(p.Socket(), p.interested, p.choked, index,
                                                    ActualPieceLength(index), PeerWire.DEFAULT_BLOCK_SIZE));
                 p.Socket() == d.wire && p.interested == d.interested && p.choked == d.choked &&
                 r == Verdict(d.outcome, pieceHashes, index, sha1) &&
                 forall q :: q in peers && q != p ==> unchanged(q))
      ensures r.Fetched? && index < totalPieces ==>
                downloaded == old(downloaded)[index := true] && pieceData == old(pieceData)[index := r.data]
      ensures !(r.Fetched? && index < totalPieces) ==> downloaded == old(downloaded) && pieceData == old(pieceData)
    {
      var peer := SelectPeerForPiece(index);
      if peer == null {
        // The peer's address is printed before the null check.
        return Undefined;
      }
      r := FetchFrom(peer, index, sha1);
    }

    /** The rest of downloadPiece once a peer is chosen: the piece is
        requested from it, then checked and stored. */
    method FetchFrom(peer: PeerWire.Peer, index: int32, sha1: Sha1) returns (r: Fetch)
      requires Valid() && 0 <= index <= totalPieces
      modifies this`downloaded, this`pieceData, peer`outbox, peer`inbox, peer`interested, peer`choked
      ensures Valid()
      ensures var d := old(PeerWire.DownloadSpec(peer.Socket(), peer.interested, peer.choked, index,
                                                ActualPieceLength(index), PeerWire.DEFAULT_BLOCK_SIZE));
              peer.Socket() == d.wire && peer.interested == d.interested && peer.choked == d.choked &&
              r == Verdict(d.outcome, pieceHashes, index, sha1)
      ensures r.Fetched? && index < totalPieces ==>
                downloaded == old(downloaded)[index := true] && pieceData == old(pieceData)[index := r.data]
      ensures !(r.Fetched? && index < totalPieces) ==> downloaded == old(downloaded) && pieceData == old(pieceData)
    {
      var pieceLen := ActualPieceLength(index);
      var outcome := peer.DownloadPiece(index, pieceLen, PeerWire.DEFAULT_BLOCK_SIZE);
      r := Accept(index, outcome, sha1);
    }

    /** The end of downloadPiece: the peer's outcome checked against the
        expected hash, and stored when it matches. */
    method Accept(index: nat, outcome: PeerWire.PieceOutcome, sha1: Sha1) returns (r: Fetch)
      requires Valid() && index <= totalPieces
      modifies this`downloaded, this`pieceData
      ensures Valid() && r == Verdict(outcome, pieceHashes, index, sha1)
      ensures r.Fetched? && index < totalPieces ==>
                downloaded == old(downloaded)[index := true] && pieceData == old(pieceData)[index := r.data]
      ensures !(r.Fetched? && index < totalPieces) ==> downloaded == old(downloaded) && pieceData == old(pieceData)
    {
      if outcome.Overrun? {
        return Undefined;
      }
      if outcome.Failed? {
        return Rejected;
      }
      if index >= |pieceHashes| {
        return Undefined;
      }
      if sha1(outcome.data) != pieceHashes[index] {
        return Rejected;
      }
      UpdateDownloadedPiece(index, outcome.data);
      return Fetched(outcome.data);
    }

    /** The loop of connectToPeers with the peer id handed to each connect
        as a parameter: a new Peer per tracker entry, kept when connect
        succeeds. */
    method ConnectEach(ids: seq<bytes>, links: seq<Link>)
      requires |ids| == |links| == |peersInfo| && ShortIds(ids)
      modifies this`peers
      ensures var joined := Joining(ids, links, meta.infoHash);
              |peers| == |old(peers)| + |joined| && peers[..|old(peers)|] == old(peers) &&
              (forall k :: 0 <= k < |joined| ==>
                 Kept(peers[|old(peers)| + k], peersInfo[joined[k]], meta.totalLength, meta.infoHash, ids[joined[k]], links[joined[k]]))
      ensures forall k :: |old(peers)| <= k < |peers| ==> fresh(peers[k])
    {
      var added := Collect(peersInfo, meta.totalLength, meta.infoHash, ids, links);
      peers := peers + added;
      assert peers[..|old(peers)|] == old(peers);
      assert forall k :: 0 <= k < |added| ==> peers[|old(peers)| + k] == added[k];
    }

    /** connectToPeers as written: each connect gets the tracker's peer id
        for that peer as the local id. */
    method ConnectToPeers(links: seq<Link>)
      requires |links| == |peersInfo| && ShortIds(TrackerIds(peersInfo))
      modifies this`peers
      ensures var joined := Joining(TrackerIds(peersInfo), links, meta.infoHash);
              |peers| == |old(peers)| + |joined| && peers[..|old(peers)|] == old(peers) &&
              forall k :: 0 <= k < |joined| ==>
                Kept(peers[|old(peers)| + k], peersInfo[joined[k]], meta.totalLength, meta.infoHash,
                     peersInfo[joined[k]].peerId, links[joined[k]])
      ensures forall k :: |old(peers)| <= k < |peers| ==> fresh(peers[k])
    {
      ConnectEach(TrackerIds(peersInfo), links);
    }

    /** connectToPeers with the client's own 20-byte peer id in every
        handshake, as BEP 3 asks: every kept peer was sent exactly that id. */
    method ConnectToPeersAs(localId: bytes, links: seq<Link>)
      requires |localId| == 20 && |links| == |peersInfo|
      modifies this`peers
      ensures var joined := Joining(seq(|peersInfo|, _ => localId), links, meta.infoHash);
              |peers| == |old(peers)| + |joined| && peers[..|old(peers)|] == old(peers) &&
              forall k :: |old(peers)| <= k < |peers| ==>
                fresh(peers[k]) && peers[k].connected &&
                |meta.infoHash| == 20 && peers[k].outbox == PeerWire.HandshakeMsg(meta.infoHash, localId)
    {
      var ids := seq(|peersInfo|, _ => localId);
      ConnectEach(ids, links);
      forall k | |old(peers)| <= k < |peers|
        ensures peers[k].connected && |meta.infoHash| == 20 && peers[k].outbox == PeerWire.HandshakeMsg(meta.infoHash, localId)
      {
        var joined := Joining(ids, links, meta.infoHash);
        var j := k - |old(peers)|;
        assert Kept(peers[|old(peers)| + j], peersInfo[joined[j]], meta.totalLength, meta.infoHash, ids[joined[j]], links[joined[j]]);
        assert peers[|old(peers)| + j] == peers[k];
      }
    }

    /** DownloadManager::assembleFile. The output path gets the name
        appended first; the file is written, piece after piece, only when
        every piece is present and the path can be opened. */
    method AssembleFile(outputPath: bytes, writable: bool) returns (ok: bool, path: bytes, file: Option<bytes>)
      requires Valid()
      ensures path == outputPath + meta.name
      ensures ok <==> writable && forall i :: 0 <= i < totalPieces ==> downloaded[i]
      ensures file == if ok then Some(Concat(pieceData)) else None
    {
      path := outputPath + meta.name;
      var i := 0;
      while i < totalPieces
        invariant 0 <= i <= totalPieces
        invariant forall k :: 0 <= k < i ==> downloaded[k]
      {
        if !downloaded[i] {
          return false, path, None;
        }
        i := i + 1;
      }
      if !writable {
        return false, path, None;
      }
      var content := [];
      i := 0;
      while i < totalPieces
        invariant 0 <= i <= totalPieces
        invariant content == Concat(pieceData[..i])
      {
        ConcatSnoc(pieceData[..i], pieceData[i]);
        assert pieceData[..i + 1] == pieceData[..i] + [pieceData[i]];
        content := content + pieceData[i];
        i := i + 1;
      }
      assert pieceData[..i] == pieceData;
      return true, path, Some(content);
    }
  }

  /** The peers connectToPeers keeps, in order: a new Peer per tracker
      entry, kept when connect succeeds. */
  method Collect(infos: seq<Tracker.PeerInfo>, totalLength: nat, infoHash: bytes, ids: seq<bytes>, links: seq<Link>)
    returns (added: seq<PeerWire.Peer>)
    requires |ids| == |links| == |infos| && ShortIds(ids)
    ensures var joined := Joining(ids, links, infoHash);
            |added| == |joined| &&
            (forall k :: 0 <= k < |joined| ==> Kept(added[k], infos[joined[k]], totalLength, infoHash, ids[joined[k]], links[joined[k]])) &&
            forall k :: 0 <= k < |added| ==> fresh(added[k])
  {
    added := [];
    var i := 0;
    ghost var joined: seq<nat> := [];
    assert ids[..0] == [] && links[..0] == [];
    while i < |infos|
      invariant 0 <= i <= |infos|
      invariant joined == Joining(ids[..i], links[..i], infoHash)
      invariant |added| == |joined|
      invariant forall k :: 0 <= k < |joined| ==> Kept(added[k], infos[joined[k]], totalLength, infoHash, ids[joined[k]], links[joined[k]])
      invariant forall k :: 0 <= k < |added| ==> fresh(added[k])
    {
      var peer, ok := Attempt(infos[i], totalLength, infoHash, ids[i], links[i]);
      JoiningSnoc(ids, links, infoHash, i);
      if ok {
        added := added + [peer];
        joined := joined + [i];
      }
      i := i + 1;
    }
    assert ids[..i] == ids && links[..i] == links;
  }

  /** One iteration of connectToPeers: a new Peer for the tracker entry,
      then connect. */
  method Attempt(info: Tracker.PeerInfo, totalLength: nat, infoHash: bytes, id: bytes, link: Link)
    returns (peer: PeerWire.Peer, ok: bool)
    requires |id| <= 20
    ensures fresh(peer) && ok == Joins(id, link, infoHash)
    ensures ok ==> Kept(peer, info, totalLength, infoHash, id, link)
  {
    peer := new PeerWire.Peer(info.ip, info.port, totalLength, link.incoming);
    ok := peer.Connect(infoHash, id, link.stale, link.reachable);
  }

  /** One more attempt: Joining over i + 1 entries is Joining over i
      entries, and i when that attempt joins. */
  lemma JoiningSnoc(ids: seq<bytes>, links: seq<Link>, infoHash: bytes, i: nat)
    requires |ids| == |links| && i < |ids| && ShortIds(ids)
    ensures Joining(ids[..i + 1], links[..i + 1], infoHash) ==
            Joining(ids[..i], links[..i], infoHash) + (if Joins(ids[i], links[i], infoHash) then [i] else [])
  {
    assert ids[..i + 1][..i] == ids[..i] && links[..i + 1][..i] == links[..i];
  }
}

# A verified model of a small BitTorrent client

This project models the core of a command-line BitTorrent client written in C++. The client:

- reads a `.torrent` descriptor;
- asks the tracker named in it for peers;
- connects to those peers over the peer wire protocol of BEP 3;
- downloads every piece, checks each against its SHA-1 digest and writes the file.

The project has seven modules, one per source file plus a shared base:

- `Base` (`base.dfy`) holds bytes, fixed-width integers, decimal text the way `std::to_string` writes it and `std::atol`/`std::atoll` read it, and big-endian 32-bit words.
- `Bencode` (`bencode.dfy`) models `src/utils/bencode.cpp`.
  - `Encode` and `Decode` are the specifications.
  - `EncodeValue` and `DecodeValue` follow the C++ loops and are proved to compute them.
  - A dictionary is kept the way the source's `nlohmann::json` object keeps it: keys ordered, one entry per key, and a repeated key overwrites the earlier value.
  - The round trip `Decode(Encode(v) + t)` is proved for every well-formed value.
- `Hash` (`hash.dfy`) models `src/utils/hash.cpp`:
  - lowercase hex;
  - the percent-encoding of hex text (`urlEncode`), including the `std::stoul` exception and the out-of-range table read it can reach;
  - the split of `pieces` into 20-byte digests;
  - the check of a received handshake.
- `Torrent` (`torrent.dfy`) models `TorrentMetadata::fromFile` and `getTotalPieces` of `src/core/torrent.cpp`, including the order in which they fail.
- `Tracker` (`tracker.dfy`) models `src/core/tracker.cpp`:
  - the announce URL built by `buildTrackerUrl`;
  - the URL splitter `parseUrl`, a regular expression written out as a function;
  - the reading of the tracker's reply in `getPeers`, including the compact peer list of BEP 23.
- `PeerWire` (`peer.dfy`) models `src/core/peer.cpp`.
  - `Peer` is a class whose fields the methods update.
  - The socket is three fields: `open`, `inbox` (the bytes the remote side will still send) and `outbox` (every byte written).
  - `connect`, `performHandshake`, `sendMessage`, `receiveMessage`, `updateBitfield`, `requestPiece` and `downloadPiece` are methods.
  - Each method is proved against a function over the socket state.
- `DownloadManagement` (`downloadmanager.dfy`) models `src/core/DownloadManager.cpp`. `DownloadManager` is a class. Its methods:
  - choose the next missing piece and a peer for it;
  - fetch and verify a piece;
  - connect to the tracker's peers;
  - assemble the file.

SHA-1, the network and the file system are inputs:

- SHA-1 is a parameter of type `Sha1`: any function that maps every message to 20 bytes.
- For each connection attempt, a `Link` says whether resolve/connect succeed, what the remote side will send, and which bytes that call's handshake buffer holds before it is filled.
- For the output file, a flag says whether it can be opened.

Undefined behaviour in the source is an explicit outcome, never taken for granted:

- a null pointer dereferenced;
- a `std::vector` or `std::array` read past its end;
- a `std::copy` past the end of a buffer;
- an integer division by zero (`getTotalPieces` for a piece length of 0, which `fromFile` accepts).

Four behaviours of the code the model keeps:

- Bencode dictionaries are decoded into `nlohmann::json` objects, which are `std::map`s. So a dictionary is re-encoded with its keys sorted, as BEP 3 requires, even when the input listed them out of order. A repeated key keeps the later value (`FixtureUnsortedDict`, `FixtureRepeatedKey`).
- A zero-length (keep-alive) message is read as a CHOKE message with no payload (`KeepAliveIsChoke`).
- `downloadPiece` accepts the index `m_totalPieces` (`>` rather than `>=` at `DownloadManager.cpp:88`). For that index the model returns:
  - `Undefined` when the peer delivers the piece and `m_pieceHashes` has no entry at that index, because the hash check then reads past its end;
  - `Rejected` when the download fails or the hash there does not match;
  - `Fetched` when it matches, in which case nothing is stored, because `updateDownloadedPiece` ignores the index.
- An announce URL with a port but no path never parses once `buildTrackerUrl` appends the query, because the '?' follows the port digits. `getPeers` then yields nothing (`AnnounceWithPortWithoutPath`).

## Model

| member | source | states |
|---|---|---|
| Base.DecimalRoundTrip | src/utils/bencode.cpp:10-11 | the decimal digits written for a string length read back as that length |
| Base.LeadingNumberOfDecimal | src/utils/bencode.cpp:47 | `std::atol` on the decimal text of n followed by a non-digit gives n |
| Base.AtoLLOfDecimal | src/utils/bencode.cpp:59 | `std::atoll` on `std::to_string(n)` followed by a non-digit gives n back, for every int64 n including negative ones |
| Base.Be32RoundTrip | src/core/peer.cpp:107-110 | the four big-endian length bytes sendMessage writes read back as the same uint32 in receiveMessage |
| Bencode.InsertLookup | src/utils/bencode.cpp:92 | after `dict[key] = value` the key maps to the new value and every other key keeps its old value |
| Bencode.InsertEntries | src/utils/bencode.cpp:92 | the assignment adds the new entry and no entry other than those already there |
| Bencode.InsertSorted | src/utils/bencode.cpp:92 | the assignment keeps the keys strictly ordered, so each key appears once |
| Bencode.EncodeValue | src/utils/bencode.cpp:8-34 | the recursive encoder computes exactly `Encode` for strings, integers, lists and dictionaries |
| Bencode.EncodeListValue | src/utils/bencode.cpp:16-23 | the list loop appends 'l', each item's encoding in order, then 'e' |
| Bencode.EncodeDictValue | src/utils/bencode.cpp:24-32 | the dictionary loop appends 'd', each key and value in key order, then 'e' |
| Bencode.DecodeValue | src/utils/bencode.cpp:36-100 | decode/decodeValue computes exactly `Decode`, failures included |
| Bencode.DecodeListValue | src/utils/bencode.cpp:62-76 | the list loop decodes items up to 'e' and fails when an item fails or the input runs out |
| Bencode.DecodeDictValue | src/utils/bencode.cpp:77-97 | the dictionary loop reads key then value, fails on a non-string key, a failed value or a missing 'e' |
| Bencode.Decode | src/utils/bencode.cpp:40-100 | a successful decode consumes at least two bytes and no more than it was given |
| Bencode.DecodeStringCases | src/utils/bencode.cpp:43-54 | a string is the `atol` length of bytes after the first colon, and fails when they overrun the input |
| Bencode.DecodeStringNoColon | src/utils/bencode.cpp:44-45 | a string without a colon fails |
| Bencode.DecodeIntegerCases | src/utils/bencode.cpp:55-61 | an integer is `atoll` of the text after 'i' and consumes up to the first 'e' |
| Bencode.DecodeIntegerNoEnd | src/utils/bencode.cpp:56-57 | an integer without a closing 'e' fails |
| Bencode.ContainerFailures | src/utils/bencode.cpp:66-95 | a container body that runs out, holds a failing item, or has a non-string key, fails |
| Bencode.DecodeClosingTag | src/utils/bencode.cpp:60-96 | every decoded integer, list or dictionary ends on an 'e' |
| Bencode.DecodeWellFormed | src/utils/bencode.cpp:77-97 | every decoded value is well formed: dictionary keys strictly ordered at every depth |
| Bencode.DecodeEncode | src/utils/bencode.cpp:8-100 | decoding the encoding of any well-formed value, followed by any bytes, gives the value back and consumes exactly the encoding |
| Bencode.DecodeReencode | src/utils/bencode.cpp:8-100 | whatever decodes re-encodes to bytes that decode to the same value |
| Bencode.FixtureString | src/utils/bencode.cpp:43-54 | "4:spam" decodes to "spam", 6 bytes consumed |
| Bencode.FixtureShortString | src/utils/bencode.cpp:48-50 | "4:sp" fails |
| Bencode.FixtureInteger | src/utils/bencode.cpp:55-61 | "i52e" decodes to 52 |
| Bencode.FixtureLenientInteger | src/utils/bencode.cpp:59 | "iabce" decodes to 0, because `atoll` reads no digits |
| Bencode.FixtureOpenInteger | src/utils/bencode.cpp:56-57 | "i5" fails |
| Bencode.FixtureEmptyList | src/utils/bencode.cpp:62-76 | "le" decodes to the empty list |
| Bencode.FixtureOpenList | src/utils/bencode.cpp:74 | a list without its 'e' fails |
| Bencode.FixtureUnsortedDict | src/utils/bencode.cpp:77-97 | "d1:bi1e1:ai2ee" decodes to a dictionary ordered a, b |
| Bencode.FixtureSortedReencode | src/utils/bencode.cpp:24-32 | that dictionary re-encodes in key order |
| Bencode.FixtureRepeatedKey | src/utils/bencode.cpp:92 | a repeated key keeps the later value |
| Hash.HexShape | src/utils/hash.cpp:42-49 | the hex text has two characters per byte, high nibble first, lowercase |
| Hash.HashToHex | src/utils/hash.cpp:42-49 | hash_to_hex's loop computes `Hex` |
| Hash.BytesToHex | src/utils/hash.cpp:51-58 | bytesToHex's loop computes the same `Hex` |
| Hash.InitializeUnreservedChars | src/utils/hash.cpp:60-70 | a fresh 256-entry table whose entry c is true exactly for the unreserved characters of section 2.3 of RFC 3986 |
| Hash.UrlEncode | src/utils/hash.cpp:72-87 | the loop computes `UrlEncodeSpec`, including the std::invalid_argument case and the out-of-table read |
| Hash.HexPairValue | src/utils/hash.cpp:79 | `stoul(…, 16)` of a byte's two hex digits gives the byte |
| Hash.UrlEncodeHex | src/utils/hash.cpp:72-87 | urlEncode of hex text escapes byte by byte: unreserved bytes as themselves, others as '%' and two digits |
| Hash.UrlEncodeHexRoundTrip | src/utils/hash.cpp:72-87 | urlEncode of any hex text succeeds, takes one to three characters per byte, and percent-decodes back to the bytes |
| Hash.SplitPieceHashes | src/utils/hash.cpp:89-95 | ⌈n/20⌉ chunks; chunk k is bytes 20k up to min(20k+20, n); all but the last are 20 bytes; together they are the input |
| Hash.VerifyHandshakeResponse | src/utils/hash.cpp:97-121 | accepted exactly when byte 0 is 19, bytes 1..19 are the protocol name and bytes 28..47 the info hash; the peer id is bytes 48..67 on success, empty otherwise |
| Hash.ReservedBytesIgnored | src/utils/hash.cpp:97-121 | the reserved bytes 20..27 never change the verdict or the peer id |
| Torrent.Load | src/core/torrent.cpp:8-52 | loaded metadata keeps the decoded descriptor as m_data and carries a 20-byte info hash |
| Torrent.LoadUndecodable | src/core/torrent.cpp:17-20 | content that does not decode is refused with the decoding error |
| Torrent.LoadNeedsAnnounce | src/core/torrent.cpp:26-28 | a descriptor without "announce" is refused with the missing-announce error |
| Torrent.LoadNeedsTypedFields | src/core/torrent.cpp:29-39 | the load fails with a type error when "announce" is not a string, "piece length" is missing or not an integer, "pieces" or "name" is missing or not a string, or "length" is present but not an integer |
| Torrent.LoadDescriptor | src/core/torrent.cpp:8-52 | loading an encoded descriptor yields its announce URL, piece length, pieces, name, the length or the unset value, and the SHA-1 of the re-encoded info dictionary |
| Torrent.FieldsOfDescriptor | src/core/torrent.cpp:21-52 | the same field extraction on the decoded value |
| Torrent.TotalPiecesCeiling | src/core/torrent.cpp:67 | when nothing wraps, the count is ⌈total/pieceLength⌉: the pieces cover the total, the last is not empty, and zero only for an empty file |
| Torrent.TotalPiecesFixtures | src/core/torrent.cpp:67 | 1024 and 1000 bytes in 256-byte pieces both give 4 pieces |
| Torrent.PieceCount | src/core/torrent.cpp:67 | getTotalPieces divides by zero exactly when the piece length is 0; otherwise, when nothing wraps, it gives ⌈total/pieceLength⌉ |
| Tracker.CompactPeer | src/core/tracker.cpp:153-168 | the chunk is the compact entry of its four address bytes and the returned port, and the peer has no peer id |
| Tracker.CompactPeerOfEntry | src/core/tracker.cpp:153-168 | the compact entry of any endpoint reads back as its dotted address and its port, with no peer id |
| Tracker.ParsePeers | src/core/tracker.cpp:149-170 | one peer per complete 6-byte chunk, peer k read from chunk k, a trailing partial chunk ignored |
| Tracker.CompactPeersOfCompact | src/core/tracker.cpp:149-170 | a compact list reads back as each endpoint in order, dotted address and port, whatever partial entry trails it |
| Tracker.ReadReplyValue | src/core/tracker.cpp:120-172 | the reply-reading loop computes `FromReply` |
| Tracker.ReplyFailures | src/core/tracker.cpp:115-144 | a body that does not decode, or a reply without "peers", yields no response |
| Tracker.ReadEncodedReply | src/core/tracker.cpp:115-172 | an encoded reply reads back as its compact peers and counts, 0 for each absent count |
| Tracker.InfoHashParam | src/core/tracker.cpp:190 | the info_hash parameter has one to three characters per byte and percent-decodes back to the info hash |
| Tracker.ParseUrlText | src/core/tracker.cpp:29-58 | parseUrl recovers protocol, host, port and target of any URL assembled from valid parts; the default port and "/" fill in the missing ones |
| Tracker.ParsedUrlText | src/core/tracker.cpp:29-58 | conversely, every URL parseUrl accepts is assembled from valid parts, and the parts it returns are those, with the defaults filled in; any other URL makes it throw |
| Tracker.HostEnd | src/core/tracker.cpp:37 | the host group is the longest run of bytes other than '/' and ':' |
| Tracker.PortThenNoTarget | src/core/tracker.cpp:37-56 | after a port, anything but '/' or the end of the URL makes parseUrl throw |
| Tracker.CaselessHttpGets443 | src/core/tracker.cpp:47 | "http" in another case defaults to port 443, because the port comparison is case-sensitive |
| Tracker.ParseUrlNeedsHttp | src/core/tracker.cpp:37-56 | a URL that does not start with "http" in some case is refused |
| Tracker.QueryHasNoLineBreak | src/core/tracker.cpp:188-196 | the query string holds no line break whenever the peer id holds none |
| Tracker.TrackerUrlTarget | src/core/tracker.cpp:71-75 | the announce URL with its query parses back into the announce's protocol, host and port, with the path and query as target |
| Tracker.GetPeers | src/core/tracker.cpp:60-178 | getPeers computes `Announce`: build, parse, exchange, read the reply |
| Tracker.AnnounceReadsReply | src/core/tracker.cpp:60-178 | for an announce URL of valid parts with a non-empty path, and a peer id without CR or LF, getPeers' result is the reading of whatever body the tracker returns |
| Tracker.AnnounceWithPortWithoutPath | src/core/tracker.cpp:60-82 | for an announce URL with a port and no path, getPeers yields nothing, whatever the tracker would return |
| PeerWire.Peer.constructor | src/core/peer.cpp:11-21 | a new peer is not connected, choked, not interested, marks every piece present, and its socket is not yet open |
| PeerWire.Peer.SendMessage | src/core/peer.cpp:100-126 | writes the length prefix, type and payload exactly when the socket is open |
| PeerWire.Peer.ReadBytes | src/core/peer.cpp:162-176 | succeeds exactly when the socket is open and holds n bytes, returning them; a failed read on an open socket drains it |
| PeerWire.Peer.ReceiveMessage | src/core/peer.cpp:128-160 | computes `Receive`: length prefix, then type and payload |
| PeerWire.ReceiveFrame | src/core/peer.cpp:100-160 | a message framed as sendMessage writes it is read back as the same message, leaving the rest |
| PeerWire.KeepAliveIsChoke | src/core/peer.cpp:142-144 | a zero length prefix reads as CHOKE with no payload |
| PeerWire.HandshakeLayout | src/core/peer.cpp:64-72 | the handshake is 68 bytes: 19, the protocol name, eight zero bytes, the info hash, the peer id |
| PeerWire.HandshakeAccepted | src/core/peer.cpp:91 | the client's own handshake passes verifyHandshakeResponse and yields the peer id it carries |
| PeerWire.IdField | src/core/peer.cpp:65-72 | bytes 48..67 start with the given peer id; the rest are what the uninitialised array held |
| PeerWire.BuildHandshake | src/core/peer.cpp:64-72 | filling the array in place yields the handshake with the peer id over the leftover bytes |
| PeerWire.CopyInto | src/core/peer.cpp:69-72 | `std::copy` overwrites exactly the target range |
| PeerWire.HandshakeRejectsBadHash | src/core/peer.cpp:59-62 | an info hash that is not 20 bytes fails without touching the socket |
| PeerWire.HandshakeWithPeer | src/core/peer.cpp:58-98 | against a peer answering with the same info hash: success, the handshake written, the remote id recorded |
| PeerWire.Peer.PerformHandshake | src/core/peer.cpp:58-98 | computes `Handshake` and records the remote id it returns |
| PeerWire.Peer.Connect | src/core/peer.cpp:30-56 | fails without I/O when unreachable; otherwise opens the socket, is connected iff the handshake succeeds, records the remote id the handshake read, and returns true iff the next message is a BITFIELD |
| PeerWire.UnpackAt | src/core/peer.cpp:183-192 | the bitfield has 8 flags per byte; flag k is bit 7 − k mod 8 of byte k div 8 |
| PeerWire.Peer.UpdateBitfield | src/core/peer.cpp:183-192 | the loop computes `Unpack` of the received bytes |
| PeerWire.HasPieceAfterUpdate | src/core/peer.cpp:178-180 | after an update, hasPiece(i) holds iff i is within the bitfield and its bit is set |
| PeerWire.RequestPayload | src/core/peer.cpp:203-208 | the REQUEST payload is index, begin and length, big-endian |
| PeerWire.Peer.RequestPiece | src/core/peer.cpp:195-212 | sends the REQUEST message |
| PeerWire.Peer.DownloadPiece | src/core/peer.cpp:214-264 | computes `DownloadSpec`: INTERESTED once, UNCHOKE awaited when choked, then the block loop |
| PeerWire.Peer.RequestBlocks | src/core/peer.cpp:237-263 | the block loop over a zeroed buffer computes `Blocks` |
| PeerWire.Peer.FetchBlock | src/core/peer.cpp:241-259 | one request and its PIECE answer, copied in place into the piece buffer |
| PeerWire.SpansCover | src/core/peer.cpp:240-241 | the requested blocks are 1..BLOCK_SIZE bytes each and cover the piece exactly, in order |
| PeerWire.DownloadFromCooperatingPeer | src/core/peer.cpp:214-264 | a peer that unchokes and serves every requested block yields exactly its data, after INTERESTED and the requests in order |
| PeerWire.ShortBlockFails | src/core/peer.cpp:252-255 | a PIECE payload shorter than 8 bytes fails the download |
| PeerWire.BlocksLength | src/core/peer.cpp:237-263 | a completed piece is as long as the requested piece length |
| PeerWire.InterestedLatched | src/core/peer.cpp:221-227 | after a download the peer is interested iff it was before or the socket was open |
| PeerWire.ChokedClearedOnlyByUnchoke | src/core/peer.cpp:229-235 | a choked peer becomes unchoked only by receiving UNCHOKE |
| DownloadManagement.Create | src/core/DownloadManager.cpp:11-22 | construction divides by zero exactly when the piece length is 0; otherwise it yields a fresh manager with no peers, nothing downloaded, empty piece slots, getTotalPieces' piece count, and the expected hashes cut in 20-byte chunks that concatenate back to `pieces` |
| DownloadManagement.DownloadManager.constructor | src/core/DownloadManager.cpp:11-22 | the piece count from the metadata, no piece downloaded, and the piece hashes cut in 20-byte chunks that concatenate back to `pieces` |
| DownloadManagement.DownloadManager.SelectNextPiece | src/core/DownloadManager.cpp:42-49 | the first missing piece, or −1 exactly when every piece is downloaded |
| DownloadManagement.Pick | src/core/DownloadManager.cpp:51-64 | null exactly when no peer is connected; otherwise a connected peer, and one holding the piece whenever some connected peer does |
| DownloadManagement.DownloadManager.SelectPeerForPiece | src/core/DownloadManager.cpp:51-64 | the two loops return `Pick` of the peers |
| DownloadManagement.DownloadManager.ActualPieceLength | src/core/DownloadManager.cpp:66-74 | every piece length lies between 1 and the piece length |
| DownloadManagement.DownloadManager.PieceLengthsCut | src/core/DownloadManager.cpp:66-74 | cutting a file of the total length gives the piece count, each piece as long as actualPieceLength says |
| DownloadManagement.CutConcat | src/core/DownloadManager.cpp:66-74 | the cut pieces concatenate back to the file |
| DownloadManagement.DownloadManager.UpdateDownloadedPiece | src/core/DownloadManager.cpp:76-83 | an index in range marks that piece present with its data; any other index changes nothing |
| DownloadManagement.DownloadManager.DownloadPiece | src/core/DownloadManager.cpp:85-119 | rejects indices outside 0..m_totalPieces and changes nothing; undefined without a peer (null dereference); otherwise the chosen peer downloads the piece, which is checked and stored. Only that peer's socket, interest and choke flags change, and only that piece's entries |
| DownloadManagement.DownloadManager.FetchFrom | src/core/DownloadManager.cpp:103-118 | the peer downloads the piece and its hash is checked. The peer's socket, interest and choke flags are those of `DownloadSpec`, and the piece is stored only when accepted |
| DownloadManagement.DownloadManager.Accept | src/core/DownloadManager.cpp:106-118 | the piece is kept only when the peer delivered it and its SHA-1 equals the expected hash |
| DownloadManagement.FetchFromCooperatingPeer | src/core/DownloadManager.cpp:103-118 | from a cooperating peer the piece is accepted exactly when its SHA-1 matches |
| DownloadManagement.JoiningExactly | src/core/DownloadManager.cpp:26-35 | an attempt is kept exactly when connect succeeds for it |
| DownloadManagement.DownloadManager.ConnectToPeers | src/core/DownloadManager.cpp:24-36 | appends the peers whose connect succeeds, in tracker order. Each is fresh, connected, with the tracker's address and every piece marked present, still choked and not interested. Its socket is open, holding the handshake sent for the tracker's peer id and the remote side's bytes left after its handshake and first message. Its remote id is the one that handshake read |
| DownloadManagement.CompactPeersGetStaleId | src/core/DownloadManager.cpp:29 | for peers from a compact reply, the handshake's peer id field is whatever the array held |
| DownloadManagement.DownloadManager.ConnectToPeersAs | src/core/DownloadManager.cpp:24-36 | with the client's own id, every new peer sent exactly the handshake carrying that id |
| DownloadManagement.DownloadManager.AssembleFile | src/core/DownloadManager.cpp:123-143 | the name is appended to the path; success iff every piece is present and the file opens, and then the file is the pieces in order |

## Left out

- Sockets, DNS resolution and timeouts are not modelled. The socket is reduced to its remaining input, its output log and an open flag.
  - A write to an open socket always succeeds. `boost::asio::write` can fail on an open socket, after a connection reset for example, and the model does not capture that. PeerWire.Peer.SendMessage, PeerWire.Peer.PerformHandshake and PeerWire.InterestedLatched rely on this assumption.
  - A `read_some` that returns fewer bytes than asked is one read here.
  - The receive timeout parameter is ignored, as the source ignores it.
- The HTTP exchange of `getPeers` is an input: the reply body, or nothing when the request fails. The Beast request object, the Host header and the User-Agent header are not modelled.
- SHA-1 (OpenSSL's EVP interface in `computeSHA1`) is a parameter. Any function that returns 20 bytes for every input will do.
- File I/O is not modelled:
  - the descriptor's content is an input of `Load`;
  - the output file is reduced to whether it opens;
  - the bytes that would be written are returned.
- Console and error-stream logging, `printInfo` and `Main.cpp` are not modelled.
- Exceptions are results:
  - `fromFile`'s exceptions are the `LoadError` values;
  - everything `getPeers` catches becomes `None`.
- `getConnectedPeers` is the `peers` field itself, so it has no member of its own.
- Values the source never initialises are parameters:
  - `m_total_length` when "length" is absent (`unsetLength`);
  - the handshake bytes that `peer_id` does not overwrite (`Link.stale`, one value per connection attempt).
- DownloadManagement.DownloadManager.constructor requires a non-zero piece length, because getTotalPieces divides by it. DownloadManagement.Create covers every loaded descriptor and yields `DividedByZero` for a piece length of 0.
- DownloadManagement.DownloadManager.constructor requires the piece length plus one block, and the total length, to be below 2^31. Larger values make the `int` conversions in `getTotalPieces`, `actualPieceLength` and `downloadPiece`'s offset loop wrap. `Torrent.TotalPieces` models that conversion, but the manager does not.
- DownloadManagement.Create requires the same two bounds as the constructor, for the same reason.
- Torrent.TotalPiecesCeiling is stated only where `size_t` arithmetic does not wrap and the count fits an `int`.
- PeerWire.Peer.DownloadPiece requires `pieceLength + BLOCK_SIZE` below 2^31, so that the `int` offset loop does not overflow.
- DownloadManagement.DownloadManager.ConnectToPeers requires every tracker peer id to be at most 20 bytes. A longer one would overrun `handshake_msg` at `peer.cpp:72`. `getPeers` only ever yields empty ids.
- DownloadManagement.DownloadManager.ConnectToPeers states that each kept peer is fresh. It does not model `shared_ptr` ownership, or the destructor that closes the socket of a peer that was dropped.

## Findings

| source | as written | input that shows it | evidently intended | confidence | as-written member | corrected member |
|---|---|---|---|---|---|---|
| src/core/DownloadManager.cpp:29 | `connectToPeers` hands each tracker entry's `peer_id` to `connect` as the local peer id. `performHandshake` copies it into an uninitialised 68-byte array at offset 48 (peer.cpp:65,72). | Any compact tracker reply. `getPeers` sets every `peer_id` to "" (tracker.cpp:168), so handshake bytes 48..67 are whatever the array held. | Every handshake carries the client's own 20-byte peer id, the one sent to the tracker. | high; not executed | DownloadManagement.DownloadManager.ConnectToPeers, DownloadManagement.CompactPeersGetStaleId | DownloadManagement.DownloadManager.ConnectToPeersAs |

/** The tracker side of src/core/tracker.cpp: the announce URL built by
    buildTrackerUrl, the URL splitter parseUrl, and the reading of the
    tracker's bencoded reply in getPeers, with the compact peer list of
    BEP 23. The HTTP exchange itself is an input: the reply body, or None
    where resolving, connecting, writing or reading throws. */
module Tracker {
  import opened Base
  import opened Bencode
  import Hash
  import Torrent

  /** Tracker::PeerInfo. */
  datatype PeerInfo = PeerInfo(ip: bytes, port: uint16, peerId: bytes)

  /** Tracker::TrackerResponse; every count starts at 0 (tracker.h:18-21). */
  datatype TrackerResponse = TrackerResponse(
    peers: seq<PeerInfo>,
    interval: int64,
    minInterval: int64,
    complete: int64,
    incomplete: int64)

  const COMPACT_PEER_LENGTH: nat := 6

  // ---------------------------------------------------------------------
  // Compact peers (BEP 23): four address bytes, then the port big-endian

  /** std::to_string of each address byte, joined by '.'. */
  function DottedQuad(a: bytes): bytes
    requires |a| == 4
  {
    ByteDecimal(a[0]) + [DOT] + ByteDecimal(a[1]) + [DOT] + ByteDecimal(a[2]) + [DOT] + ByteDecimal(a[3])
  }

  /** The peer one 6-byte chunk describes: the endpoint whose compact
      entry the chunk is. Compact entries carry no peer id. */
  function CompactPeer(chunk: bytes): (p: PeerInfo)
    requires |chunk| == COMPACT_PEER_LENGTH
    ensures CompactEntry(Endpoint(chunk[..4], p.port)) == chunk && p.peerId == []
  {
    PeerInfo(DottedQuad(chunk[..4]), (chunk[4] as int) * 256 + chunk[5], [])
  }

  /** The compact-peer loop of getPeers: one peer per complete chunk. */
  method ParsePeers(data: bytes) returns (peers: seq<PeerInfo>)
    ensures |peers| == |data| / COMPACT_PEER_LENGTH
    ensures forall k :: 0 <= k < |peers| ==>
              peers[k] == CompactPeer(data[COMPACT_PEER_LENGTH * k .. COMPACT_PEER_LENGTH * k + COMPACT_PEER_LENGTH])
  {
    peers := [];
    var i := 0;
    while i < |data|
      invariant i == COMPACT_PEER_LENGTH * |peers| && i <= |data|
      invariant forall k :: 0 <= k < |peers| ==>
                  peers[k] == CompactPeer(data[COMPACT_PEER_LENGTH * k .. COMPACT_PEER_LENGTH * k + COMPACT_PEER_LENGTH])
    {
      if i + COMPACT_PEER_LENGTH > |data| {
        break;
      }
      peers := peers + [CompactPeer(data[i .. i + COMPACT_PEER_LENGTH])];
      i := i + COMPACT_PEER_LENGTH;
    }
  }

  /** The peer list as a value. */
  function CompactPeers(data: bytes): (peers: seq<PeerInfo>)
    ensures |peers| == |data| / COMPACT_PEER_LENGTH
  {
    seq(|data| / COMPACT_PEER_LENGTH,
        k requires 0 <= k < |data| / COMPACT_PEER_LENGTH =>
          CompactPeer(data[COMPACT_PEER_LENGTH * k .. COMPACT_PEER_LENGTH * k + COMPACT_PEER_LENGTH]))
  }

  /** An address and port as a tracker announces it. */
  datatype Endpoint = Endpoint(address: bytes, port: uint16)

  predicate ValidEndpoint(e: Endpoint) { |e.address| == 4 }

  /** The 6 bytes of an endpoint in the compact format. */
  function CompactEntry(e: Endpoint): (r: bytes)
    requires ValidEndpoint(e)
    ensures |r| == COMPACT_PEER_LENGTH
  {
    e.address + [e.port / 256, e.port % 256]
  }

  function Compact(es: seq<Endpoint>): (r: bytes)
    requires forall k :: 0 <= k < |es| ==> ValidEndpoint(es[k])
    ensures |r| == COMPACT_PEER_LENGTH * |es|
  {
    if es == [] then [] else Compact(es[..|es| - 1]) + CompactEntry(es[|es| - 1])
  }

  /** The chunk at position k of a compact list is the k-th entry. */
  lemma {:induction false} CompactChunk(es: seq<Endpoint>, k: nat)
    requires forall j :: 0 <= j < |es| ==> ValidEndpoint(es[j])
    requires k < |es|
    ensures Compact(es)[COMPACT_PEER_LENGTH * k .. COMPACT_PEER_LENGTH * k + COMPACT_PEER_LENGTH] == CompactEntry(es[k])
  {
    var init := es[..|es| - 1];
    assert Compact(es) == Compact(init) + CompactEntry(es[|es| - 1]);
    if k < |es| - 1 {
      CompactChunk(init, k);
      assert es[k] == init[k];
    }
  }

  /** Reading the compact entry of an endpoint gives back its address in
      dotted decimal and its port. */
  lemma CompactPeerOfEntry(e: Endpoint)
    requires ValidEndpoint(e)
    ensures CompactPeer(CompactEntry(e)) == PeerInfo(DottedQuad(e.address), e.port, [])
  {
    var chunk := CompactEntry(e);
    assert chunk[..4] == e.address;
    assert (chunk[4] as int) * 256 + chunk[5] == e.port;
  }

  /** Reading a compact list back gives each endpoint in order, its address
      in dotted decimal and its port, however many bytes of an unfinished
      entry trail it. */
  lemma CompactPeersOfCompact(es: seq<Endpoint>, partial: bytes)
    requires forall k :: 0 <= k < |es| ==> ValidEndpoint(es[k])
    requires |partial| < COMPACT_PEER_LENGTH
    ensures |CompactPeers(Compact(es) + partial)| == |es|
    ensures forall k :: 0 <= k < |es| ==>
              CompactPeers(Compact(es) + partial)[k] == PeerInfo(DottedQuad(es[k].address), es[k].port, [])
  {
    var data := Compact(es) + partial;
    assert |data| / COMPACT_PEER_LENGTH == |es|;
    forall k | 0 <= k < |es|
      ensures CompactPeers(data)[k] == PeerInfo(DottedQuad(es[k].address), es[k].port, [])
    {
      CompactChunk(es, k);
      var chunk := data[COMPACT_PEER_LENGTH * k .. COMPACT_PEER_LENGTH * k + COMPACT_PEER_LENGTH];
      assert chunk == Compact(es)[COMPACT_PEER_LENGTH * k .. COMPACT_PEER_LENGTH * k + COMPACT_PEER_LENGTH];
      CompactPeerOfEntry(es[k]);
    }
  }

  // ---------------------------------------------------------------------
  // The reply dictionary

  function IntervalKey(): bytes { Ascii("interval") }
  function MinIntervalKey(): bytes { Ascii("min interval") }
  function CompleteKey(): bytes { Ascii("complete") }
  function IncompleteKey(): bytes { Ascii("incomplete") }
  function PeersKey(): bytes { Ascii("peers") }

  /** `contains(key)` and `[key]` on the reply: only a dictionary has entries. */
  function Field(v: BValue, key: bytes): Option<BValue>
  {
    if v.BDict? then Lookup(v.entries, key) else None
  }

  /** An optional count: 0 when the key is absent, the number when it is
      one; get<int64_t>() on any other type throws, which fails the call. */
  function OptionalCount(v: BValue, key: bytes): Option<int64>
  {
    match Field(v, key)
    case None => Some(0)
    case Some(x) => if x.BInt? then Some(x.n) else None
  }

  /** The reply read from the decoded body. */
  function FromReply(v: BValue): Option<TrackerResponse>
  {
    var interval := OptionalCount(v, IntervalKey());
    var minInterval := OptionalCount(v, MinIntervalKey());
    var complete := OptionalCount(v, CompleteKey());
    var incomplete := OptionalCount(v, IncompleteKey());
    var peers := Field(v, PeersKey());
    if interval.None? || minInterval.None? || complete.None? || incomplete.None? then None
    else if peers.None? || !peers.value.BStr? then None
    else Some(TrackerResponse(CompactPeers(peers.value.s), interval.value, minInterval.value,
                              complete.value, incomplete.value))
  }

  /** What getPeers makes of the reply body. */
  function ReadReply(body: bytes): Option<TrackerResponse>
  {
    match Decode(body)
    case None => None
    case Some(d) => FromReply(d.value)
  }

  /** The reply-reading part of getPeers: each count assigned when present,
      then the peers string through the compact loop. */
  method ReadReplyValue(v: BValue) returns (r: Option<TrackerResponse>)
    ensures r == FromReply(v)
  {
    var result := TrackerResponse([], 0, 0, 0, 0);
    var x := Field(v, IntervalKey());
    if x.Some? {
      if !x.value.BInt? {
        return None;
      }
      result := result.(interval := x.value.n);
    }
    x := Field(v, MinIntervalKey());
    if x.Some? {
      if !x.value.BInt? {
        return None;
      }
      result := result.(minInterval := x.value.n);
    }
    x := Field(v, CompleteKey());
    if x.Some? {
      if !x.value.BInt? {
        return None;
      }
      result := result.(complete := x.value.n);
    }
    x := Field(v, IncompleteKey());
    if x.Some? {
      if !x.value.BInt? {
        return None;
      }
      result := result.(incomplete := x.value.n);
    }
    x := Field(v, PeersKey());
    if x.None? || !x.value.BStr? {
      return None;
    }
    var peers := ParsePeers(x.value.s);
    PeersAreCompact(x.value.s, peers);
    return Some(result.(peers := peers));
  }

  lemma PeersAreCompact(data: bytes, peers: seq<PeerInfo>)
    requires |peers| == |data| / COMPACT_PEER_LENGTH
    requires forall k :: 0 <= k < |peers| ==>
               peers[k] == CompactPeer(data[COMPACT_PEER_LENGTH * k .. COMPACT_PEER_LENGTH * k + COMPACT_PEER_LENGTH])
    ensures peers == CompactPeers(data)
  {
  }

  /** A body that does not decode, or a reply without a "peers" string,
      yields no response at all. */
  lemma ReplyFailures(body: bytes)
    ensures Decode(body).None? ==> ReadReply(body).None?
    ensures Decode(body).Some? && Field(Decode(body).value.value, PeersKey()).None? ==> ReadReply(body).None?
  {
  }

  /** The count a reply entry stands for: its number, or 0 when absent. */
  function CountOr0(x: Option<BValue>): int64
  {
    if x.Some? && x.value.BInt? then x.value.n else 0
  }

  /** Reading back an encoded reply: the counts that are present (0 for the
      absent ones) and the peers of its compact list. */
  lemma ReadEncodedReply(entries: seq<Entry>, peers: bytes, t: bytes)
    requires WellFormed(BDict(entries))
    requires Lookup(entries, PeersKey()) == Some(BStr(peers))
    requires forall key :: key in {IntervalKey(), MinIntervalKey(), CompleteKey(), IncompleteKey()} ==>
               Lookup(entries, key).None? || Lookup(entries, key).value.BInt?
    ensures ReadReply(Encode(BDict(entries)) + t) ==
            Some(TrackerResponse(CompactPeers(peers),
                                 CountOr0(Lookup(entries, IntervalKey())), CountOr0(Lookup(entries, MinIntervalKey())),
                                 CountOr0(Lookup(entries, CompleteKey())), CountOr0(Lookup(entries, IncompleteKey()))))
  {
    DecodeEncode(BDict(entries), t);
    assert IntervalKey() in {IntervalKey(), MinIntervalKey(), CompleteKey(), IncompleteKey()};
    assert MinIntervalKey() in {IntervalKey(), MinIntervalKey(), CompleteKey(), IncompleteKey()};
    assert CompleteKey() in {IntervalKey(), MinIntervalKey(), CompleteKey(), IncompleteKey()};
    assert IncompleteKey() in {IntervalKey(), MinIntervalKey(), CompleteKey(), IncompleteKey()};
  }

  // ---------------------------------------------------------------------
  // The announce URL

  /** urlEncode(hash_to_hex(infoHash)): one to three characters per byte,
      and percent-decoding (section 2.1 of RFC 3986) gives the info hash back. */
  function InfoHashParam(infoHash: bytes): (r: bytes)
    ensures |infoHash| <= |r| <= 3 * |infoHash| && Hash.Unescape(r) == infoHash
  {
    Hash.UrlEncodeHexRoundTrip(infoHash);
    Hash.UrlEncodeSpec(Hash.Hex(infoHash)).text
  }

  /** The query buildTrackerUrl appends to the announce URL: the info hash
      as above, the peer id as it is, the numbers in decimal. */
  function Query(infoHash: bytes, peerId: bytes, port: uint16, uploaded: int64, downloaded: int64, left: int64): bytes
  {
    Ascii("?info_hash=") + InfoHashParam(infoHash)
    + Ascii("&peer_id=") + peerId
    + Ascii("&port=") + NatToDecimal(port)
    + Ascii("&uploaded=") + IntToDecimal(uploaded)
    + Ascii("&downloaded=") + IntToDecimal(downloaded)
    + Ascii("&left=") + IntToDecimal(left)
    + Ascii("&compact=1")
  }

  /** Tracker::buildTrackerUrl. */
  function BuildTrackerUrl(announce: bytes, infoHash: bytes, peerId: bytes, port: uint16,
                           uploaded: int64, downloaded: int64, left: int64): bytes
  {
    announce + Query(infoHash, peerId, port, uploaded, downloaded, left)
  }

  // ---------------------------------------------------------------------
  // parseUrl: ^(https?)://([^/:]+)(?::(\d+))?(/.*)?$ , case-insensitive

  /** The pieces parseUrl writes to its out-parameters. */
  datatype UrlParts = UrlParts(protocol: bytes, host: bytes, port: bytes, target: bytes)

  const LF: byte := 10
  const CR: byte := 13

  /** The regex engine's case folding of a byte (ASCII letters only). */
  function Lower(b: byte): byte
  {
    if 65 <= b <= 90 then b + 32 else b
  }

  /** `a` spells `lit` (lowercase) up to case. */
  predicate SpellsCaseless(a: bytes, lit: bytes)
  {
    |a| == |lit| && forall i :: 0 <= i < |a| ==> Lower(a[i]) == lit[i]
  }

  /** `.` of the ECMAScript grammar: anything but a line terminator. */
  predicate NoLineBreak(s: bytes)
  {
    LF !in s && CR !in s
  }

  predicate IsHostByte(b: byte) { b != SLASH && b != COLON }

  /** The end of the run of host bytes ([^/:]) from i. */
  function HostEnd(s: bytes, i: nat): (j: nat)
    requires i <= |s|
    ensures i <= j <= |s|
    ensures forall k :: i <= k < j ==> IsHostByte(s[k])
    ensures j < |s| ==> !IsHostByte(s[j])
    decreases |s| - i
  {
    if i < |s| && IsHostByte(s[i]) then HostEnd(s, i + 1) else i
  }

  /** The length of the matched `https?` when it is followed by "://". */
  function SchemeLength(url: bytes): Option<nat>
  {
    if |url| >= 8 && SpellsCaseless(url[..5], Ascii("https")) && url[5..8] == Ascii("://") then Some(5)
    else if |url| >= 7 && SpellsCaseless(url[..4], Ascii("http")) && url[4..7] == Ascii("://") then Some(4)
    else None
  }

  /** The port when the protocol names none: 80 only for a protocol written
      exactly "http" (the comparison is case-sensitive), 443 otherwise. */
  function DefaultPort(protocol: bytes): bytes
  {
    if protocol == Ascii("http") then Ascii("80") else Ascii("443")
  }

  /** parseUrl: None where it throws std::invalid_argument. */
  function ParseUrl(url: bytes): Option<UrlParts>
  {
    match SchemeLength(url)
    case None => None
    case Some(n) => HostPart(url, n)
  }

  /** `([^/:]+)` after the scheme and "://". */
  function HostPart(url: bytes, n: nat): Option<UrlParts>
    requires n + 3 <= |url|
  {
    var e := HostEnd(url, n + 3);
    if e == n + 3 then None else PortPart(url, n, e)
  }

  /** `(?::(\d+))?` after the host; the default port when there is none. */
  function PortPart(url: bytes, n: nat, e: nat): Option<UrlParts>
    requires n + 3 < e <= |url|
  {
    if e < |url| && url[e] == COLON then
      var t := DigitRunEnd(url, e + 1);
      if t == e + 1 then None else TargetPart(url, n, e, url[e + 1..t], t)
    else TargetPart(url, n, e, DefaultPort(url[..n]), e)
  }

  /** `(/.*)?$` for the rest; "/" when there is no target. */
  function TargetPart(url: bytes, n: nat, e: nat, port: bytes, t: nat): Option<UrlParts>
    requires n + 3 < e <= t <= |url|
  {
    var target := url[t..];
    if target != [] && (target[0] != SLASH || !NoLineBreak(target[1..])) then None
    else Some(UrlParts(url[..n], url[n + 3..e], port, if target == [] then [SLASH] else target))
  }

  /** A URL assembled from a protocol, host, optional port and optional
      target: the inverse of parseUrl. */
  function UrlText(protocol: bytes, host: bytes, port: bytes, target: bytes): bytes
  {
    protocol + Ascii("://") + host + (if port == [] then [] else [COLON] + port) + target
  }

  /** What parseUrl accepts: "http" or "https" in any case, a non-empty
      host without '/' or ':', a port of digits if any, and a target that
      starts with '/' and holds no line break if any. */
  predicate ValidParts(protocol: bytes, host: bytes, port: bytes, target: bytes)
  {
    (SpellsCaseless(protocol, Ascii("http")) || SpellsCaseless(protocol, Ascii("https"))) &&
    host != [] && (forall i :: 0 <= i < |host| ==> IsHostByte(host[i])) &&
    AllDigits(port) &&
    (target != [] ==> target[0] == SLASH && NoLineBreak(target[1..]))
  }

  /** parseUrl recovers every part of a URL assembled from valid parts, with
      the default port and the target "/" filled in where they are missing. */
  lemma ParseUrlText(protocol: bytes, host: bytes, port: bytes, target: bytes)
    requires ValidParts(protocol, host, port, target)
    ensures ParseUrl(UrlText(protocol, host, port, target)) ==
            Some(UrlParts(protocol, host, if port == [] then DefaultPort(protocol) else port,
                          if target == [] then [SLASH] else target))
  {
    var url := UrlText(protocol, host, port, target);
    UrlTextSlices(protocol, host, port, target);
    if port == [] {
      ParseWithoutPort(url, protocol, host, target);
    } else {
      ParseWithPort(url, protocol, host, port, target);
    }
  }

  /** `url` is `protocol://host[:port][target]` assembled from valid
      parts, and `p` holds those parts with the default port and the
      target "/" filled in where they are missing. */
  predicate AssembledFrom(url: bytes, p: UrlParts, port: bytes, target: bytes)
  {
    ValidParts(p.protocol, p.host, port, target) && url == UrlText(p.protocol, p.host, port, target) &&
    p.port == (if port == [] then DefaultPort(p.protocol) else port) &&
    p.target == (if target == [] then [SLASH] else target)
  }

  /** Conversely, every URL parseUrl accepts is assembled from valid parts,
      and parseUrl returns those parts: an empty host, a ':' without digits,
      or a target that does not start with '/' or holds a line break makes
      it throw. */
  lemma ParsedUrlText(url: bytes)
    requires ParseUrl(url).Some?
    ensures exists port, target :: AssembledFrom(url, ParseUrl(url).value, port, target)
  {
    var n := SchemeLength(url).value;
    var e := HostEnd(url, n + 3);
    assert ParseUrl(url) == HostPart(url, n);
    assert e != n + 3 && HostPart(url, n) == PortPart(url, n, e);
    var port: bytes, t: nat;
    if e < |url| && url[e] == COLON {
      t := DigitRunEnd(url, e + 1);
      port := url[e + 1..t];
      assert PortPart(url, n, e) == TargetPart(url, n, e, port, t);
    } else {
      t := e;
      port := [];
      assert PortPart(url, n, e) == TargetPart(url, n, e, DefaultPort(url[..n]), e);
    }
    var target := url[t..];
    assert target != [] ==> url[t] == SLASH && NoLineBreak(url[t + 1..]);
    ValidSlices(url, n, e, t, port);
    assert AssembledFrom(url, ParseUrl(url).value, port, target);
  }

  /** The slices parseUrl cuts from a URL are valid parts, and put back
      together they are the URL. */
  lemma ValidSlices(url: bytes, n: nat, e: nat, t: nat, port: bytes)
    requires SchemeLength(url) == Some(n) && n + 3 < e <= t <= |url|
    requires forall k :: n + 3 <= k < e ==> IsHostByte(url[k])
    requires port == [] ==> t == e
    requires port != [] ==> e + 1 < t && url[e] == COLON && port == url[e + 1..t] &&
                            forall k :: e + 1 <= k < t ==> IsDigit(url[k])
    requires t < |url| ==> url[t] == SLASH && NoLineBreak(url[t + 1..])
    ensures ValidParts(url[..n], url[n + 3..e], port, url[t..])
    ensures url == UrlText(url[..n], url[n + 3..e], port, url[t..])
  {
    SchemeSpelled(url);
    HostSlice(url, n + 3, e);
    if port != [] {
      DigitSlice(url, e + 1, t);
    }
    assert url[t..] != [] ==> url[t..][1..] == url[t + 1..];
    UrlSplit(url, n, e, t, port);
  }

  lemma SchemeSpelled(url: bytes)
    requires SchemeLength(url).Some?
    ensures var n := SchemeLength(url).value;
            n + 3 <= |url| && url[n..n + 3] == Ascii("://") &&
            (SpellsCaseless(url[..n], Ascii("http")) || SpellsCaseless(url[..n], Ascii("https")))
  {
  }

  lemma HostSlice(url: bytes, a: nat, b: nat)
    requires a <= b <= |url| && forall k :: a <= k < b ==> IsHostByte(url[k])
    ensures forall i :: 0 <= i < |url[a..b]| ==> IsHostByte(url[a..b][i])
  {
    forall i | 0 <= i < |url[a..b]| ensures IsHostByte(url[a..b][i]) {
      assert url[a..b][i] == url[a + i];
    }
  }

  lemma DigitSlice(url: bytes, a: nat, b: nat)
    requires a <= b <= |url| && forall k :: a <= k < b ==> IsDigit(url[k])
    ensures AllDigits(url[a..b])
  {
    forall i | 0 <= i < |url[a..b]| ensures IsDigit(url[a..b][i]) {
      assert url[a..b][i] == url[a + i];
    }
  }

  /** The slices of a URL parseUrl has split put back together. */
  lemma UrlSplit(url: bytes, n: nat, e: nat, t: nat, port: bytes)
    requires n + 3 <= e <= t <= |url| && url[n..n + 3] == Ascii("://")
    requires port == [] ==> t == e
    requires port != [] ==> e < t && url[e] == COLON && port == url[e + 1..t]
    ensures url == UrlText(url[..n], url[n + 3..e], port, url[t..])
  {
    if port == [] {
      assert url == url[..n] + url[n..n + 3] + url[n + 3..e] + url[e..];
    } else {
      assert url == url[..n] + url[n..n + 3] + url[n + 3..e] + [COLON] + url[e + 1..t] + url[t..];
    }
  }

  /** parseUrl on a URL whose slices are a protocol, "://", a host and a
      target. */
  lemma ParseWithoutPort(url: bytes, protocol: bytes, host: bytes, target: bytes)
    requires ValidParts(protocol, host, [], target)
    requires var n := |protocol|;
             var e := n + 3 + |host|;
             |url| == e + |target| &&
             url[..n] == protocol && url[n..n + 3] == Ascii("://") && url[n + 3..e] == host && url[e..] == target
    ensures ParseUrl(url) == Some(UrlParts(protocol, host, DefaultPort(protocol), if target == [] then [SLASH] else target))
  {
    var n := |protocol|;
    var e := n + 3 + |host|;
    SchemeOf(url, protocol);
    if target != [] {
      assert url[e] == target[0];
    }
    HostRun(url, n + 3, e, host);
    PortAbsent(url, n, e);
    TargetStep(url, n, e, DefaultPort(protocol), e, target);
    ParseUrlFrom(url, n, e, DefaultPort(protocol), e);
  }

  /** parseUrl on a URL whose slices are a protocol, "://", a host, ':',
      a port and a target. */
  lemma ParseWithPort(url: bytes, protocol: bytes, host: bytes, port: bytes, target: bytes)
    requires ValidParts(protocol, host, port, target) && port != []
    requires var n := |protocol|;
             var e := n + 3 + |host|;
             |url| == e + 1 + |port| + |target| &&
             url[..n] == protocol && url[n..n + 3] == Ascii("://") && url[n + 3..e] == host &&
             url[e] == COLON && url[e + 1..e + 1 + |port|] == port && url[e + 1 + |port|..] == target
    ensures ParseUrl(url) == Some(UrlParts(protocol, host, port, if target == [] then [SLASH] else target))
  {
    var n := |protocol|;
    var e := n + 3 + |host|;
    var t := e + 1 + |port|;
    SchemeOf(url, protocol);
    HostRun(url, n + 3, e, host);
    PortRun(url, e, port, target);
    PortPresent(url, n, e, port);
    TargetStep(url, n, e, port, t, target);
    ParseUrlFrom(url, n, e, port, t);
  }

  /** parseUrl once the scheme, the host and the port group are known. */
  lemma ParseUrlFrom(url: bytes, n: nat, e: nat, port: bytes, t: nat)
    requires SchemeLength(url) == Some(n) && n + 3 < e <= t <= |url| && HostEnd(url, n + 3) == e
    requires PortPart(url, n, e) == TargetPart(url, n, e, port, t)
    ensures ParseUrl(url) == TargetPart(url, n, e, port, t)
  {
  }

  /** No port group: the host is followed by the target or by nothing. */
  lemma PortAbsent(url: bytes, n: nat, e: nat)
    requires n + 3 < e <= |url| && (e == |url| || url[e] == SLASH)
    ensures PortPart(url, n, e) == TargetPart(url, n, e, DefaultPort(url[..n]), e)
  {
  }

  /** A port group: ':' and the digits up to t. */
  lemma PortPresent(url: bytes, n: nat, e: nat, port: bytes)
    requires n + 3 < e < |url| && url[e] == COLON && port != []
    requires e + 1 + |port| <= |url| && DigitRunEnd(url, e + 1) == e + 1 + |port| && url[e + 1..e + 1 + |port|] == port
    ensures PortPart(url, n, e) == TargetPart(url, n, e, port, e + 1 + |port|)
  {
  }

  /** The optional target group, from t to the end. */
  lemma TargetStep(url: bytes, n: nat, e: nat, port: bytes, t: nat, target: bytes)
    requires n + 3 < e <= t <= |url| && url[t..] == target
    requires target != [] ==> target[0] == SLASH && NoLineBreak(target[1..])
    ensures TargetPart(url, n, e, port, t) == Some(UrlParts(url[..n], url[n + 3..e], port, if target == [] then [SLASH] else target))
  {
  }

  /** Where the parts of UrlText sit. */
  lemma UrlTextSlices(protocol: bytes, host: bytes, port: bytes, target: bytes)
    ensures var url := UrlText(protocol, host, port, target);
            var n := |protocol|;
            var e := n + 3 + |host|;
            url[..n] == protocol && url[n..n + 3] == Ascii("://") && url[n + 3..e] == host &&
            (port == [] ==> |url| == e + |target| && url[e..] == target) &&
            (port != [] ==> |url| == e + 1 + |port| + |target| &&
                            url[e] == COLON && url[e + 1..e + 1 + |port|] == port && url[e + 1 + |port|..] == target)
  {
    var url := UrlText(protocol, host, port, target);
    var rest := (if port == [] then [] else [COLON] + port) + target;
    assert url == protocol + (Ascii("://") + (host + rest));
    if port != [] {
      assert url[|protocol| + 3 + |host|..] == [COLON] + (port + target);
    }
  }

  lemma SchemeOf(url: bytes, protocol: bytes)
    requires SpellsCaseless(protocol, Ascii("http")) || SpellsCaseless(protocol, Ascii("https"))
    requires |protocol| + 3 <= |url| && url[..|protocol|] == protocol && url[|protocol|..|protocol| + 3] == Ascii("://")
    ensures SchemeLength(url) == Some(|protocol|)
  {
    if |protocol| == 4 {
      assert url[4] == COLON;
      assert !SpellsCaseless(url[..5], Ascii("https")) by {
        assert Lower(url[..5][4]) != Ascii("https")[4];
      }
    }
  }

  /** The host group runs from h to e when the bytes there are host bytes
      and the byte at e, if any, is not. */
  lemma HostRun(url: bytes, h: nat, e: nat, host: bytes)
    requires h <= e <= |url| && url[h..e] == host
    requires forall i :: 0 <= i < |host| ==> IsHostByte(host[i])
    requires e == |url| || !IsHostByte(url[e])
    ensures HostEnd(url, h) == e
  {
    forall k | h <= k < e
      ensures IsHostByte(url[k])
    {
      assert url[k] == host[k - h];
    }
    HostEndAt(url, h, e);
  }

  lemma {:induction false} HostEndAt(url: bytes, h: nat, e: nat)
    requires h <= e <= |url|
    requires forall k :: h <= k < e ==> IsHostByte(url[k])
    requires e == |url| || !IsHostByte(url[e])
    ensures HostEnd(url, h) == e
    decreases e - h
  {
    if h < e {
      HostEndAt(url, h + 1, e);
    }
  }

  lemma PortRun(url: bytes, e: nat, port: bytes, target: bytes)
    requires e + 1 + |port| <= |url|
    requires url[e + 1..e + 1 + |port|] == port && url[e + 1 + |port|..] == target
    requires AllDigits(port) && (target == [] || !IsDigit(target[0]))
    ensures DigitRunEnd(url, e + 1) == e + 1 + |port|
  {
    forall k | e + 1 <= k < e + 1 + |port|
      ensures IsDigit(url[k])
    {
      assert url[k] == port[k - e - 1];
    }
    if target != [] {
      assert url[e + 1 + |port|] == target[0];
    }
    DigitRunEndFrom(url, e + 1, e + 1 + |port|);
  }

  /** The scheme is matched without regard to case, but only "http" in
      lowercase defaults to port 80: "HTTP://host" gets port 443. */
  lemma CaselessHttpGets443(protocol: bytes, host: bytes)
    requires ValidParts(protocol, host, [], []) && SpellsCaseless(protocol, Ascii("http")) && protocol != Ascii("http")
    ensures ParseUrl(UrlText(protocol, host, [], [])) == Some(UrlParts(protocol, host, Ascii("443"), [SLASH]))
  {
    ParseUrlText(protocol, host, [], []);
  }

  /** Anything but http(s) is refused. */
  lemma ParseUrlNeedsHttp(url: bytes)
    requires |url| < 4 || !SpellsCaseless(url[..4], Ascii("http"))
    ensures ParseUrl(url).None?
  {
    if |url| >= 5 {
      HttpsPrefix(url);
    }
  }

  lemma HttpsPrefix(url: bytes)
    requires |url| >= 5
    ensures SpellsCaseless(url[..5], Ascii("https")) ==> SpellsCaseless(url[..4], Ascii("http"))
  {
    assert url[..4] == url[..5][..4];
  }

  /** The request URL built from an announce URL that names a path goes to
      the announce URL's host and port; its target is that path with the
      query appended. */
  lemma TrackerUrlTarget(protocol: bytes, host: bytes, port: bytes, path: bytes, infoHash: bytes, peerId: bytes,
                         tcpPort: uint16, uploaded: int64, downloaded: int64, left: int64)
    requires ValidParts(protocol, host, port, path) && path != []
    requires NoLineBreak(peerId)
    ensures var q := Query(infoHash, peerId, tcpPort, uploaded, downloaded, left);
            ParseUrl(BuildTrackerUrl(UrlText(protocol, host, port, path), infoHash, peerId, tcpPort, uploaded, downloaded, left)) ==
            Some(UrlParts(protocol, host, if port == [] then DefaultPort(protocol) else port, path + q))
  {
    QueryHasNoLineBreak(infoHash, peerId, tcpPort, uploaded, downloaded, left);
    AppendToTarget(protocol, host, port, path, Query(infoHash, peerId, tcpPort, uploaded, downloaded, left));
  }

  /** Bytes without line breaks appended to a URL with a path extend the path. */
  lemma AppendToTarget(protocol: bytes, host: bytes, port: bytes, path: bytes, q: bytes)
    requires ValidParts(protocol, host, port, path) && path != [] && NoLineBreak(q)
    ensures ParseUrl(UrlText(protocol, host, port, path) + q) ==
            Some(UrlParts(protocol, host, if port == [] then DefaultPort(protocol) else port, path + q))
  {
    assert (path + q)[1..] == path[1..] + q;
    assert UrlText(protocol, host, port, path) + q == UrlText(protocol, host, port, path + q);
    ParseUrlText(protocol, host, port, path + q);
  }

  lemma QueryHasNoLineBreak(infoHash: bytes, peerId: bytes, port: uint16, uploaded: int64, downloaded: int64, left: int64)
    requires NoLineBreak(peerId)
    ensures NoLineBreak(Query(infoHash, peerId, port, uploaded, downloaded, left))
  {
    Hash.UrlEncodeHex(infoHash);
    EscapeHasNoLineBreak(infoHash);
    DecimalHasNoLineBreak(port);
    DecimalHasNoLineBreak(uploaded);
    DecimalHasNoLineBreak(downloaded);
    DecimalHasNoLineBreak(left);
    QueryKeysHaveNoLineBreak();
    var s := Join(Ascii("?info_hash="), InfoHashParam(infoHash));
    s := Join(Join(s, Ascii("&peer_id=")), peerId);
    s := Join(Join(s, Ascii("&port=")), NatToDecimal(port));
    s := Join(Join(s, Ascii("&uploaded=")), IntToDecimal(uploaded));
    s := Join(Join(s, Ascii("&downloaded=")), IntToDecimal(downloaded));
    s := Join(Join(s, Ascii("&left=")), IntToDecimal(left));
    s := Join(s, Ascii("&compact=1"));
  }

  lemma QueryKeysHaveNoLineBreak()
    ensures NoLineBreak(Ascii("?info_hash=")) && NoLineBreak(Ascii("&peer_id=")) && NoLineBreak(Ascii("&port="))
    ensures NoLineBreak(Ascii("&uploaded=")) && NoLineBreak(Ascii("&downloaded=")) && NoLineBreak(Ascii("&left="))
    ensures NoLineBreak(Ascii("&compact=1"))
  {
    LiteralHasNoLineBreak("?info_hash=");
    LiteralHasNoLineBreak("&peer_id=");
    LiteralHasNoLineBreak("&port=");
    LiteralHasNoLineBreak("&uploaded=");
    LiteralHasNoLineBreak("&downloaded=");
    LiteralHasNoLineBreak("&left=");
    LiteralHasNoLineBreak("&compact=1");
  }

  /** Concatenation, with no line break in the result when there is none
      in either part. */
  function Join(a: bytes, b: bytes): (r: bytes)
    ensures r == a + b
    ensures NoLineBreak(a) && NoLineBreak(b) ==> NoLineBreak(r)
  {
    a + b
  }

  /** The ASCII bytes of printable text hold no line break. */
  lemma LiteralHasNoLineBreak(s: string)
    requires forall i :: 0 <= i < |s| ==> 32 <= s[i] as int < 127
    ensures NoLineBreak(Ascii(s))
  {
    var a := Ascii(s);
    forall i | 0 <= i < |a|
      ensures a[i] != LF && a[i] != CR
    {
      assert a[i] == AsciiByte(s[i]);
    }
  }

  lemma DecimalHasNoLineBreak(n: int)
    ensures NoLineBreak(IntToDecimal(n)) && (n >= 0 ==> NoLineBreak(NatToDecimal(n)))
  {
    var d := NatToDecimal(if n < 0 then -n else n);
    forall i | 0 <= i < |d|
      ensures d[i] != LF && d[i] != CR
    {
      assert IsDigit(d[i]);
    }
  }

  lemma {:induction false} EscapeHasNoLineBreak(bs: bytes)
    ensures NoLineBreak(Hash.Escape(bs))
  {
    if bs != [] {
      EscapeHasNoLineBreak(bs[1..]);
      var p := Hash.HexPair(bs[0]);
      assert p[0] != LF && p[0] != CR && p[1] != LF && p[1] != CR;
      assert Hash.Escape(bs) == Hash.EscapeByte(bs[0]) + Hash.Escape(bs[1..]);
    }
  }

  // ---------------------------------------------------------------------
  // getPeers

  /** What getPeers returns: None where parseUrl throws, where the HTTP
      exchange fails, or where the reply is unusable; otherwise the reply. */
  function Announce(meta: Torrent.Metadata, peerId: bytes, port: uint16, uploaded: int64, downloaded: int64,
                    left: int64, exchange: Option<bytes>): Option<TrackerResponse>
  {
    var url := BuildTrackerUrl(meta.announce, meta.infoHash, peerId, port, uploaded, downloaded, left);
    if ParseUrl(url).None? || exchange.None? then None
    else ReadReply(exchange.value)
  }

  /** Tracker::getPeers. `exchange` is the body of the HTTP reply, or None
      where the request could not be completed. */
  method GetPeers(meta: Torrent.Metadata, peerId: bytes, port: uint16, uploaded: int64, downloaded: int64,
                  left: int64, exchange: Option<bytes>) returns (r: Option<TrackerResponse>)
    ensures r == Announce(meta, peerId, port, uploaded, downloaded, left, exchange)
  {
    var url := BuildTrackerUrl(meta.announce, meta.infoHash, peerId, port, uploaded, downloaded, left);
    var parts := ParseUrl(url);
    if parts.None? || exchange.None? {
      return None;
    }
    var decoded := DecodeValue(exchange.value);
    if decoded.None? {
      return None;
    }
    r := ReadReplyValue(decoded.value.value);
  }

  /** With an announce URL that names a path and a peer id without line
      breaks, the URL always parses, and the outcome is the reply read from
      the body the tracker sent. */
  lemma AnnounceReadsReply(meta: Torrent.Metadata, protocol: bytes, host: bytes, port: bytes, path: bytes,
                           peerId: bytes, tcpPort: uint16, uploaded: int64, downloaded: int64, left: int64, body: bytes)
    requires meta.announce == UrlText(protocol, host, port, path)
    requires ValidParts(protocol, host, port, path) && path != [] && NoLineBreak(peerId)
    ensures Announce(meta, peerId, tcpPort, uploaded, downloaded, left, Some(body)) == ReadReply(body)
  {
    TrackerUrlTarget(protocol, host, port, path, meta.infoHash, peerId, tcpPort, uploaded, downloaded, left);
  }

  /** An announce URL with a port but no path never parses once the query
      is appended: the '?' after the port digits is neither '/' nor the end
      of the URL, so getPeers yields nothing whatever the tracker sends. */
  lemma AnnounceWithPortWithoutPath(meta: Torrent.Metadata, protocol: bytes, host: bytes, port: bytes, peerId: bytes,
                                    tcpPort: uint16, uploaded: int64, downloaded: int64, left: int64,
                                    exchange: Option<bytes>)
    requires meta.announce == UrlText(protocol, host, port, [])
    requires ValidParts(protocol, host, port, []) && port != []
    ensures Announce(meta, peerId, tcpPort, uploaded, downloaded, left, exchange) == None
  {
    QueryStartsWithQuestionMark(meta.infoHash, peerId, tcpPort, uploaded, downloaded, left);
    PortThenNoTarget(protocol, host, port, Query(meta.infoHash, peerId, tcpPort, uploaded, downloaded, left));
  }

  lemma QueryStartsWithQuestionMark(infoHash: bytes, peerId: bytes, port: uint16, uploaded: int64, downloaded: int64, left: int64)
    ensures var q := Query(infoHash, peerId, port, uploaded, downloaded, left);
            q != [] && q[0] == 63
  {
    assert Ascii("?info_hash=")[0] == 63;
  }

  /** After the port digits, anything but '/' or the end of the URL makes
      parseUrl throw. */
  lemma PortThenNoTarget(protocol: bytes, host: bytes, port: bytes, rest: bytes)
    requires ValidParts(protocol, host, port, []) && port != []
    requires rest != [] && rest[0] != SLASH && !IsDigit(rest[0])
    ensures ParseUrl(UrlText(protocol, host, port, []) + rest).None?
  {
    assert UrlText(protocol, host, port, []) + rest == UrlText(protocol, host, port, rest);
    UrlTextSlices(protocol, host, port, rest);
    ParsePortThen(UrlText(protocol, host, port, rest), protocol, host, port, rest);
  }

  /** parseUrl on a URL whose slices are a protocol, "://", a host, ':',
      a port and then a byte that neither starts a target nor continues
      the port. */
  lemma ParsePortThen(url: bytes, protocol: bytes, host: bytes, port: bytes, rest: bytes)
    requires ValidParts(protocol, host, port, []) && port != []
    requires rest != [] && rest[0] != SLASH && !IsDigit(rest[0])
    requires var n := |protocol|;
             var e := n + 3 + |host|;
             |url| == e + 1 + |port| + |rest| &&
             url[..n] == protocol && url[n..n + 3] == Ascii("://") && url[n + 3..e] == host &&
             url[e] == COLON && url[e + 1..e + 1 + |port|] == port && url[e + 1 + |port|..] == rest
    ensures ParseUrl(url).None?
  {
    var n := |protocol|;
    var e := n + 3 + |host|;
    SchemeOf(url, protocol);
    HostRun(url, n + 3, e, host);
    PortRun(url, e, port, rest);
    PortPresent(url, n, e, port);
    ParseUrlFrom(url, n, e, port, e + 1 + |port|);
  }
}

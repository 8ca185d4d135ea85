/** The byte and text helpers of src/utils/hash.cpp: lowercase hex,
    percent-encoding (section 2.1 of RFC 3986) over the unreserved set of
    section 2.3 of RFC 3986, the split of the `pieces` string into SHA-1
    digests, and the check of a peer's handshake (BEP 3, "peer protocol").
    SHA-1 itself is the parameter type `Base.Sha1`. */
module Hash {
  import opened Base

  const PERCENT_SIGN: byte := 37
  const DIGEST_LENGTH: nat := 20
  const HANDSHAKE_LENGTH: nat := 68

  /** "BitTorrent protocol", the 19-byte protocol name of the handshake. */
  function Protocol(): (r: bytes)
    ensures |r| == 19
  {
    Ascii("BitTorrent protocol")
  }

  // ---------------------------------------------------------------------
  // Hex

  /** The lowercase hex digit of a nibble (std::hex writes 'a'..'f'). */
  function HexDigit(n: nat): byte
    requires n < 16
  {
    if n < 10 then 48 + n else 87 + n
  }

  predicate IsHexDigit(c: byte)
  {
    48 <= c <= 57 || 97 <= c <= 102 || 65 <= c <= 70
  }

  /** The value of a hex digit of either case. */
  function HexDigitValue(c: byte): (n: nat)
    requires IsHexDigit(c)
    ensures n < 16
  {
    if c <= 57 then c - 48 else if c <= 70 then c - 55 else c - 87
  }

  /** setw(2), setfill('0'), hex: two digits, high nibble first. */
  function HexPair(b: byte): (r: bytes)
    ensures |r| == 2
  {
    [HexDigit(b / 16), HexDigit(b % 16)]
  }

  /** The hex rendering of a byte string. */
  function Hex(bs: bytes): bytes
  {
    if bs == [] then [] else HexPair(bs[0]) + Hex(bs[1..])
  }

  /** Two digits per byte, high nibble first, lowercase. */
  lemma {:induction false} HexShape(bs: bytes)
    ensures |Hex(bs)| == 2 * |bs|
    ensures forall k :: 0 <= k < |bs| ==>
              Hex(bs)[2 * k] == HexDigit(bs[k] / 16) && Hex(bs)[2 * k + 1] == HexDigit(bs[k] % 16)
  {
    if bs != [] {
      HexShape(bs[1..]);
      forall k | 0 <= k < |bs|
        ensures Hex(bs)[2 * k] == HexDigit(bs[k] / 16) && Hex(bs)[2 * k + 1] == HexDigit(bs[k] % 16)
      {
        if k > 0 {
          assert Hex(bs)[2 * k] == Hex(bs[1..])[2 * (k - 1)];
          assert Hex(bs)[2 * k + 1] == Hex(bs[1..])[2 * (k - 1) + 1];
        }
      }
    }
  }

  lemma {:induction false} HexSnoc(bs: bytes, b: byte)
    ensures Hex(bs + [b]) == Hex(bs) + HexPair(b)
  {
    if bs == [] {
      assert bs + [b] == [b];
    } else {
      assert (bs + [b])[1..] == bs[1..] + [b];
      HexSnoc(bs[1..], b);
    }
  }

  /** HashUtils::hash_to_hex: the ostringstream loop over the bytes. */
  method HashToHex(hash: bytes) returns (out: bytes)
    ensures out == Hex(hash)
  {
    out := [];
    var i := 0;
    while i < |hash|
      invariant 0 <= i <= |hash|
      invariant out == Hex(hash[..i])
    {
      HexSnoc(hash[..i], hash[i]);
      assert hash[..i + 1] == hash[..i] + [hash[i]];
      out := out + HexPair(hash[i]);
      i := i + 1;
    }
    assert hash[..i] == hash;
  }

  /** HashUtils::bytesToHex, a second copy of the same loop in the source. */
  method BytesToHex(bs: bytes) returns (out: bytes)
    ensures out == Hex(bs)
  {
    out := HashToHex(bs);
  }

  // ---------------------------------------------------------------------
  // The unreserved set and percent-encoding

  /** Section 2.3 of RFC 3986: ALPHA / DIGIT / "-" / "." / "_" / "~". */
  predicate Unreserved(c: int)
  {
    48 <= c <= 57 || 65 <= c <= 90 || 97 <= c <= 122 || c == 45 || c == 95 || c == 46 || c == 126
  }

  /** HashUtils::initializeUnreservedChars: a 256-entry table, all false,
      then the digit and letter ranges and the four marks set to true. */
  method InitializeUnreservedChars() returns (table: array<bool>)
    ensures fresh(table) && table.Length == 256
    ensures forall c :: 0 <= c < 256 ==> (table[c] <==> Unreserved(c))
  {
    table := new bool[256](_ => false);
    var i := 48;
    while i <= 57
      invariant 48 <= i <= 58
      invariant forall c :: 0 <= c < 256 ==> (table[c] <==> 48 <= c < i)
    {
      table[i] := true;
      i := i + 1;
    }
    i := 65;
    while i <= 90
      invariant 65 <= i <= 91
      invariant forall c :: 0 <= c < 256 ==> (table[c] <==> 48 <= c <= 57 || 65 <= c < i)
    {
      table[i] := true;
      i := i + 1;
    }
    i := 97;
    while i <= 122
      invariant 97 <= i <= 123
      invariant forall c :: 0 <= c < 256 ==> (table[c] <==> 48 <= c <= 57 || 65 <= c <= 90 || 97 <= c < i)
    {
      table[i] := true;
      i := i + 1;
    }
    table[45] := true;
    table[95] := true;
    table[46] := true;
    table[126] := true;
  }

  /** What `std::stoul(p, nullptr, 16)` does with the one or two
      characters it is given: white space, a sign, then hex digits (with at
      most two characters a "0x" prefix can never be followed by a digit, so
      only its '0' is read). No digit at all throws std::invalid_argument
      (None); a '-' negates modulo 2^64. */
  function Stoul16(p: bytes): (r: Option<int>)
    requires 1 <= |p| <= 2
    ensures r.Some? ==> 0 <= r.value < SIZE_T_MODULUS
  {
    var i := SkipSpaces(p, 0);
    var signed := i < |p| && (p[i] == MINUS || p[i] == PLUS);
    var j := if signed then i + 1 else i;
    if j < |p| && IsHexDigit(p[j]) then
      var k := if j + 1 < |p| && IsHexDigit(p[j + 1]) then j + 2 else j + 1;
      var m := if k == j + 2 then HexDigitValue(p[j]) * 16 + HexDigitValue(p[j + 1]) else HexDigitValue(p[j]);
      Some(if signed && p[i] == MINUS then (SIZE_T_MODULUS - m) % SIZE_T_MODULUS else m)
    else None
  }

  /** The outcome of urlEncode: the text, an exception escaping from
      std::stoul, or a read of `unreserved[v]` with v >= 256 (undefined
      behaviour: std::array::operator[] does not check its index). */
  datatype UrlResult = Encoded(text: bytes) | InvalidArgument | Undefined

  /** One turn of the urlEncode loop on the pair (or final single
      character) `p`. */
  function UrlPiece(p: bytes): UrlResult
    requires 1 <= |p| <= 2
  {
    match Stoul16(p)
    case None => InvalidArgument
    case Some(v) =>
      if v >= 256 then Undefined
      else if Unreserved(v) then Encoded([v])
      else Encoded([PERCENT_SIGN] + p)
  }

  /** The text `a` followed by the outcome of the rest of the loop. */
  function Prepend(a: bytes, r: UrlResult): UrlResult
  {
    match r
    case Encoded(b) => Encoded(a + b)
    case InvalidArgument => InvalidArgument
    case Undefined => Undefined
  }

  /** HashUtils::urlEncode, two input characters at a time from the front;
      the first failing pair decides the outcome. */
  function UrlEncodeSpec(h: bytes): UrlResult
    decreases |h|
  {
    if h == [] then Encoded([])
    else
      var n := if |h| >= 2 then 2 else 1;
      match UrlPiece(h[..n])
      case Encoded(piece) => Prepend(piece, UrlEncodeSpec(h[n..]))
      case InvalidArgument => InvalidArgument
      case Undefined => Undefined
  }

  lemma PrependPrepend(a: bytes, b: bytes, r: UrlResult)
    ensures Prepend(a, Prepend(b, r)) == Prepend(a + b, r)
  {
    if r.Encoded? {
      assert a + (b + r.text) == (a + b) + r.text;
    }
  }

  /** HashUtils::urlEncode: `i` runs over the input in steps of 2; each
      substr(i, 2) is parsed in base 16 and appended as the byte itself
      when unreserved, else as '%' and the two characters verbatim. */
  method UrlEncode(h: bytes) returns (r: UrlResult)
    ensures r == UrlEncodeSpec(h)
  {
    var unreserved := InitializeUnreservedChars();
    var result: bytes := [];
    var i := 0;
    while i < |h|
      invariant 0 <= i <= |h| + 1
      invariant unreserved.Length == 256 && forall c :: 0 <= c < 256 ==> (unreserved[c] <==> Unreserved(c))
      invariant UrlEncodeSpec(h) == Prepend(result, UrlEncodeSpec(h[Min(i, |h|)..]))
      decreases |h| - i
    {
      var n := if i + 2 <= |h| then 2 else 1;
      var byteStr := h[i..i + n];
      UrlStep(h, i, n);
      var value := Stoul16(byteStr);
      if value.None? {
        return InvalidArgument;
      }
      var v := value.value;
      if v >= 256 {
        return Undefined;
      }
      var piece := if unreserved[v] then [v as byte] else [PERCENT_SIGN] + byteStr;
      PrependPrepend(result, piece, UrlEncodeSpec(h[Min(i + 2, |h|)..]));
      result := result + piece;
      i := i + 2;
    }
    assert h[Min(i, |h|)..] == [];
    r := Encoded(result);
  }

  function Min(a: int, b: int): int { if a < b then a else b }

  /** One turn of the urlEncode loop, seen from the specification. */
  lemma UrlStep(h: bytes, i: nat, n: nat)
    requires i < |h| && n == (if i + 2 <= |h| then 2 else 1)
    ensures UrlPiece(h[i..i + n]).Encoded? ==>
              UrlEncodeSpec(h[i..]) == Prepend(UrlPiece(h[i..i + n]).text, UrlEncodeSpec(h[Min(i + 2, |h|)..]))
    ensures !UrlPiece(h[i..i + n]).Encoded? ==> UrlEncodeSpec(h[i..]) == UrlPiece(h[i..i + n])
  {
    assert h[i..][..n] == h[i..i + n] && h[i..][n..] == h[Min(i + 2, |h|)..];
  }

  /** What urlEncode makes of the hex rendering of a byte: the byte itself
      when unreserved, otherwise '%' and its two lowercase hex digits. */
  function EscapeByte(b: byte): bytes
  {
    if Unreserved(b) then [b] else [PERCENT_SIGN] + HexPair(b)
  }

  function Escape(bs: bytes): bytes
  {
    if bs == [] then [] else EscapeByte(bs[0]) + Escape(bs[1..])
  }

  /** Reading the two digits of HexPair back gives the byte. */
  lemma HexPairValue(b: byte)
    ensures Stoul16(HexPair(b)) == Some(b as int)
  {
    var p := HexPair(b);
    assert !IsSpace(p[0]) && IsHexDigit(p[0]) && IsHexDigit(p[1]);
    assert SkipSpaces(p, 0) == 0;
  }

  /** urlEncode applied to hex text escapes each byte in turn. */
  lemma {:induction false} UrlEncodeHex(bs: bytes)
    ensures UrlEncodeSpec(Hex(bs)) == Encoded(Escape(bs))
  {
    if bs != [] {
      var h := Hex(bs);
      assert h[..2] == HexPair(bs[0]) && h[2..] == Hex(bs[1..]);
      HexPairValue(bs[0]);
      UrlEncodeHex(bs[1..]);
    }
  }

  lemma {:induction false} EscapeLength(bs: bytes)
    ensures |bs| <= |Escape(bs)| <= 3 * |bs|
  {
    if bs != [] {
      EscapeLength(bs[1..]);
    }
  }

  /** Percent-decoding (section 2.1 of RFC 3986): "%" and two hex digits
      stand for the byte they spell; any other byte stands for itself. */
  function Unescape(s: bytes): bytes
  {
    if s == [] then []
    else if s[0] == PERCENT_SIGN && |s| >= 3 && IsHexDigit(s[1]) && IsHexDigit(s[2]) then
      [HexDigitValue(s[1]) * 16 + HexDigitValue(s[2])] + Unescape(s[3..])
    else [s[0]] + Unescape(s[1..])
  }

  /** Un-escaping what urlEncode made of hex text gives the bytes back. */
  lemma {:induction false} UnescapeEscape(bs: bytes)
    ensures Unescape(Escape(bs)) == bs
  {
    if bs != [] {
      var e := Escape(bs);
      UnescapeEscape(bs[1..]);
      if Unreserved(bs[0]) {
        assert e == [bs[0]] + Escape(bs[1..]);
        assert e[1..] == Escape(bs[1..]);
      } else {
        assert e == [PERCENT_SIGN] + HexPair(bs[0]) + Escape(bs[1..]);
        assert e[3..] == Escape(bs[1..]);
      }
      assert bs == [bs[0]] + bs[1..];
    }
  }

  /** The url-encoded hex of any bytes is between one and three characters
      per byte, and percent-decoding it gives the bytes back. */
  lemma UrlEncodeHexRoundTrip(bs: bytes)
    ensures UrlEncodeSpec(Hex(bs)).Encoded?
    ensures |bs| <= |UrlEncodeSpec(Hex(bs)).text| <= 3 * |bs|
    ensures Unescape(UrlEncodeSpec(Hex(bs)).text) == bs
  {
    UrlEncodeHex(bs);
    EscapeLength(bs);
    UnescapeEscape(bs);
  }

  // ---------------------------------------------------------------------
  // Piece hashes

  /** HashUtils::splitPieceHashes: substr(i, 20) for i = 0, 20, 40, ...
      below the length. */
  method SplitPieceHashes(pieces: bytes) returns (hashes: seq<bytes>)
    ensures |hashes| == (|pieces| + DIGEST_LENGTH - 1) / DIGEST_LENGTH
    ensures forall k :: 0 <= k < |hashes| ==>
              hashes[k] == pieces[DIGEST_LENGTH * k .. Min(DIGEST_LENGTH * k + DIGEST_LENGTH, |pieces|)]
    ensures forall k :: 0 <= k < |hashes| - 1 ==> |hashes[k]| == DIGEST_LENGTH
    ensures 0 < |hashes| ==> 1 <= |hashes[|hashes| - 1]| <= DIGEST_LENGTH
    ensures Concat(hashes) == pieces
  {
    hashes := [];
    var i := 0;
    while i < |pieces|
      invariant i == DIGEST_LENGTH * |hashes| && i < |pieces| + DIGEST_LENGTH
      invariant forall k :: 0 <= k < |hashes| ==>
                  hashes[k] == pieces[DIGEST_LENGTH * k .. Min(DIGEST_LENGTH * k + DIGEST_LENGTH, |pieces|)]
      invariant Concat(hashes) == pieces[..Min(i, |pieces|)]
    {
      var chunk := pieces[i .. Min(i + DIGEST_LENGTH, |pieces|)];
      ConcatSnoc(hashes, chunk);
      assert pieces[..Min(i + DIGEST_LENGTH, |pieces|)] == pieces[..i] + chunk;
      hashes := hashes + [chunk];
      i := i + DIGEST_LENGTH;
    }
    assert pieces[..Min(i, |pieces|)] == pieces;
  }

  // ---------------------------------------------------------------------
  // The handshake check

  /** HashUtils::verifyHandshakeResponse on the 68 received bytes: the
      length byte must be 19, bytes 1..19 the protocol name and bytes
      28..47 the expected info hash; on success bytes 48..67 are the
      remote peer id. (The source's `size() < 68` test cannot fire on a
      std::array of 68.) */
  function VerifyHandshakeResponse(response: bytes, infoHash: bytes): (r: (bool, bytes))
    requires |response| == HANDSHAKE_LENGTH
    ensures r.0 <==> response[0] == 19 && response[1..20] == Protocol() && response[28..48] == infoHash
    ensures r.0 ==> r.1 == response[48..68] && |r.1| == 20
    ensures !r.0 ==> r.1 == []
  {
    if response[0] != |Protocol()| then (false, [])
    else if response[1..20] != Protocol() then (false, [])
    else if response[28..48] != infoHash then (false, [])
    else (true, response[48..68])
  }

  /** The reserved bytes 20..27 never affect the verdict or the peer id. */
  lemma ReservedBytesIgnored(r1: bytes, r2: bytes, infoHash: bytes)
    requires |r1| == HANDSHAKE_LENGTH && |r2| == HANDSHAKE_LENGTH
    requires forall i :: 0 <= i < HANDSHAKE_LENGTH && !(20 <= i < 28) ==> r1[i] == r2[i]
    ensures VerifyHandshakeResponse(r1, infoHash) == VerifyHandshakeResponse(r2, infoHash)
  {
    assert r1[1..20] == r2[1..20];
    assert r1[28..48] == r2[28..48];
    assert r1[48..68] == r2[48..68];
  }
}

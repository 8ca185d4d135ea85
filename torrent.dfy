/** Torrent metadata (src/core/torrent.cpp): the fields
    TorrentMetadata::fromFile takes from a decoded descriptor, the info hash
    derived from the re-encoded `info` dictionary, and the piece count. */
module Torrent {
  import opened Base
  import opened Bencode

  /** A TorrentMetadata once fromFile has returned it. `data` is m_data,
      the whole decoded descriptor; the other fields are the members the
      getters return unchanged. */
  datatype Metadata = Metadata(
    data: BValue,
    announce: bytes,
    pieceLength: nat,
    pieces: bytes,
    name: bytes,
    totalLength: nat,
    infoHash: bytes)

  /** Why fromFile throws: BencodeError, the TorrentError for a missing
      announce URL, or nlohmann::json's type_error for a field that is
      missing or of the wrong type. */
  datatype LoadError = DecodeFailed | MissingAnnounce | TypeError

  function AnnounceKey(): bytes { Ascii("announce") }
  function InfoKey(): bytes { Ascii("info") }
  function PieceLengthKey(): bytes { Ascii("piece length") }
  function PiecesKey(): bytes { Ascii("pieces") }
  function NameKey(): bytes { Ascii("name") }
  function LengthKey(): bytes { Ascii("length") }

  /** `json[key]` read from a value that may be null: the entry of a
      dictionary, nothing for anything else. */
  function Member(v: Option<BValue>, key: bytes): Option<BValue>
  {
    if v.Some? && v.value.BDict? then Lookup(v.value.entries, key) else None
  }

  /** get<std::string>(): the bytes of a string; null or any other type throws. */
  function GetString(v: Option<BValue>): Result<bytes, LoadError>
  {
    if v.Some? && v.value.BStr? then Ok(v.value.s) else Err(TypeError)
  }

  /** get<size_t>(): a number converted to size_t (a negative number wraps
      modulo 2^64); null or any other type throws. */
  function GetSize(v: Option<BValue>): Result<nat, LoadError>
  {
    if v.Some? && v.value.BInt? then Ok(if v.value.n < 0 then v.value.n + SIZE_T_MODULUS else v.value.n)
    else Err(TypeError)
  }

  /** TorrentMetadata::fromFile on the file's content: decode, then take
      the fields from the decoded value. */
  function Load(content: bytes, sha1: Sha1, unsetLength: nat): (r: Result<Metadata, LoadError>)
    ensures r.Ok? ==> Decode(content).Some? && r.value.data == Decode(content).value.value
    ensures r.Ok? ==> |r.value.infoHash| == 20
  {
    match Decode(content)
    case None => Err(DecodeFailed)
    case Some(d) => FromValue(d.value, sha1, unsetLength)
  }

  /** The field extraction of fromFile on the decoded descriptor. `unsetLength`
      stands for m_total_length, which nothing assigns when `info` has no
      "length". */
  function FromValue(top: BValue, sha1: Sha1, unsetLength: nat): (r: Result<Metadata, LoadError>)
    ensures r.Ok? ==> r.value.data == top && |r.value.infoHash| == 20
  {
    var announce := Member(Some(top), AnnounceKey());
    if announce.None? then Err(MissingAnnounce)
    else
      var info := Member(Some(top), InfoKey());
      var announceUrl := GetString(announce);
      var pieceLength := GetSize(Member(info, PieceLengthKey()));
      var pieces := GetString(Member(info, PiecesKey()));
      var name := GetString(Member(info, NameKey()));
      var length := Member(info, LengthKey());
      var total := if length.Some? then GetSize(length) else Ok(unsetLength);
      if announceUrl.Err? || pieceLength.Err? || pieces.Err? || name.Err? || total.Err? then Err(TypeError)
      else
        Ok(Metadata(top, announceUrl.value, pieceLength.value, pieces.value, name.value, total.value,
                    sha1(Encode(info.value))))
  }

  /** Bytes that do not decode are refused with the decoder's error. */
  lemma LoadUndecodable(content: bytes, sha1: Sha1, unsetLength: nat)
    requires Decode(content).None?
    ensures Load(content, sha1, unsetLength) == Err(DecodeFailed)
  {
  }

  /** A descriptor that is not a dictionary, or one without "announce",
      is refused before any other field is looked at. */
  lemma LoadNeedsAnnounce(top: BValue, t: bytes, sha1: Sha1, unsetLength: nat)
    requires WellFormed(top)
    requires !top.BDict? || Lookup(top.entries, AnnounceKey()).None?
    ensures Load(Encode(top) + t, sha1, unsetLength) == Err(MissingAnnounce)
  {
    DecodeEncode(top, t);
  }

  predicate IsString(v: Option<BValue>) { v.Some? && v.value.BStr? }
  predicate IsInteger(v: Option<BValue>) { v.Some? && v.value.BInt? }

  /** A descriptor with "announce" whose announce URL is not a string,
      whose `info` lacks "piece length", "pieces" or "name" or holds one of
      the wrong type, or whose "length" is present but not a number, is
      refused with a type error. */
  lemma LoadNeedsTypedFields(top: seq<Entry>, t: bytes, sha1: Sha1, unsetLength: nat)
    requires WellFormed(BDict(top)) && Lookup(top, AnnounceKey()).Some?
    requires var info := Member(Some(BDict(top)), InfoKey());
             var length := Member(info, LengthKey());
             !IsString(Lookup(top, AnnounceKey())) || !IsInteger(Member(info, PieceLengthKey())) ||
             !IsString(Member(info, PiecesKey())) || !IsString(Member(info, NameKey())) ||
             (length.Some? && !length.value.BInt?)
    ensures Load(Encode(BDict(top)) + t, sha1, unsetLength) == Err(TypeError)
  {
    DecodeEncode(BDict(top), t);
  }

  /** Loading the encoding of a descriptor recovers what it holds: the
      announce URL, the three required `info` fields, the length when there
      is one, and SHA-1 of the encoded `info` dictionary as the info hash. */
  lemma LoadDescriptor(top: seq<Entry>, info: seq<Entry>, announce: bytes, pieceLength: int64, pieces: bytes,
                       name: bytes, t: bytes, sha1: Sha1, unsetLength: nat)
    requires WellFormed(BDict(top))
    requires Lookup(top, AnnounceKey()) == Some(BStr(announce))
    requires Lookup(top, InfoKey()) == Some(BDict(info))
    requires 0 <= pieceLength && Lookup(info, PieceLengthKey()) == Some(BInt(pieceLength))
    requires Lookup(info, PiecesKey()) == Some(BStr(pieces))
    requires Lookup(info, NameKey()) == Some(BStr(name))
    requires Lookup(info, LengthKey()).None? || (Lookup(info, LengthKey()).value.BInt? && 0 <= Lookup(info, LengthKey()).value.n)
    ensures Load(Encode(BDict(top)) + t, sha1, unsetLength) ==
            Ok(Metadata(BDict(top), announce, pieceLength, pieces, name,
                        if Lookup(info, LengthKey()).Some? then Lookup(info, LengthKey()).value.n else unsetLength,
                        sha1(Encode(BDict(info)))))
  {
    DecodeEncode(BDict(top), t);
    FieldsOfDescriptor(top, info, announce, pieceLength, pieces, name, sha1, unsetLength);
  }

  lemma FieldsOfDescriptor(top: seq<Entry>, info: seq<Entry>, announce: bytes, pieceLength: int64, pieces: bytes,
                           name: bytes, sha1: Sha1, unsetLength: nat)
    requires Lookup(top, AnnounceKey()) == Some(BStr(announce))
    requires Lookup(top, InfoKey()) == Some(BDict(info))
    requires 0 <= pieceLength && Lookup(info, PieceLengthKey()) == Some(BInt(pieceLength))
    requires Lookup(info, PiecesKey()) == Some(BStr(pieces))
    requires Lookup(info, NameKey()) == Some(BStr(name))
    requires Lookup(info, LengthKey()).None? || (Lookup(info, LengthKey()).value.BInt? && 0 <= Lookup(info, LengthKey()).value.n)
    ensures FromValue(BDict(top), sha1, unsetLength) ==
            Ok(Metadata(BDict(top), announce, pieceLength, pieces, name,
                        if Lookup(info, LengthKey()).Some? then Lookup(info, LengthKey()).value.n else unsetLength,
                        sha1(Encode(BDict(info)))))
  {
    var infoValue := Some(BDict(info));
    assert Member(Some(BDict(top)), AnnounceKey()) == Some(BStr(announce));
    assert Member(Some(BDict(top)), InfoKey()) == infoValue;
    assert GetSize(Member(infoValue, PieceLengthKey())) == Ok(pieceLength as nat);
    assert GetString(Member(infoValue, PiecesKey())) == Ok(pieces);
    assert GetString(Member(infoValue, NameKey())) == Ok(name);
  }

  // ---------------------------------------------------------------------
  // The piece count

  /** A size_t value converted to int: the low 32 bits, two's complement. */
  function Int32Of(n: int): int32
  {
    var low := n % 0x1_0000_0000;
    if low < 0x8000_0000 then low else low - 0x1_0000_0000
  }

  /** TorrentMetadata::getTotalPieces: (total + pieceLength - 1) / pieceLength
      in size_t arithmetic, returned as an int. A piece length of 0 would
      divide by zero. */
  function TotalPieces(m: Metadata): int32
    requires 0 < m.pieceLength
  {
    Int32Of(((m.totalLength + m.pieceLength - 1) % SIZE_T_MODULUS) / m.pieceLength)
  }

  /** getTotalPieces on any loaded descriptor: no count when the piece
      length is 0, where the division is undefined behaviour; where nothing
      wraps, the ceiling of total / pieceLength. */
  function PieceCount(m: Metadata): (r: Option<int32>)
    ensures r.None? <==> m.pieceLength == 0
    ensures r.Some? && m.totalLength < 0x8000_0000 && m.pieceLength < 0x8000_0000 ==>
              r.value == (m.totalLength + m.pieceLength - 1) / m.pieceLength
  {
    if m.pieceLength == 0 then None
    else if m.totalLength < 0x8000_0000 && m.pieceLength < 0x8000_0000 then
      TotalPiecesCeiling(m);
      Some(TotalPieces(m))
    else Some(TotalPieces(m))
  }

  /** Where nothing wraps, the count is the ceiling of total / pieceLength:
      the pieces cover the total and the last one is not empty. */
  lemma TotalPiecesCeiling(m: Metadata)
    requires 0 < m.pieceLength && m.totalLength < 0x8000_0000 && m.pieceLength < 0x8000_0000
    ensures 0 <= TotalPieces(m) <= m.totalLength
    ensures TotalPieces(m) * m.pieceLength >= m.totalLength
    ensures 0 < TotalPieces(m) ==> (TotalPieces(m) - 1) * m.pieceLength < m.totalLength
    ensures m.totalLength == 0 <==> TotalPieces(m) == 0
    ensures TotalPieces(m) == (m.totalLength + m.pieceLength - 1) / m.pieceLength
  {
    var n := m.totalLength + m.pieceLength - 1;
    assert n % SIZE_T_MODULUS == n;
    Ceiling(m.totalLength, m.pieceLength);
    var q := n / m.pieceLength;
    assert Int32Of(q) == q;
  }

  lemma Ceiling(total: nat, size: nat)
    requires 0 < size
    ensures var q := (total + size - 1) / size;
            q <= total && q * size >= total && (0 < q ==> (q - 1) * size < total) && (total == 0 <==> q == 0)
  {
    var n := total + size - 1;
    var q, r := n / size, n % size;
    DivMod(n, size);
    var p := q * size;
    assert p + r == n;
    if 0 < q {
      MulPred(q, size);
      MulAtLeast(q - 1, size);
    } else {
      MulZero(q, size);
    }
  }

  lemma DivMod(n: nat, size: nat)
    requires 0 < size
    ensures 0 <= n / size && (n / size) * size + n % size == n && 0 <= n % size < size
  {
  }

  lemma MulPred(q: int, size: int)
    ensures (q - 1) * size == q * size - size
  {
  }

  lemma MulAtLeast(x: nat, size: nat)
    requires 0 < size
    ensures x <= x * size
  {
  }

  lemma MulZero(q: int, size: int)
    requires q == 0
    ensures q * size == 0
  {
  }

  /** 1024 bytes in pieces of 256 is 4 pieces; so is 1000. */
  lemma TotalPiecesFixtures(m: Metadata)
    requires m.pieceLength == 256
    ensures m.totalLength == 1024 ==> TotalPieces(m) == 4
    ensures m.totalLength == 1000 ==> TotalPieces(m) == 4
  {
  }
}

/** The bencode codec of src/utils/bencode.cpp ("bencoding" in BEP 3).

    `Encode` and `Decode` are the specifications; `EncodeValue` and
    `DecodeValue` follow the C++ functions statement by statement (the
    accumulator loops of `encode`, the cursor loops of `decodeValue`) and are
    proved to compute exactly the specification. */
module Bencode {
  import opened Base

  const INT_TAG: byte := 105   // 'i'
  const LIST_TAG: byte := 108  // 'l'
  const DICT_TAG: byte := 100  // 'd'
  const END_TAG: byte := 101   // 'e'

  /** A decoded value. A dictionary holds its entries the way the source's
      nlohmann::json object does: ordered by key, one entry per key. */
  datatype BValue =
    | BStr(s: bytes)
    | BInt(n: int64)
    | BList(items: seq<BValue>)
    | BDict(entries: seq<Entry>)

  datatype Entry = Entry(key: bytes, value: BValue)

  /** A successful decode: the value and how many bytes it consumed. */
  datatype Decoded = Decoded(value: BValue, consumed: nat)

  // ---------------------------------------------------------------------
  // The dictionary container: std::map<std::string, json> inside nlohmann::json

  /** std::string's operator<: lexicographic, bytes compared as unsigned. */
  predicate KeyLess(a: bytes, b: bytes)
  {
    if a == [] then b != []
    else if b == [] then false
    else if a[0] != b[0] then a[0] < b[0]
    else KeyLess(a[1..], b[1..])
  }

  lemma {:induction false} KeyLessIrreflexive(a: bytes)
    ensures !KeyLess(a, a)
  {
    if a != [] {
      KeyLessIrreflexive(a[1..]);
    }
  }

  lemma {:induction false} KeyLessAsymmetric(a: bytes, b: bytes)
    requires KeyLess(a, b)
    ensures !KeyLess(b, a)
  {
    if a != [] && b != [] && a[0] == b[0] {
      KeyLessAsymmetric(a[1..], b[1..]);
    }
  }

  lemma {:induction false} KeyLessTransitive(a: bytes, b: bytes, c: bytes)
    requires KeyLess(a, b) && KeyLess(b, c)
    ensures KeyLess(a, c)
  {
    if a != [] && b != [] && c != [] && a[0] == b[0] && b[0] == c[0] {
      KeyLessTransitive(a[1..], b[1..], c[1..]);
    }
  }

  lemma {:induction false} KeyLessTotal(a: bytes, b: bytes)
    requires a != b
    ensures KeyLess(a, b) || KeyLess(b, a)
  {
    if a != [] && b != [] && a[0] == b[0] {
      assert a == [a[0]] + a[1..] && b == [b[0]] + b[1..];
      KeyLessTotal(a[1..], b[1..]);
    }
  }

  /** Keys strictly increasing: the shape of every dictionary the decoder builds. */
  predicate SortedKeys(entries: seq<Entry>)
  {
    forall i, j :: 0 <= i < j < |entries| ==> KeyLess(entries[i].key, entries[j].key)
  }

  /** `dict[key] = value` on the ordered map: an existing entry for the key
      is overwritten in place, otherwise the entry goes before the first
      larger key. */
  function Insert(entries: seq<Entry>, key: bytes, value: BValue): seq<Entry>
  {
    if entries == [] then [Entry(key, value)]
    else if entries[0].key == key then [Entry(key, value)] + entries[1..]
    else if KeyLess(key, entries[0].key) then [Entry(key, value)] + entries
    else [entries[0]] + Insert(entries[1..], key, value)
  }

  /** `contains(key)` / `operator[](key)` on a dictionary: its entry for the key. */
  function Lookup(entries: seq<Entry>, key: bytes): Option<BValue>
  {
    if entries == [] then None
    else if entries[0].key == key then Some(entries[0].value)
    else Lookup(entries[1..], key)
  }

  /** Map semantics of `dict[key] = value`: the key now maps to the new value
      (a repeated key overwrites the earlier one) and no other key changes. */
  lemma {:induction false} InsertLookup(entries: seq<Entry>, key: bytes, value: BValue, probe: bytes)
    ensures Lookup(Insert(entries, key, value), probe) ==
            if probe == key then Some(value) else Lookup(entries, probe)
  {
    if entries != [] && entries[0].key != key && !KeyLess(key, entries[0].key) {
      InsertLookup(entries[1..], key, value, probe);
    }
  }

  /** The result holds the new entry and otherwise only entries that were there. */
  lemma {:induction false} InsertEntries(entries: seq<Entry>, key: bytes, value: BValue)
    ensures Entry(key, value) in Insert(entries, key, value)
    ensures forall x :: x in Insert(entries, key, value) ==> x == Entry(key, value) || x in entries
  {
    if entries != [] && entries[0].key != key && !KeyLess(key, entries[0].key) {
      InsertEntries(entries[1..], key, value);
    }
  }

  /** Every key of `entries` is above `lo`. */
  predicate KeysAbove(entries: seq<Entry>, lo: bytes)
  {
    forall i :: 0 <= i < |entries| ==> KeyLess(lo, entries[i].key)
  }

  /** Inserting a key above `lo` keeps every key above `lo`. */
  lemma {:induction false} InsertKeysAbove(entries: seq<Entry>, key: bytes, value: BValue, lo: bytes)
    requires KeysAbove(entries, lo) && KeyLess(lo, key)
    ensures KeysAbove(Insert(entries, key, value), lo)
  {
    if entries != [] && entries[0].key != key && !KeyLess(key, entries[0].key) {
      InsertKeysAbove(entries[1..], key, value, lo);
      assert Insert(entries, key, value) == [entries[0]] + Insert(entries[1..], key, value);
    }
  }

  /** A sorted sequence with every key above a new first key stays sorted. */
  lemma {:induction false} SortedCons(e: Entry, tail: seq<Entry>)
    requires SortedKeys(tail) && KeysAbove(tail, e.key)
    ensures SortedKeys([e] + tail)
  {
    var r := [e] + tail;
    forall i, j | 0 <= i < j < |r| ensures KeyLess(r[i].key, r[j].key) {
      assert r[j] == tail[j - 1];
      if i > 0 {
        assert r[i] == tail[i - 1];
      }
    }
  }

  /** Inserting keeps the keys strictly increasing. */
  lemma {:induction false} InsertSorted(entries: seq<Entry>, key: bytes, value: BValue)
    requires SortedKeys(entries)
    ensures SortedKeys(Insert(entries, key, value))
  {
    if entries == [] {
    } else if entries[0].key == key {
      SortedRest(entries);
      SortedHead(entries);
      SortedCons(Entry(key, value), entries[1..]);
    } else if KeyLess(key, entries[0].key) {
      SortedHead(entries);
      forall i | 0 <= i < |entries| ensures KeyLess(key, entries[i].key) {
        if i > 0 {
          KeyLessTransitive(key, entries[0].key, entries[i].key);
        }
      }
      SortedCons(Entry(key, value), entries);
    } else {
      KeyLessTotal(key, entries[0].key);
      SortedRest(entries);
      SortedHead(entries);
      InsertSorted(entries[1..], key, value);
      InsertKeysAbove(entries[1..], key, value, entries[0].key);
      SortedCons(entries[0], Insert(entries[1..], key, value));
    }
  }

  /** The rest of a sorted sequence is sorted. */
  lemma {:induction false} SortedRest(entries: seq<Entry>)
    requires entries != [] && SortedKeys(entries)
    ensures SortedKeys(entries[1..])
  {
    forall i, j | 0 <= i < j < |entries| - 1 ensures KeyLess(entries[1..][i].key, entries[1..][j].key) {
      assert entries[1..][i] == entries[i + 1] && entries[1..][j] == entries[j + 1];
    }
  }

  /** The first key of a sorted sequence is below all the others. */
  lemma {:induction false} SortedHead(entries: seq<Entry>)
    requires entries != [] && SortedKeys(entries)
    ensures KeysAbove(entries[1..], entries[0].key)
  {
    forall i | 0 <= i < |entries| - 1 ensures KeyLess(entries[0].key, entries[1..][i].key) {
      assert entries[1..][i] == entries[i + 1];
    }
  }

  /** Inserting a key larger than every present key appends it. */
  lemma {:induction false} InsertLargest(entries: seq<Entry>, key: bytes, value: BValue)
    requires forall i :: 0 <= i < |entries| ==> KeyLess(entries[i].key, key)
    ensures Insert(entries, key, value) == entries + [Entry(key, value)]
  {
    if entries != [] {
      KeyLessIrreflexive(key);
      KeyLessAsymmetric(entries[0].key, key);
      InsertLargest(entries[1..], key, value);
      assert entries == [entries[0]] + entries[1..];
    }
  }

  /** The values the codec reproduces exactly: every dictionary's keys
      strictly increasing (integers are int64 by type). */
  predicate WellFormed(v: BValue)
  {
    match v
    case BStr(_) => true
    case BInt(_) => true
    case BList(items) => forall x | x in items :: WellFormed(x)
    case BDict(entries) =>
      SortedKeys(entries) && forall e | e in entries :: WellFormed(e.value)
  }

  // ---------------------------------------------------------------------
  // Encoding

  /** `std::to_string(len) + ":" + str`. */
  function EncodeStr(s: bytes): bytes
  {
    NatToDecimal(|s|) + [COLON] + s
  }

  function Encode(v: BValue): bytes
  {
    match v
    case BStr(s) => EncodeStr(s)
    case BInt(n) => [INT_TAG] + IntToDecimal(n) + [END_TAG]
    case BList(items) => [LIST_TAG] + EncodeList(items) + [END_TAG]
    case BDict(entries) => [DICT_TAG] + EncodeDict(entries) + [END_TAG]
  }

  /** The items' encodings, concatenated in order. */
  function EncodeList(items: seq<BValue>): bytes
  {
    if items == [] then [] else Encode(items[0]) + EncodeList(items[1..])
  }

  /** Each key's encoding followed by its value's encoding, in entry order. */
  function EncodeDict(entries: seq<Entry>): bytes
  {
    if entries == [] then []
    else
      var e := entries[0];
      assert e in entries;
      EncodeStr(e.key) + Encode(e.value) + EncodeDict(entries[1..])
  }

  lemma {:induction false} EncodeListSnoc(items: seq<BValue>, item: BValue)
    ensures EncodeList(items + [item]) == EncodeList(items) + Encode(item)
  {
    if items == [] {
      assert items + [item] == [item];
    } else {
      assert (items + [item])[1..] == items[1..] + [item];
      EncodeListSnoc(items[1..], item);
    }
  }

  lemma {:induction false} EncodeDictSnoc(entries: seq<Entry>, e: Entry)
    ensures EncodeDict(entries + [e]) == EncodeDict(entries) + EncodeStr(e.key) + Encode(e.value)
  {
    if entries == [] {
      assert entries + [e] == [e];
    } else {
      assert (entries + [e])[1..] == entries[1..] + [e];
      EncodeDictSnoc(entries[1..], e);
    }
  }

  lemma {:induction false} EncodeListPrefix(items: seq<BValue>, k: nat)
    requires k < |items|
    ensures EncodeList(items[..k + 1]) == EncodeList(items[..k]) + Encode(items[k])
  {
    assert items[..k + 1] == items[..k] + [items[k]];
    EncodeListSnoc(items[..k], items[k]);
  }

  lemma {:induction false} EncodeDictPrefix(entries: seq<Entry>, k: nat)
    requires k < |entries|
    ensures EncodeDict(entries[..k + 1]) == EncodeDict(entries[..k]) + EncodeStr(entries[k].key) + Encode(entries[k].value)
  {
    assert entries[..k + 1] == entries[..k] + [entries[k]];
    EncodeDictSnoc(entries[..k], entries[k]);
  }

  /** BencodeUtils::encode (the list and dictionary branches, with their
      accumulator loops, are the two methods below). */
  lemma {:induction false} TaggedAppend(tag: byte, body: bytes, a: bytes)
    ensures [tag] + body + a == [tag] + (body + a)
  {
  }

  method EncodeValue(v: BValue) returns (out: bytes)
    ensures out == Encode(v)
    decreases v, 1
  {
    match v
    case BStr(s) =>
      out := NatToDecimal(|s|) + [COLON] + s;
    case BInt(n) =>
      out := [INT_TAG] + IntToDecimal(n) + [END_TAG];
    case BList(items) =>
      out := EncodeListValue(items);
    case BDict(entries) =>
      out := EncodeDictValue(entries);
  }

  method EncodeListValue(items: seq<BValue>) returns (out: bytes)
    ensures out == Encode(BList(items))
    decreases items, 0
  {
    out := [LIST_TAG];
    var k := 0;
    while k < |items|
      invariant 0 <= k <= |items|
      invariant out == [LIST_TAG] + EncodeList(items[..k])
    {
      var item := EncodeValue(items[k]);
      EncodeListPrefix(items, k);
      TaggedAppend(LIST_TAG, EncodeList(items[..k]), item);
      out := out + item;
      k := k + 1;
    }
    assert items[..k] == items;
    out := out + [END_TAG];
  }

  method EncodeDictValue(entries: seq<Entry>) returns (out: bytes)
    ensures out == Encode(BDict(entries))
    decreases entries, 0
  {
    out := [DICT_TAG];
    var k := 0;
    while k < |entries|
      invariant 0 <= k <= |entries|
      invariant out == [DICT_TAG] + EncodeDict(entries[..k])
    {
      assert entries[k] in entries;
      // the key is a json string: encode emits its length-prefixed form
      var key := NatToDecimal(|entries[k].key|) + [COLON] + entries[k].key;
      var value := EncodeValue(entries[k].value);
      EncodeDictPrefix(entries, k);
      TaggedAppend(DICT_TAG, EncodeDict(entries[..k]), key);
      TaggedAppend(DICT_TAG, EncodeDict(entries[..k]) + key, value);
      out := out + key + value;
      k := k + 1;
    }
    assert entries[..k] == entries;
    out := out + [END_TAG];
  }

  // ---------------------------------------------------------------------
  // Decoding

  /** std::string_view::find(c, from): the first position at or after
      `from` holding c, or -1 for npos. */
  function FindByte(s: bytes, c: byte, from: nat): (r: int)
    requires from <= |s|
    ensures r == -1 || (from <= r < |s| && s[r] == c)
    decreases |s| - from
  {
    if from == |s| then -1 else if s[from] == c then from else FindByte(s, c, from + 1)
  }

  /** FindByte reports the first occurrence, and -1 only when there is none. */
  lemma {:induction false} FindByteFirst(s: bytes, c: byte, from: nat)
    requires from <= |s|
    ensures forall k :: from <= k < |s| && (FindByte(s, c, from) == -1 || k < FindByte(s, c, from)) ==> s[k] != c
    decreases |s| - from
  {
    if from < |s| && s[from] != c {
      FindByteFirst(s, c, from + 1);
    }
  }

  lemma {:induction false} FindByteAt(s: bytes, c: byte, from: nat, at: nat)
    requires from <= at < |s| && s[at] == c
    requires forall k :: from <= k < at ==> s[k] != c
    ensures FindByte(s, c, from) == at
    decreases at - from
  {
    if from < at {
      FindByteAt(s, c, from + 1, at);
    }
  }

  /** The same result, counted from n bytes earlier. */
  function Advance(n: nat, r: Option<Decoded>): Option<Decoded>
  {
    match r
    case None => None
    case Some(d) => Some(Decoded(d.value, n + d.consumed))
  }

  /** BencodeUtils::decode and decodeValue: the value at the front of `s`
      and the number of bytes it takes, or None where the source returns
      nullopt. Bytes after the value are ignored. */
  function Decode(s: bytes): (r: Option<Decoded>)
    ensures r.Some? ==> 2 <= r.value.consumed <= |s|
    decreases |s|, 1
  {
    if |s| == 0 then None
    else if IsDigit(s[0]) then DecodeString(s)
    else if s[0] == INT_TAG then DecodeInteger(s)
    else if s[0] == LIST_TAG then Advance(1, DecodeItems(s[1..], []))
    else if s[0] == DICT_TAG then Advance(1, DecodeEntries(s[1..], []))
    else None
  }

  /** The string branch: a length read with atol, the first ':', then that
      many bytes. */
  function DecodeString(s: bytes): (r: Option<Decoded>)
    requires |s| > 0 && IsDigit(s[0])
    ensures r.Some? ==> 2 <= r.value.consumed <= |s|
  {
    var colon := FindByte(s, COLON, 0);
    if colon < 0 then None
    else
      var length := LeadingNumber(s);
      if colon + 1 + length > |s| then None
      else Some(Decoded(BStr(s[colon + 1 .. colon + 1 + length]), colon + 1 + length))
  }

  /** The integer branch: up to the first 'e' after the tag. atoll stops at
      that 'e' at the latest, so it reads nothing past the value. */
  function DecodeInteger(s: bytes): (r: Option<Decoded>)
    requires |s| > 0 && s[0] == INT_TAG
    ensures r.Some? ==> 2 <= r.value.consumed <= |s|
  {
    var e := FindByte(s, END_TAG, 1);
    if e < 0 then None else Some(Decoded(BInt(AtoLL(s[1..])), e + 1))
  }

  /** The list loop on the view `u` that follows the items decoded so far
      (`acc`). The count runs from the start of `u` and includes the 'e'. */
  function DecodeItems(u: bytes, acc: seq<BValue>): (r: Option<Decoded>)
    ensures r.Some? ==> 1 <= r.value.consumed <= |u|
    decreases |u|, 2
  {
    if |u| == 0 then None
    else if u[0] == END_TAG then Some(Decoded(BList(acc), 1))
    else
      match Decode(u)
      case None => None
      case Some(item) => Advance(item.consumed, DecodeItems(u[item.consumed..], acc + [item.value]))
  }

  /** The dictionary loop on the view `u` that follows the entries decoded
      so far (`acc`): a key, which must be a string, then its value. */
  function DecodeEntries(u: bytes, acc: seq<Entry>): (r: Option<Decoded>)
    ensures r.Some? ==> 1 <= r.value.consumed <= |u|
    decreases |u|, 2
  {
    if |u| == 0 then None
    else if u[0] == END_TAG then Some(Decoded(BDict(acc), 1))
    else
      match Decode(u)
      case None => None
      case Some(key) =>
        if key.value.BStr? then Advance(key.consumed, DecodeEntryValue(u[key.consumed..], key.value.s, acc))
        else None
  }

  /** The value half of a dictionary turn, on the view `w` after the key. */
  function DecodeEntryValue(w: bytes, key: bytes, acc: seq<Entry>): (r: Option<Decoded>)
    ensures r.Some? ==> 1 <= r.value.consumed <= |w|
    decreases |w|, 2
  {
    match Decode(w)
    case None => None
    case Some(val) => Advance(val.consumed, DecodeEntries(w[val.consumed..], Insert(acc, key, val.value)))
  }

  /** One turn of the list loop on the view `u`; `r` follows the item. */
  lemma {:induction false} ItemTurn(u: bytes, r: bytes, items: seq<BValue>, item: Decoded, items': seq<BValue>)
    requires |u| > 0 && u[0] != END_TAG && Decode(u) == Some(item)
    requires item.consumed <= |u| && r == u[item.consumed..] && items' == items + [item.value]
    ensures DecodeItems(u, items) == Advance(item.consumed, DecodeItems(r, items'))
  {
  }

  /** One turn of the list loop keeps the loop's account of the whole input. */
  lemma {:induction false} ItemsStep(s: bytes, offset: nat, items: seq<BValue>, item: Decoded,
                                     next: nat, items': seq<BValue>, whole: Option<Decoded>)
    requires offset < |s| && s[offset] != END_TAG
    requires Decode(s[offset..]) == Some(item)
    requires Advance(offset, DecodeItems(s[offset..], items)) == whole
    requires next == offset + item.consumed && items' == items + [item.value]
    ensures next <= |s| && Advance(next, DecodeItems(s[next..], items')) == whole
  {
    Slices(s, offset, item.consumed, next);
    ItemTurn(s[offset..], s[next..], items, item, items');
    Transit(offset, DecodeItems(s[offset..], items), DecodeItems(s[next..], items'), item.consumed, next, whole);
  }

  /** The loops stop on a closing 'e' with what they have gathered. */
  lemma {:induction false} ItemsDone(s: bytes, offset: nat, items: seq<BValue>, whole: Option<Decoded>)
    requires offset < |s| && s[offset] == END_TAG
    requires Advance(offset, DecodeItems(s[offset..], items)) == whole
    ensures whole == Some(Decoded(BList(items), offset + 1))
  {
    assert DecodeItems(s[offset..], items) == Some(Decoded(BList(items), 1));
  }

  /** The list loop that reaches the end of the input fails the decode. */
  lemma {:induction false} ItemsRunOut(s: bytes, offset: nat, items: seq<BValue>, whole: Option<Decoded>)
    requires offset == |s|
    requires Advance(offset, DecodeItems(s[offset..], items)) == whole
    ensures whole == None
  {
    assert |s[offset..]| == 0;
  }

  lemma {:induction false} EntriesDone(s: bytes, offset: nat, dict: seq<Entry>, whole: Option<Decoded>)
    requires offset < |s| && s[offset] == END_TAG
    requires Advance(offset, DecodeEntries(s[offset..], dict)) == whole
    ensures whole == Some(Decoded(BDict(dict), offset + 1))
  {
    assert DecodeEntries(s[offset..], dict) == Some(Decoded(BDict(dict), 1));
  }

  /** The dictionary loop that reaches the end of the input fails the decode. */
  lemma {:induction false} EntriesRunOut(s: bytes, offset: nat, dict: seq<Entry>, whole: Option<Decoded>)
    requires offset == |s|
    requires Advance(offset, DecodeEntries(s[offset..], dict)) == whole
    ensures whole == None
  {
    assert |s[offset..]| == 0;
  }

  /** An element that does not decode fails the list. */
  lemma {:induction false} ItemsFail(s: bytes, offset: nat, items: seq<BValue>, whole: Option<Decoded>)
    requires offset < |s| && s[offset] != END_TAG && Decode(s[offset..]) == None
    requires Advance(offset, DecodeItems(s[offset..], items)) == whole
    ensures whole == None
  {
    assert DecodeItems(s[offset..], items) == None;
  }

  /** A result that is a later result advanced by n. */
  lemma {:induction false} Chain(a: Option<Decoded>, b: Option<Decoded>, n: nat, v: BValue, c: nat, m: nat)
    requires a == Advance(n, b) && b == Some(Decoded(v, c)) && m == n + c
    ensures a == Some(Decoded(v, m))
  {
  }

  lemma {:induction false} AdvanceAdvance(a: nat, b: nat, r: Option<Decoded>)
    ensures Advance(a, Advance(b, r)) == Advance(a + b, r)
  {
  }

  lemma {:induction false} EntryKeyStep(u: bytes, acc: seq<Entry>, key: bytes, keyLen: nat)
    requires |u| > 0 && u[0] != END_TAG
    requires Decode(u) == Some(Decoded(BStr(key), keyLen))
    ensures DecodeEntries(u, acc) == Advance(keyLen, DecodeEntryValue(u[keyLen..], key, acc))
  {
  }

  lemma {:induction false} EntryValueStep(w: bytes, key: bytes, acc: seq<Entry>, val: Decoded)
    requires Decode(w) == Some(val)
    ensures DecodeEntryValue(w, key, acc) ==
            Advance(val.consumed, DecodeEntries(w[val.consumed..], Insert(acc, key, val.value)))
  {
  }

  lemma {:induction false} Slices(s: bytes, a: nat, b: nat, c: nat)
    requires c == a + b <= |s|
    ensures s[a..][b..] == s[c..]
  {
  }

  /** The loop's account moves from one cursor to the next. */
  lemma {:induction false} Transit(offset: nat, a: Option<Decoded>, b: Option<Decoded>, c: nat, next: nat, whole: Option<Decoded>)
    requires Advance(offset, a) == whole && a == Advance(c, b) && next == offset + c
    ensures Advance(next, b) == whole
  {
  }

  /** One turn of the dictionary loop on the view `u` at `offset`: a string
      key, then its value on the view `w` after the key; `r` follows the value. */
  lemma {:induction false} EntryTurn(u: bytes, w: bytes, r: bytes, dict: seq<Entry>, key: bytes, keyLen: nat, val: Decoded,
                                     dict': seq<Entry>, offset: nat, next: nat, whole: Option<Decoded>)
    requires |u| > 0 && u[0] != END_TAG
    requires Decode(u) == Some(Decoded(BStr(key), keyLen))
    requires keyLen <= |u| && w == u[keyLen..] && Decode(w) == Some(val)
    requires val.consumed <= |w| && r == w[val.consumed..] && dict' == Insert(dict, key, val.value)
    requires Advance(offset, DecodeEntries(u, dict)) == whole && next == offset + keyLen + val.consumed
    ensures Advance(next, DecodeEntries(r, dict')) == whole
  {
    EntryKeyStep(u, dict, key, keyLen);
    EntryValueStep(w, key, dict, val);
    AdvanceAdvance(keyLen, val.consumed, DecodeEntries(r, dict'));
    Transit(offset, DecodeEntries(u, dict), DecodeEntries(r, dict'), keyLen + val.consumed, next, whole);
  }

  /** One turn of the dictionary loop keeps the loop's account of the whole input. */
  lemma {:induction false} EntriesStep(s: bytes, offset: nat, dict: seq<Entry>, key: bytes, keyLen: nat, val: Decoded,
                    next: nat, dict': seq<Entry>, whole: Option<Decoded>)
    requires offset < |s| && s[offset] != END_TAG
    requires Decode(s[offset..]) == Some(Decoded(BStr(key), keyLen))
    requires offset + keyLen <= |s| && Decode(s[offset + keyLen..]) == Some(val)
    requires Advance(offset, DecodeEntries(s[offset..], dict)) == whole
    requires next == offset + keyLen + val.consumed && dict' == Insert(dict, key, val.value)
    ensures next <= |s| && Advance(next, DecodeEntries(s[next..], dict')) == whole
  {
    Slices(s, offset, keyLen, offset + keyLen);
    Slices(s, offset + keyLen, val.consumed, next);
    EntryTurn(s[offset..], s[offset + keyLen..], s[next..], dict, key, keyLen, val, dict', offset, next, whole);
  }

  /** A key that decoded to a string but whose value does not decode. */
  lemma {:induction false} EntryValueFails(s: bytes, offset: nat, dict: seq<Entry>, key: bytes, keyLen: nat, whole: Option<Decoded>)
    requires offset < |s| && s[offset] != END_TAG
    requires Decode(s[offset..]) == Some(Decoded(BStr(key), keyLen))
    requires offset + keyLen <= |s| && Decode(s[offset + keyLen..]) == None
    requires Advance(offset, DecodeEntries(s[offset..], dict)) == whole
    ensures whole == None
  {
    assert s[offset..][keyLen..] == s[offset + keyLen..];
    EntryKeyStep(s[offset..], dict, key, keyLen);
  }

  /** A key that does not decode, or is not a string, fails the dictionary. */
  lemma {:induction false} EntryKeyFails(s: bytes, offset: nat, dict: seq<Entry>, whole: Option<Decoded>)
    requires offset < |s| && s[offset] != END_TAG
    requires Decode(s[offset..]).None? || !Decode(s[offset..]).value.value.BStr?
    requires Advance(offset, DecodeEntries(s[offset..], dict)) == whole
    ensures whole == None
  {
    assert DecodeEntries(s[offset..], dict) == None;
  }

  /** BencodeUtils::decodeValue, with its cursor loops (the list and
      dictionary branches are the two methods below). */
  method DecodeValue(s: bytes) returns (r: Option<Decoded>)
    ensures r == Decode(s)
    decreases |s|, 3
  {
    if |s| == 0 {
      return None;
    }
    if IsDigit(s[0]) {
      var colon := FindByte(s, COLON, 0);
      if colon < 0 {
        return None;
      }
      var length := LeadingNumber(s);
      if colon + 1 + length > |s| {
        return None;
      }
      return Some(Decoded(BStr(s[colon + 1 .. colon + 1 + length]), colon + 1 + length));
    } else if s[0] == INT_TAG {
      var e := FindByte(s, END_TAG, 1);
      if e < 0 {
        return None;
      }
      var num := AtoLL(s[1..]);
      return Some(Decoded(BInt(num), e + 1));
    } else if s[0] == LIST_TAG {
      r := DecodeListValue(s);
    } else if s[0] == DICT_TAG {
      r := DecodeDictValue(s);
    } else {
      r := None;
    }
  }

  /** The 'l' branch of decodeValue. */
  method DecodeListValue(s: bytes) returns (r: Option<Decoded>)
    requires |s| > 0 && s[0] == LIST_TAG
    ensures r == Decode(s)
    decreases |s|, 2
  {
    ghost var whole := Decode(s);
    var items: seq<BValue> := [];
    var offset := 1;
    while offset < |s| && s[offset] != END_TAG
      invariant 1 <= offset <= |s|
      invariant Advance(offset, DecodeItems(s[offset..], items)) == whole
      decreases |s| - offset
    {
      var item := DecodeValue(s[offset..]);
      if item.None? {
        ItemsFail(s, offset, items, whole);
        return None;
      }
      var next, items' := offset + item.value.consumed, items + [item.value.value];
      ItemsStep(s, offset, items, item.value, next, items', whole);
      offset, items := next, items';
    }
    if offset >= |s| {
      ItemsRunOut(s, offset, items, whole);
      return None;
    }
    ItemsDone(s, offset, items, whole);
    return Some(Decoded(BList(items), offset + 1));
  }

  /** The 'd' branch of decodeValue. */
  method DecodeDictValue(s: bytes) returns (r: Option<Decoded>)
    requires |s| > 0 && s[0] == DICT_TAG
    ensures r == Decode(s)
    decreases |s|, 2
  {
    ghost var whole := Decode(s);
    var dict: seq<Entry> := [];
    var offset := 1;
    while offset < |s| && s[offset] != END_TAG
      invariant 1 <= offset <= |s|
      invariant Advance(offset, DecodeEntries(s[offset..], dict)) == whole
      decreases |s| - offset
    {
      var ok, next, dict' := DecodeEntryAt(s, offset, dict, whole);
      if !ok {
        return None;
      }
      offset, dict := next, dict';
    }
    if offset >= |s| {
      EntriesRunOut(s, offset, dict, whole);
      return None;
    }
    EntriesDone(s, offset, dict, whole);
    return Some(Decoded(BDict(dict), offset + 1));
  }

  /** One turn of the dictionary loop: the key at `offset`, which must be a
      string, then its value; returns the cursor after the value and the
      dictionary with the entry set. */
  method DecodeEntryAt(s: bytes, offset: nat, dict: seq<Entry>, ghost whole: Option<Decoded>) returns (ok: bool, next: nat, dict': seq<Entry>)
    requires 1 <= offset < |s| && s[offset] != END_TAG
    requires Advance(offset, DecodeEntries(s[offset..], dict)) == whole
    ensures !ok ==> whole == None
    ensures ok ==> offset < next <= |s| && Advance(next, DecodeEntries(s[next..], dict')) == whole
    decreases |s|, 1
  {
    var key := DecodeValue(s[offset..]);
    if key.None? || !key.value.value.BStr? {
      EntryKeyFails(s, offset, dict, whole);
      return false, offset, dict;
    }
    ok, next, dict' := DecodeEntryValueAt(s, offset, dict, key.value.value.s, key.value.consumed, whole);
  }

  /** The value half of a turn, after a string key of keyLen bytes. */
  method DecodeEntryValueAt(s: bytes, offset: nat, dict: seq<Entry>, key: bytes, keyLen: nat, ghost whole: Option<Decoded>)
    returns (ok: bool, next: nat, dict': seq<Entry>)
    requires 1 <= offset < |s| && s[offset] != END_TAG
    requires Decode(s[offset..]) == Some(Decoded(BStr(key), keyLen))
    requires Advance(offset, DecodeEntries(s[offset..], dict)) == whole
    ensures !ok ==> whole == None
    ensures ok ==> offset < next <= |s| && Advance(next, DecodeEntries(s[next..], dict')) == whole
    decreases |s|, 0
  {
    var afterKey := offset + keyLen;
    var value := DecodeValue(s[afterKey..]);
    if value.None? {
      EntryValueFails(s, offset, dict, key, keyLen, whole);
      return false, offset, dict;
    }
    var v := value.value;
    next, dict' := afterKey + v.consumed, Insert(dict, key, v.value);
    EntriesStep(s, offset, dict, key, keyLen, v, next, dict', whole);
    ok := true;
  }

  // ---------------------------------------------------------------------
  // Properties

  /** No encoding is empty or starts with the closing tag. */
  lemma {:induction false} EncodeStart(v: BValue)
    ensures |Encode(v)| > 0 && Encode(v)[0] != END_TAG
  {
    match v
    case BStr(x) => assert Encode(v)[0] == NatToDecimal(|x|)[0];
    case BInt(_) =>
    case BList(_) =>
    case BDict(_) =>
  }

  /** A length-prefixed string decodes to itself, whatever follows it. */
  lemma {:induction false} DecodeEncodeStr(x: bytes, t: bytes)
    ensures Decode(EncodeStr(x) + t) == Some(Decoded(BStr(x), |EncodeStr(x)|))
  {
    var ds := NatToDecimal(|x|);
    var s := EncodeStr(x) + t;
    assert s == ds + ([COLON] + x + t);
    assert s[0] == ds[0];
    FindByteAt(s, COLON, 0, |ds|);
    LeadingNumberOfDecimal(|x|, [COLON] + x + t);
    assert s[|ds| + 1 .. |ds| + 1 + |x|] == x;
  }

  lemma {:induction false} DecodeEncodeInt(n: int64, t: bytes)
    ensures Decode(Encode(BInt(n)) + t) == Some(Decoded(BInt(n), |Encode(BInt(n))|))
  {
    IntEnd(n, t);
    IntValue(n, t);
    IntDecoded(Encode(BInt(n)) + t, |IntToDecimal(n)| + 1, n, |Encode(BInt(n))|);
  }

  /** The integer branch once the closing 'e' and the value are known. */
  lemma {:induction false} IntDecoded(s: bytes, e: int, v: int64, m: nat)
    requires |s| > 0 && s[0] == INT_TAG
    requires FindByte(s, END_TAG, 1) == e && 0 <= e && m == e + 1
    requires AtoLL(s[1..]) == v
    ensures Decode(s) == Some(Decoded(BInt(v), m))
  {
    assert Decode(s) == DecodeInteger(s);
  }

  /** The first 'e' after the tag of an encoded integer is its own closing tag. */
  lemma {:induction false} IntEnd(n: int64, t: bytes)
    ensures |Encode(BInt(n)) + t| > 0 && (Encode(BInt(n)) + t)[0] == INT_TAG
    ensures |Encode(BInt(n))| == |IntToDecimal(n)| + 2
    ensures FindByte(Encode(BInt(n)) + t, END_TAG, 1) == |IntToDecimal(n)| + 1
  {
    var ds := IntToDecimal(n);
    var s := Encode(BInt(n)) + t;
    assert s == [INT_TAG] + ds + [END_TAG] + t;
    forall k | 1 <= k < 1 + |ds| ensures s[k] != END_TAG {
      assert s[k] == ds[k - 1];
      if n >= 0 {
        assert IsDigit(ds[k - 1]);
      } else if k > 1 {
        assert ds[k - 1] == NatToDecimal(-(n as int))[k - 2];
      }
    }
    FindByteAt(s, END_TAG, 1, 1 + |ds|);
  }

  /** `atoll` after the tag reads back the encoded integer. */
  lemma {:induction false} IntValue(n: int64, t: bytes)
    ensures |Encode(BInt(n)) + t| > 0
    ensures AtoLL((Encode(BInt(n)) + t)[1..]) == n
  {
    var ds := IntToDecimal(n);
    assert (Encode(BInt(n)) + t)[1..] == ds + ([END_TAG] + t);
    AtoLLOfDecimal(n, [END_TAG] + t);
  }

  lemma {:induction false} ContainerShape(tag: byte, inner: bytes, t: bytes, whole: bytes)
    requires whole == [tag] + inner + [END_TAG] + t
    ensures |whole| > 0 && whole[0] == tag && whole[1..] == inner + [END_TAG] + t
  {
    assert whole == [tag] + (inner + [END_TAG] + t);
  }

  lemma {:induction false} NilPrefix<T>(xs: seq<T>)
    ensures [] + xs == xs
  {
  }

  /** A list's encoding is decoded by the list loop, from after the tag. */
  lemma {:induction false} ListHead(items: seq<BValue>, t: bytes)
    ensures Decode(Encode(BList(items)) + t) == Advance(1, DecodeItems(EncodeList(items[0..]) + [END_TAG] + t, items[..0]))
    ensures |Encode(BList(items))| == |EncodeList(items[0..])| + 2
  {
    ContainerShape(LIST_TAG, EncodeList(items), t, Encode(BList(items)) + t);
    assert items[0..] == items && items[..0] == [];
  }

  /** A dictionary's encoding is decoded by the dictionary loop, from after the tag. */
  lemma {:induction false} DictHead(entries: seq<Entry>, t: bytes)
    ensures Decode(Encode(BDict(entries)) + t) == Advance(1, DecodeEntries(EncodeDict(entries) + [END_TAG] + t, []))
    ensures BDict([] + entries) == BDict(entries) && SortedKeys([] + entries) == SortedKeys(entries)
    ensures |Encode(BDict(entries))| == |EncodeDict(entries)| + 2
  {
    ContainerShape(DICT_TAG, EncodeDict(entries), t, Encode(BDict(entries)) + t);
    NilPrefix(entries);
  }

  /** An item that decodes to itself is skipped over by the list loop. */
  lemma {:induction false} ItemsAfter(x: BValue, tail: bytes, acc: seq<BValue>)
    requires Decode(Encode(x) + tail) == Some(Decoded(x, |Encode(x)|))
    ensures DecodeItems(Encode(x) + tail, acc) == Advance(|Encode(x)|, DecodeItems(tail, acc + [x]))
  {
    EncodeStart(x);
    assert (Encode(x) + tail)[|Encode(x)|..] == tail;
  }

  /** A string key is skipped over by the dictionary loop. */
  lemma {:induction false} KeyAfter(key: bytes, w: bytes, acc: seq<Entry>)
    ensures DecodeEntries(EncodeStr(key) + w, acc) == Advance(|EncodeStr(key)|, DecodeEntryValue(w, key, acc))
  {
    var ks := EncodeStr(key);
    DecodeEncodeStr(key, w);
    assert (ks + w)[0] == NatToDecimal(|key|)[0];
    assert (ks + w)[|ks|..] == w;
    EntryKeyStep(ks + w, acc, key, |ks|);
  }

  /** A value that decodes to itself is skipped over, and its key set. */
  lemma {:induction false} ValueAfter(key: bytes, v: BValue, tail: bytes, acc: seq<Entry>)
    requires Decode(Encode(v) + tail) == Some(Decoded(v, |Encode(v)|))
    ensures DecodeEntryValue(Encode(v) + tail, key, acc) ==
            Advance(|Encode(v)|, DecodeEntries(tail, Insert(acc, key, v)))
  {
    assert (Encode(v) + tail)[|Encode(v)|..] == tail;
  }

  /** Inserting the next key of a sorted dictionary appends it. */
  lemma {:induction false} InsertNext(acc: seq<Entry>, rest: seq<Entry>)
    requires SortedKeys(acc + rest) && rest != []
    ensures Insert(acc, rest[0].key, rest[0].value) == acc + [rest[0]]
  {
    forall i | 0 <= i < |acc| ensures KeyLess(acc[i].key, rest[0].key) {
      assert (acc + rest)[i] == acc[i] && (acc + rest)[|acc|] == rest[0];
    }
    InsertLargest(acc, rest[0].key, rest[0].value);
  }

  lemma {:induction false} SortedNext(acc: seq<Entry>, rest: seq<Entry>)
    requires SortedKeys(acc + rest) && rest != []
    ensures SortedKeys((acc + [rest[0]]) + rest[1..])
  {
    assert (acc + [rest[0]]) + rest[1..] == acc + rest;
  }

  /** The next value of a sorted dictionary is decoded and appended. */
  lemma {:induction false} ValueNext(acc: seq<Entry>, rest: seq<Entry>, tail: bytes)
    requires SortedKeys(acc + rest) && rest != []
    requires Decode(Encode(rest[0].value) + tail) == Some(Decoded(rest[0].value, |Encode(rest[0].value)|))
    ensures DecodeEntryValue(Encode(rest[0].value) + tail, rest[0].key, acc) ==
            Advance(|Encode(rest[0].value)|, DecodeEntries(tail, acc + [rest[0]]))
  {
    ValueAfter(rest[0].key, rest[0].value, tail, acc);
    InsertNext(acc, rest);
  }

  /** Round trip: a well-formed value decodes back from its encoding,
      consuming exactly the encoding, whatever bytes follow it. */
  lemma {:induction false} DecodeEncode(v: BValue, t: bytes)
    requires WellFormed(v)
    ensures Decode(Encode(v) + t) == Some(Decoded(v, |Encode(v)|))
    decreases v, 1
  {
    match v
    case BStr(x) =>
      DecodeEncodeStr(x, t);
    case BInt(n) =>
      DecodeEncodeInt(n, t);
    case BList(items) =>
      DecodeEncodeList(items, t);
    case BDict(entries) =>
      DecodeEncodeDict(entries, t);
  }

  lemma {:induction false} DecodeEncodeList(items: seq<BValue>, t: bytes)
    requires forall x | x in items :: WellFormed(x)
    ensures Decode(Encode(BList(items)) + t) == Some(Decoded(BList(items), |Encode(BList(items))|))
    decreases items, |items| + 2
  {
    ListHead(items, t);
    WellFormedFromAll(items, 0);
    DecodeEncodeItems(items, 0, t);
    Chain(Decode(Encode(BList(items)) + t), ItemsFrom(items, 0, t),
          1, BList(items), |EncodeList(items[0..])| + 1, |Encode(BList(items))|);
  }

  lemma {:induction false} DecodeEncodeDict(entries: seq<Entry>, t: bytes)
    requires SortedKeys(entries) && forall e | e in entries :: WellFormed(e.value)
    ensures Decode(Encode(BDict(entries)) + t) == Some(Decoded(BDict(entries), |Encode(BDict(entries))|))
    decreases entries, 1
  {
    DictHead(entries, t);
    DecodeEncodeEntries(entries, [], t);
  }

  /** The list body from item k on, split after item k. */
  lemma {:induction false} ItemsCons(items: seq<BValue>, k: nat, t: bytes)
    requires k < |items|
    ensures DecodeItems(EncodeList(items[k..]) + [END_TAG] + t, items[..k]) ==
            DecodeItems(Encode(items[k]) + (EncodeList(items[k + 1..]) + [END_TAG] + t), items[..k])
    ensures |EncodeList(items[k..])| == |Encode(items[k])| + |EncodeList(items[k + 1..])|
    ensures DecodeItems(EncodeList(items[k + 1..]) + [END_TAG] + t, items[..k] + [items[k]]) ==
            DecodeItems(EncodeList(items[k + 1..]) + [END_TAG] + t, items[..k + 1])
  {
    assert items[k..][1..] == items[k + 1..];
    assert EncodeList(items[k..]) + [END_TAG] + t == Encode(items[k]) + (EncodeList(items[k + 1..]) + [END_TAG] + t);
    assert items[..k] + [items[k]] == items[..k + 1];
  }

  /** The list loop stops on the closing 'e' with every item gathered. */
  lemma {:induction false} ItemsNil(items: seq<BValue>, k: nat, t: bytes)
    requires k == |items|
    ensures DecodeItems(EncodeList(items[k..]) + [END_TAG] + t, items[..k]) ==
            Some(Decoded(BList(items), |EncodeList(items[k..])| + 1))
  {
    assert items[k..] == [] && items[..k] == items;
    assert EncodeList(items[k..]) + [END_TAG] + t == [END_TAG] + t;
  }

  /** The list loop reads item k of an encoded list back and goes on after it. */
  lemma {:induction false} ItemsFirst(items: seq<BValue>, k: nat, t: bytes)
    requires k < |items| && WellFormed(items[k])
    ensures ItemsFrom(items, k, t) == Advance(|Encode(items[k])|, ItemsFrom(items, k + 1, t))
    ensures |EncodeList(items[k..])| == |Encode(items[k])| + |EncodeList(items[k + 1..])|
    decreases items, 0
  {
    var x, tail := items[k], EncodeList(items[k + 1..]) + [END_TAG] + t;
    DecodeEncode(x, tail);
    ItemsAfter(x, tail, items[..k]);
    ItemsCons(items, k, t);
  }

  /** Items k onwards are well formed. */
  predicate WellFormedFrom(items: seq<BValue>, k: nat)
    decreases |items| - k
  {
    k >= |items| || (WellFormed(items[k]) && WellFormedFrom(items, k + 1))
  }

  lemma {:induction false} WellFormedFromAll(items: seq<BValue>, k: nat)
    requires forall x | x in items :: WellFormed(x)
    ensures WellFormedFrom(items, k)
    decreases |items| - k
  {
    if k < |items| {
      assert items[k] in items;
      WellFormedFromAll(items, k + 1);
    }
  }

  /** With items[..k] gathered, the list loop reads the rest of the encoded
      items and the closing 'e' back into the whole list. */
  predicate ItemsReadBack(items: seq<BValue>, k: nat, t: bytes)
    requires k <= |items|
  {
    ItemsFrom(items, k, t) == Some(Decoded(BList(items), |EncodeList(items[k..])| + 1))
  }

  /** The list loop over the encoding of items k onwards, the closing 'e'
      and `t`, with items[..k] gathered. */
  function ItemsFrom(items: seq<BValue>, k: nat, t: bytes): Option<Decoded>
    requires k <= |items|
  {
    DecodeItems(EncodeList(items[k..]) + [END_TAG] + t, items[..k])
  }

  lemma {:induction false} DecodeEncodeItems(items: seq<BValue>, k: nat, t: bytes)
    requires k <= |items| && WellFormedFrom(items, k)
    ensures ItemsReadBack(items, k, t)
    decreases items, |items| - k + 1
  {
    if k == |items| {
      ItemsNil(items, k, t);
    } else {
      DecodeEncodeItems(items, k + 1, t);
      ItemReadBack(items, k, t);
    }
  }

  /** Reading item k back in front of the rest of the list. */
  lemma ItemReadBack(items: seq<BValue>, k: nat, t: bytes)
    requires k < |items| && WellFormed(items[k]) && ItemsReadBack(items, k + 1, t)
    ensures ItemsReadBack(items, k, t)
    decreases items, 1
  {
    ItemsFirst(items, k, t);
    Chain(ItemsFrom(items, k, t), ItemsFrom(items, k + 1, t),
          |Encode(items[k])|, BList(items), |EncodeList(items[k + 1..])| + 1, |EncodeList(items[k..])| + 1);
  }

  /** The dictionary body of a non-empty dictionary, split after its first entry. */
  lemma {:induction false} EntriesCons(rest: seq<Entry>, acc: seq<Entry>, t: bytes)
    requires rest != []
    ensures DecodeEntries(EncodeDict(rest) + [END_TAG] + t, acc) ==
            DecodeEntries(EncodeStr(rest[0].key) + (Encode(rest[0].value) + (EncodeDict(rest[1..]) + [END_TAG] + t)), acc)
    ensures |EncodeDict(rest)| == |EncodeStr(rest[0].key)| + |Encode(rest[0].value)| + |EncodeDict(rest[1..])|
    ensures BDict(acc + [rest[0]] + rest[1..]) == BDict(acc + rest)
  {
    var e := rest[0];
    Regroup(EncodeStr(e.key), Encode(e.value), EncodeDict(rest[1..]), [END_TAG] + t);
    assert EncodeDict(rest) + [END_TAG] + t == EncodeDict(rest) + ([END_TAG] + t);
    assert EncodeDict(rest[1..]) + [END_TAG] + t == EncodeDict(rest[1..]) + ([END_TAG] + t);
    assert [e] + rest[1..] == rest;
    assert acc + [e] + rest[1..] == acc + ([e] + rest[1..]);
  }

  lemma Regroup(a: bytes, b: bytes, c: bytes, d: bytes)
    ensures a + b + c + d == a + (b + (c + d))
  {
  }

  lemma {:induction false} EntriesNil(rest: seq<Entry>, acc: seq<Entry>, t: bytes)
    requires rest == []
    ensures DecodeEntries(EncodeDict(rest) + [END_TAG] + t, acc) == Some(Decoded(BDict(acc + rest), |EncodeDict(rest)| + 1))
  {
    assert EncodeDict(rest) + [END_TAG] + t == [END_TAG] + t;
    assert acc + rest == acc;
  }

  lemma {:induction false} DecodeEncodeEntries(rest: seq<Entry>, acc: seq<Entry>, t: bytes)
    requires SortedKeys(acc + rest)
    requires forall e | e in rest :: WellFormed(e.value)
    ensures DecodeEntries(EncodeDict(rest) + [END_TAG] + t, acc) ==
            Some(Decoded(BDict(acc + rest), |EncodeDict(rest)| + 1))
    decreases rest, 0
  {
    if rest == [] {
      EntriesNil(rest, acc, t);
    } else {
      var e := rest[0];
      assert e in rest;
      var ks, vs := EncodeStr(e.key), Encode(e.value);
      var tail := EncodeDict(rest[1..]) + [END_TAG] + t;
      var after := DecodeEntries(tail, acc + [e]);
      SortedNext(acc, rest);
      DecodeEncodeEntries(rest[1..], acc + [e], t);
      assert after == Some(Decoded(BDict(acc + [e] + rest[1..]), |EncodeDict(rest[1..])| + 1));
      DecodeEncode(e.value, tail);
      ValueNext(acc, rest, tail);
      KeyAfter(e.key, vs + tail, acc);
      EntriesCons(rest, acc, t);
      assert DecodeEntries(EncodeDict(rest) + [END_TAG] + t, acc) == Advance(|ks|, Advance(|vs|, after));
      AdvanceAdvance(|ks|, |vs|, after);
    }
  }

  // ---------------------------------------------------------------------
  // What a decode accepts and rejects

  /** The string branch: with c the first ':' the result is the `atol`
      length of bytes after it, or failure when they run past the end; with
      no ':' at all the decode fails. */
  lemma {:induction false} DecodeStringCases(s: bytes, c: nat)
    requires |s| > 0 && IsDigit(s[0])
    requires c < |s| && s[c] == COLON && forall k | 0 <= k < c :: s[k] != COLON
    ensures c + 1 + LeadingNumber(s) > |s| ==> Decode(s) == None
    ensures c + 1 + LeadingNumber(s) <= |s| ==>
            Decode(s) == Some(Decoded(BStr(s[c + 1 .. c + 1 + LeadingNumber(s)]), c + 1 + LeadingNumber(s)))
  {
    FindByteAt(s, COLON, 0, c);
    assert Decode(s) == DecodeString(s);
  }

  lemma {:induction false} DecodeStringNoColon(s: bytes)
    requires |s| > 0 && IsDigit(s[0])
    requires forall k | 0 <= k < |s| :: s[k] != COLON
    ensures Decode(s) == None
  {
    FindByteFirst(s, COLON, 0);
  }

  /** The integer branch: with e the first 'e' after the tag the value is
      `atoll` of the bytes after the tag and e+1 bytes are consumed; with no
      'e' the decode fails. */
  lemma {:induction false} DecodeIntegerCases(s: bytes, e: nat)
    requires |s| > 0 && s[0] == INT_TAG
    requires 1 <= e < |s| && s[e] == END_TAG && forall k | 1 <= k < e :: s[k] != END_TAG
    ensures Decode(s) == Some(Decoded(BInt(AtoLL(s[1..])), e + 1))
  {
    FindByteAt(s, END_TAG, 1, e);
  }

  lemma {:induction false} DecodeIntegerNoEnd(s: bytes)
    requires |s| > 0 && s[0] == INT_TAG
    requires forall k | 1 <= k < |s| :: s[k] != END_TAG
    ensures Decode(s) == None
  {
    FindByteFirst(s, END_TAG, 1);
  }

  /** An integer, list or dictionary ends exactly on its closing 'e': the
      consumed count is the position after it. */
  lemma {:induction false} DecodeClosingTag(s: bytes)
    requires Decode(s).Some? && !IsDigit(s[0])
    ensures s[Decode(s).value.consumed - 1] == END_TAG
  {
    if s[0] == LIST_TAG {
      ItemsClosingTag(s[1..], []);
    } else if s[0] == DICT_TAG {
      EntriesClosingTag(s[1..], []);
    }
  }

  lemma {:induction false} ItemsClosingTag(u: bytes, acc: seq<BValue>)
    requires DecodeItems(u, acc).Some?
    ensures u[DecodeItems(u, acc).value.consumed - 1] == END_TAG
    decreases |u|
  {
    if u[0] != END_TAG {
      var item := Decode(u).value;
      ItemsClosingTag(u[item.consumed..], acc + [item.value]);
    }
  }

  lemma {:induction false} EntriesClosingTag(u: bytes, acc: seq<Entry>)
    requires DecodeEntries(u, acc).Some?
    ensures u[DecodeEntries(u, acc).value.consumed - 1] == END_TAG
    decreases |u|, 1
  {
    if u[0] != END_TAG {
      var key := Decode(u).value;
      EntryValueClosingTag(u[key.consumed..], key.value.s, acc);
    }
  }

  lemma {:induction false} EntryValueClosingTag(w: bytes, key: bytes, acc: seq<Entry>)
    requires DecodeEntryValue(w, key, acc).Some?
    ensures w[DecodeEntryValue(w, key, acc).value.consumed - 1] == END_TAG
    decreases |w|, 0
  {
    var val := Decode(w).value;
    EntriesClosingTag(w[val.consumed..], Insert(acc, key, val.value));
  }

  /** A list or dictionary fails when an element fails, when a dictionary
      key is not a string, and when the input ends before the closing 'e'. */
  lemma {:induction false} ContainerFailures(u: bytes, items: seq<BValue>, entries: seq<Entry>)
    ensures |u| == 0 ==> DecodeItems(u, items) == None && DecodeEntries(u, entries) == None
    ensures |u| > 0 && u[0] != END_TAG && Decode(u) == None ==>
              DecodeItems(u, items) == None && DecodeEntries(u, entries) == None
    ensures |u| > 0 && u[0] != END_TAG && Decode(u).Some? && !Decode(u).value.value.BStr? ==>
              DecodeEntries(u, entries) == None
    ensures (forall k | 0 <= k < |u| :: u[k] != END_TAG) ==>
              DecodeItems(u, items) == None && DecodeEntries(u, entries) == None
  {
    if DecodeItems(u, items).Some? {
      ItemsClosingTag(u, items);
    }
    if DecodeEntries(u, entries).Some? {
      EntriesClosingTag(u, entries);
    }
  }

  // ---------------------------------------------------------------------
  // What a decode produces

  /** Every decoded dictionary, at any depth, has strictly increasing keys. */
  lemma {:induction false} DecodeWellFormed(s: bytes)
    requires Decode(s).Some?
    ensures WellFormed(Decode(s).value.value)
    decreases |s|, 0
  {
    if s[0] == LIST_TAG {
      ItemsWellFormed(s[1..], []);
    } else if s[0] == DICT_TAG {
      EntriesWellFormed(s[1..], []);
    }
  }

  lemma {:induction false} ItemsWellFormed(u: bytes, acc: seq<BValue>)
    requires forall x | x in acc :: WellFormed(x)
    requires DecodeItems(u, acc).Some?
    ensures WellFormed(DecodeItems(u, acc).value.value)
    decreases |u|, 1
  {
    if u[0] != END_TAG {
      var item := Decode(u).value;
      DecodeWellFormed(u);
      var acc' := acc + [item.value];
      assert forall x | x in acc' :: WellFormed(x);
      ItemsWellFormed(u[item.consumed..], acc');
    }
  }

  lemma {:induction false} EntriesWellFormed(u: bytes, acc: seq<Entry>)
    requires SortedKeys(acc) && forall e | e in acc :: WellFormed(e.value)
    requires DecodeEntries(u, acc).Some?
    ensures WellFormed(DecodeEntries(u, acc).value.value)
    decreases |u|, 2
  {
    if u[0] != END_TAG {
      var key := Decode(u).value;
      EntryValueWellFormed(u[key.consumed..], key.value.s, acc);
    }
  }

  lemma {:induction false} EntryValueWellFormed(w: bytes, key: bytes, acc: seq<Entry>)
    requires SortedKeys(acc) && forall e | e in acc :: WellFormed(e.value)
    requires DecodeEntryValue(w, key, acc).Some?
    ensures WellFormed(DecodeEntryValue(w, key, acc).value.value)
    decreases |w|, 1
  {
    var val := Decode(w).value;
    DecodeWellFormed(w);
    InsertSorted(acc, key, val.value);
    InsertEntries(acc, key, val.value);
    EntriesWellFormed(w[val.consumed..], Insert(acc, key, val.value));
  }

  /** Re-encoding a decoded value and decoding that gives the value back:
      the form in which the info dictionary is hashed is faithful to it. */
  lemma {:induction false} DecodeReencode(s: bytes)
    requires Decode(s).Some?
    ensures Decode(Encode(Decode(s).value.value)) == Some(Decoded(Decode(s).value.value, |Encode(Decode(s).value.value)|))
  {
    var v := Decode(s).value.value;
    DecodeWellFormed(s);
    DecodeEncode(v, []);
    assert Encode(v) + [] == Encode(v);
  }

  // ---------------------------------------------------------------------
  // Fixtures (ASCII: '0'..'9' = 48..57, ':' = 58, 'a' = 97, 'b' = 98,
  // 'c' = 99, 'm' = 109, 'p' = 112, 's' = 115)

  /** "4:spam" is the string "spam" and takes 6 bytes. */
  lemma {:induction false} FixtureString()
    ensures Decode([52, COLON, 115, 112, 97, 109]) == Some(Decoded(BStr([115, 112, 97, 109]), 6))
  {
    var x: bytes := [115, 112, 97, 109];
    assert EncodeStr(x) == [52, COLON, 115, 112, 97, 109];
    DecodeEncodeStr(x, []);
    assert EncodeStr(x) + [] == EncodeStr(x);
  }

  /** "4:sp" declares more bytes than there are. */
  lemma {:induction false} FixtureShortString()
    ensures Decode([52, COLON, 115, 112]) == None
  {
    var s: bytes := [52, COLON, 115, 112];
    assert DigitRunEnd(s, 1) == 1;
    assert DigitRunEnd(s, 0) == 1;
    assert s[..1] == [52];
    DecodeStringCases(s, 1);
  }

  /** "i52e" is 52 and takes 4 bytes. */
  lemma {:induction false} FixtureInteger()
    ensures Decode([INT_TAG, 53, 50, END_TAG]) == Some(Decoded(BInt(52), 4))
  {
    var n: int64 := 52;
    assert Encode(BInt(n)) == [INT_TAG, 53, 50, END_TAG];
    DecodeEncodeInt(n, []);
    assert [INT_TAG, 53, 50, END_TAG] + [] == [INT_TAG, 53, 50, END_TAG];
  }

  /** "iabce": atoll finds no digits and reads 0. */
  lemma {:induction false} FixtureLenientInteger()
    ensures Decode([INT_TAG, 97, 98, 99, END_TAG]) == Some(Decoded(BInt(0), 5))
  {
    var s: bytes := [INT_TAG, 97, 98, 99, END_TAG];
    DecodeIntegerCases(s, 4);
    assert SkipSpaces(s[1..], 0) == 0;
    assert DigitRunEnd(s[1..], 0) == 0;
  }

  /** "i5" has no closing 'e'. */
  lemma {:induction false} FixtureOpenInteger()
    ensures Decode([INT_TAG, 53]) == None
  {
    DecodeIntegerNoEnd([INT_TAG, 53]);
  }

  /** "le" is the empty list and takes 2 bytes. */
  lemma {:induction false} FixtureEmptyList()
    ensures Decode([LIST_TAG, END_TAG]) == Some(Decoded(BList([]), 2))
  {
    assert [LIST_TAG, END_TAG][1..] == [END_TAG];
  }

  /** "l4:spam" ends before the list's closing 'e'. */
  lemma {:induction false} FixtureOpenList()
    ensures Decode([LIST_TAG, 52, COLON, 115, 112, 97, 109]) == None
  {
    var s: bytes := [LIST_TAG, 52, COLON, 115, 112, 97, 109];
    ContainerFailures(s[1..], [], []);
  }


  /** The encodings of a one-byte string and of a one-digit number. */
  lemma {:induction false} SmallEncodings(k: byte, n: int64)
    requires 0 <= n < 10
    ensures EncodeStr([k]) == [49, COLON, k]
    ensures Encode(BInt(n)) == [INT_TAG, 48 + n, END_TAG]
  {
  }

  lemma {:induction false} SmallEntryBytes(k: byte, n: int64, tail: bytes, acc: seq<Entry>)
    requires 0 <= n < 10
    ensures DecodeEntries([49, COLON, k, INT_TAG, 48 + n, END_TAG] + tail, acc) ==
            DecodeEntries(EncodeStr([k]) + (Encode(BInt(n)) + tail), acc)
  {
    SmallEncodings(k, n);
    assert [49, COLON, k, INT_TAG, 48 + n, END_TAG] + tail == [49, COLON, k] + ([INT_TAG, 48 + n, END_TAG] + tail);
  }

  /** A one-byte key and a one-digit integer are one turn of the
      dictionary loop: six bytes, and the entry is inserted. */
  lemma {:induction false} SmallEntry(k: byte, n: int64, tail: bytes, acc: seq<Entry>, next: seq<Entry>)
    requires 0 <= n < 10 && next == Insert(acc, [k], BInt(n))
    ensures DecodeEntries([49, COLON, k, INT_TAG, 48 + n, END_TAG] + tail, acc) ==
            Advance(6, DecodeEntries(tail, next))
  {
    SmallEncodings(k, n);
    DecodeEncodeInt(n, tail);
    ValueAfter([k], BInt(n), tail, acc);
    KeyAfter([k], Encode(BInt(n)) + tail, acc);
    SmallEntryBytes(k, n, tail, acc);
    AdvanceAdvance(3, 3, DecodeEntries(tail, next));
  }

  /** A dictionary's bytes are decoded by the dictionary loop after the tag. */
  lemma {:induction false} DictOpen(s: bytes)
    requires |s| > 0 && s[0] == DICT_TAG
    ensures Decode(s) == Advance(1, DecodeEntries(s[1..], []))
  {
  }

  /** Two one-byte keys with one-digit values, then the closing tag. */
  lemma {:induction false} TwoSmallEntries(u: bytes, k1: byte, n1: int64, k2: byte, n2: int64, d1: seq<Entry>, d2: seq<Entry>)
    requires 0 <= n1 < 10 && 0 <= n2 < 10
    requires u == [49, COLON, k1, INT_TAG, 48 + n1, END_TAG, 49, COLON, k2, INT_TAG, 48 + n2, END_TAG, END_TAG]
    requires d1 == Insert([], [k1], BInt(n1)) && d2 == Insert(d1, [k2], BInt(n2))
    ensures DecodeEntries(u, []) == Some(Decoded(BDict(d2), 13))
  {
    var t := u[6..];
    assert t == [49, COLON, k2, INT_TAG, 48 + n2, END_TAG] + [END_TAG];
    SmallEntry(k2, n2, [END_TAG], d1, d2);
    assert u == [49, COLON, k1, INT_TAG, 48 + n1, END_TAG] + t;
    SmallEntry(k1, n1, t, [], d1);
  }

  /** "d1:bi1e1:ai2ee": the keys come back sorted. */
  lemma {:induction false} FixtureUnsortedDict(s: bytes)
    requires s == [DICT_TAG, 49, COLON, 98, INT_TAG, 49, END_TAG, 49, COLON, 97, INT_TAG, 50, END_TAG, END_TAG]
    ensures Decode(s) == Some(Decoded(BDict([Entry([97], BInt(2)), Entry([98], BInt(1))]), 14))
  {
    assert KeyLess([97], [98]);
    TwoSmallEntries(s[1..], 98, 1, 97, 2, [Entry([98], BInt(1))], [Entry([97], BInt(2)), Entry([98], BInt(1))]);
    DictOpen(s);
  }

  /** Re-encoding that result writes "d1:ai2e1:bi1ee", not the input. */
  lemma {:induction false} FixtureSortedReencode()
    ensures Encode(BDict([Entry([97], BInt(2)), Entry([98], BInt(1))])) ==
            [DICT_TAG, 49, COLON, 97, INT_TAG, 50, END_TAG, 49, COLON, 98, INT_TAG, 49, END_TAG, END_TAG]
  {
    SmallEncodings(97, 2);
    SmallEncodings(98, 1);
    var last := [Entry([98], BInt(1))];
    assert EncodeDict(last[1..]) == [];
    assert EncodeDict(last) == [49, COLON, 98] + [INT_TAG, 49, END_TAG] + [];
    var both := [Entry([97], BInt(2)), Entry([98], BInt(1))];
    assert both[1..] == last;
    assert EncodeDict(both) == [49, COLON, 97] + [INT_TAG, 50, END_TAG] + EncodeDict(last);
  }

  /** "d1:ai1e1:ai2ee": the repeated key keeps the later value. */
  lemma {:induction false} FixtureRepeatedKey(s: bytes)
    requires s == [DICT_TAG, 49, COLON, 97, INT_TAG, 49, END_TAG, 49, COLON, 97, INT_TAG, 50, END_TAG, END_TAG]
    ensures Decode(s) == Some(Decoded(BDict([Entry([97], BInt(2))]), 14))
  {
    TwoSmallEntries(s[1..], 97, 1, 97, 2, [Entry([97], BInt(1))], [Entry([97], BInt(2))]);
    DictOpen(s);
  }
}

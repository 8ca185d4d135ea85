/** Bytes, fixed-width integers, decimal text and big-endian words shared by the
    whole model. The C++ source keeps binary data in std::string and
    std::vector<uint8_t>; both are sequences of bytes here. */
module Base {

  type byte = x: int | 0 <= x < 256
  type bytes = seq<byte>
  type uint16 = x: int | 0 <= x < 0x1_0000
  type uint32 = x: int | 0 <= x < 0x1_0000_0000
  type int32 = x: int | -0x8000_0000 <= x < 0x8000_0000
  type int64 = x: int | -0x8000_0000_0000_0000 <= x < 0x8000_0000_0000_0000

  const INT64_MIN: int := -0x8000_0000_0000_0000
  const INT64_MAX: int := 0x7fff_ffff_ffff_ffff
  const SIZE_T_MODULUS: int := 0x1_0000_0000_0000_0000

  datatype Option<T> = None | Some(value: T)

  datatype Result<T, E> = Ok(value: T) | Err(error: E)

  function ZeroDigest(m: bytes): bytes { seq(20, i => 0) }

  /** SHA-1 is computed by OpenSSL in the source; here it is a parameter:
      any total function that maps every message to a 20-byte digest. */
  type Sha1 = f: bytes -> bytes | forall m :: |f(m)| == 20 witness ZeroDigest

  // ASCII codes used by the wire formats.
  const COLON: byte := 58
  const MINUS: byte := 45
  const PLUS: byte := 43
  const DOT: byte := 46
  const SLASH: byte := 47
  const PERCENT: byte := 37
  const ZERO_DIGIT: byte := 48

  function AsciiByte(c: char): byte { (c as int) % 256 }

  /** The bytes of an ASCII literal. */
  function Ascii(s: string): (r: bytes)
    ensures |r| == |s|
  {
    seq(|s|, i requires 0 <= i < |s| => AsciiByte(s[i]))
  }

  function Zeros(n: nat): (r: bytes)
    ensures |r| == n && forall i :: 0 <= i < n ==> r[i] == 0
  {
    seq(n, i => 0)
  }

  predicate IsDigit(b: byte) { 48 <= b <= 57 }

  /** isspace in the C locale. */
  predicate IsSpace(b: byte) { b == 32 || 9 <= b <= 13 }

  predicate AllDigits(s: bytes) { forall i :: 0 <= i < |s| ==> IsDigit(s[i]) }

  /** std::to_string of a non-negative number: decimal, no leading zeros. */
  function NatToDecimal(n: nat): (r: bytes)
    ensures 1 <= |r| && AllDigits(r)
  {
    if n < 10 then [48 + n] else NatToDecimal(n / 10) + [48 + n % 10]
  }

  /** std::to_string of a signed number. */
  function IntToDecimal(n: int): (r: bytes)
    ensures 1 <= |r|
  {
    if n < 0 then [MINUS] + NatToDecimal(-n) else NatToDecimal(n)
  }

  /** The value of a run of decimal digits, most significant first. */
  function DigitsValue(ds: bytes): nat
    requires AllDigits(ds)
  {
    if ds == [] then 0 else DigitsValue(ds[..|ds| - 1]) * 10 + (ds[|ds| - 1] - 48)
  }

  lemma {:induction false} DecimalRoundTrip(n: nat)
    ensures DigitsValue(NatToDecimal(n)) == n
  {
    if n >= 10 {
      var ds := NatToDecimal(n);
      assert ds[..|ds| - 1] == NatToDecimal(n / 10);
      DecimalRoundTrip(n / 10);
    }
  }

  /** The index just past the run of decimal digits that starts at i. */
  function DigitRunEnd(s: bytes, i: nat): (j: nat)
    requires i <= |s|
    ensures i <= j <= |s|
    ensures forall k :: i <= k < j ==> IsDigit(s[k])
    ensures j < |s| ==> !IsDigit(s[j])
    decreases |s| - i
  {
    if i < |s| && IsDigit(s[i]) then DigitRunEnd(s, i + 1) else i
  }

  lemma {:induction false} DigitRunEndAfter(ds: bytes, rest: bytes, i: nat)
    requires AllDigits(ds) && i <= |ds|
    requires rest == [] || !IsDigit(rest[0])
    ensures DigitRunEnd(ds + rest, i) == |ds|
    decreases |ds| - i
  {
    if i < |ds| {
      DigitRunEndAfter(ds, rest, i + 1);
    }
  }

  function SkipSpaces(s: bytes, i: nat): (j: nat)
    requires i <= |s|
    ensures i <= j <= |s|
    ensures j < |s| ==> !IsSpace(s[j])
    decreases |s| - i
  {
    if i < |s| && IsSpace(s[i]) then SkipSpaces(s, i + 1) else i
  }

  function Clamp64(n: int): int64
  {
    if n < INT64_MIN then INT64_MIN else if n > INT64_MAX then INT64_MAX else n
  }

  /** std::atoll as glibc implements it (strtoll): leading white space, an
      optional sign, then the longest run of digits; out-of-range values
      saturate at the int64 bounds; no digits at all gives 0. */
  function AtoLL(s: bytes): int64
  {
    var i := SkipSpaces(s, 0);
    var signed := i < |s| && (s[i] == MINUS || s[i] == PLUS);
    var j := if signed then i + 1 else i;
    var k := DigitRunEnd(s, j);
    var magnitude: int := DigitsValue(s[j..k]);
    Clamp64(if signed && s[i] == MINUS then -magnitude else magnitude)
  }

  /** std::atol on text that starts with a digit: the value of the leading
      run of digits (lengths beyond LONG_MAX would need an input of 2^63
      bytes, so no saturation is modelled). */
  function LeadingNumber(s: bytes): nat
  {
    DigitsValue(s[..DigitRunEnd(s, 0)])
  }

  lemma {:induction false} LeadingNumberOfDecimal(n: nat, rest: bytes)
    requires rest == [] || !IsDigit(rest[0])
    ensures LeadingNumber(NatToDecimal(n) + rest) == n
  {
    var ds := NatToDecimal(n);
    DigitRunEndAfter(ds, rest, 0);
    assert (ds + rest)[..|ds|] == ds;
    DecimalRoundTrip(n);
  }

  /** Reading back what std::to_string printed gives the number again. */
  lemma {:induction false} AtoLLOfDecimal(n: int64, rest: bytes)
    requires rest == [] || !IsDigit(rest[0])
    ensures AtoLL(IntToDecimal(n) + rest) == n
  {
    if n < 0 {
      AtoLLOfNegative(n, rest);
    } else {
      AtoLLOfNonNegative(n, rest);
    }
  }

  lemma {:induction false} AtoLLOfNonNegative(n: int64, rest: bytes)
    requires 0 <= n
    requires rest == [] || !IsDigit(rest[0])
    ensures AtoLL(IntToDecimal(n) + rest) == n
  {
    var ds := NatToDecimal(n);
    var s := ds + rest;
    assert IntToDecimal(n) == ds;
    assert IsDigit(s[0]);
    assert SkipSpaces(s, 0) == 0;
    DigitRunEndAfter(ds, rest, 0);
    assert s[0..|ds|] == ds;
    DecimalRoundTrip(n);
  }

  lemma {:induction false} AtoLLOfNegative(n: int64, rest: bytes)
    requires n < 0
    requires rest == [] || !IsDigit(rest[0])
    ensures AtoLL(IntToDecimal(n) + rest) == n
  {
    var m: nat := -(n as int);
    var ds := NatToDecimal(m);
    var s := IntToDecimal(n) + rest;
    assert s == ([MINUS] + ds) + rest;
    assert s[0] == MINUS && !IsSpace(MINUS);
    assert SkipSpaces(s, 0) == 0;
    assert AllDigits(([MINUS] + ds)[1..]);
    DigitRunEndAfterSigned(ds, rest);
    assert s[1..1 + |ds|] == ds;
    DecimalRoundTrip(m);
  }

  lemma {:induction false} DigitRunEndAfterSigned(ds: bytes, rest: bytes)
    requires AllDigits(ds)
    requires rest == [] || !IsDigit(rest[0])
    ensures DigitRunEnd([MINUS] + ds + rest, 1) == 1 + |ds|
  {
    var t := [MINUS] + ds + rest;
    forall k | 1 <= k < 1 + |ds| ensures IsDigit(t[k]) { assert t[k] == ds[k - 1]; }
    DigitRunEndFrom(t, 1, 1 + |ds|);
  }

  lemma {:induction false} DigitRunEndFrom(s: bytes, i: nat, j: nat)
    requires i <= j <= |s|
    requires forall k :: i <= k < j ==> IsDigit(s[k])
    requires j == |s| || !IsDigit(s[j])
    ensures DigitRunEnd(s, i) == j
    decreases j - i
  {
    if i < j {
      DigitRunEndFrom(s, i + 1, j);
    }
  }

  /** Byte i (0 = most significant) of a 32-bit value: (n >> (24 - 8i)) & 0xFF. */
  function ByteOf(n: uint32, i: nat): byte
    requires i < 4
  {
    if i == 0 then n / 0x100_0000
    else if i == 1 then (n / 0x1_0000) % 0x100
    else if i == 2 then (n / 0x100) % 0x100
    else n % 0x100
  }

  /** A 32-bit value in network (big-endian) order. */
  function Be32(n: uint32): (r: bytes)
    ensures |r| == 4
  {
    [ByteOf(n, 0), ByteOf(n, 1), ByteOf(n, 2), ByteOf(n, 3)]
  }

  /** (b0 << 24) | (b1 << 16) | (b2 << 8) | b3. */
  function FromBe32(b: bytes): uint32
    requires |b| == 4
  {
    (b[0] as int) * 0x100_0000 + (b[1] as int) * 0x1_0000 + (b[2] as int) * 0x100 + b[3]
  }

  lemma {:induction false} Be32RoundTrip(n: uint32)
    ensures FromBe32(Be32(n)) == n
  {
    var q1, r1 := n / 0x100, n % 0x100;
    var q2, r2 := q1 / 0x100, q1 % 0x100;
    var q3, r3 := q2 / 0x100, q2 % 0x100;
    assert n / 0x1_0000 == q2;
    assert n / 0x100_0000 == q3;
  }

  /** Decimal text of a byte, as std::to_string(uint8_t) prints it. */
  function ByteDecimal(b: byte): bytes { NatToDecimal(b) }

  /** The concatenation of a sequence of byte strings. */
  function Concat(parts: seq<bytes>): bytes
  {
    if parts == [] then [] else parts[0] + Concat(parts[1..])
  }

  lemma {:induction false} ConcatSnoc(parts: seq<bytes>, p: bytes)
    ensures Concat(parts + [p]) == Concat(parts) + p
  {
    if parts != [] {
      assert (parts + [p])[1..] == parts[1..] + [p];
      ConcatSnoc(parts[1..], p);
    } else {
      assert parts + [p] == [p];
    }
  }
}

/** include/unicode.h: one UTF-16 code unit (or surrogate pair) to a code
    point, and one code point to UTF-8. The templates are instantiated here
    with unsigned bytes; `le` is the LE template argument. */
module Unicode {
  import opened Common

  /** The value of a byte. */
  function Val(b: Byte): (n: nat)
    ensures n < 256
  {
    b as nat
  }

  /** The byte holding a value below 256. */
  function ByteOf(n: int): (b: Byte)
    requires 0 <= n < 256
    ensures Val(b) == n
  {
    n as bv8
  }

  lemma ValInjective(a: Byte, b: Byte)
    requires Val(a) == Val(b)
    ensures a == b
  {
  }

  // ---------------------------------------------------------------------
  // utf16_to_cp

  /** The return value of utf16_to_cp (bytes consumed, 0 on error) and the
      value left in its `cp` out-parameter. */
  datatype Decoded = Decoded(n: nat, cp: int)

  /** `buf[LE ? 0 : 1] | (buf[LE ? 1 : 0] << 8)`: the 16-bit unit stored in
      two bytes; the LE flag picks which of them is the low byte. The two
      bytes occupy disjoint bit ranges, so the OR is a sum. */
  function Unit(le: bool, b0: Byte, b1: Byte): (u: nat)
    ensures u < 0x10000
  {
    var lo := if le then b0 else b1;
    var hi := if le then b1 else b0;
    Val(lo) + 256 * Val(hi)
  }

  /** The low and high byte of a unit are the bytes it was read from. */
  lemma UnitParts(le: bool, b0: Byte, b1: Byte)
    ensures Unit(le, b0, b1) % 256 == Val(if le then b0 else b1)
    ensures Unit(le, b0, b1) / 256 == Val(if le then b1 else b0)
  {
  }

  predicate IsLead(u: int) { 0xD800 <= u < 0xDC00 }
  predicate IsTrail(u: int) { 0xDC00 <= u < 0xE000 }
  predicate IsSurrogate(u: int) { 0xD800 <= u < 0xE000 }

  /** A Unicode scalar value: a code point that is not a surrogate. */
  predicate IsScalar(cp: int) { 0 <= cp < 0x110000 && !IsSurrogate(cp) }

  /** `((lead - (0xD800 - (0x10000 >> 10))) << 10) | (trail - 0xDC00)`. The
      shifted lead has ten zero low bits and the trail offset fits in
      them (ShiftOrIsAdd), so the OR is a sum. */
  function PairCp(lead: int, trail: int): (cp: int)
    requires IsLead(lead) && IsTrail(trail)
    ensures 0x10000 <= cp < 0x110000
    ensures cp == 0x10000 + (lead - 0xD800) * 1024 + (trail - 0xDC00)
  {
    (lead - (0xD800 - 0x10000 / 1024)) * 1024 + (trail - 0xDC00)
  }

  /** The bit-level step behind PairCp: OR-ing a value below 2^10 into a
      value shifted left by 10 adds it. */
  lemma ShiftOrIsAdd(a: bv32, b: bv32)
    requires a < 0x400 && b < 0x400
    ensures (a << 10) | b == a * 1024 + b
  {
  }

  /** utf16_to_cp: decode one code point from the front of buf. Returns 0
      on too few bytes, a lone trail, a lead without a trail. The cp
      out-parameter is written as soon as two bytes are present, even when
      the call then fails; with fewer it keeps its old value cpIn. */
  function Utf16ToCp(le: bool, buf: seq<Byte>, cpIn: int): (r: Decoded)
    ensures |buf| < 2 ==> r == Decoded(0, cpIn)
    ensures r.n == 0 || r.n == 2 || r.n == 4
    ensures r.n <= |buf|
  {
    if |buf| < 2 then Decoded(0, cpIn)
    else
      var u := Unit(le, buf[0], buf[1]);
      if u < 0xD800 then Decoded(2, u)
      else if u < 0xDC00 then
        if |buf| < 4 then Decoded(0, u)
        else
          var trail := Unit(le, buf[2], buf[3]);
          if trail < 0xDC00 then Decoded(0, u)
          else if trail < 0xE000 then Decoded(4, PairCp(u, trail))
          else Decoded(0, u)
      else if u < 0xE000 then Decoded(0, u)
      else Decoded(2, u)
  }

  // Reference: UTF-16 encoding, section 2.1 of RFC 2781.

  /** The code units encoding one scalar value. */
  function Utf16Encode(cp: int): (units: seq<int>)
    requires IsScalar(cp)
    ensures |units| == 1 || |units| == 2
    ensures |units| == 1 <==> cp < 0x10000
    ensures |units| == 1 ==> !IsSurrogate(units[0]) && 0 <= units[0] < 0x10000
    ensures |units| == 2 ==> IsLead(units[0]) && IsTrail(units[1])
  {
    if cp < 0x10000 then [cp]
    else
      var v := cp - 0x10000;
      [0xD800 + v / 1024, 0xDC00 + v % 1024]
  }

  /** One 16-bit unit stored as two bytes in the chosen byte order. */
  function UnitBytes(le: bool, u: int): (b: seq<Byte>)
    requires 0 <= u < 0x10000
    ensures |b| == 2 && Unit(le, b[0], b[1]) == u
  {
    var lo := ByteOf(u % 256);
    var hi := ByteOf(u / 256);
    if le then [lo, hi] else [hi, lo]
  }

  /** The bytes of the UTF-16 encoding of a scalar value. */
  function EncodeUtf16(le: bool, cp: int): (b: seq<Byte>)
    requires IsScalar(cp)
    ensures |b| == 2 <==> cp < 0x10000
    ensures |b| == 2 || |b| == 4
  {
    var units := Utf16Encode(cp);
    if |units| == 1 then UnitBytes(le, units[0])
    else UnitBytes(le, units[0]) + UnitBytes(le, units[1])
  }

  /** The surrogate pair of a supplementary value combines back to it. */
  lemma PairCpOfEncode(cp: int)
    requires IsScalar(cp) && cp >= 0x10000
    ensures PairCp(Utf16Encode(cp)[0], Utf16Encode(cp)[1]) == cp
  {
    var v := cp - 0x10000;
    assert (v / 1024) * 1024 + v % 1024 == v;
  }

  /** The unit stored at the front of a buffer is read back. */
  lemma UnitAtFront(le: bool, u: int, rest: seq<Byte>)
    requires 0 <= u < 0x10000
    ensures |UnitBytes(le, u) + rest| >= 2
    ensures Unit(le, (UnitBytes(le, u) + rest)[0], (UnitBytes(le, u) + rest)[1]) == u
  {
    var a := UnitBytes(le, u);
    assert (a + rest)[0] == a[0] && (a + rest)[1] == a[1];
  }

  /** Decoding the encoding of any scalar value consumes exactly that
      encoding and yields the value back, whatever follows it. */
  lemma Utf16RoundTrip(le: bool, cp: int, rest: seq<Byte>, cpIn: int)
    requires IsScalar(cp)
    ensures Utf16ToCp(le, EncodeUtf16(le, cp) + rest, cpIn) ==
            Decoded(|EncodeUtf16(le, cp)|, cp)
  {
    if cp < 0x10000 {
      SingleRoundTrip(le, cp, rest, cpIn);
    } else {
      PairRoundTrip(le, cp, rest, cpIn);
    }
  }

  lemma SingleRoundTrip(le: bool, cp: int, rest: seq<Byte>, cpIn: int)
    requires IsScalar(cp) && cp < 0x10000
    ensures Utf16ToCp(le, EncodeUtf16(le, cp) + rest, cpIn) == Decoded(2, cp)
  {
    assert EncodeUtf16(le, cp) == UnitBytes(le, cp);
    UnitAtFront(le, cp, rest);
  }

  lemma PairRoundTrip(le: bool, cp: int, rest: seq<Byte>, cpIn: int)
    requires IsScalar(cp) && cp >= 0x10000
    ensures Utf16ToCp(le, EncodeUtf16(le, cp) + rest, cpIn) == Decoded(4, cp)
  {
    var units := Utf16Encode(cp);
    var a := UnitBytes(le, units[0]);
    var b := UnitBytes(le, units[1]);
    var buf := EncodeUtf16(le, cp) + rest;
    assert buf == a + (b + rest);
    UnitAtFront(le, units[0], b + rest);
    UnitAtFront(le, units[1], rest);
    assert buf[2] == (b + rest)[0] && buf[3] == (b + rest)[1];
    PairCpOfEncode(cp);
  }

  /** Two bytes are the stored form of the unit they hold. */
  lemma UnitBytesUnique(le: bool, b0: Byte, b1: Byte)
    ensures UnitBytes(le, Unit(le, b0, b1)) == [b0, b1]
  {
    var u := Unit(le, b0, b1);
    UnitParts(le, b0, b1);
    var r := UnitBytes(le, u);
    ValInjective(r[0], b0);
    ValInjective(r[1], b1);
  }

  /** A surrogate pair is the encoding of the value it combines to. */
  lemma EncodeOfPairCp(lead: int, trail: int)
    requires IsLead(lead) && IsTrail(trail)
    ensures IsScalar(PairCp(lead, trail))
    ensures Utf16Encode(PairCp(lead, trail)) == [lead, trail]
  {
    var hi := lead - 0xD800;
    var lo := trail - 0xDC00;
    var v := PairCp(lead, trail) - 0x10000;
    assert v == hi * 1024 + lo;
    DivModOf(hi, lo);
  }

  lemma DivModOf(q: int, r: int)
    requires 0 <= q && 0 <= r < 1024
    ensures (q * 1024 + r) / 1024 == q && (q * 1024 + r) % 1024 == r
  {
  }

  lemma SingleIsEncoding(le: bool, buf: seq<Byte>, cpIn: int)
    requires |buf| >= 2 && !IsSurrogate(Unit(le, buf[0], buf[1]))
    ensures Utf16ToCp(le, buf, cpIn) == Decoded(2, Unit(le, buf[0], buf[1]))
    ensures IsScalar(Unit(le, buf[0], buf[1]))
    ensures buf[..2] == EncodeUtf16(le, Unit(le, buf[0], buf[1]))
  {
    UnitBytesUnique(le, buf[0], buf[1]);
    TwoPrefix(buf);
  }

  lemma TwoPrefix(buf: seq<Byte>)
    requires |buf| >= 2
    ensures buf[..2] == [buf[0], buf[1]]
  {
  }

  lemma PairDecodes(le: bool, buf: seq<Byte>, cpIn: int)
    requires |buf| >= 4 && IsLead(Unit(le, buf[0], buf[1])) && IsTrail(Unit(le, buf[2], buf[3]))
    ensures Utf16ToCp(le, buf, cpIn) == Decoded(4, PairCp(Unit(le, buf[0], buf[1]), Unit(le, buf[2], buf[3])))
  {
  }

  lemma PairUnitsEncoding(le: bool, lead: int, trail: int)
    requires IsLead(lead) && IsTrail(trail)
    ensures IsScalar(PairCp(lead, trail))
    ensures EncodeUtf16(le, PairCp(lead, trail)) == UnitBytes(le, lead) + UnitBytes(le, trail)
  {
    EncodeOfPairCp(lead, trail);
  }

  lemma PairBytesAreEncoding(le: bool, b0: Byte, b1: Byte, b2: Byte, b3: Byte)
    requires IsLead(Unit(le, b0, b1)) && IsTrail(Unit(le, b2, b3))
    ensures IsScalar(PairCp(Unit(le, b0, b1), Unit(le, b2, b3)))
    ensures [b0, b1, b2, b3] == EncodeUtf16(le, PairCp(Unit(le, b0, b1), Unit(le, b2, b3)))
  {
    var lead, trail := Unit(le, b0, b1), Unit(le, b2, b3);
    PairUnitsEncoding(le, lead, trail);
    UnitBytesUnique(le, b0, b1);
    UnitBytesUnique(le, b2, b3);
    ConcatPairs(b0, b1, b2, b3);
  }

  lemma ConcatPairs<T>(a: T, b: T, c: T, d: T)
    ensures [a, b] + [c, d] == [a, b, c, d]
  {
  }

  lemma PairIsEncoding(le: bool, buf: seq<Byte>, cpIn: int)
    requires |buf| >= 4 && IsLead(Unit(le, buf[0], buf[1])) && IsTrail(Unit(le, buf[2], buf[3]))
    ensures Utf16ToCp(le, buf, cpIn) == Decoded(4, PairCp(Unit(le, buf[0], buf[1]), Unit(le, buf[2], buf[3])))
    ensures IsScalar(PairCp(Unit(le, buf[0], buf[1]), Unit(le, buf[2], buf[3])))
    ensures buf[..4] == EncodeUtf16(le, PairCp(Unit(le, buf[0], buf[1]), Unit(le, buf[2], buf[3])))
  {
    PairDecodes(le, buf, cpIn);
    PairBytesAreEncoding(le, buf[0], buf[1], buf[2], buf[3]);
    FourPrefix(buf);
  }

  lemma FourPrefix(buf: seq<Byte>)
    requires |buf| >= 4
    ensures buf[..4] == [buf[0], buf[1], buf[2], buf[3]]
  {
  }

  /** Conversely, every successful decode read exactly the encoding of the
      scalar value it produced: utf16_to_cp accepts precisely well-formed
      UTF-16. */
  lemma Utf16DecodeIsEncoding(le: bool, buf: seq<Byte>, cpIn: int)
    requires Utf16ToCp(le, buf, cpIn).n > 0
    ensures IsScalar(Utf16ToCp(le, buf, cpIn).cp)
    ensures buf[..Utf16ToCp(le, buf, cpIn).n] == EncodeUtf16(le, Utf16ToCp(le, buf, cpIn).cp)
  {
    if IsSurrogate(Unit(le, buf[0], buf[1])) {
      PairIsEncoding(le, buf, cpIn);
    } else {
      SingleIsEncoding(le, buf, cpIn);
    }
  }

  /** The byte pairs read the other way round. */
  function SwapPairs(buf: seq<Byte>): (r: seq<Byte>)
    ensures |r| == |buf|
    ensures |buf| >= 2 ==> r[0] == buf[1] && r[1] == buf[0]
    ensures |buf| >= 4 ==> r[2] == buf[3] && r[3] == buf[2]
  {
    if |buf| < 2 then buf else [buf[1], buf[0]] + SwapPairs(buf[2..])
  }

  /** The LE flag only chooses which byte of each pair is the high byte:
      big-endian decoding is little-endian decoding of the byte-swapped
      buffer. */
  lemma EndianIsByteSwap(buf: seq<Byte>, cpIn: int)
    ensures Utf16ToCp(false, buf, cpIn) == Utf16ToCp(true, SwapPairs(buf), cpIn)
  {
  }

  // ---------------------------------------------------------------------
  // cp_to_utf8
  //
  // The source builds each byte as `prefix | ((cp >> shift) & mask)`. With
  // cp non-negative the shift is a division by 2^shift, the mask of a
  // low-bit run is a remainder, and the prefix and the masked bits are
  // disjoint, so each byte is written here as prefix + (cp / 2^shift) %
  // (mask + 1); MaskedShift states that step at bit level.

  lemma MaskedShift(c: bv32)
    ensures 0xC0 | ((c >> 6) & 0x1F) == 0xC0 + (c / 64) % 32
    ensures 0x80 | (c & 0x3F) == 0x80 + c % 64
  {
  }

  /** Top bits of a byte: 0xxxxxxx, 10xxxxxx, 110xxxxx, 1110xxxx, 11110xxx. */
  predicate IsAsciiByte(b: Byte) { Val(b) / 128 == 0 }
  predicate IsCont(b: Byte) { Val(b) / 64 == 2 }
  predicate IsLead2(b: Byte) { Val(b) / 32 == 6 }
  predicate IsLead3(b: Byte) { Val(b) / 16 == 14 }
  predicate IsLead4(b: Byte) { Val(b) / 8 == 30 }

  /** `0x80 | (x & 0x3F)`: a continuation byte carrying the low six bits
      of x. */
  function ContByte(x: nat): (b: Byte)
    ensures IsCont(b)
  {
    ByteOf(0x80 + x % 64)
  }

  /** cp_to_utf8: the bytes written to buf; their number is the return
      value, 0 for a negative value, a surrogate, or one beyond 0x10FFFF. */
  function CpToUtf8(cp: int): (r: seq<Byte>)
    ensures |r| == 0 <==> !IsScalar(cp)
    ensures 0 <= cp < 0x80 ==> |r| == 1
    ensures 0x80 <= cp < 0x800 ==> |r| == 2
    ensures 0x800 <= cp < 0x10000 && IsScalar(cp) ==> |r| == 3
    ensures 0x10000 <= cp < 0x110000 ==> |r| == 4
  {
    if cp < 0 then []
    else if cp < 0x80 then [ByteOf(cp)]
    else if cp < 0x800 then
      [ByteOf(0xC0 + (cp / 64) % 32), ContByte(cp)]
    else if cp < 0xD800 then
      [ByteOf(0xE0 + (cp / 4096) % 16), ContByte(cp / 64), ContByte(cp)]
    else if cp < 0xE000 then []
    else if cp < 0x10000 then
      [ByteOf(0xE0 + (cp / 4096) % 16), ContByte(cp / 64), ContByte(cp)]
    else if cp < 0x110000 then
      [ByteOf(0xF0 + (cp / 0x40000) % 8), ContByte(cp / 4096), ContByte(cp / 64), ContByte(cp)]
    else []
  }

  /** The emitted bytes have the UTF-8 shapes: 0xxxxxxx, or a 110xxxxx,
      1110xxxx or 11110xxx lead followed by 10xxxxxx continuations. */
  lemma Utf8Shape(cp: int)
    ensures |CpToUtf8(cp)| == 1 ==> IsAsciiByte(CpToUtf8(cp)[0])
    ensures |CpToUtf8(cp)| == 2 ==> IsLead2(CpToUtf8(cp)[0]) && IsCont(CpToUtf8(cp)[1])
    ensures |CpToUtf8(cp)| == 3 ==>
      IsLead3(CpToUtf8(cp)[0]) && IsCont(CpToUtf8(cp)[1]) && IsCont(CpToUtf8(cp)[2])
    ensures |CpToUtf8(cp)| == 4 ==>
      IsLead4(CpToUtf8(cp)[0]) && IsCont(CpToUtf8(cp)[1]) && IsCont(CpToUtf8(cp)[2]) && IsCont(CpToUtf8(cp)[3])
  {
    var r := CpToUtf8(cp);
    if |r| == 2 {
      Encoded2(cp);
      Payload2(cp, r[0], r[1]);
    } else if |r| == 3 {
      Encoded3(cp);
      Payload3(cp, r[0], r[1], r[2]);
    } else if |r| == 4 {
      Encoded4(cp);
      Payload4(cp, r[0], r[1], r[2], r[3]);
    }
  }

  // Reference: UTF-8 decoding of one character, section 3 of RFC 3629,
  // rejecting overlong forms, surrogates and values beyond 0x10FFFF.

  /** The six payload bits of a continuation byte. */
  function Bits6(b: Byte): (n: nat)
    ensures n < 64
  {
    Val(b) % 64
  }

  function Utf8Decode(bytes: seq<Byte>): (r: Option<int>)
    ensures r.Some? ==> IsScalar(r.value)
  {
    if |bytes| == 1 && IsAsciiByte(bytes[0]) then Some(Val(bytes[0]))
    else if |bytes| == 2 && IsLead2(bytes[0]) && IsCont(bytes[1]) then
      var c := (Val(bytes[0]) % 32) * 64 + Bits6(bytes[1]);
      if c < 0x80 then None else Some(c)
    else if |bytes| == 3 && IsLead3(bytes[0]) && IsCont(bytes[1]) && IsCont(bytes[2]) then
      var c := (Val(bytes[0]) % 16) * 4096 + Bits6(bytes[1]) * 64 + Bits6(bytes[2]);
      if c < 0x800 || IsSurrogate(c) then None else Some(c)
    else if |bytes| == 4 && IsLead4(bytes[0]) && IsCont(bytes[1]) && IsCont(bytes[2]) && IsCont(bytes[3]) then
      var c := (Val(bytes[0]) % 8) * 0x40000 + Bits6(bytes[1]) * 4096 + Bits6(bytes[2]) * 64 + Bits6(bytes[3]);
      if c < 0x10000 || c >= 0x110000 then None else Some(c)
    else None
  }

  lemma Arith2(cp: int)
    requires 0x80 <= cp < 0x800
    ensures (0xC0 + (cp / 64) % 32) / 32 == 6
    ensures ((0xC0 + (cp / 64) % 32) % 32) * 64 + (0x80 + cp % 64) % 64 == cp
  {
    var q := cp / 64;
    assert q < 32;
    assert (0xC0 + q % 32) % 32 == q;
  }

  lemma Utf8RoundTrip2(cp: int)
    requires 0x80 <= cp < 0x800
    ensures Utf8Decode(CpToUtf8(cp)) == Some(cp)
  {
    Encoded2(cp);
    var r := CpToUtf8(cp);
    Payload2(cp, r[0], r[1]);
    Decode2(r);
  }

  lemma Payload2(cp: int, b0: Byte, b1: Byte)
    requires 0x80 <= cp < 0x800
    requires Val(b0) == 0xC0 + (cp / 64) % 32 && Val(b1) == 0x80 + cp % 64
    ensures IsLead2(b0) && IsCont(b1)
    ensures (Val(b0) % 32) * 64 + Bits6(b1) == cp
  {
    Arith2(cp);
  }

  lemma Decode2(bytes: seq<Byte>)
    requires |bytes| == 2 && IsLead2(bytes[0]) && IsCont(bytes[1])
    requires 0x80 <= (Val(bytes[0]) % 32) * 64 + Bits6(bytes[1])
    ensures Utf8Decode(bytes) == Some((Val(bytes[0]) % 32) * 64 + Bits6(bytes[1]))
  {
  }

  lemma Arith3(cp: int)
    requires 0x800 <= cp < 0x10000
    ensures (0xE0 + (cp / 4096) % 16) / 16 == 14
    ensures ((0xE0 + (cp / 4096) % 16) % 16) * 4096 + ((0x80 + (cp / 64) % 64) % 64) * 64 + (0x80 + cp % 64) % 64 == cp
  {
    var q := cp / 4096;
    var m := (cp / 64) % 64;
    assert q < 16;
    assert (0xE0 + q % 16) % 16 == q;
    assert (0x80 + m) % 64 == m;
    assert cp / 64 == q * 64 + m;
  }

  lemma Utf8RoundTrip3(cp: int)
    requires 0x800 <= cp < 0x10000 && !IsSurrogate(cp)
    ensures Utf8Decode(CpToUtf8(cp)) == Some(cp)
  {
    Encoded3(cp);
    var r := CpToUtf8(cp);
    Payload3(cp, r[0], r[1], r[2]);
    Decode3(r);
  }

  lemma Payload3(cp: int, b0: Byte, b1: Byte, b2: Byte)
    requires 0x800 <= cp < 0x10000
    requires Val(b0) == 0xE0 + (cp / 4096) % 16
    requires Val(b1) == 0x80 + (cp / 64) % 64 && Val(b2) == 0x80 + cp % 64
    ensures IsLead3(b0) && IsCont(b1) && IsCont(b2)
    ensures (Val(b0) % 16) * 4096 + Bits6(b1) * 64 + Bits6(b2) == cp
  {
    Arith3(cp);
  }

  lemma Decode3(bytes: seq<Byte>)
    requires |bytes| == 3 && IsLead3(bytes[0]) && IsCont(bytes[1]) && IsCont(bytes[2])
    requires var c := (Val(bytes[0]) % 16) * 4096 + Bits6(bytes[1]) * 64 + Bits6(bytes[2]);
      0x800 <= c && !IsSurrogate(c)
    ensures Utf8Decode(bytes) == Some((Val(bytes[0]) % 16) * 4096 + Bits6(bytes[1]) * 64 + Bits6(bytes[2]))
  {
  }

  lemma Arith4(cp: int)
    requires 0x10000 <= cp < 0x110000
    ensures (0xF0 + (cp / 0x40000) % 8) / 8 == 30
    ensures ((0xF0 + (cp / 0x40000) % 8) % 8) * 0x40000 + ((0x80 + (cp / 4096) % 64) % 64) * 4096 +
            ((0x80 + (cp / 64) % 64) % 64) * 64 + (0x80 + cp % 64) % 64 == cp
  {
    var q := cp / 0x40000;
    var m1 := (cp / 4096) % 64;
    var m2 := (cp / 64) % 64;
    assert q < 8;
    assert (0xF0 + q % 8) % 8 == q;
    assert (0x80 + m1) % 64 == m1;
    assert (0x80 + m2) % 64 == m2;
    assert cp / 4096 == q * 64 + m1;
    assert cp / 64 == (cp / 4096) * 64 + m2;
  }

  lemma Utf8RoundTrip4(cp: int)
    requires 0x10000 <= cp < 0x110000
    ensures Utf8Decode(CpToUtf8(cp)) == Some(cp)
  {
    Encoded4(cp);
    var r := CpToUtf8(cp);
    Payload4(cp, r[0], r[1], r[2], r[3]);
    Decode4(r);
  }

  lemma Payload4(cp: int, b0: Byte, b1: Byte, b2: Byte, b3: Byte)
    requires 0x10000 <= cp < 0x110000
    requires Val(b0) == 0xF0 + (cp / 0x40000) % 8
    requires Val(b1) == 0x80 + (cp / 4096) % 64
    requires Val(b2) == 0x80 + (cp / 64) % 64 && Val(b3) == 0x80 + cp % 64
    ensures IsLead4(b0) && IsCont(b1) && IsCont(b2) && IsCont(b3)
    ensures (Val(b0) % 8) * 0x40000 + Bits6(b1) * 4096 + Bits6(b2) * 64 + Bits6(b3) == cp
  {
    Arith4(cp);
  }

  lemma Decode4(bytes: seq<Byte>)
    requires |bytes| == 4 && IsLead4(bytes[0]) && IsCont(bytes[1]) && IsCont(bytes[2]) && IsCont(bytes[3])
    requires var c := (Val(bytes[0]) % 8) * 0x40000 + Bits6(bytes[1]) * 4096 + Bits6(bytes[2]) * 64 + Bits6(bytes[3]);
      0x10000 <= c < 0x110000
    ensures Utf8Decode(bytes) ==
      Some((Val(bytes[0]) % 8) * 0x40000 + Bits6(bytes[1]) * 4096 + Bits6(bytes[2]) * 64 + Bits6(bytes[3]))
  {
  }

  /** The payload bits of the emitted bytes reassemble to the code point. */
  lemma Utf8RoundTrip(cp: int)
    requires IsScalar(cp)
    ensures Utf8Decode(CpToUtf8(cp)) == Some(cp)
  {
    if cp < 0x80 {
    } else if cp < 0x800 {
      Utf8RoundTrip2(cp);
    } else if cp < 0x10000 {
      Utf8RoundTrip3(cp);
    } else {
      Utf8RoundTrip4(cp);
    }
  }

  lemma Canon2(v0: int, v1: int, c: int)
    requires v0 / 32 == 6 && v1 / 64 == 2
    requires c == (v0 % 32) * 64 + v1 % 64
    ensures 0 <= c < 0x800 && 0xC0 + (c / 64) % 32 == v0 && 0x80 + c % 64 == v1
  {
    assert c / 64 == v0 % 32 && c % 64 == v1 % 64;
  }

  lemma Canon3(v0: int, v1: int, v2: int, c: int)
    requires v0 / 16 == 14 && v1 / 64 == 2 && v2 / 64 == 2
    requires c == (v0 % 16) * 4096 + (v1 % 64) * 64 + v2 % 64
    ensures 0 <= c < 0x10000 && 0xE0 + (c / 4096) % 16 == v0
    ensures 0x80 + (c / 64) % 64 == v1 && 0x80 + c % 64 == v2
  {
    assert c / 64 == (v0 % 16) * 64 + v1 % 64 && c % 64 == v2 % 64;
    assert c / 4096 == v0 % 16;
  }

  lemma Canon4(v0: int, v1: int, v2: int, v3: int, c: int)
    requires v0 / 8 == 30 && v1 / 64 == 2 && v2 / 64 == 2 && v3 / 64 == 2
    requires c == (v0 % 8) * 0x40000 + (v1 % 64) * 4096 + (v2 % 64) * 64 + v3 % 64
    ensures 0 <= c < 0x200000 && 0xF0 + (c / 0x40000) % 8 == v0
    ensures 0x80 + (c / 4096) % 64 == v1 && 0x80 + (c / 64) % 64 == v2 && 0x80 + c % 64 == v3
  {
    assert c % 64 == v3 % 64;
    assert c / 64 == (v0 % 8) * 4096 + (v1 % 64) * 64 + v2 % 64;
    assert c / 4096 == (v0 % 8) * 64 + v1 % 64;
    assert c / 0x40000 == v0 % 8;
  }

  lemma SameBytes(a: seq<Byte>, b: seq<Byte>)
    requires |a| == |b| && forall i :: 0 <= i < |a| ==> Val(a[i]) == Val(b[i])
    ensures a == b
  {
    forall i | 0 <= i < |a|
      ensures a[i] == b[i]
    {
      ValInjective(a[i], b[i]);
    }
  }

  /** cp_to_utf8 emits the only well-formed encoding: whatever UTF-8 reads
      back as cp is exactly what cp_to_utf8(cp) writes. */
  lemma Utf8Canonical(bytes: seq<Byte>)
    requires Utf8Decode(bytes).Some?
    ensures CpToUtf8(Utf8Decode(bytes).value) == bytes
  {
    if |bytes| == 1 {
      SameBytes(CpToUtf8(Utf8Decode(bytes).value), bytes);
    } else if |bytes| == 2 {
      Canonical2(bytes);
    } else if |bytes| == 3 {
      Canonical3(bytes);
    } else {
      Canonical4(bytes);
    }
  }

  lemma Canonical2(bytes: seq<Byte>)
    requires |bytes| == 2 && Utf8Decode(bytes).Some?
    ensures CpToUtf8(Utf8Decode(bytes).value) == bytes
  {
    Decoded2(bytes);
    Reencode2(bytes, Utf8Decode(bytes).value);
  }

  lemma Decoded2(bytes: seq<Byte>)
    requires |bytes| == 2 && Utf8Decode(bytes).Some?
    ensures IsLead2(bytes[0]) && IsCont(bytes[1])
    ensures 0x80 <= Utf8Decode(bytes).value < 0x800
    ensures Utf8Decode(bytes).value == (Val(bytes[0]) % 32) * 64 + Val(bytes[1]) % 64
  {
  }

  lemma Reencode2(bytes: seq<Byte>, c: int)
    requires |bytes| == 2 && IsLead2(bytes[0]) && IsCont(bytes[1])
    requires c == (Val(bytes[0]) % 32) * 64 + Val(bytes[1]) % 64
    requires 0x80 <= c
    ensures CpToUtf8(c) == bytes
  {
    Canon2(Val(bytes[0]), Val(bytes[1]), c);
    Encoded2(c);
    SameBytes(CpToUtf8(c), bytes);
  }

  lemma Encoded2(c: int)
    requires 0x80 <= c < 0x800
    ensures |CpToUtf8(c)| == 2
    ensures Val(CpToUtf8(c)[0]) == 0xC0 + (c / 64) % 32
    ensures Val(CpToUtf8(c)[1]) == 0x80 + c % 64
  {
  }

  lemma Canonical3(bytes: seq<Byte>)
    requires |bytes| == 3 && Utf8Decode(bytes).Some?
    ensures CpToUtf8(Utf8Decode(bytes).value) == bytes
  {
    Decoded3(bytes);
    Reencode3(bytes, Utf8Decode(bytes).value);
  }

  lemma Reencode3(bytes: seq<Byte>, c: int)
    requires |bytes| == 3 && IsLead3(bytes[0]) && IsCont(bytes[1]) && IsCont(bytes[2])
    requires !IsSurrogate(c)
    requires c == (Val(bytes[0]) % 16) * 4096 + (Val(bytes[1]) % 64) * 64 + Val(bytes[2]) % 64
    requires 0x800 <= c
    ensures CpToUtf8(c) == bytes
  {
    Canon3(Val(bytes[0]), Val(bytes[1]), Val(bytes[2]), c);
    Encoded3(c);
    var r := CpToUtf8(c);
    ValInjective(r[0], bytes[0]);
    ValInjective(r[1], bytes[1]);
    ValInjective(r[2], bytes[2]);
    assert r == [r[0], r[1], r[2]] && bytes == [bytes[0], bytes[1], bytes[2]];
  }

  lemma Decoded3(bytes: seq<Byte>)
    requires |bytes| == 3 && Utf8Decode(bytes).Some?
    ensures IsLead3(bytes[0]) && IsCont(bytes[1]) && IsCont(bytes[2])
    ensures 0x800 <= Utf8Decode(bytes).value < 0x10000 && !IsSurrogate(Utf8Decode(bytes).value)
    ensures Utf8Decode(bytes).value ==
      (Val(bytes[0]) % 16) * 4096 + (Val(bytes[1]) % 64) * 64 + Val(bytes[2]) % 64
  {
  }

  lemma Encoded3(c: int)
    requires 0x800 <= c < 0x10000 && !IsSurrogate(c)
    ensures |CpToUtf8(c)| == 3
    ensures Val(CpToUtf8(c)[0]) == 0xE0 + (c / 4096) % 16
    ensures Val(CpToUtf8(c)[1]) == 0x80 + (c / 64) % 64
    ensures Val(CpToUtf8(c)[2]) == 0x80 + c % 64
  {
  }

  lemma Canonical4(bytes: seq<Byte>)
    requires |bytes| == 4 && Utf8Decode(bytes).Some?
    ensures CpToUtf8(Utf8Decode(bytes).value) == bytes
  {
    Decoded4(bytes);
    Reencode4(bytes, Utf8Decode(bytes).value);
  }

  lemma Reencode4(bytes: seq<Byte>, c: int)
    requires |bytes| == 4 && IsLead4(bytes[0]) && IsCont(bytes[1]) && IsCont(bytes[2]) && IsCont(bytes[3])
    requires c == (Val(bytes[0]) % 8) * 0x40000 + (Val(bytes[1]) % 64) * 4096 +
      (Val(bytes[2]) % 64) * 64 + Val(bytes[3]) % 64
    requires 0x10000 <= c < 0x110000
    ensures CpToUtf8(c) == bytes
  {
    Canon4(Val(bytes[0]), Val(bytes[1]), Val(bytes[2]), Val(bytes[3]), c);
    Encoded4(c);
    var r := CpToUtf8(c);
    ValInjective(r[0], bytes[0]);
    ValInjective(r[1], bytes[1]);
    ValInjective(r[2], bytes[2]);
    ValInjective(r[3], bytes[3]);
    assert r == [r[0], r[1], r[2], r[3]] && bytes == [bytes[0], bytes[1], bytes[2], bytes[3]];
  }

  lemma Decoded4(bytes: seq<Byte>)
    requires |bytes| == 4 && Utf8Decode(bytes).Some?
    ensures IsLead4(bytes[0]) && IsCont(bytes[1]) && IsCont(bytes[2]) && IsCont(bytes[3])
    ensures 0x10000 <= Utf8Decode(bytes).value < 0x110000
    ensures Utf8Decode(bytes).value ==
      (Val(bytes[0]) % 8) * 0x40000 + (Val(bytes[1]) % 64) * 4096 +
      (Val(bytes[2]) % 64) * 64 + Val(bytes[3]) % 64
  {
  }

  lemma Encoded4(c: int)
    requires 0x10000 <= c < 0x110000
    ensures |CpToUtf8(c)| == 4
    ensures Val(CpToUtf8(c)[0]) == 0xF0 + (c / 0x40000) % 8
    ensures Val(CpToUtf8(c)[1]) == 0x80 + (c / 4096) % 64
    ensures Val(CpToUtf8(c)[2]) == 0x80 + (c / 64) % 64
    ensures Val(CpToUtf8(c)[3]) == 0x80 + c % 64
  {
  }

  /** Every code point utf16_to_cp produces is accepted by cp_to_utf8, and
      its UTF-8 bytes decode back to it. */
  lemma Utf16ThenUtf8(le: bool, buf: seq<Byte>, cpIn: int)
    requires Utf16ToCp(le, buf, cpIn).n > 0
    ensures |CpToUtf8(Utf16ToCp(le, buf, cpIn).cp)| > 0
    ensures Utf8Decode(CpToUtf8(Utf16ToCp(le, buf, cpIn).cp)) == Some(Utf16ToCp(le, buf, cpIn).cp)
  {
    Utf16DecodeIsEncoding(le, buf, cpIn);
    Utf8RoundTrip(Utf16ToCp(le, buf, cpIn).cp);
  }
}

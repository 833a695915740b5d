/** One 1024-byte $MFT file record segment (src/mft.cpp): the "FILE"
    signature, the header fields, the attribute walk, the
    $STANDARD_INFORMATION (0x10) and $FILE_NAME (0x30) decoders, and the
    choice of one $FILE_NAME among several. */
module Mft {
  import opened Common
  import opened Files
  import opened HelperFunctions

  const RECORD_SIZE: nat := 1024

  /** "FILE" read as a little-endian u32. */
  const FILE_MAGIC: nat := 0x454C4946

  const TYPE_STANDARD_INFORMATION: nat := 0x10
  const TYPE_FILE_NAME: nat := 0x30

  /** The external UTF-16 name conversion (mbcatos): it receives the bytes
      from the start of the name onwards and the name length in units. */
  type NameDecoder = (seq<Byte>, nat) -> string

  /** The external FILETIME formatter (filetime_to_iso_8601). */
  type TimeFormatter = nat -> string

  // ---------------------------------------------------------------------
  // Attributes

  datatype SiAttribute = SiAttribute(
    Created: nat, Modified: nat, MftModified: nat, Accessed: nat,
    Usn: nat, Valid: bool)

  /** SIAttribute(): all zero, not valid. */
  const NoSi := SiAttribute(0, 0, 0, 0, 0, false)

  datatype FnAttribute = FnAttribute(
    Parent: nat,        // unsigned int
    Created: nat, Modified: nat, MftModified: nat, Accessed: nat,
    LogicalSize: nat, PhysicalSize: nat,
    Name: string,
    Valid: bool)

  /** FNAttribute(): all zero, empty name, not valid. */
  const NoFn := FnAttribute(0, 0, 0, 0, 0, 0, 0, "", false)

  /** SIAttribute(buffer) with the attribute content starting at a. */
  function DecodeSi(buf: seq<Byte>, a: nat): (si: SiAttribute)
    ensures si.Valid
    ensures si.Created == Le(buf, a, 8) && si.Modified == Le(buf, a + 0x08, 8)
    ensures si.MftModified == Le(buf, a + 0x10, 8) && si.Accessed == Le(buf, a + 0x18, 8)
    ensures si.Usn == Le(buf, a + 0x40, 8)
  {
    FieldExact(buf, a, 8);
    FieldExact(buf, a + 0x08, 8);
    FieldExact(buf, a + 0x10, 8);
    FieldExact(buf, a + 0x18, 8);
    FieldExact(buf, a + 0x40, 8);
    SiAttribute(Field(buf, a, 8), Field(buf, a + 0x08, 8), Field(buf, a + 0x10, 8),
                Field(buf, a + 0x18, 8), Field(buf, a + 0x40, 8), true)
  }

  /** FNAttribute(buffer) with the attribute content starting at a. The
      parent reference is six bytes wide but is stored in an unsigned
      int, which keeps its low 32 bits. */
  function DecodeFn(buf: seq<Byte>, a: nat, decode: NameDecoder): (fn: FnAttribute)
    ensures fn.Valid
    ensures fn.Parent == U32(Le(buf, a, 6))
    ensures fn.Created == Le(buf, a + 0x08, 8) && fn.Modified == Le(buf, a + 0x10, 8)
    ensures fn.MftModified == Le(buf, a + 0x18, 8) && fn.Accessed == Le(buf, a + 0x20, 8)
    ensures fn.LogicalSize == Le(buf, a + 0x28, 8) && fn.PhysicalSize == Le(buf, a + 0x30, 8)
    ensures fn.Name == decode(NameBytes(buf, a), Val8(ByteAt(buf, a + 0x40)))
  {
    FieldExact(buf, a, 6);
    FieldExact(buf, a + 0x08, 8);
    FieldExact(buf, a + 0x10, 8);
    FieldExact(buf, a + 0x18, 8);
    FieldExact(buf, a + 0x20, 8);
    FieldExact(buf, a + 0x28, 8);
    FieldExact(buf, a + 0x30, 8);
    NameLength(buf, a);
    var nameLen := Field(buf, a + 0x40, 1);
    FnAttribute(U32(Field(buf, a, 6)),
                Field(buf, a + 0x08, 8), Field(buf, a + 0x10, 8), Field(buf, a + 0x18, 8),
                Field(buf, a + 0x20, 8), Field(buf, a + 0x28, 8), Field(buf, a + 0x30, 8),
                decode(NameBytes(buf, a), nameLen), true)
  }

  function Val8(b: Byte): nat
  {
    b as nat
  }

  /** The bytes from the name (offset 0x42 of the attribute) onwards. */
  function NameBytes(buf: seq<Byte>, a: nat): seq<Byte>
  {
    if a + 0x42 <= |buf| then buf[a + 0x42..] else []
  }

  lemma NameLength(buf: seq<Byte>, a: nat)
    ensures Field(buf, a + 0x40, 1) == Val8(ByteAt(buf, a + 0x40))
  {
    HexToLongExact(Slice(buf, a + 0x40, 1));
    assert Slice(buf, a + 0x40, 1)[1..] == [];
  }

  /** The six-byte parent record number kept in 32 bits is its low four
      bytes: the top two bytes of the 48-bit number are dropped. */
  lemma ParentIsLowFourBytes(buf: seq<Byte>, a: nat, decode: NameDecoder)
    ensures DecodeFn(buf, a, decode).Parent == Le(buf, a, 4)
  {
    var six := Slice(buf, a, 6);
    LeValueSplit(six, 4);
    assert six[..4] == Slice(buf, a, 4);
    LeValueBound(six[..4]);
    assert Pow256(4) == TWO_32;
    ModAddMultiple32(LeValue(six[..4]), LeValue(six[4..]));
  }

  lemma ModAddMultiple32(x: nat, k: nat)
    requires x < TWO_32
    ensures (x + TWO_32 * k) % TWO_32 == x
  {
  }

  // ---------------------------------------------------------------------
  // The preference among $FILE_NAME attributes

  /** operator<(a, b): b is preferred to a. A valid attribute beats an
      invalid one, then an all-ASCII name beats one that is not, then the
      longer name wins. */
  predicate FnLess(a: FnAttribute, b: FnAttribute)
  {
    var x := IsAscii(a.Name);
    var y := IsAscii(b.Name);
    if a.Valid != b.Valid then b.Valid
    else if x != y then y
    else |a.Name| < |b.Name|
  }

  /** The rank the preference compares: validity, then ASCII-ness, then
      length, most significant first. */
  function Rank(a: FnAttribute): (r: nat)
  {
    (if a.Valid then 2 else 0) * 0x1_0000_0000 + (if IsAscii(a.Name) then 1 else 0) * 0x8000_0000
      + (if |a.Name| < 0x8000_0000 then |a.Name| else 0x7FFF_FFFF)
  }

  /** For names shorter than 2^31 bytes the preference is the order of
      the ranks, so it is a strict weak order: irreflexive, transitive,
      and indifference is transitive too. */
  lemma FnLessIsRankOrder(a: FnAttribute, b: FnAttribute)
    requires |a.Name| < 0x8000_0000 && |b.Name| < 0x8000_0000
    ensures FnLess(a, b) <==> Rank(a) < Rank(b)
  {
  }

  lemma FnLessStrictWeakOrder(a: FnAttribute, b: FnAttribute, c: FnAttribute)
    ensures !FnLess(a, a)
    ensures FnLess(a, b) ==> !FnLess(b, a)
    ensures FnLess(a, b) && FnLess(b, c) ==> FnLess(a, c)
    ensures !FnLess(a, b) && !FnLess(b, c) ==> !FnLess(a, c)
  {
  }

  /** The loop's choice: a later attribute replaces the current one only
      when it is strictly preferred. */
  function PickFn(cands: seq<FnAttribute>, cur: FnAttribute): (r: FnAttribute)
    decreases |cands|
  {
    if |cands| == 0 then cur
    else PickFn(cands[1..], if FnLess(cur, cands[0]) then cands[0] else cur)
  }

  /** The chosen attribute is a maximum: nothing seen, nor the starting
      value, is preferred to it. It is the starting value, or the first
      candidate of maximal preference, every earlier candidate and the
      starting value being strictly less preferred. */
  lemma {:induction false} PickFnIsFirstMaximum(cands: seq<FnAttribute>, cur: FnAttribute)
    ensures !FnLess(PickFn(cands, cur), cur)
    ensures forall k :: 0 <= k < |cands| ==> !FnLess(PickFn(cands, cur), cands[k])
    ensures PickFn(cands, cur) == cur ||
      exists i :: 0 <= i < |cands| && PickFn(cands, cur) == cands[i] && FnLess(cur, cands[i]) &&
        forall k :: 0 <= k < i ==> FnLess(cands[k], cands[i])
    decreases |cands|
  {
    if |cands| > 0 {
      var next := if FnLess(cur, cands[0]) then cands[0] else cur;
      var r := PickFn(cands[1..], next);
      PickFnIsFirstMaximum(cands[1..], next);
      assert r == PickFn(cands, cur);
      FnLessStrictWeakOrder(r, next, cur);
      forall k | 0 <= k < |cands|
        ensures !FnLess(r, cands[k])
      {
        if k == 0 {
          FnLessStrictWeakOrder(r, next, cands[0]);
        } else {
          assert cands[k] == cands[1..][k - 1];
        }
      }
      if r != next {
        var i :| 0 <= i < |cands[1..]| && r == cands[1..][i] && FnLess(next, cands[1..][i]) &&
          forall k :: 0 <= k < i ==> FnLess(cands[1..][k], cands[1..][i]);
        FnLessStrictWeakOrder(cur, next, r);
        FnLessStrictWeakOrder(cands[0], next, r);
        forall k | 0 <= k < i + 1
          ensures FnLess(cands[k], cands[i + 1])
        {
          if k > 0 {
            assert cands[k] == cands[1..][k - 1];
          }
        }
        assert r == cands[i + 1];
      } else if r != cur {
        assert r == cands[0];
      }
    }
  }

  // ---------------------------------------------------------------------
  // The attribute walk

  /** The offsets the loop visits: it runs while the offset is below 1024
      and below the bytes in use (the u32 at 0x18), and moves on by the
      attribute length (the u32 at offset + 4) when that lies strictly
      between 0 and 1024, stopping otherwise. */
  function Walk(buf: seq<Byte>, offset: nat, space: nat): (offs: seq<nat>)
    decreases RECORD_SIZE - offset
  {
    if offset < RECORD_SIZE && offset < space then
      var len := Field(buf, offset + 4, 4);
      if 0 < len < RECORD_SIZE then [offset] + Walk(buf, offset + len, space)
      else [offset]
    else []
  }

  function AttributeLength(buf: seq<Byte>, offset: nat): nat
  {
    Field(buf, offset + 4, 4)
  }

  /** A list of offsets that stay inside the record and inside the bytes
      in use, each one the previous plus its attribute length, which lies
      strictly between 0 and 1024. */
  predicate Chained(buf: seq<Byte>, offs: seq<nat>, space: nat)
  {
    (forall k :: 0 <= k < |offs| ==> offs[k] < RECORD_SIZE && offs[k] < space) &&
    (forall k :: 0 < k < |offs| ==> Advances(buf, offs[k - 1], offs[k]))
  }

  predicate Advances(buf: seq<Byte>, from: nat, to: nat)
  {
    0 < AttributeLength(buf, from) < RECORD_SIZE && to == from + AttributeLength(buf, from)
  }

  /** The walk starts at the given offset when that is inside both bounds
      (and is empty otherwise), and is chained; hence it visits at most
      1024 - offset attributes. */
  lemma {:induction false} WalkBounds(buf: seq<Byte>, offset: nat, space: nat)
    ensures Chained(buf, Walk(buf, offset, space), space)
    ensures |Walk(buf, offset, space)| > 0 <==> offset < RECORD_SIZE && offset < space
    ensures |Walk(buf, offset, space)| > 0 ==> Walk(buf, offset, space)[0] == offset
    ensures |Walk(buf, offset, space)| > 0 ==> offset + |Walk(buf, offset, space)| <= RECORD_SIZE
    decreases RECORD_SIZE - offset
  {
    if offset < RECORD_SIZE && offset < space {
      var len := Field(buf, offset + 4, 4);
      if 0 < len < RECORD_SIZE {
        var rest := Walk(buf, offset + len, space);
        WalkBounds(buf, offset + len, space);
        ChainedCons(buf, offset, rest, space);
      }
    }
  }

  lemma ChainedCons(buf: seq<Byte>, offset: nat, rest: seq<nat>, space: nat)
    requires offset < RECORD_SIZE && offset < space
    requires Chained(buf, rest, space)
    requires |rest| > 0 ==> Advances(buf, offset, rest[0])
    ensures Chained(buf, [offset] + rest, space)
  {
    var offs := [offset] + rest;
    assert forall k :: 0 < k < |offs| ==> offs[k] == rest[k - 1];
  }

  /** The attribute content offset: offset + the u16 at offset + 0x14. */
  function ContentStart(buf: seq<Byte>, offset: nat): nat
  {
    offset + Field(buf, offset + 0x14, 2)
  }

  function TypeId(buf: seq<Byte>, offset: nat): nat
  {
    Field(buf, offset, 4)
  }

  /** Sia after the walk: each 0x10 attribute overwrites it. */
  function FoldSi(buf: seq<Byte>, offs: seq<nat>, cur: SiAttribute): SiAttribute
    decreases |offs|
  {
    if |offs| == 0 then cur
    else
      var next := if TypeId(buf, offs[0]) == TYPE_STANDARD_INFORMATION
                  then DecodeSi(buf, ContentStart(buf, offs[0])) else cur;
      FoldSi(buf, offs[1..], next)
  }

  /** The decoded 0x30 attributes, in walk order. */
  function FileNames(buf: seq<Byte>, offs: seq<nat>, decode: NameDecoder): (fns: seq<FnAttribute>)
    ensures forall k :: 0 <= k < |fns| ==> fns[k].Valid
    decreases |offs|
  {
    if |offs| == 0 then []
    else
      var tl := FileNames(buf, offs[1..], decode);
      if TypeId(buf, offs[0]) == TYPE_FILE_NAME
      then [DecodeFn(buf, ContentStart(buf, offs[0]), decode)] + tl
      else tl
  }

  /** offs[k] is the last 0x10 attribute of the walk. */
  predicate LastSi(buf: seq<Byte>, offs: seq<nat>, k: int)
  {
    0 <= k < |offs| && TypeId(buf, offs[k]) == TYPE_STANDARD_INFORMATION &&
    forall m :: k < m < |offs| ==> TypeId(buf, offs[m]) != TYPE_STANDARD_INFORMATION
  }

  /** Sia is the last 0x10 attribute of the walk, or the starting value
      when there is none. */
  lemma {:induction false} FoldSiIsLast(buf: seq<Byte>, offs: seq<nat>, cur: SiAttribute)
    ensures (forall k :: 0 <= k < |offs| ==> TypeId(buf, offs[k]) != TYPE_STANDARD_INFORMATION) ==>
      FoldSi(buf, offs, cur) == cur
    ensures forall k :: LastSi(buf, offs, k) ==> FoldSi(buf, offs, cur) == DecodeSi(buf, ContentStart(buf, offs[k]))
    decreases |offs|
  {
    if |offs| > 0 {
      var next := if TypeId(buf, offs[0]) == TYPE_STANDARD_INFORMATION
                  then DecodeSi(buf, ContentStart(buf, offs[0])) else cur;
      FoldSiIsLast(buf, offs[1..], next);
      assert forall m :: 0 < m < |offs| ==> offs[m] == offs[1..][m - 1];
    }
  }

  // ---------------------------------------------------------------------
  // The record

  datatype MftRecord = MftRecord(
    Lsn: nat,
    Record: nat,        // unsigned int
    Sia: SiAttribute,
    Fna: FnAttribute,
    IsDir: bool,
    IsAllocated: bool)

  /** The attribute walk from the first-attribute offset (the u16 at
      0x14) bounded by the bytes in use (the u32 at 0x18). */
  function Offsets(buf: seq<Byte>): seq<nat>
  {
    Walk(buf, Field(buf, 0x14, 2), Field(buf, 0x18, 4))
  }

  /** MFTRecord(buffer). A record without the "FILE" signature leaves every
      field at its default (Record and Lsn are then never assigned); that
      outcome is None. */
  function ParseMftRecord(buf: seq<Byte>, decode: NameDecoder): (r: Option<MftRecord>)
  {
    if Field(buf, 0, 4) != FILE_MAGIC then None
    else
      var flags := Field(buf, 0x16, 2);
      var offs := Offsets(buf);
      Some(MftRecord(Field(buf, 8, 8), Field(buf, 0x2C, 4),
                     FoldSi(buf, offs, NoSi), PickFn(FileNames(buf, offs, decode), NoFn),
                     (flags / 2) % 2 == 1, flags % 2 == 1))
  }

  /** A record is parsed exactly when its first four bytes are "FILE"
      (0x46 0x49 0x4C 0x45). */
  lemma ParseNeedsSignature(buf: seq<Byte>, decode: NameDecoder)
    ensures ParseMftRecord(buf, decode).Some? <==>
      Val8(ByteAt(buf, 0)) == 0x46 && Val8(ByteAt(buf, 1)) == 0x49 &&
      Val8(ByteAt(buf, 2)) == 0x4C && Val8(ByteAt(buf, 3)) == 0x45
  {
    SignatureBytes(buf);
  }

  lemma SignatureBytes(buf: seq<Byte>)
    ensures Field(buf, 0, 4) == FILE_MAGIC <==>
      Val8(ByteAt(buf, 0)) == 0x46 && Val8(ByteAt(buf, 1)) == 0x49 &&
      Val8(ByteAt(buf, 2)) == 0x4C && Val8(ByteAt(buf, 3)) == 0x45
  {
    var s4 := Slice(buf, 0, 4);
    FieldExact(buf, 0, 4);
    LeValueFour(s4);
    var b0, b1, b2, b3 := Val8(ByteAt(buf, 0)), Val8(ByteAt(buf, 1)), Val8(ByteAt(buf, 2)), Val8(ByteAt(buf, 3));
    assert b0 == s4[0] as nat && b1 == s4[1] as nat && b2 == s4[2] as nat && b3 == s4[3] as nat;
    assert Field(buf, 0, 4) == b0 + 0x100 * b1 + 0x1_0000 * b2 + 0x100_0000 * b3;
    Digits4(b0, b1, b2, b3);
  }

  lemma Digits4(b0: nat, b1: nat, b2: nat, b3: nat)
    requires b0 < 256 && b1 < 256 && b2 < 256 && b3 < 256
    ensures b0 + 0x100 * b1 + 0x1_0000 * b2 + 0x100_0000 * b3 == FILE_MAGIC <==>
      b0 == 0x46 && b1 == 0x49 && b2 == 0x4C && b3 == 0x45
  {
  }

  /** isAllocated is bit 0 and isDir bit 1 of the flags word at 0x16, so
      both live in the byte at 0x16; the header numbers are the
      little-endian fields at 0x08 (8 bytes) and 0x2C (4 bytes). */
  lemma ParseHeader(buf: seq<Byte>, decode: NameDecoder)
    requires ParseMftRecord(buf, decode).Some?
    ensures var rec := ParseMftRecord(buf, decode).value;
      && (rec.IsAllocated <==> Val8(ByteAt(buf, 0x16)) % 2 == 1)
      && (rec.IsDir <==> (Val8(ByteAt(buf, 0x16)) / 2) % 2 == 1)
      && rec.Lsn == Le(buf, 8, 8)
      && rec.Record == Le(buf, 0x2C, 4) && rec.Record < TWO_32
  {
    FlagWord(buf);
    FieldExact(buf, 8, 8);
    FieldExact(buf, 0x2C, 4);
    assert Pow256(4) == TWO_32;
  }

  lemma FlagWord(buf: seq<Byte>)
    ensures Field(buf, 0x16, 2) % 2 == Val8(ByteAt(buf, 0x16)) % 2
    ensures (Field(buf, 0x16, 2) / 2) % 2 == (Val8(ByteAt(buf, 0x16)) / 2) % 2
  {
    FieldExact(buf, 0x16, 2);
    var two := Slice(buf, 0x16, 2);
    LeValueTwo(two);
    FlagBits(Val8(two[0]), Val8(two[1]));
  }

  lemma FlagBits(lo: nat, hi: nat)
    ensures (lo + 256 * hi) % 2 == lo % 2
    ensures ((lo + 256 * hi) / 2) % 2 == (lo / 2) % 2
  {
    var q := 128 * hi;
    assert lo + 256 * hi == lo + 2 * q;
    HalfStep(lo, q);
    HalfStep(lo / 2, 64 * hi);
  }

  lemma HalfStep(x: nat, q: nat)
    ensures (x + 2 * q) % 2 == x % 2 && (x + 2 * q) / 2 == x / 2 + q
  {
    var r := x % 2;
    assert x == 2 * (x / 2) + r;
    assert x + 2 * q == 2 * (x / 2 + q) + r;
  }

  /** Across the $FILE_NAME attributes of a record, the one kept is a
      maximum under operator<, the first one to reach it, and is valid
      whenever the record has any. */
  lemma ParsedFnIsPreferred(buf: seq<Byte>, decode: NameDecoder)
    requires ParseMftRecord(buf, decode).Some?
    ensures var fns := FileNames(buf, Offsets(buf), decode);
      var fna := ParseMftRecord(buf, decode).value.Fna;
      && (forall k :: 0 <= k < |fns| ==> !FnLess(fna, fns[k]))
      && (|fns| > 0 ==> fna.Valid)
      && (fna == NoFn || exists i :: 0 <= i < |fns| && fna == fns[i] && forall k :: 0 <= k < i ==> FnLess(fns[k], fns[i]))
  {
    var fns := FileNames(buf, Offsets(buf), decode);
    assert ParseMftRecord(buf, decode).value.Fna == PickFn(fns, NoFn);
    PickedFromValid(fns);
  }

  lemma PickedFromValid(fns: seq<FnAttribute>)
    requires forall k :: 0 <= k < |fns| ==> fns[k].Valid
    ensures forall k :: 0 <= k < |fns| ==> !FnLess(PickFn(fns, NoFn), fns[k])
    ensures |fns| > 0 ==> PickFn(fns, NoFn).Valid
    ensures PickFn(fns, NoFn) == NoFn ||
      exists i :: 0 <= i < |fns| && PickFn(fns, NoFn) == fns[i] && forall k :: 0 <= k < i ==> FnLess(fns[k], fns[i])
  {
    PickFnIsFirstMaximum(fns, NoFn);
    if |fns| > 0 {
      assert !FnLess(PickFn(fns, NoFn), fns[0]);
    }
  }

  /** MFTRecord::asFile: a valid File with the chosen name, the record
      number, the parent, and the formatted $STANDARD_INFORMATION MFT
      change time. */
  function AsFile(rec: MftRecord, iso: TimeFormatter): (f: File)
    ensures rec.Record < TWO_32 && rec.Fna.Parent < TWO_32 ==>
      f == File(rec.Fna.Name, rec.Record, rec.Fna.Parent, iso(rec.Sia.MftModified), true)
  {
    MakeFile(rec.Fna.Name, rec.Record, rec.Fna.Parent, iso(rec.Sia.MftModified))
  }

  // ---------------------------------------------------------------------
  // Building the record table (parseMFT with initRecords)

  /** Conversion to a 32-bit int: the low 32 bits as two's complement. */
  function Int32(x: int): (r: int)
    ensures -0x8000_0000 <= r < 0x8000_0000
    ensures (r - x) % TWO_32 == 0
  {
    var m := x % TWO_32;
    if m >= 0x8000_0000 then m - TWO_32 else m
  }

  /** One step of parseMFT in table-building mode: the loop counter starts
      at Record - size + 1, computed in unsigned 64-bit arithmetic and
      stored in an int, and a placeholder File is appended for each value
      down to 0; then the record's File is stored at its number. A store
      past the end (possible only when the counter wraps negative) is
      None. */
  function RegisterRecord(records: seq<File>, rec: MftRecord, iso: TimeFormatter): (r: Option<seq<File>>)
  {
    var start := Int32(rec.Record - |records| + 1);
    var grown := records + seq(if start >= 0 then start + 1 else 0, k => EmptyFile);
    if rec.Record < |grown| then Some(grown[rec.Record := AsFile(rec, iso)]) else None
  }

  /** Below 2^31 entries the table grows to Record + 2 entries when it is
      too short (one placeholder more than needed), otherwise keeps its
      size; the record's File lands at its number, earlier entries are
      kept and the new ones are placeholders. */
  lemma RegisterRecordGrows(records: seq<File>, rec: MftRecord, iso: TimeFormatter)
    requires |records| < 0x8000_0000 && rec.Record < 0x7FFF_FFFF
    ensures RegisterRecord(records, rec, iso).Some?
    ensures var t := RegisterRecord(records, rec, iso).value;
      && |t| == (if rec.Record + 1 >= |records| then rec.Record + 2 else |records|)
      && t[rec.Record] == AsFile(rec, iso)
      && (forall k :: 0 <= k < |records| && k != rec.Record ==> t[k] == records[k])
      && (forall k :: |records| <= k < |t| && k != rec.Record ==> t[k] == EmptyFile)
  {
    var x := rec.Record - |records| + 1;
    assert -0x8000_0000 <= x < 0x8000_0000;
    assert Int32(x) == x by { Int32Small(x); }
  }

  lemma Int32Small(x: int)
    requires -0x8000_0000 <= x < 0x8000_0000
    ensures Int32(x) == x
  {
    if x < 0 {
      assert x % TWO_32 == x + TWO_32;
    }
  }

  /** A record number at or above 2^31 + size - 1 makes the counter
      negative, so nothing is appended and the store falls outside. */
  lemma RegisterRecordWraps(iso: TimeFormatter)
    ensures RegisterRecord([], MftRecord(0, 0x8000_0000, NoSi, NoFn, false, true), iso).None?
  {
    assert Int32(0x8000_0001) == -0x7FFF_FFFF;
  }
}

/** The $UsnJrnl:$J change journal (src/usn.cpp): the reason-code
    rendering, the per-record decoder, the walk over variable-length
    records, and the pairing of RENAME_OLD_NAME / RENAME_NEW_NAME records
    into rename and move events. */
module Usn {
  import opened Common
  import opened HelperFunctions

  type NameDecoder = (seq<Byte>, nat) -> string

  // ---------------------------------------------------------------------
  // decodeUSNReason

  /** A reason word, as the set of its bit positions that are 1 (bit k
      stands for the mask 1 << k); or-ing two words is their union. */
  type Flags = set<nat>

  /** The reason flags, as bit positions, in the order decodeUSNReason
      lists them. */
  const ReasonTable: seq<(nat, string)> := [
    (15, "BASIC_INFO_CHANGE"),          // 0x0000_8000
    (31, "CLOSE"),                      // 0x8000_0000
    (17, "COMPRESSION_CHANGE"),         // 0x0002_0000
    (1, "DATA_EXTEND"),                 // 0x0000_0002
    (0, "DATA_OVERWRITE"),              // 0x0000_0001
    (2, "DATA_TRUNCATION"),             // 0x0000_0004
    (10, "EXTENDED_ATTRIBUTE_CHANGE"),  // 0x0000_0400
    (18, "ENCRYPTION_CHANGE"),          // 0x0004_0000
    (8, "FILE_CREATE"),                 // 0x0000_0100
    (9, "FILE_DELETE"),                 // 0x0000_0200
    (16, "HARD_LINK_CHANGE"),           // 0x0001_0000
    (14, "INDEXABLE_CHANGE"),           // 0x0000_4000
    (5, "NAMED_DATA_EXTEND"),           // 0x0000_0020
    (4, "NAMED_DATA_OVERWRITE"),        // 0x0000_0010
    (6, "NAMED_DATA_TRUNCATION"),       // 0x0000_0040
    (19, "OBJECT_ID_CHANGE"),           // 0x0008_0000
    (13, "RENAME_NEW_NAME"),            // 0x0000_2000
    (12, "RENAME_OLD_NAME"),            // 0x0000_1000
    (20, "REPARSE_POINT_CHANGE"),       // 0x0010_0000
    (11, "SECURITY_CHANGE"),            // 0x0000_0800
    (21, "STREAM_CHANGE")]              // 0x0020_0000

  const FILE_CREATE: nat := 8
  const FILE_DELETE: nat := 9
  const RENAME_OLD_NAME: nat := 12
  const RENAME_NEW_NAME: nat := 13
  const CLOSE: nat := 31

  predicate Has(reason: Flags, bit: nat)
  {
    bit in reason
  }

  /** The stream text before the final character is dropped: each set
      flag of the table contributes its name and a '|'. */
  function Tokens(reason: Flags, table: seq<(nat, string)>): string
  {
    if |table| == 0 then ""
    else (if Has(reason, table[0].0) then table[0].1 + "|" else "") + Tokens(reason, table[1..])
  }

  /** decodeUSNReason: "USN|" and the tokens, less the last character. The
      reason is the 32-bit pattern of the C++ int argument. */
  function DecodeUsnReason(reason: Flags): (s: string)
  {
    var full := "USN|" + Tokens(reason, ReasonTable);
    full[..|full| - 1]
  }

  /** The names of the set flags, in table order. */
  function Names(reason: Flags, table: seq<(nat, string)>): (names: seq<string>)
    ensures |names| <= |table|
  {
    if |table| == 0 then []
    else (if Has(reason, table[0].0) then [table[0].1] else []) + Names(reason, table[1..])
  }

  /** Each name preceded by a '|'. */
  function Prefixed(names: seq<string>): string
  {
    if |names| == 0 then "" else "|" + names[0] + Prefixed(names[1..])
  }

  /** Each name followed by a '|'. */
  function Suffixed(names: seq<string>): string
  {
    if |names| == 0 then "" else names[0] + "|" + Suffixed(names[1..])
  }

  lemma {:induction false} TokensAreSuffixed(reason: Flags, table: seq<(nat, string)>)
    ensures Tokens(reason, table) == Suffixed(Names(reason, table))
  {
    if |table| > 0 {
      TokensAreSuffixed(reason, table[1..]);
      var tl := Names(reason, table[1..]);
      if Has(reason, table[0].0) {
        assert Names(reason, table) == [table[0].1] + tl;
        assert ([table[0].1] + tl)[1..] == tl;
      } else {
        assert Names(reason, table) == tl;
      }
    }
  }

  lemma {:induction false} ShiftBar(names: seq<string>)
    ensures "|" + Suffixed(names) == Prefixed(names) + "|"
  {
    if |names| > 0 {
      ShiftBar(names[1..]);
      calc {
        "|" + Suffixed(names);
        "|" + (names[0] + "|" + Suffixed(names[1..]));
        { assert "|" + (names[0] + "|" + Suffixed(names[1..])) == "|" + names[0] + ("|" + Suffixed(names[1..])); }
        "|" + names[0] + ("|" + Suffixed(names[1..]));
        "|" + names[0] + (Prefixed(names[1..]) + "|");
        { assert "|" + names[0] + (Prefixed(names[1..]) + "|") == ("|" + names[0] + Prefixed(names[1..])) + "|"; }
        Prefixed(names) + "|";
      }
    }
  }

  /** The rendering is "USN" followed by "|NAME" for each set flag, in
      table order. */
  lemma DecodeIsJoin(reason: Flags)
    ensures DecodeUsnReason(reason) == "USN" + Prefixed(Names(reason, ReasonTable))
  {
    var names := Names(reason, ReasonTable);
    TokensAreSuffixed(reason, ReasonTable);
    ShiftBar(names);
    assert "USN|" + Suffixed(names) == "USN" + ("|" + Suffixed(names));
    assert "USN" + (Prefixed(names) + "|") == ("USN" + Prefixed(names)) + "|";
  }

  /** Every rendering starts with "USN", the character the rendering
      drops is always the trailing '|', and a zero reason renders as "USN"
      alone. */
  lemma DecodeShape(reason: Flags)
    ensures |DecodeUsnReason(reason)| >= 3 && DecodeUsnReason(reason)[..3] == "USN"
    ensures DecodeUsnReason(reason) + "|" == "USN|" + Tokens(reason, ReasonTable)
    ensures reason == {} ==> DecodeUsnReason(reason) == "USN"
  {
    var names := Names(reason, ReasonTable);
    DecodeIsJoin(reason);
    TokensAreSuffixed(reason, ReasonTable);
    ShiftBar(names);
    var s := DecodeUsnReason(reason);
    assert s[..3] == "USN";
    assert "USN|" + Suffixed(names) == "USN" + ("|" + Suffixed(names));
    assert ("USN" + Prefixed(names)) + "|" == "USN" + (Prefixed(names) + "|");
    if reason == {} {
      NoFlagNoName(ReasonTable);
    }
  }

  lemma {:induction false} NoFlagNoName(table: seq<(nat, string)>)
    ensures Names({}, table) == []
  {
    if |table| > 0 {
      NoFlagNoName(table[1..]);
    }
  }

  /** Setting more of the listed flags only adds names: the names for a
      are a subsequence of those for b when every listed flag of a is set
      in b. */
  lemma {:induction false} MoreFlagsMoreNames(a: Flags, b: Flags, table: seq<(nat, string)>)
    requires forall i :: 0 <= i < |table| ==> Has(a, table[i].0) ==> Has(b, table[i].0)
    ensures IsSubsequence(Names(a, table), Names(b, table))
  {
    if |table| > 0 {
      assert forall i :: 0 <= i < |table[1..]| ==> table[1..][i] == table[i + 1];
      MoreFlagsMoreNames(a, b, table[1..]);
      var ta := Names(a, table[1..]);
      var tb := Names(b, table[1..]);
      if Has(a, table[0].0) {
        assert Names(a, table) == [table[0].1] + ta && Names(b, table) == [table[0].1] + tb;
        assert ([table[0].1] + ta)[1..] == ta && ([table[0].1] + tb)[1..] == tb;
      } else if Has(b, table[0].0) {
        var ys := [table[0].1] + tb;
        assert Names(a, table) == ta && Names(b, table) == ys;
        assert ys[1..] == tb;
        assert IsSubsequence(ta, ys);
      } else {
        assert Names(a, table) == ta && Names(b, table) == tb;
      }
    }
  }

  /** Only the listed flags matter: two reasons that agree on them render
      alike, so bits such as 0x8 and 0x80 add nothing. */
  lemma {:induction false} ListedFlagsOnly(a: Flags, b: Flags, table: seq<(nat, string)>)
    requires forall i :: 0 <= i < |table| ==> (Has(a, table[i].0) <==> Has(b, table[i].0))
    ensures Tokens(a, table) == Tokens(b, table)
  {
    if |table| > 0 {
      assert forall i :: 0 <= i < |table[1..]| ==> table[1..][i] == table[i + 1];
      ListedFlagsOnly(a, b, table[1..]);
    }
  }

  lemma UnlistedBits(reason: Flags)
    ensures DecodeUsnReason(reason + {3}) == DecodeUsnReason(reason)
    ensures DecodeUsnReason(reason + {7}) == DecodeUsnReason(reason)
  {
    UnlistedBit(reason, 3);
    UnlistedBit(reason, 7);
  }

  /** A bit outside every listed flag leaves the rendering unchanged. */
  lemma UnlistedBit(reason: Flags, c: nat)
    requires forall i :: 0 <= i < |ReasonTable| ==> ReasonTable[i].0 != c
    ensures DecodeUsnReason(reason + {c}) == DecodeUsnReason(reason)
  {
    ListedFlagsOnly(reason + {c}, reason, ReasonTable);
  }

  /** Or-ing in more flags keeps every name already rendered. */
  lemma OrKeepsNames(a: Flags, c: Flags)
    ensures IsSubsequence(Names(a, ReasonTable), Names(a + c, ReasonTable))
  {
    MoreFlagsMoreNames(a, a + c, ReasonTable);
  }

  // ---------------------------------------------------------------------
  // USN_Record(buffer)

  /** The fields of USN_Record; every number is an unsigned 64-bit or
      32-bit field. par_record_after and file_name_after are filled only
      by the pairing (the decoder leaves par_record_after unassigned; 0
      here). */
  datatype UsnRecord = UsnRecord(
    FileRef: nat, Mft: nat,
    ParentRef: nat, Parent: nat, ParentAfter: nat,
    Usn: nat, Timestamp: nat,
    Reason: Flags,
    FileLen: nat, NameOffset: nat,
    Name: string, NameAfter: string)

  const TWO_48: nat := 0x1_0000_0000_0000

  /** USN_Record(buffer + off): the record fields at their fixed offsets;
      the name is file_len / 2 UTF-16 units at name_offset from the start
      of the record. */
  function DecodeUsnRecord(data: seq<Byte>, off: nat, decode: NameDecoder): (r: UsnRecord)
    ensures r.FileRef == Le(data, off + 0x08, 8) && r.Mft == Le(data, off + 0x08, 6)
    ensures r.ParentRef == Le(data, off + 0x10, 8) && r.Parent == Le(data, off + 0x10, 6)
    ensures r.Usn == Le(data, off + 0x18, 8) && r.Timestamp == Le(data, off + 0x20, 8)
    ensures r.Reason == ReasonFlags(data, off + 0x28)
    ensures r.FileLen == Le(data, off + 0x38, 2) && r.NameOffset == Le(data, off + 0x3A, 2)
    ensures r.Name == decode(Tail(data, off + r.NameOffset), r.FileLen / 2)
    ensures r.NameAfter == "" && r.ParentAfter == 0
  {
    FieldExact(data, off + 0x08, 8);
    FieldExact(data, off + 0x08, 6);
    FieldExact(data, off + 0x10, 8);
    FieldExact(data, off + 0x10, 6);
    FieldExact(data, off + 0x18, 8);
    FieldExact(data, off + 0x20, 8);
    FieldExact(data, off + 0x38, 2);
    FieldExact(data, off + 0x3A, 2);
    var fileLen := Field(data, off + 0x38, 2);
    var nameOffset := Field(data, off + 0x3A, 2);
    UsnRecord(
      Field(data, off + 0x08, 8), Field(data, off + 0x08, 6),
      Field(data, off + 0x10, 8), Field(data, off + 0x10, 6), 0,
      Field(data, off + 0x18, 8), Field(data, off + 0x20, 8),
      ReasonFlags(data, off + 0x28),
      fileLen, nameOffset,
      decode(Tail(data, off + nameOffset), fileLen / 2), "")
  }

  /** Bit j of a byte. */
  predicate Bit(b: Byte, j: nat)
    requires j < 8
  {
    (b >> j) & 1 == 1
  }

  /** The four-byte little-endian reason word at at, as its set bits: bit
      k is bit k % 8 of the byte at at + k / 8. */
  function ReasonFlags(data: seq<Byte>, at: nat): (r: Flags)
    ensures forall k :: k in r ==> k < 32
  {
    set k | 0 <= k < 32 && Bit(ByteAt(data, at + k / 8), k % 8)
  }

  /** The bytes from position i onwards (none past the end). */
  function Tail(data: seq<Byte>, i: nat): seq<Byte>
  {
    if i <= |data| then data[i..] else []
  }

  /** The record numbers are the low 48 bits of the file references: the
      top two bytes (the sequence number) are dropped. */
  lemma RecordNumbersAreLow48Bits(data: seq<Byte>, off: nat, decode: NameDecoder)
    ensures DecodeUsnRecord(data, off, decode).Mft == DecodeUsnRecord(data, off, decode).FileRef % TWO_48
    ensures DecodeUsnRecord(data, off, decode).Parent == DecodeUsnRecord(data, off, decode).ParentRef % TWO_48
  {
    Low48(data, off + 0x08);
    Low48(data, off + 0x10);
  }

  lemma Low48(data: seq<Byte>, at: nat)
    ensures Le(data, at, 6) == Le(data, at, 8) % TWO_48
  {
    var eight := Slice(data, at, 8);
    LeValueSplit(eight, 6);
    assert eight[..6] == Slice(data, at, 6);
    LeValueBound(eight[..6]);
    assert Pow256(6) == TWO_48;
    ModMultiple48(LeValue(eight[..6]), LeValue(eight[6..]));
  }

  lemma ModMultiple48(x: nat, k: nat)
    requires x < TWO_48
    ensures (x + TWO_48 * k) % TWO_48 == x
  {
  }

  // ---------------------------------------------------------------------
  // The record walk of parseUSN

  const MAX_RECORD_LENGTH: nat := 0x1000

  function RecordLength(data: seq<Byte>, off: nat): nat
  {
    Field(data, off, 4)
  }

  /** The offsets at which parseUSN decodes a record, over the journal
      bytes from off: a zero length word is skipped by 8 bytes, a length
      above 0x1000 ends the walk, any other length is a record and the
      walk moves on by it. The walk also ends with the input. */
  function RecordOffsets(data: seq<Byte>, off: nat): (offs: seq<nat>)
    decreases |data| - off
  {
    if off >= |data| then []
    else
      var len := RecordLength(data, off);
      if len == 0 then RecordOffsets(data, off + 8)
      else if len > MAX_RECORD_LENGTH then []
      else [off] + RecordOffsets(data, off + len)
  }

  /** The records found lie inside the input, each has a length in
      (0, 0x1000], they come in order and never overlap. */
  predicate Disjoint(data: seq<Byte>, offs: seq<nat>, off: nat)
  {
    (forall k :: 0 <= k < |offs| ==> off <= offs[k] < |data| && 0 < RecordLength(data, offs[k]) <= MAX_RECORD_LENGTH) &&
    (forall k :: 0 < k < |offs| ==> offs[k - 1] + RecordLength(data, offs[k - 1]) <= offs[k])
  }

  lemma {:induction false} RecordsAreDisjoint(data: seq<Byte>, off: nat)
    ensures Disjoint(data, RecordOffsets(data, off), off)
    decreases |data| - off
  {
    if off < |data| {
      var len := RecordLength(data, off);
      if len == 0 {
        RecordsAreDisjoint(data, off + 8);
      } else if len <= MAX_RECORD_LENGTH {
        var rest := RecordOffsets(data, off + len);
        RecordsAreDisjoint(data, off + len);
        DisjointCons(data, off, len, rest);
      }
    }
  }

  lemma DisjointCons(data: seq<Byte>, off: nat, len: nat, rest: seq<nat>)
    requires off < |data| && len == RecordLength(data, off) && 0 < len <= MAX_RECORD_LENGTH
    requires Disjoint(data, rest, off + len)
    ensures Disjoint(data, [off] + rest, off)
  {
    var offs := [off] + rest;
    assert forall k :: 0 < k < |offs| ==> offs[k] == rest[k - 1];
  }

  /** A record is never found past a length word above 0x1000: the walk
      stops there. */
  lemma StopsAtOversizedLength(data: seq<Byte>, off: nat)
    requires off < |data| && RecordLength(data, off) > MAX_RECORD_LENGTH
    ensures RecordOffsets(data, off) == []
  {
  }

  // ---------------------------------------------------------------------
  // The per-record streams

  datatype Stream = CreateStream | DeleteStream

  /** The secondary streams a record is written to besides the main one. */
  function Streams(reason: Flags): (s: seq<Stream>)
    ensures CreateStream in s <==> Has(reason, FILE_CREATE)
    ensures DeleteStream in s <==> Has(reason, FILE_DELETE)
    ensures |s| <= 2
  {
    (if 8 in reason then [CreateStream] else []) +
    (if 9 in reason then [DeleteStream] else [])
  }

  // ---------------------------------------------------------------------
  // Rename pairing

  /** USN_Record(): clearFields on a fresh record. */
  const Cleared := UsnRecord(0, 0, 0, 0, 0, 0, 0, {}, 0, 0, "", "")

  /** clearFields: every number back to 0 and both names empty. */
  function ClearFields(r: UsnRecord): (c: UsnRecord)
    ensures c.FileRef == 0 && c.Mft == 0
    ensures c.ParentRef == 0 && c.Parent == 0 && c.ParentAfter == 0
    ensures c.Usn == 0 && c.Timestamp == 0 && c.Reason == {}
    ensures c.FileLen == 0 && c.NameOffset == 0
    ensures c.Name == "" && c.NameAfter == ""
  {
    Cleared
  }

  datatype PairEvent = Rename(rec: UsnRecord) | Move(rec: UsnRecord)

  function IsRename(rec: UsnRecord): bool
  {
    Has(rec.Reason, RENAME_OLD_NAME) || Has(rec.Reason, RENAME_NEW_NAME)
  }

  /** The accumulation for a rename record: a fresh accumulator (usn 0)
      takes the whole record; RENAME_OLD_NAME sets the old name and
      parent, RENAME_NEW_NAME the new ones, and the reasons are or-ed. */
  function Accumulate(temp: UsnRecord, rec: UsnRecord): (t: UsnRecord)
  {
    if !IsRename(rec) then temp
    else
      var t0 := if temp.Usn == 0 then rec else temp;
      var t1 := if Has(rec.Reason, RENAME_OLD_NAME) then t0.(Name := rec.Name, Parent := rec.Parent) else t0;
      var t2 := if Has(rec.Reason, RENAME_NEW_NAME) then t1.(NameAfter := rec.Name, ParentAfter := rec.Parent) else t1;
      t2.(Reason := t2.Reason + rec.Reason)
  }

  /** What a flush writes: a rename when the new name is set and differs
      from the old one, a move when the new name is set and the parents
      differ. */
  function Flush(t: UsnRecord): (events: seq<PairEvent>)
  {
    if t.NameAfter == "" then []
    else (if t.Name != t.NameAfter then [Rename(t)] else []) +
         (if t.Parent != t.ParentAfter then [Move(t)] else [])
  }

  /** One record of the pairing: accumulate, then flush and clear when the
      record belongs to another file or carries CLOSE. */
  function Pair(temp: UsnRecord, rec: UsnRecord): (r: (UsnRecord, seq<PairEvent>))
  {
    var t := Accumulate(temp, rec);
    if t.Mft != rec.Mft || Has(rec.Reason, CLOSE) then (ClearFields(t), Flush(t))
    else (t, [])
  }

  /** The pairing over a run of records. */
  function PairAll(temp: UsnRecord, recs: seq<UsnRecord>): (r: (UsnRecord, seq<PairEvent>))
    decreases |recs|
  {
    if |recs| == 0 then (temp, [])
    else
      var (t, ev) := Pair(temp, recs[0]);
      var (t', ev') := PairAll(t, recs[1..]);
      (t', ev + ev')
  }

  /** The accumulation keeps what it is told: the old and new names and
      parents come from the records carrying the matching flag, and every
      flag of the record is kept in the accumulated reason. */
  lemma AccumulateKeeps(temp: UsnRecord, rec: UsnRecord)
    requires IsRename(rec)
    ensures var t := Accumulate(temp, rec);
      && (Has(rec.Reason, RENAME_OLD_NAME) ==> t.Name == rec.Name && t.Parent == rec.Parent)
      && (Has(rec.Reason, RENAME_NEW_NAME) ==> t.NameAfter == rec.Name && t.ParentAfter == rec.Parent)
      && rec.Reason <= t.Reason
      && (temp.Usn != 0 ==> t.Mft == temp.Mft && temp.Reason <= t.Reason)
      && (temp.Usn == 0 ==> t.Mft == rec.Mft)
  {
  }

  /** A record that is not part of a rename leaves the accumulator as it
      is. */
  lemma AccumulateIgnoresOthers(temp: UsnRecord, rec: UsnRecord)
    requires !IsRename(rec)
    ensures Accumulate(temp, rec) == temp
  {
  }

  /** A flush emits a rename iff the new name is set and differs from the
      old one, and a move iff the new name is set and the parents differ;
      nothing else. */
  lemma FlushIff(t: UsnRecord)
    ensures Rename(t) in Flush(t) <==> t.NameAfter != "" && t.Name != t.NameAfter
    ensures Move(t) in Flush(t) <==> t.NameAfter != "" && t.Parent != t.ParentAfter
    ensures forall e :: e in Flush(t) ==> e == Rename(t) || e == Move(t)
  {
  }

  /** Records of the same file without CLOSE emit nothing; a flush leaves
      the accumulator cleared. */
  lemma PairFlushesOnlyAtBoundaries(temp: UsnRecord, rec: UsnRecord)
    ensures Accumulate(temp, rec).Mft == rec.Mft && !Has(rec.Reason, CLOSE) ==>
      Pair(temp, rec) == (Accumulate(temp, rec), [])
    ensures Accumulate(temp, rec).Mft != rec.Mft || Has(rec.Reason, CLOSE) ==>
      Pair(temp, rec).0 == Cleared && Pair(temp, rec).1 == Flush(Accumulate(temp, rec))
  {
  }

  /** The usual journal pattern: RENAME_OLD_NAME, then RENAME_NEW_NAME,
      then CLOSE, all for one file, starting from a cleared accumulator.
      It emits a rename from the old to the new name when they differ and
      a move from the old to the new parent when they differ, and ends
      cleared. */
  lemma RenameSequence(oldRec: UsnRecord, newRec: UsnRecord, closeRec: UsnRecord)
    requires oldRec.Usn != 0
    requires oldRec.Reason == {RENAME_OLD_NAME} && newRec.Reason == {RENAME_NEW_NAME} && closeRec.Reason == {CLOSE}
    requires newRec.Mft == oldRec.Mft && closeRec.Mft == oldRec.Mft
    requires newRec.Name != ""
    ensures var (t, events) := PairAll(Cleared, [oldRec, newRec, closeRec]);
      var acc := oldRec.(NameAfter := newRec.Name, ParentAfter := newRec.Parent, Reason := {RENAME_OLD_NAME, RENAME_NEW_NAME});
      && t == Cleared
      && events == (if oldRec.Name != newRec.Name then [Rename(acc)] else []) +
                   (if oldRec.Parent != newRec.Parent then [Move(acc)] else [])
  {
    var recs := [oldRec, newRec, closeRec];
    var t1 := oldRec;
    assert Accumulate(Cleared, oldRec) == t1;
    var acc := oldRec.(NameAfter := newRec.Name, ParentAfter := newRec.Parent, Reason := {RENAME_OLD_NAME, RENAME_NEW_NAME});
    assert Accumulate(t1, newRec) == acc;
    assert Accumulate(acc, closeRec) == acc;
    assert Pair(Cleared, oldRec) == (t1, []);
    assert Pair(t1, newRec) == (acc, []);
    assert Pair(acc, closeRec) == (Cleared, Flush(acc));
    assert recs[1..] == [newRec, closeRec] && [newRec, closeRec][1..] == [closeRec] && [closeRec][1..] == [];
    assert PairAll(Cleared, []) == (Cleared, []);
    assert Flush(acc) + [] == Flush(acc) && [] + Flush(acc) == Flush(acc);
    assert PairAll(acc, [closeRec]) == (Cleared, Flush(acc));
    assert PairAll(t1, [newRec, closeRec]) == (Cleared, Flush(acc));
    assert PairAll(Cleared, recs) == (Cleared, Flush(acc));
  }

  /** Every event the pairing emits over a run is justified: the new name
      was recorded, a rename changes the name and a move changes the
      parent. */
  lemma {:induction false} PairAllEventsJustified(temp: UsnRecord, recs: seq<UsnRecord>)
    ensures forall e :: e in PairAll(temp, recs).1 ==> Justified(e)
    decreases |recs|
  {
    if |recs| > 0 {
      var (t, ev) := Pair(temp, recs[0]);
      PairAllEventsJustified(t, recs[1..]);
      FlushJustified(Accumulate(temp, recs[0]));
    }
  }

  predicate Justified(e: PairEvent)
  {
    e.rec.NameAfter != "" &&
    (e.Rename? ==> e.rec.Name != e.rec.NameAfter) &&
    (e.Move? ==> e.rec.Parent != e.rec.ParentAfter)
  }

  lemma FlushJustified(t: UsnRecord)
    ensures forall e :: e in Flush(t) ==> Justified(e)
  {
  }

  // ---------------------------------------------------------------------
  // parseUSN over a whole journal

  /** The records decoded at the given offsets. */
  function RecordsAt(data: seq<Byte>, offs: seq<nat>, decode: NameDecoder): (recs: seq<UsnRecord>)
    ensures |recs| == |offs|
    ensures forall k :: 0 <= k < |offs| ==> recs[k] == DecodeUsnRecord(data, offs[k], decode)
  {
    if |offs| == 0 then [] else [DecodeUsnRecord(data, offs[0], decode)] + RecordsAt(data, offs[1..], decode)
  }

  /** The records of a run that carry a flag, in order. */
  function Select(recs: seq<UsnRecord>, bit: nat): (sel: seq<UsnRecord>)
    ensures forall r :: r in sel <==> r in recs && Has(r.Reason, bit)
    ensures IsSubsequence(sel, recs)
    ensures |sel| <= |recs|
  {
    if |recs| == 0 then []
    else if Has(recs[0].Reason, bit) then
      var rest := Select(recs[1..], bit);
      assert ([recs[0]] + rest)[1..] == rest;
      assert forall r :: r in recs <==> r == recs[0] || r in recs[1..];
      [recs[0]] + rest
    else
      var rest := Select(recs[1..], bit);
      SubsequenceOfTail(rest, recs);
      assert forall r :: r in recs <==> r == recs[0] || r in recs[1..];
      rest
  }

  /** What parseUSN writes: every record to the main stream, the created
      and deleted ones to their own streams, and the paired renames and
      moves. */
  datatype Journal = Journal(
    Records: seq<UsnRecord>, Created: seq<UsnRecord>, Deleted: seq<UsnRecord>, Events: seq<PairEvent>)

  function ParseUsn(data: seq<Byte>, decode: NameDecoder): (j: Journal)
    ensures |j.Records| == |RecordOffsets(data, 0)|
    ensures forall k :: 0 <= k < |j.Records| ==>
      j.Records[k] == DecodeUsnRecord(data, RecordOffsets(data, 0)[k], decode)
    ensures IsSubsequence(j.Created, j.Records) && IsSubsequence(j.Deleted, j.Records)
    ensures forall r :: r in j.Created <==> r in j.Records && Has(r.Reason, FILE_CREATE)
    ensures forall r :: r in j.Deleted <==> r in j.Records && Has(r.Reason, FILE_DELETE)
    ensures forall e :: e in j.Events ==> Justified(e)
  {
    var recs := RecordsAt(data, RecordOffsets(data, 0), decode);
    PairAllEventsJustified(Cleared, recs);
    Journal(recs, Select(recs, FILE_CREATE), Select(recs, FILE_DELETE), PairAll(Cleared, recs).1)
  }
}

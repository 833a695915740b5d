/** Pure helpers of src/helper_functions.cpp: little-endian field decoding,
    hex rendering, FILETIME conversion, name preference, full-path
    reconstruction, command-line lookup and enum printing. */
module HelperFunctions {
  import opened Common
  import opened Files

  const TWO_64: nat := 0x1_0000_0000_0000_0000

  // ---------------------------------------------------------------------
  // hex_to_long

  /** hex_to_long(arr, |arr|): the loop visits the bytes from the last to
      the first; each step shifts the 64-bit accumulator left by one byte
      (dropping what overflows) and adds the byte read as unsigned. */
  function HexToLong(arr: seq<Byte>): (r: nat)
    ensures r < TWO_64
  {
    if |arr| == 0 then 0
    else ((HexToLong(arr[1..]) * 256) % TWO_64 + arr[0] as nat) % TWO_64
  }

  /** The little-endian value of a byte string: sum of arr[i] * 256^i. */
  function LeValue(arr: seq<Byte>): nat
  {
    if |arr| == 0 then 0 else arr[0] as nat + 256 * LeValue(arr[1..])
  }

  function Pow256(n: nat): (r: nat)
    ensures r > 0
  {
    if n == 0 then 1 else 256 * Pow256(n - 1)
  }

  /** A field of `size` bytes at offset `off` of a record buffer. */
  function Field(buf: seq<Byte>, off: nat, size: nat): (r: nat)
    ensures r < TWO_64
  {
    HexToLong(Slice(buf, off, size))
  }

  /** hex_to_long is the little-endian value reduced modulo 2^64. */
  lemma {:induction false} HexToLongIsLeValue(arr: seq<Byte>)
    ensures HexToLong(arr) == LeValue(arr) % TWO_64
  {
    if |arr| > 0 {
      HexToLongIsLeValue(arr[1..]);
      ShiftAddMod(LeValue(arr[1..]), arr[0] as nat);
    }
  }

  /** One step of the accumulator loop commutes with the reduction. */
  lemma ShiftAddMod(x: nat, b: nat)
    ensures ((x % TWO_64) * 256 % TWO_64 + b) % TWO_64 == (b + 256 * x) % TWO_64
  {
    var q := x / TWO_64;
    var y := x % TWO_64;
    assert x == TWO_64 * q + y;
    var z := y * 256;
    var q2 := z / TWO_64;
    assert z == TWO_64 * q2 + z % TWO_64;
    assert b + 256 * x == TWO_64 * (256 * q + q2) + (z % TWO_64 + b);
    ModAddMultiple(256 * q + q2, z % TWO_64 + b);
  }

  lemma ModAddMultiple(k: int, a: int)
    ensures (TWO_64 * k + a) % TWO_64 == a % TWO_64
  {
    var q := a / TWO_64;
    var r := a % TWO_64;
    assert TWO_64 * k + a == TWO_64 * (k + q) + r;
  }

  lemma {:induction false} LeValueBound(arr: seq<Byte>)
    ensures LeValue(arr) < Pow256(|arr|)
  {
    if |arr| > 0 {
      LeValueBound(arr[1..]);
    }
  }

  lemma Pow256Eight()
    ensures Pow256(8) == TWO_64
  {
    calc {
      Pow256(8);
      256 * 256 * 256 * 256 * 256 * 256 * 256 * 256 * Pow256(0);
    }
  }

  lemma {:induction false} Pow256Monotone(m: nat, n: nat)
    requires m <= n
    ensures Pow256(m) <= Pow256(n)
    decreases n
  {
    if m < n {
      Pow256Monotone(m, n - 1);
    }
  }

  /** For fields of at most 8 bytes no byte is lost: hex_to_long is the
      exact little-endian value and is below 2^(8n). */
  lemma HexToLongExact(arr: seq<Byte>)
    requires |arr| <= 8
    ensures HexToLong(arr) == LeValue(arr)
    ensures HexToLong(arr) < Pow256(|arr|)
  {
    HexToLongIsLeValue(arr);
    LeValueBound(arr);
    Pow256Monotone(|arr|, 8);
    Pow256Eight();
  }

  /** The low k bytes of a little-endian field are its value modulo
      256^k: LeValue(arr) = LeValue(arr[..k]) + 256^k * LeValue(arr[k..]). */
  lemma {:induction false} LeValueSplit(arr: seq<Byte>, k: nat)
    requires k <= |arr|
    ensures LeValue(arr) == LeValue(arr[..k]) + Pow256(k) * LeValue(arr[k..])
    decreases k
  {
    if k > 0 {
      LeValueSplit(arr[1..], k - 1);
      assert arr[1..][..k - 1] == arr[..k][1..];
      assert arr[1..][k - 1..] == arr[k..];
      var a := LeValue(arr[..k][1..]);
      var p := Pow256(k - 1);
      var c := LeValue(arr[k..]);
      assert LeValue(arr[1..]) == a + p * c;
      assert LeValue(arr[..k]) == arr[0] as nat + 256 * a;
      assert Pow256(k) == 256 * p;
      Distribute(a, p, c);
    }
  }

  lemma Distribute(a: nat, p: nat, c: nat)
    ensures 256 * (a + p * c) == 256 * a + (256 * p) * c
  {
  }

  /** The little-endian value of the n bytes at off (zero past the end). */
  function Le(buf: seq<Byte>, off: nat, n: nat): nat
  {
    LeValue(Slice(buf, off, n))
  }

  /** A field of at most 8 bytes is the exact little-endian value of its
      bytes. */
  lemma FieldExact(buf: seq<Byte>, off: nat, size: nat)
    requires size <= 8
    ensures Field(buf, off, size) == Le(buf, off, size)
    ensures Field(buf, off, size) < Pow256(size)
  {
    HexToLongExact(Slice(buf, off, size));
  }

  /** The little-endian value of two bytes, written out. */
  lemma LeValueTwo(a: seq<Byte>)
    requires |a| == 2
    ensures LeValue(a) == a[0] as nat + 0x100 * a[1] as nat
  {
    var t1 := a[1..];
    assert t1[1..] == [];
    assert LeValue(t1) == a[1] as nat;
  }

  /** The little-endian value of four bytes, written out. */
  lemma LeValueFour(a: seq<Byte>)
    requires |a| == 4
    ensures LeValue(a) == a[0] as nat + 0x100 * a[1] as nat + 0x1_0000 * a[2] as nat + 0x100_0000 * a[3] as nat
  {
    var t3 := a[3..];
    var t2 := a[2..];
    var t1 := a[1..];
    assert t3[1..] == [] && t2[1..] == t3 && t1[1..] == t2;
    assert LeValue(t3) == a[3] as nat;
    assert LeValue(t2) == a[2] as nat + 0x100 * a[3] as nat;
    assert LeValue(t1) == a[1] as nat + 0x100 * LeValue(t2);
  }

  /** Two little-endian test vectors of test/test_helper_functions.cpp. */
  lemma HexToLongTestVectors()
    ensures HexToLong([0x10, 0x00, 0x00, 0x00]) == 16
    ensures HexToLong([0xFF, 0x00, 0x00, 0x00]) == 255
  {
    var z: seq<Byte> := [0x00, 0x00, 0x00];
    var a: seq<Byte> := [0x10, 0x00, 0x00, 0x00];
    var b: seq<Byte> := [0xFF, 0x00, 0x00, 0x00];
    assert HexToLong(z[2..]) == 0;
    assert HexToLong(z[1..]) == 0;
    assert HexToLong(z) == 0;
    assert a[1..] == z && b[1..] == z;
  }

  // ---------------------------------------------------------------------
  // byte_to_str

  const HexDigits: string := "0123456789ABCDEF"

  /** byte_to_str: two characters per byte, high nibble first, from the
      table 0-9, A-F. */
  function ByteToStr(bytes: seq<Byte>): (s: string)
    ensures |s| == 2 * |bytes|
    ensures forall i :: 0 <= i < |s| ==> s[i] in HexDigits
  {
    if |bytes| == 0 then ""
    else
      HexPair(bytes[0]) + ByteToStr(bytes[1..])
  }

  /** The two digits of one byte, high nibble first. */
  function HexPair(ch: Byte): (s: string)
    ensures |s| == 2 && s[0] in HexDigits && s[1] in HexDigits
  {
    [HexDigits[HighNibble(ch)], HexDigits[LowNibble(ch)]]
  }

  /** `(ch & 0xF0) >> 4`: the high nibble. */
  function HighNibble(ch: Byte): (n: nat)
    ensures n < 16 && n == (ch as int) / 16
  {
    NibbleValues(ch);
    ((ch & 0xF0) >> 4) as int
  }

  /** `ch & 0x0F`: the low nibble. */
  function LowNibble(ch: Byte): (n: nat)
    ensures n < 16 && n == (ch as int) % 16
  {
    NibbleValues(ch);
    (ch & 0x0F) as int
  }

  /** Value of one upper-case hex digit; the inverse of indexing HexDigits. */
  function HexValue(c: char): (v: nat)
    requires c in HexDigits
    ensures v < 16 && HexDigits[v] == c
  {
    if '0' <= c <= '9' then (c - '0') as nat else (c - 'A') as nat + 10
  }

  /** Reads a string of hex-digit pairs back into bytes. */
  function StrToBytes(s: string): (bytes: seq<Byte>)
    requires |s| % 2 == 0
    requires forall i :: 0 <= i < |s| ==> s[i] in HexDigits
  {
    if |s| == 0 then []
    else [PairByte(s[0], s[1])] + StrToBytes(s[2..])
  }

  /** The byte that two hex digits spell. */
  function PairByte(hi: char, lo: char): Byte
    requires hi in HexDigits && lo in HexDigits
  {
    (16 * HexValue(hi) + HexValue(lo)) as bv8
  }

  /** The masked shifts of byte_to_str select the high and low nibble. */
  lemma NibbleValues(ch: Byte)
    ensures ((ch & 0xF0) >> 4) as int == (ch as int) / 16
    ensures (ch & 0x0F) as int == (ch as int) % 16
    ensures ((ch as int) / 16 * 16 + (ch as int) % 16) as bv8 == ch
  {
  }

  lemma HexDigitValue(h: nat)
    requires h < 16
    ensures HexValue(HexDigits[h]) == h
  {
    if h < 10 {
      assert HexDigits[h] == '0' + h as char;
    } else {
      assert HexDigits[h] == 'A' + (h - 10) as char;
    }
  }

  lemma HexPairRoundTrip(ch: Byte)
    ensures PairByte(HexPair(ch)[0], HexPair(ch)[1]) == ch
  {
    NibbleValues(ch);
    HexDigitValue(HighNibble(ch));
    HexDigitValue(LowNibble(ch));
  }

  lemma StrToBytesCons(pair: string, tl: string)
    requires |pair| == 2 && pair[0] in HexDigits && pair[1] in HexDigits
    requires |tl| % 2 == 0 && forall i :: 0 <= i < |tl| ==> tl[i] in HexDigits
    ensures StrToBytes(pair + tl) == [PairByte(pair[0], pair[1])] + StrToBytes(tl)
  {
    var s := pair + tl;
    assert s[0] == pair[0] && s[1] == pair[1] && s[2..] == tl;
  }

  /** byte_to_str loses nothing: the hex text reads back to the bytes. */
  lemma {:induction false} ByteToStrRoundTrip(bytes: seq<Byte>)
    ensures StrToBytes(ByteToStr(bytes)) == bytes
  {
    if |bytes| > 0 {
      var ch := bytes[0];
      var tl := ByteToStr(bytes[1..]);
      StrToBytesCons(HexPair(ch), tl);
      ByteToStrRoundTrip(bytes[1..]);
      HexPairRoundTrip(ch);
      assert [ch] + bytes[1..] == bytes;
    }
  }

  // ---------------------------------------------------------------------
  // filetime_to_unixtime

  /** 100-nanosecond intervals between 1601-01-01 and 1970-01-01. */
  const EPOCH_DIFFERENCE: int := 116444736000000000
  const TICKS_PER_SECOND: int := 10000000
  const INT64_MIN: int := -0x8000_0000_0000_0000
  const INT64_MAX: int := 0x7FFF_FFFF_FFFF_FFFF

  predicate IsInt64(x: int) { INT64_MIN <= x <= INT64_MAX }

  /** Two's-complement wrap of an integer into `long long`. */
  function WrapInt64(x: int): (r: int)
    ensures IsInt64(r)
    ensures IsInt64(x) ==> r == x
  {
    (x - INT64_MIN) % TWO_64 + INT64_MIN
  }

  /** C++ integer division: the quotient is truncated toward zero. */
  function TruncDiv(a: int, b: int): int
    requires b > 0
  {
    if a >= 0 then a / b else -((-a) / b)
  }

  /** filetime_to_unixtime: the epoch shift is an unsigned 64-bit
      subtraction narrowed back to `long long`, then a truncating division
      by 10^7. The result is the whole number of seconds in the shifted
      value, rounded toward zero. */
  function FiletimeToUnixtime(t: int): (r: int)
    requires IsInt64(t)
    ensures var d := WrapInt64(t - EPOCH_DIFFERENCE);
      && (d >= 0 ==> 0 <= r * TICKS_PER_SECOND <= d < r * TICKS_PER_SECOND + TICKS_PER_SECOND)
      && (d < 0 ==> r * TICKS_PER_SECOND - TICKS_PER_SECOND < d <= r * TICKS_PER_SECOND <= 0)
    ensures t == EPOCH_DIFFERENCE ==> r == 0
  {
    TruncDiv(WrapInt64(t - EPOCH_DIFFERENCE), TICKS_PER_SECOND)
  }

  // ---------------------------------------------------------------------
  // countAscii and compareNames

  /** countAscii (and FNAttribute::countAscii, whose `c == (c & 0x7F)`
      test on a signed char is the same test): the number of bytes with
      bit 7 clear. */
  function CountAscii(s: string): (n: nat)
    ensures n <= |s|
    ensures n == |s| <==> forall i :: 0 <= i < |s| ==> s[i] < 128 as char
  {
    if |s| == 0 then 0
    else (if s[0] < 128 as char then 1 else 0) + CountAscii(s[1..])
  }

  predicate IsAscii(s: string)
  {
    CountAscii(s) == |s|
  }

  /** compareNames(a, b): true when b is preferred to a. An all-ASCII name
      beats one that is not; otherwise the longer name wins. */
  predicate CompareNames(a: string, b: string)
  {
    var x := IsAscii(a);
    var y := IsAscii(b);
    if x != y then y else |a| < |b|
  }

  /** The preference is a strict order: irreflexive, asymmetric and
      transitive, so picking the preferred name is well defined. */
  lemma CompareNamesStrictOrder(a: string, b: string, c: string)
    ensures !CompareNames(a, a)
    ensures CompareNames(a, b) ==> !CompareNames(b, a)
    ensures CompareNames(a, b) && CompareNames(b, c) ==> CompareNames(a, c)
  {
  }

  /** An ASCII name is preferred to every non-ASCII name, whatever the
      lengths. */
  lemma CompareNamesAsciiFirst(a: string, b: string)
    requires exists i :: 0 <= i < |a| && a[i] >= 128 as char
    requires forall i :: 0 <= i < |b| ==> b[i] < 128 as char
    ensures CompareNames(a, b) && !CompareNames(b, a)
  {
  }

  // ---------------------------------------------------------------------
  // getFullPath

  const CYCLE_MARKER: string := "CYCLICAL_HARD_LINK"

  /** The valid record numbers 0 .. n-1. */
  function Indices(n: nat): (r: set<nat>)
    ensures forall i: nat :: i in r <==> i < n
  {
    if n == 0 then {} else Indices(n - 1) + {n - 1}
  }

  /** getFullPath(records, recordNo, stack): `stack` holds the record
      numbers already on the chain. The result is "" for a missing or
      invalid record, the marker when the chain revisits a record, the bare
      name for a record that is its own parent, and otherwise the parent's
      path, a backslash and the name. */
  function FullPath(records: seq<File>, recordNo: nat, stack: set<nat>): (path: string)
    ensures recordNo >= |records| || !records[recordNo].Valid ==> path == ""
    ensures recordNo < |records| && records[recordNo].Valid && recordNo in stack
      ==> path == CYCLE_MARKER
    ensures recordNo < |records| && records[recordNo].Valid && recordNo !in stack ==>
      (|records[recordNo].Name| <= |path|
       && path[|path| - |records[recordNo].Name|..] == records[recordNo].Name)
    ensures (recordNo < |records| && records[recordNo].Valid && recordNo !in stack &&
             records[recordNo].ParRecordNo == recordNo) ==> path == records[recordNo].Name
    ensures (recordNo < |records| && records[recordNo].Valid && recordNo !in stack &&
             records[recordNo].ParRecordNo != recordNo) ==>
      (|records[recordNo].Name| < |path|
       && path[|path| - |records[recordNo].Name| - 1] == '\\')
    decreases Indices(|records|) - stack
  {
    if recordNo >= |records| || !records[recordNo].Valid then ""
    else if recordNo in stack then CYCLE_MARKER
    else
      var record := records[recordNo];
      if recordNo == record.ParRecordNo then record.Name
      else
        assert recordNo in Indices(|records|);
        FullPath(records, record.ParRecordNo, stack + {recordNo}) + "\\" + record.Name
  }

  /** getFullPath(records, recordNo): starts with an empty stack. */
  function GetFullPath(records: seq<File>, recordNo: nat): string
  {
    FullPath(records, recordNo, {})
  }

  /** Number of recursive calls FullPath makes. */
  ghost function PathDepth(records: seq<File>, recordNo: nat, stack: set<nat>): nat
    decreases Indices(|records|) - stack
  {
    if recordNo >= |records| || !records[recordNo].Valid || recordNo in stack then 0
    else if recordNo == records[recordNo].ParRecordNo then 0
    else
      assert recordNo in Indices(|records|);
      1 + PathDepth(records, records[recordNo].ParRecordNo, stack + {recordNo})
  }

  lemma {:induction false} IndicesSize(n: nat)
    ensures |Indices(n)| == n
  {
    if n > 0 {
      IndicesSize(n - 1);
      assert n - 1 !in Indices(n - 1);
    }
  }

  lemma {:induction false} PathDepthBounded(records: seq<File>, recordNo: nat, stack: set<nat>)
    ensures PathDepth(records, recordNo, stack) <= |Indices(|records|) - stack|
    decreases Indices(|records|) - stack
  {
    if recordNo < |records| && records[recordNo].Valid && recordNo !in stack
      && recordNo != records[recordNo].ParRecordNo
    {
      assert recordNo in Indices(|records|);
      PathDepthBounded(records, records[recordNo].ParRecordNo, stack + {recordNo});
      assert Indices(|records|) - (stack + {recordNo}) == (Indices(|records|) - stack) - {recordNo};
    }
  }

  /** Every record is visited at most once, so the recursion depth of
      getFullPath never exceeds the number of records. */
  lemma FullPathDepthBound(records: seq<File>, recordNo: nat)
    ensures PathDepth(records, recordNo, {}) <= |records|
  {
    PathDepthBounded(records, recordNo, {});
    IndicesSize(|records|);
  }

  /** Two valid records that are each other's parent: the second visit of
      the first record yields the marker. */
  lemma FullPathTwoCycle(records: seq<File>, a: nat, b: nat)
    requires a < |records| && b < |records| && a != b
    requires records[a].Valid && records[b].Valid
    requires records[a].ParRecordNo == b && records[b].ParRecordNo == a
    ensures GetFullPath(records, a) == CYCLE_MARKER + "\\" + records[b].Name + "\\" + records[a].Name
  {
    assert FullPath(records, a, {a, b}) == CYCLE_MARKER;
    assert {} + {a} == {a};
    assert {a} + {b} == {a, b};
    assert FullPath(records, b, {a}) == FullPath(records, a, {a, b}) + "\\" + records[b].Name;
    assert FullPath(records, a, {}) == FullPath(records, b, {a}) + "\\" + records[a].Name;
  }

  /** A chain of records listed from the top down: each entry is a valid
      record, no record appears twice, and each entry after the first is
      a child of the entry before it. */
  predicate Linked(records: seq<File>, down: seq<nat>)
  {
    |down| >= 1 &&
    (forall i :: 0 <= i < |down| ==> down[i] < |records| && records[down[i]].Valid) &&
    (forall i, j :: 0 <= i < j < |down| ==> down[i] != down[j]) &&
    (forall i :: 0 < i < |down| ==> records[down[i]].ParRecordNo == down[i - 1])
  }

  /** The names along a chain, in chain order. */
  function Names(records: seq<File>, down: seq<nat>): (names: seq<string>)
    requires forall i :: 0 <= i < |down| ==> down[i] < |records|
    ensures |names| == |down|
    ensures forall i :: 0 <= i < |down| ==> names[i] == records[down[i]].Name
  {
    seq(|down|, i requires 0 <= i < |down| => records[down[i]].Name)
  }

  /** Path components joined by backslashes. */
  function JoinPath(parts: seq<string>): string
    requires |parts| >= 1
  {
    if |parts| == 1 then parts[0] else JoinPath(parts[..|parts| - 1]) + "\\" + parts[|parts| - 1]
  }

  /** A chain whose top record is its own parent (the root directory
      record): the path of the chain's last record, with none of the
      chain on the stack, is the names from the root down joined by
      backslashes. */
  lemma {:induction false} RootedChainPath(records: seq<File>, down: seq<nat>, stack: set<nat>)
    requires Linked(records, down)
    requires forall i :: 0 <= i < |down| ==> down[i] !in stack
    requires records[down[0]].ParRecordNo == down[0]
    ensures FullPath(records, down[|down| - 1], stack) == JoinPath(Names(records, down))
    decreases |down|
  {
    var n := |down|;
    if n > 1 {
      var last, up := down[n - 1], down[..n - 1];
      ChainPrefix(records, down, stack);
      RootedChainPath(records, up, stack + {last});
      PathStep(records, down, stack);
    }
  }

  /** Dropping the last record of a chain leaves a chain, none of whose
      records is the dropped one. */
  lemma ChainPrefix(records: seq<File>, down: seq<nat>, stack: set<nat>)
    requires Linked(records, down) && |down| > 1
    requires forall i :: 0 <= i < |down| ==> down[i] !in stack
    ensures Linked(records, down[..|down| - 1])
    ensures forall i :: 0 <= i < |down| - 1 ==> down[i] !in stack + {down[|down| - 1]}
    ensures Names(records, down[..|down| - 1]) == Names(records, down)[..|down| - 1]
  {
  }

  /** One step of getFullPath down a chain: the last record's path is its
      parent's path (with it pushed on the stack), a backslash and its
      name; and the joined names split the same way. */
  lemma PathStep(records: seq<File>, down: seq<nat>, stack: set<nat>)
    requires Linked(records, down) && |down| > 1
    requires forall i :: 0 <= i < |down| ==> down[i] !in stack
    ensures var n := |down|;
      FullPath(records, down[n - 1], stack) ==
        FullPath(records, down[..n - 1][n - 2], stack + {down[n - 1]}) + "\\" + records[down[n - 1]].Name
    ensures var n := |down|;
      JoinPath(Names(records, down)) ==
        JoinPath(Names(records, down)[..n - 1]) + "\\" + records[down[n - 1]].Name
  {
    var n := |down|;
    var last := down[n - 1];
    assert records[last].ParRecordNo == down[n - 2];
    assert down[n - 2] != last;
    assert last !in stack && last < |records| && records[last].Valid;
  }

  /** A chain whose top record's parent is a valid record already on the
      stack (at = -1) or further down the chain (at its position): the walk
      revisits a record, so the path is the cycle marker followed by the
      chain's names. */
  lemma {:induction false} CyclicChainPath(records: seq<File>, down: seq<nat>, stack: set<nat>, at: int)
    requires Linked(records, down)
    requires forall i :: 0 <= i < |down| ==> down[i] !in stack
    requires records[down[0]].ParRecordNo < |records| && records[records[down[0]].ParRecordNo].Valid
    requires at == -1 ==> records[down[0]].ParRecordNo in stack
    requires at != -1 ==> 1 <= at < |down| && down[at] == records[down[0]].ParRecordNo
    ensures FullPath(records, down[|down| - 1], stack) == CYCLE_MARKER + "\\" + JoinPath(Names(records, down))
    decreases |down|
  {
    var n := |down|;
    if n > 1 {
      var last, up := down[n - 1], down[..n - 1];
      var at' := if at == n - 1 then -1 else at;
      CycleMovesUp(records, down, stack, at);
      CyclicChainPath(records, up, stack + {last}, at');
      PathStep(records, down, stack);
      ChainPrefix(records, down, stack);
      var pathUp := FullPath(records, up[|up| - 1], stack + {last});
      var x := JoinPath(Names(records, up));
      assert FullPath(records, last, stack) == pathUp + "\\" + records[last].Name;
      assert JoinPath(Names(records, down)) == x + "\\" + records[last].Name;
      MarkedJoin(CYCLE_MARKER + "\\", FullPath(records, last, stack), pathUp, x, JoinPath(Names(records, down)), records[last].Name);
    } else {
      assert down == [down[0]];
      CycleClosesAtTop(records, down[0], stack);
    }
  }

  /** A path that starts with a fixed prefix keeps it when one more name
      is appended. */
  lemma MarkedJoin(prefix: string, full: string, pathUp: string, x: string, joined: string, name: string)
    requires full == pathUp + "\\" + name && pathUp == prefix + x
    requires joined == x + "\\" + name
    ensures full == prefix + joined
  {
  }

  /** Dropping the last record of a cyclic chain, and pushing it on the
      stack, leaves a cyclic chain. */
  lemma CycleMovesUp(records: seq<File>, down: seq<nat>, stack: set<nat>, at: int)
    requires Linked(records, down) && |down| > 1
    requires forall i :: 0 <= i < |down| ==> down[i] !in stack
    requires records[down[0]].ParRecordNo < |records| && records[records[down[0]].ParRecordNo].Valid
    requires at == -1 ==> records[down[0]].ParRecordNo in stack
    requires at != -1 ==> 1 <= at < |down| && down[at] == records[down[0]].ParRecordNo
    ensures var n := |down|;
      var up, stack', at' := down[..n - 1], stack + {down[n - 1]}, if at == n - 1 then -1 else at;
      && Linked(records, up)
      && (forall i :: 0 <= i < |up| ==> up[i] !in stack')
      && records[up[0]].ParRecordNo < |records| && records[records[up[0]].ParRecordNo].Valid
      && (at' == -1 ==> records[up[0]].ParRecordNo in stack')
      && (at' != -1 ==> 1 <= at' < |up| && up[at'] == records[up[0]].ParRecordNo)
  {
    ChainPrefix(records, down, stack);
  }

  /** The top of a cyclic chain: its parent, a valid record, is already on
      the stack. */
  lemma CycleClosesAtTop(records: seq<File>, r: nat, stack: set<nat>)
    requires r < |records| && records[r].Valid && r !in stack
    requires records[r].ParRecordNo < |records| && records[records[r].ParRecordNo].Valid
    requires records[r].ParRecordNo in stack
    ensures FullPath(records, r, stack) == CYCLE_MARKER + "\\" + JoinPath(Names(records, [r]))
  {
    var q := records[r].ParRecordNo;
    assert q != r;
    assert FullPath(records, q, stack + {r}) == CYCLE_MARKER;
    assert Names(records, [r]) == [records[r].Name];
  }

  /** A chain whose top record's parent is out of range or invalid (an
      orphan whose directory was not recovered): that parent's path is "",
      so the path is a backslash followed by the chain's names. */
  lemma {:induction false} OrphanChainPath(records: seq<File>, down: seq<nat>, stack: set<nat>)
    requires Linked(records, down)
    requires forall i :: 0 <= i < |down| ==> down[i] !in stack
    requires records[down[0]].ParRecordNo >= |records| || !records[records[down[0]].ParRecordNo].Valid
    ensures FullPath(records, down[|down| - 1], stack) == "\\" + JoinPath(Names(records, down))
    decreases |down|
  {
    var n := |down|;
    if n > 1 {
      var last, up := down[n - 1], down[..n - 1];
      ChainPrefix(records, down, stack);
      OrphanChainPath(records, up, stack + {last});
      PathStep(records, down, stack);
      var pathUp := FullPath(records, up[|up| - 1], stack + {last});
      var x := JoinPath(Names(records, up));
      assert FullPath(records, last, stack) == pathUp + "\\" + records[last].Name;
      assert JoinPath(Names(records, down)) == x + "\\" + records[last].Name;
      MarkedJoin("\\", FullPath(records, last, stack), pathUp, x, JoinPath(Names(records, down)), records[last].Name);
    } else {
      assert down == [down[0]];
      OrphanTop(records, down[0], stack);
    }
  }

  /** The top of an orphan chain: its parent contributes the empty path. */
  lemma OrphanTop(records: seq<File>, r: nat, stack: set<nat>)
    requires r < |records| && records[r].Valid && r !in stack
    requires records[r].ParRecordNo >= |records| || !records[records[r].ParRecordNo].Valid
    ensures FullPath(records, r, stack) == "\\" + JoinPath(Names(records, [r]))
  {
    var q := records[r].ParRecordNo;
    assert q != r;
    assert FullPath(records, q, stack + {r}) == "";
    assert Names(records, [r]) == [records[r].Name];
  }

  /** getFullPath of a record whose ancestors lead to the root without
      repeating: the names from the root down, joined by backslashes. */
  lemma RootedFullPath(records: seq<File>, down: seq<nat>)
    requires Linked(records, down) && records[down[0]].ParRecordNo == down[0]
    ensures GetFullPath(records, down[|down| - 1]) == JoinPath(Names(records, down))
  {
    RootedChainPath(records, down, {});
  }

  /** getFullPath of a record whose ancestors loop back to one of
      themselves: the cycle marker, then the names of the chain. */
  lemma CyclicFullPath(records: seq<File>, down: seq<nat>)
    requires Linked(records, down) && records[down[0]].ParRecordNo in down[1..]
    ensures GetFullPath(records, down[|down| - 1]) == CYCLE_MARKER + "\\" + JoinPath(Names(records, down))
  {
    var at :| 1 <= at < |down| && down[at] == records[down[0]].ParRecordNo;
    CyclicChainPath(records, down, {}, at);
  }

  /** getFullPath of a record whose oldest recovered ancestor has a parent
      that is out of range or invalid: a leading backslash, then the names
      from that ancestor down. */
  lemma OrphanFullPath(records: seq<File>, down: seq<nat>)
    requires Linked(records, down)
    requires records[down[0]].ParRecordNo >= |records| || !records[records[down[0]].ParRecordNo].Valid
    ensures GetFullPath(records, down[|down| - 1]) == "\\" + JoinPath(Names(records, down))
  {
    OrphanChainPath(records, down, {});
  }

  // ---------------------------------------------------------------------
  // getCmdOption / cmdOptionExists

  /** std::find: the first position holding `x`, or |xs| when absent. */
  function Find(xs: seq<string>, x: string): (i: nat)
    ensures i <= |xs|
    ensures i < |xs| ==> xs[i] == x
    ensures forall j :: 0 <= j < i ==> xs[j] != x
  {
    if |xs| == 0 then 0
    else if xs[0] == x then 0
    else 1 + Find(xs[1..], x)
  }

  /** getCmdOption: the argument after the first occurrence of the option;
      None (a null pointer) when the option is absent or is the last
      argument. */
  function GetCmdOption(args: seq<string>, option: string): (r: Option<string>)
    ensures r.Some? <==> exists i :: 0 <= i < |args| - 1 && args[i] == option
    ensures r.Some? ==>
      (exists i :: 0 <= i < |args| - 1 && args[i] == option && option !in args[..i] && r.value == args[i + 1])
  {
    var i := Find(args, option);
    assert args[..i] == args[..i];
    if i < |args| && i + 1 < |args| then Some(args[i + 1]) else None
  }

  /** cmdOptionExists: whether the option occurs anywhere. */
  predicate CmdOptionExists(args: seq<string>, option: string)
  {
    Find(args, option) != |args|
  }

  lemma CmdOptionExistsIff(args: seq<string>, option: string)
    ensures CmdOptionExists(args, option) <==> option in args
  {
  }

  // ---------------------------------------------------------------------
  // operator<< for EventTypes and EventSources (include/util.h values)

  const TYPE_CREATE: int := 0
  const TYPE_DELETE: int := 1
  const TYPE_RENAME: int := 2
  const TYPE_MOVE: int := 3

  const SOURCE_USN: int := 0
  const SOURCE_LOG: int := 1
  const SOURCE_EMBEDDED_USN: int := 2

  /** Printing an event type: every value other than create, delete and
      move prints as "Rename". */
  function EventTypeName(t: int): string
  {
    if t == TYPE_CREATE then "Create"
    else if t == TYPE_DELETE then "Delete"
    else if t == TYPE_MOVE then "Move"
    else "Rename"
  }

  /** Printing an event source: everything but the journal prints as
      "$LogFile", the embedded journal included. */
  function EventSourceName(s: int): string
  {
    if s == SOURCE_USN then "$UsnJrnl/$J" else "$LogFile"
  }

  /** Reading a printed event type back. */
  function ParseEventType(name: string): Option<int>
  {
    if name == "Create" then Some(TYPE_CREATE)
    else if name == "Delete" then Some(TYPE_DELETE)
    else if name == "Move" then Some(TYPE_MOVE)
    else if name == "Rename" then Some(TYPE_RENAME)
    else None
  }

  /** The four enum values print to four distinct names that read back to
      them; any other value prints as a rename. */
  lemma EventTypeNameRoundTrip(t: int)
    ensures 0 <= t <= 3 ==> ParseEventType(EventTypeName(t)) == Some(t)
    ensures ParseEventType(EventTypeName(t)).Some?
    ensures EventTypeName(t) == "Rename" <==> t != TYPE_CREATE && t != TYPE_DELETE && t != TYPE_MOVE
  {
  }

  lemma EventSourceNameCases(s: int)
    ensures EventSourceName(s) == "$UsnJrnl/$J" <==> s == SOURCE_USN
    ensures s == SOURCE_EMBEDDED_USN ==> EventSourceName(s) == "$LogFile"
  {
  }
}

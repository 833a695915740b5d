/** Shared vocabulary of the model: optional values, bytes, fixed-width
    unsigned wrap-around and the byte-wise string order of std::string. */
module Common {

  datatype Option<+T> = None | Some(value: T)

  /** One byte of an on-disk structure. */
  type Byte = bv8

  /** The C++ sources index raw buffers without bounds checks; a read past
      the end of the modelled buffer yields 0 here instead of undefined
      behaviour. */
  function ByteAt(buf: seq<Byte>, i: nat): (b: Byte)
    ensures i < |buf| ==> b == buf[i]
    ensures i >= |buf| ==> b == 0
  {
    if i < |buf| then buf[i] else 0
  }

  /** The n bytes starting at off (zero-padded past the end). */
  function Slice(buf: seq<Byte>, off: nat, n: nat): (r: seq<Byte>)
    ensures |r| == n
    ensures forall k :: 0 <= k < n ==> r[k] == ByteAt(buf, off + k)
    ensures off + n <= |buf| ==> r == buf[off..off + n]
  {
    seq(n, k requires 0 <= k < n => ByteAt(buf, off + k))
  }

  const TWO_32: nat := 0x1_0000_0000

  /** Conversion of any integer to a C++ `unsigned int` (modulo 2^32). */
  function U32(x: int): (r: nat)
    ensures r < TWO_32
    ensures 0 <= x < TWO_32 ==> r == x
    ensures x == -1 ==> r == TWO_32 - 1
  {
    x % TWO_32
  }

  /** Strict lexicographic order of std::string: character by character,
      a proper prefix sorting first. */
  predicate StrLess(a: string, b: string)
    decreases |a|
  {
    if |b| == 0 then false
    else if |a| == 0 then true
    else if a[0] != b[0] then a[0] < b[0]
    else StrLess(a[1..], b[1..])
  }

  lemma {:induction false} StrLessCommonPrefix(p: string, a: string, b: string)
    ensures StrLess(p + a, p + b) <==> StrLess(a, b)
    decreases |p|
  {
    if |p| > 0 {
      assert (p + a)[1..] == p[1..] + a;
      assert (p + b)[1..] == p[1..] + b;
      StrLessCommonPrefix(p[1..], a, b);
    } else {
      assert p + a == a && p + b == b;
    }
  }

  lemma {:induction false} StrLessIrreflexive(a: string)
    ensures !StrLess(a, a)
    decreases |a|
  {
    if |a| > 0 {
      StrLessIrreflexive(a[1..]);
    }
  }

  /** xs occurs in ys in order, possibly with other elements in between. */
  predicate IsSubsequence<T(==)>(xs: seq<T>, ys: seq<T>)
    decreases |ys|
  {
    if |xs| == 0 then true
    else if |ys| == 0 then false
    else (xs[0] == ys[0] && IsSubsequence(xs[1..], ys[1..])) || IsSubsequence(xs, ys[1..])
  }

  lemma SubsequenceOfTail<T>(xs: seq<T>, ys: seq<T>)
    requires |ys| > 0 && IsSubsequence(xs, ys[1..])
    ensures IsSubsequence(xs, ys)
  {
  }

  /** Leaving out the first element of xs keeps it a subsequence. */
  lemma {:induction false} SubsequenceDropFirst<T>(xs: seq<T>, ys: seq<T>)
    requires |xs| > 0 && IsSubsequence(xs, ys)
    ensures IsSubsequence(xs[1..], ys)
    decreases |ys|
  {
    if xs[0] == ys[0] && IsSubsequence(xs[1..], ys[1..]) {
      SubsequenceOfTail(xs[1..], ys);
    } else {
      SubsequenceDropFirst(xs, ys[1..]);
      SubsequenceOfTail(xs[1..], ys);
    }
  }
}

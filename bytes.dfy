/** Little-endian fixed-width integers and byte-sequence helpers, as read and
    written by a Node.js Buffer (writeUInt16LE, writeUInt32LE, readUInt16LE,
    readUInt32LE, slice). */
module Bytes {

  type byte = x: int | 0 <= x < 0x100
  type u16 = x: int | 0 <= x < 0x1_0000
  type u32 = x: int | 0 <= x < 0x1_0000_0000

  /** Byte sequences stand for text too: symbol names, type names and
      configuration strings are handled as their encoded bytes. */
  type Text = seq<byte>

  function Min(a: int, b: int): int { if a <= b then a else b }

  function U16LE(x: u16): (r: seq<byte>)
  {
    [x % 0x100, x / 0x100]
  }

  function U32LE(x: u32): (r: seq<byte>)
  {
    [x % 0x100, (x / 0x100) % 0x100, (x / 0x1_0000) % 0x100, x / 0x100_0000]
  }

  function ReadU16(s: seq<byte>, off: nat): u16
    requires off + 2 <= |s|
  {
    s[off] as int + 0x100 * s[off + 1] as int
  }

  function ReadU32(s: seq<byte>, off: nat): u32
    requires off + 4 <= |s|
  {
    s[off] as int + 0x100 * s[off + 1] as int + 0x1_0000 * s[off + 2] as int + 0x100_0000 * s[off + 3] as int
  }

  /** Reading back what was written gives the value. */
  lemma ReadU16OfU16LE(x: u16)
    ensures |U16LE(x)| == 2 && ReadU16(U16LE(x), 0) == x
  {
  }

  lemma ReadU32OfU32LE(x: u32)
    ensures |U32LE(x)| == 4 && ReadU32(U32LE(x), 0) == x
  {
    var b := U32LE(x);
    assert x == x % 0x100 + 0x100 * (x / 0x100);
    assert x / 0x100 == (x / 0x100) % 0x100 + 0x100 * (x / 0x1_0000);
    assert x / 0x1_0000 == (x / 0x1_0000) % 0x100 + 0x100 * (x / 0x100_0000);
  }

  /** Writing what was read gives the four bytes back: a 32-bit field is
      determined by its value. */
  lemma U32LEOfReadU32(s: seq<byte>, off: nat)
    requires off + 4 <= |s|
    ensures U32LE(ReadU32(s, off)) == s[off..off + 4]
  {
    var x := ReadU32(s, off);
    var b0: int, b1: int, b2: int, b3: int := s[off], s[off + 1], s[off + 2], s[off + 3];
    DivMod256(b0, b1 + 0x100 * b2 + 0x1_0000 * b3);
    DivMod256(b1, b2 + 0x100 * b3);
    DivMod256(b2, b3);
    Div65536(b0 + 0x100 * b1, b2 + 0x100 * b3);
    Div16777216(b0 + 0x100 * b1 + 0x1_0000 * b2, b3);
    assert U32LE(x) == [b0, b1, b2, b3];
  }

  /** Division by the byte, short and three-byte radixes of a number
      written with a low part below the radix. */
  lemma DivMod256(lo: byte, hi: nat)
    ensures (lo + 0x100 * hi) % 0x100 == lo && (lo + 0x100 * hi) / 0x100 == hi
  {
  }

  lemma Div65536(lo: nat, hi: nat)
    requires lo < 0x1_0000
    ensures (lo + 0x1_0000 * hi) / 0x1_0000 == hi
  {
  }

  lemma Div16777216(lo: nat, hi: nat)
    requires lo < 0x100_0000
    ensures (lo + 0x100_0000 * hi) / 0x100_0000 == hi
  {
  }

  lemma U16LEOfReadU16(s: seq<byte>, off: nat)
    requires off + 2 <= |s|
    ensures U16LE(ReadU16(s, off)) == s[off..off + 2]
  {
  }

  /** A field read depends only on the four bytes it covers. */
  lemma ReadU32At(s: seq<byte>, off: nat, x: u32)
    requires off + 4 <= |s| && s[off..off + 4] == U32LE(x)
    ensures ReadU32(s, off) == x
  {
    ReadU32OfU32LE(x);
    assert s[off] == U32LE(x)[0] && s[off + 1] == U32LE(x)[1];
    assert s[off + 2] == U32LE(x)[2] && s[off + 3] == U32LE(x)[3];
  }

  lemma ReadU16At(s: seq<byte>, off: nat, x: u16)
    requires off + 2 <= |s| && s[off..off + 2] == U16LE(x)
    ensures ReadU16(s, off) == x
  {
    assert s[off] == U16LE(x)[0] && s[off + 1] == U16LE(x)[1];
  }

  /** Buffer.slice(lo, hi): the bytes from `lo` up to `hi`, stopping at the
      end of the buffer. */
  function Slice(s: seq<byte>, lo: nat, hi: nat): seq<byte>
    requires lo <= hi
    decreases hi - lo
  {
    if lo == hi || |s| <= lo then [] else [s[lo]] + Slice(s, lo + 1, hi)
  }

  /** Both ends are clamped to the length: the slice is the subsequence
      between the clamped ends. */
  lemma {:induction false} SliceClamps(s: seq<byte>, lo: nat, hi: nat)
    requires lo <= hi
    ensures Slice(s, lo, hi) == s[Min(lo, |s|)..Min(hi, |s|)]
    decreases hi - lo
  {
    if lo == hi || |s| <= lo {
    } else {
      SliceClamps(s, lo + 1, hi);
      assert s[lo..Min(hi, |s|)] == [s[lo]] + s[lo + 1..Min(hi, |s|)];
    }
  }

  /** A slice within bounds is the plain subsequence; one that starts past
      the end is empty. */
  lemma SliceWithin(s: seq<byte>, lo: nat, hi: nat)
    requires lo <= hi
    ensures hi <= |s| ==> Slice(s, lo, hi) == s[lo..hi]
    ensures |s| <= lo ==> Slice(s, lo, hi) == []
    ensures |Slice(s, lo, hi)| == Min(hi, |s|) - Min(lo, |s|)
  {
    SliceClamps(s, lo, hi);
  }

  /** A slice lying after a prefix is the same slice of the rest. */
  lemma SliceAfterPrefix(p: seq<byte>, b: seq<byte>, lo: nat, hi: nat)
    requires lo <= hi
    ensures Slice(p + b, |p| + lo, |p| + hi) == Slice(b, lo, hi)
  {
    SliceClamps(p + b, |p| + lo, |p| + hi);
    SliceClamps(b, lo, hi);
    var l, h := Min(lo, |b|), Min(hi, |b|);
    assert (p + b)[|p| + l..|p| + h] == b[l..h];
  }

  /** A slice that ends inside the first part of a concatenation. */
  lemma SliceOfConcat(a: seq<byte>, b: seq<byte>, lo: nat, hi: nat)
    requires lo <= hi <= |a|
    ensures (a + b)[lo..hi] == a[lo..hi]
  {
  }

  /** Two adjacent slices make up the slice spanning both. */
  lemma SliceJoin(s: seq<byte>, a: nat, b: nat, c: nat)
    requires a <= b <= c <= |s|
    ensures s[a..b] + s[b..c] == s[a..c]
  {
  }

  lemma SliceOfSlice(s: seq<byte>, off: nat, len: nat, lo: nat, hi: nat)
    requires off + len <= |s| && lo <= hi <= len
    ensures s[off..off + len][lo..hi] == s[off + lo..off + hi]
  {
    var x, y := s[off..off + len][lo..hi], s[off + lo..off + hi];
    assert |x| == |y|;
    forall i | 0 <= i < |x| ensures x[i] == y[i] {
      assert x[i] == s[off..off + len][lo + i];
    }
  }

  predicate NoTrailingNull(s: seq<byte>)
  {
    |s| == 0 || s[|s| - 1] != 0
  }

  /** The `.replace(/\0+$/, "")` applied to every text field: drop the
      trailing run of zero bytes. */
  function TrimTrailingNulls(s: seq<byte>): seq<byte>
  {
    if |s| > 0 && s[|s| - 1] == 0 then TrimTrailingNulls(s[..|s| - 1]) else s
  }

  /** The result does not end in a zero byte. */
  lemma {:induction false} TrimmedNoTrailingNull(s: seq<byte>)
    ensures |TrimTrailingNulls(s)| <= |s| && NoTrailingNull(TrimTrailingNulls(s))
  {
    if |s| > 0 && s[|s| - 1] == 0 {
      TrimmedNoTrailingNull(s[..|s| - 1]);
    }
  }

  /** What trimming keeps and drops: the result is a prefix of the input and
      every byte removed is a zero byte. */
  lemma {:induction false} TrimTrailingNullsDrops(s: seq<byte>)
    ensures |TrimTrailingNulls(s)| <= |s| && TrimTrailingNulls(s) == s[..|TrimTrailingNulls(s)|]
    ensures forall k :: |TrimTrailingNulls(s)| <= k < |s| ==> s[k] == 0
  {
    TrimmedNoTrailingNull(s);
    if |s| > 0 && s[|s| - 1] == 0 {
      var init := s[..|s| - 1];
      TrimTrailingNullsDrops(init);
      assert TrimTrailingNulls(s) == TrimTrailingNulls(init);
      var n := |TrimTrailingNulls(init)|;
      assert init[..n] == s[..n];
      assert forall k :: n <= k < |init| ==> init[k] == s[k];
    }
  }

  /** Trimming text that has no trailing null followed by a run of zero
      bytes gives the text back: the whole run is removed, nothing more. */
  lemma TrimIdempotentOn(s: seq<byte>, zeros: nat)
    requires NoTrailingNull(s)
    ensures TrimTrailingNulls(s + Zeros(zeros)) == s
  {
    var u := s + Zeros(zeros);
    TrimmedNoTrailingNull(u);
    TrimTrailingNullsDrops(u);
    var t := TrimTrailingNulls(u);
    assert t == u[..|s|] == s;
  }

  function Zeros(n: nat): (r: seq<byte>)
    ensures |r| == n && forall k :: 0 <= k < n ==> r[k] == 0
  {
    seq(n, _ => 0)
  }

  /** Sum of a sequence of naturals (left fold, as a running total). */
  function Sum(xs: seq<nat>): nat
  {
    if xs == [] then 0 else Sum(xs[..|xs| - 1]) + xs[|xs| - 1]
  }
}

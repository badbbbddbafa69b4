/** Bytes, in-place overwriting of byte ranges, and little-endian numbers. */
module Bytes {
  type byte = x: int | 0 <= x < 256

  /** `s` with the bytes from `off` on replaced by `b`, as a memcpy into a buffer does. */
  function Splice<T>(s: seq<T>, off: nat, b: seq<T>): (r: seq<T>)
    requires off + |b| <= |s|
    ensures |r| == |s|
    ensures forall k :: 0 <= k < |s| ==> r[k] == if off <= k < off + |b| then b[k - off] else s[k]
  {
    s[..off] + b + s[off + |b|..]
  }

  lemma SpliceReadBack<T>(s: seq<T>, off: nat, b: seq<T>)
    requires off + |b| <= |s|
    ensures Splice(s, off, b)[off..off + |b|] == b
  {
  }

  lemma SpliceKeepsFront<T>(s: seq<T>, off: nat, b: seq<T>)
    requires off + |b| <= |s|
    ensures Splice(s, off, b)[..off] == s[..off]
  {
  }

  lemma SpliceElsewhere<T>(s: seq<T>, off: nat, b: seq<T>, lo: nat, hi: nat)
    requires off + |b| <= |s| && lo <= hi <= |s|
    requires hi <= off || off + |b| <= lo
    ensures Splice(s, off, b)[lo..hi] == s[lo..hi]
  {
  }

  lemma SpliceWithin<T>(s: seq<T>, lo: nat, hi: nat, off: nat, b: seq<T>)
    requires lo <= hi <= |s| && lo + off + |b| <= hi
    ensures Splice(s, lo + off, b)[lo..hi] == Splice(s[lo..hi], off, b)
  {
  }

  lemma SliceOfSlice<T>(s: seq<T>, lo: nat, hi: nat, from: nat, to: nat)
    requires lo <= hi <= |s| && from <= to <= hi - lo
    ensures s[lo..hi][from..to] == s[lo + from..lo + to]
  {
    forall k | 0 <= k < to - from
      ensures s[lo..hi][from..to][k] == s[lo + from..lo + to][k]
    {
    }
  }

  /** Two adjacent overwrites are one. */
  lemma SpliceJoin<T>(s: seq<T>, off: nat, a: seq<T>, b: seq<T>)
    requires off + |a| + |b| <= |s|
    ensures Splice(Splice(s, off, a), off + |a|, b) == Splice(s, off, a + b)
  {
  }

  /** The 16-bit little-endian number stored at `off`. */
  function Le16(s: seq<byte>, off: nat): (n: nat)
    requires off + 2 <= |s|
    ensures n < 0x10000
  {
    var low: int, high: int := s[off], s[off + 1];
    low + 256 * high
  }

  function ToLe16(n: nat): (s: seq<byte>)
    requires n < 0x10000
    ensures |s| == 2 && Le16(s, 0) == n
  {
    [n % 256, n / 256]
  }

  /** The 32-bit little-endian number stored at `off`. */
  function Le32(s: seq<byte>, off: nat): (n: nat)
    requires off + 4 <= |s|
    ensures n < 0x1_0000_0000
  {
    Le16(s, off) + 0x10000 * Le16(s, off + 2)
  }

  function ToLe32(n: nat): (s: seq<byte>)
    requires n < 0x1_0000_0000
    ensures |s| == 4 && Le32(s, 0) == n
  {
    ToLe16(n % 0x10000) + ToLe16(n / 0x10000)
  }

  /** The 64-bit little-endian number stored at `off`. */
  function Le64(s: seq<byte>, off: nat): (n: nat)
    requires off + 8 <= |s|
    ensures n < 0x1_0000_0000_0000_0000
  {
    Le32(s, off) + 0x1_0000_0000 * Le32(s, off + 4)
  }

  function ToLe64(n: nat): (s: seq<byte>)
    requires n < 0x1_0000_0000_0000_0000
    ensures |s| == 8 && Le64(s, 0) == n
  {
    var low, high := ToLe32(n % 0x1_0000_0000), ToLe32(n / 0x1_0000_0000);
    assert Le32(low + high, 0) == Le32(low, 0) && Le32(low + high, 4) == Le32(high, 0);
    low + high
  }
}

/** Bytes, unsigned 32-bit words and their little-endian encoding. */
module Bytes {

  const U32Limit: int := 0x1_0000_0000

  type byte = x: int | 0 <= x < 256
  type u32 = x: int | 0 <= x < 0x1_0000_0000

  /** The low `n` bytes of `x`, least significant first (`binary.LittleEndian`). */
  function LittleEndian(x: nat, n: nat): (r: seq<byte>)
    ensures |r| == n
    decreases n
  {
    if n == 0 then [] else [x % 256] + LittleEndian(x / 256, n - 1)
  }

  /** `256^n`: one more than the largest number `n` bytes can hold. */
  function Pow256(n: nat): (r: nat)
    ensures r > 0
  {
    if n == 0 then 1 else 256 * Pow256(n - 1)
  }

  /** The number whose little-endian encoding is `s`. */
  function FromLittleEndian(s: seq<byte>): (x: nat)
    ensures x < Pow256(|s|)
    decreases |s|
  {
    if s == [] then 0 else s[0] + 256 * FromLittleEndian(s[1..])
  }

  /** Encoding a number that fits in `n` bytes and reading it back gives the number. */
  lemma {:induction false} LittleEndianRoundTrip(x: nat, n: nat)
    requires x < Pow256(n)
    ensures FromLittleEndian(LittleEndian(x, n)) == x
    decreases n
  {
    if n > 0 {
      LittleEndianRoundTrip(x / 256, n - 1);
      assert LittleEndian(x, n)[1..] == LittleEndian(x / 256, n - 1);
    }
  }

  /** Every byte string is the `n`-byte encoding of the number it spells. */
  lemma {:induction false} FromLittleEndianRoundTrip(s: seq<byte>)
    ensures LittleEndian(FromLittleEndian(s), |s|) == s
    decreases |s|
  {
    if s != [] {
      FromLittleEndianRoundTrip(s[1..]);
      var x := FromLittleEndian(s);
      assert x % 256 == s[0] && x / 256 == FromLittleEndian(s[1..]);
    }
  }

  /** Four bytes hold exactly the 32-bit words. */
  lemma WordLimit()
    ensures Pow256(4) == U32Limit
  {
    assert Pow256(2) == 65536;
  }

  /** The encoding of a 32-bit word. */
  function EncodeU32(x: u32): (r: seq<byte>)
    ensures |r| == 4
  {
    LittleEndian(x, 4)
  }

  /** The word whose little-endian encoding is `buf[i..i + 4]`. */
  function WordAt(buf: seq<byte>, i: nat): (x: u32)
    requires i + 4 <= |buf|
  {
    WordLimit();
    FromLittleEndian(buf[i..i + 4])
  }

  /** Reading back an encoded word gives the word. */
  lemma WordRoundTrip(x: u32, buf: seq<byte>, i: nat)
    requires i + 4 <= |buf| && buf[i..i + 4] == EncodeU32(x)
    ensures WordAt(buf, i) == x
  {
    WordLimit();
    LittleEndianRoundTrip(x, 4);
  }

  /** Every four bytes are the encoding of the word read from them. */
  lemma WordEncode(buf: seq<byte>, i: nat)
    requires i + 4 <= |buf|
    ensures EncodeU32(WordAt(buf, i)) == buf[i..i + 4]
  {
    FromLittleEndianRoundTrip(buf[i..i + 4]);
  }

  /** `n` zero bytes: the content of a freshly truncated file. */
  function Zeros(n: nat): (r: seq<byte>)
    ensures |r| == n
    ensures forall i :: 0 <= i < n ==> r[i] == 0
  {
    seq(n, _ => 0)
  }

  /** Go's `data[p:]`, empty when `p` lies past the end. */
  function Drop(s: seq<byte>, p: nat): (r: seq<byte>)
    ensures p <= |s| ==> r == s[p..]
    ensures p >= |s| ==> r == []
  {
    if p <= |s| then s[p..] else []
  }

  /** Go's `copy(dst[off:], src)`: copies as many bytes as fit and leaves the rest of `dst` alone. */
  function CopyInto(dst: seq<byte>, off: nat, src: seq<byte>): (r: seq<byte>)
    requires off <= |dst|
    ensures |r| == |dst|
    ensures r[..off] == dst[..off]
    ensures off + |src| <= |dst| ==> r[off..off + |src|] == src && r[off + |src|..] == dst[off + |src|..]
    ensures off + |src| > |dst| ==> r[off..] == src[..|dst| - off]
  {
    var n := if |src| <= |dst| - off then |src| else |dst| - off;
    dst[..off] + src[..n] + dst[off + n..]
  }

  /** A piece of a piece of `buf` is a piece of `buf`. */
  lemma SubSlice(buf: seq<byte>, pos: nat, e: seq<byte>, a: nat, b: nat)
    requires pos + |e| <= |buf| && buf[pos..pos + |e|] == e && a <= b <= |e|
    ensures buf[pos + a..pos + b] == e[a..b]
  {
    forall i | 0 <= i < b - a
      ensures buf[pos + a..pos + b][i] == e[a..b][i]
    {
      assert buf[pos..pos + |e|][a + i] == e[a + i];
    }
  }

  /** A piece of a prefix of `buf` is the same piece of `buf`. */
  lemma PrefixSlice(buf: seq<byte>, p: seq<byte>, a: nat, b: nat)
    requires |p| <= |buf| && buf[..|p|] == p && a <= b <= |p|
    ensures buf[a..b] == p[a..b]
  {
    forall i | 0 <= i < b - a
      ensures buf[a..b][i] == p[a..b][i]
    {
      assert buf[..|p|][a + i] == p[a + i];
    }
  }

  /** When `buf` starts with `p` followed by `e`, the piece of `buf` right after `p` is `e`. */
  lemma AppendedPiece(buf: seq<byte>, p: seq<byte>, e: seq<byte>)
    requires |p| + |e| <= |buf| && buf[..|p| + |e|] == p + e
    ensures buf[|p|..|p| + |e|] == e
  {
    PrefixSlice(buf, p + e, |p|, |p| + |e|);
    assert (p + e)[|p|..|p| + |e|] == e;
  }

  /** Adjacent pieces of `buf` join up. */
  lemma SliceSplit(buf: seq<byte>, a: nat, b: nat, c: nat)
    requires a <= b <= c <= |buf|
    ensures buf[a..c] == buf[a..b] + buf[b..c]
  {
  }

  /** A prefix grows by one element at a time. */
  lemma SnocSlice<T>(s: seq<T>, j: nat)
    requires j < |s|
    ensures s[..j] + [s[j]] == s[..j + 1]
  {
  }

  /** A non-empty sequence is its front followed by its last element. */
  lemma SplitLast<T>(s: seq<T>)
    requires s != []
    ensures s == s[..|s| - 1] + [s[|s| - 1]]
  {
  }
}

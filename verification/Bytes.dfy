/** Bytes, machine-word bounds and splicing of byte sequences, shared by every component. */
module Bytes {

  type byte = x: int | 0 <= x < 0x100

  // One past the largest value of the C types uint32_t and uint64_t.
  const U32: nat := 0x1_0000_0000
  const U64: nat := 0x1_0000_0000_0000_0000

  /** A pointer parameter that may be NULL. */
  datatype Pointer<T> = Null | To(target: T)

  /** `s` with the bytes from `off` on overwritten by `x`. */
  function Splice<T>(s: seq<T>, off: nat, x: seq<T>): (r: seq<T>)
    requires off + |x| <= |s|
    ensures |r| == |s|
    ensures r[..off] == s[..off] && r[off..off + |x|] == x && r[off + |x|..] == s[off + |x|..]
  {
    s[..off] + x + s[off + |x|..]
  }

  lemma SpliceAt<T>(s: seq<T>, off: nat, x: seq<T>, i: nat)
    requires off + |x| <= |s| && i < |s|
    ensures Splice(s, off, x)[i] == if off <= i < off + |x| then x[i - off] else s[i]
  {
  }

  /** Splicing and cutting off what lies behind. */
  lemma SpliceFront<T>(s: seq<T>, off: nat, x: seq<T>, n: nat)
    requires off + |x| <= n <= |s|
    ensures Splice(s, off, x)[..n] == Splice(s[..n], off, x)
  {
  }

  lemma SpliceNothing<T>(s: seq<T>, off: nat, x: seq<T>)
    requires off <= |s| && |x| == 0
    ensures Splice(s, off, x) == s
  {
  }

  /** Two adjacent splices are one splice of the concatenation. */
  lemma SpliceTwice<T>(s: seq<T>, off: nat, x: seq<T>, y: seq<T>)
    requires off + |x| + |y| <= |s|
    ensures Splice(Splice(s, off, x), off + |x|, y) == Splice(s, off, x + y)
  {
  }

  /** Splicing inside a window and putting the window back is one splice. */
  lemma SpliceWithin<T>(s: seq<T>, lo: nat, hi: nat, off: nat, x: seq<T>)
    requires lo + off + |x| <= hi <= |s|
    ensures Splice(s, lo, Splice(s[lo..hi], off, x)) == Splice(s, lo + off, x)
  {
    var inner := Splice(s[lo..hi], off, x);
    assert inner == s[lo..lo + off] + x + s[lo + off + |x|..hi];
    assert s[..lo] + s[lo..lo + off] == s[..lo + off];
    assert s[lo + off + |x|..hi] + s[hi..] == s[lo + off + |x|..];
  }

  // ---- bits ----------------------------------------------------------------------------------

  type Nibble = n: int | 0 <= n < 16

  function NibbleBits(n: Nibble): (r: seq<bool>)
    ensures |r| == 4
  {
    [n % 2 == 1, n / 2 % 2 == 1, n / 4 % 2 == 1, n / 8 == 1]
  }

  function NibbleOf(r: seq<bool>): Nibble
    requires |r| == 4
  {
    (if r[0] then 1 else 0) + (if r[1] then 2 else 0) + (if r[2] then 4 else 0) + (if r[3] then 8 else 0)
  }

  /** The bits of a byte, least significant first. */
  function Bits(b: byte): (r: seq<bool>)
    ensures |r| == 8
  {
    NibbleBits(b % 16) + NibbleBits(b / 16)
  }

  function ByteOf(r: seq<bool>): byte
    requires |r| == 8
  {
    NibbleOf(r[..4]) + 16 * NibbleOf(r[4..])
  }

  lemma NibbleOfBits(n: Nibble)
    ensures NibbleOf(NibbleBits(n)) == n
  {
  }

  lemma BitsOfNibble(r: seq<bool>)
    requires |r| == 4
    ensures NibbleBits(NibbleOf(r)) == r
  {
  }

  lemma ByteOfBits(b: byte)
    ensures ByteOf(Bits(b)) == b
  {
    NibbleOfBits(b % 16);
    NibbleOfBits(b / 16);
    assert Bits(b)[..4] == NibbleBits(b % 16) && Bits(b)[4..] == NibbleBits(b / 16);
  }

  lemma BitsOfByte(r: seq<bool>)
    requires |r| == 8
    ensures Bits(ByteOf(r)) == r
  {
    BitsOfNibble(r[..4]);
    BitsOfNibble(r[4..]);
    assert ByteOf(r) % 16 == NibbleOf(r[..4]) && ByteOf(r) / 16 == NibbleOf(r[4..]);
  }

  lemma BitsInjective(a: byte, b: byte)
    requires Bits(a) == Bits(b)
    ensures a == b
  {
    ByteOfBits(a);
    ByteOfBits(b);
  }
}

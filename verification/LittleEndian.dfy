/** Unsigned numbers as little-endian bytes. */
module LittleEndian {
  import opened Bytes

  /** The low `k` bytes of `n`, least significant first. */
  function LeBytes(n: nat, k: nat): (s: seq<byte>)
    ensures |s| == k
    decreases k, n
  {
    if k == 0 then [] else [n % 0x100] + LeBytes(n / 0x100, k - 1)
  }

  function LeNat(s: seq<byte>): nat {
    if s == [] then 0 else s[0] + 0x100 * LeNat(s[1..])
  }

  /** One past the largest number of `k` bytes. */
  function Limit(k: nat): (r: nat)
    ensures r > 0
  {
    if k == 0 then 1 else 0x100 * Limit(k - 1)
  }

  lemma Limits()
    ensures Limit(2) == 0x1_0000 && Limit(4) == U32 && Limit(8) == U64
  {
    assert Limit(4) == 0x1_0000_0000;
    assert Limit(6) == 0x1_0000_0000_0000;
  }

  lemma OneMoreByte(n: nat, k: nat)
    ensures LeBytes(n, k + 1) == [n % 0x100] + LeBytes(n / 0x100, k)
  {
  }

  /** A field of two bytes, least significant first. */
  lemma TwoBytes(n: nat)
    ensures LeBytes(n, 2) == [n % 0x100, n / 0x100 % 0x100]
  {
    OneMoreByte(n, 1);
    OneMoreByte(n / 0x100, 0);
  }

  /** A field of four bytes, least significant first. */
  lemma FourBytes(n: nat)
    ensures LeBytes(n, 4) == [n % 0x100, n / 0x100 % 0x100, n / 0x1_0000 % 0x100, n / 0x100_0000 % 0x100]
  {
    var b := n / 0x100 / 0x100;
    OneMoreByte(n, 3);
    OneMoreByte(n / 0x100, 2);
    TwoBytes(b);
    assert b == n / 0x1_0000 && b / 0x100 == n / 0x100_0000;
  }

  lemma {:induction false} LeNatBytes(n: nat, k: nat)
    requires n < Limit(k)
    ensures LeNat(LeBytes(n, k)) == n
  {
    if k == 0 {
    } else {
      LeNatBytes(n / 0x100, k - 1);
      assert LeBytes(n, k)[1..] == LeBytes(n / 0x100, k - 1);
    }
  }

  lemma {:induction false} LeBytesNat(s: seq<byte>)
    ensures LeBytes(LeNat(s), |s|) == s && LeNat(s) < Limit(|s|)
  {
    if s == [] {
    } else {
      LeBytesNat(s[1..]);
      assert LeNat(s) / 0x100 == LeNat(s[1..]) && LeNat(s) % 0x100 == s[0];
      assert s == [s[0]] + s[1..];
    }
  }

  lemma TwoBytesOf(s: seq<byte>)
    requires |s| == 2
    ensures s == [LeNat(s) % 0x100, LeNat(s) / 0x100 % 0x100]
  {
    LeBytesNat(s);
    TwoBytes(LeNat(s));
  }

  lemma FourBytesOf(s: seq<byte>)
    requires |s| == 4
    ensures s == [LeNat(s) % 0x100, LeNat(s) / 0x100 % 0x100, LeNat(s) / 0x1_0000 % 0x100,
                  LeNat(s) / 0x100_0000 % 0x100]
  {
    LeBytesNat(s);
    FourBytes(LeNat(s));
  }

  lemma LeNatInjective(s: seq<byte>, t: seq<byte>)
    requires |s| == |t| && LeNat(s) == LeNat(t)
    ensures s == t
  {
    LeBytesNat(s);
    LeBytesNat(t);
  }

  // ---- arrays of 64-bit words -----------------------------------------------------------

  function WordsBytes(ws: seq<nat>): (s: seq<byte>)
    ensures |s| == 8 * |ws|
  {
    if ws == [] then [] else LeBytes(ws[0], 8) + WordsBytes(ws[1..])
  }

  function BytesWords(s: seq<byte>): (ws: seq<nat>)
    requires |s| % 8 == 0
    ensures |s| == 8 * |ws|
  {
    if s == [] then [] else [LeNat(s[..8])] + BytesWords(s[8..])
  }

  lemma {:induction false} WordsRoundTrip(ws: seq<nat>)
    requires forall i :: 0 <= i < |ws| ==> ws[i] < U64
    ensures BytesWords(WordsBytes(ws)) == ws
  {
    if ws == [] {
    } else {
      Limits();
      LeNatBytes(ws[0], 8);
      WordsRoundTrip(ws[1..]);
      assert WordsBytes(ws)[..8] == LeBytes(ws[0], 8) && WordsBytes(ws)[8..] == WordsBytes(ws[1..]);
    }
  }
}

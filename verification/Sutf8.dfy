/** SUTF-8 (Extensions/sutf8.h): the 1-to-6-byte scheme in section 2 of RFC 2279, over the SUCS
    codepoints. Masks and shifts are written as ranges, divisions and remainders. */
module Sutf8 {
  import opened Bytes
  import opened PrefixCode

  const TRAP_RANGE_MIN: nat := 0x7FFF_FFF0
  const INVALID_CODEPOINT: nat := 0x7FFF_FFFF

  /** sucs_is_valid: up to 0x7FFFFFFF, without the trap range and the invalid marker. */
  predicate IsValid(cp: nat) {
    cp <= 0x7FFF_FFFF && !(TRAP_RANGE_MIN <= cp <= 0x7FFF_FFFE) && cp != INVALID_CODEPOINT
  }

  // ---- the canonical form --------------------------------------------------------------

  /** The shortest number of bytes that holds `cp`. */
  function Length(cp: nat): (n: nat)
    ensures 1 <= n <= 6
  {
    if cp < 0x80 then 1 else if cp < 0x800 then 2 else if cp < 0x1_0000 then 3
    else if cp < 0x20_0000 then 4 else if cp < 0x400_0000 then 5 else 6
  }

  /** `cp` without its low `k` groups of six bits. */
  function High(cp: nat, k: nat): nat
    decreases k, cp
  {
    if k == 0 then cp else High(cp / 64, k - 1)
  }

  /** The low `k` groups of six bits as continuation bytes. */
  function Tail(cp: nat, k: nat): (t: seq<byte>)
    ensures |t| == k
    decreases k, cp
  {
    if k == 0 then [] else Tail(cp / 64, k - 1) + [0x80 + cp % 64]
  }

  /** The marker bits of the first byte of an `n`-byte form. */
  function Marker(n: nat): nat {
    if n == 1 then 0 else if n == 2 then 0xC0 else if n == 3 then 0xE0
    else if n == 4 then 0xF0 else if n == 5 then 0xF8 else 0xFC
  }

  /** How many values the first byte of an `n`-byte form leaves for the high bits. */
  function Room(n: nat): nat {
    if n == 1 then 0x80 else if n == 2 then 0x20 else if n == 3 then 0x10
    else if n == 4 then 8 else if n == 5 then 4 else 2
  }

  lemma HighFits(cp: nat)
    requires cp < 0x8000_0000
    ensures High(cp, Length(cp) - 1) < Room(Length(cp))
  {
    Powers(cp);
  }

  lemma Powers(cp: nat)
    ensures High(cp, 0) == cp && High(cp, 1) == cp / 0x40 && High(cp, 2) == cp / 0x1000
    ensures High(cp, 3) == cp / 0x4_0000 && High(cp, 4) == cp / 0x100_0000 && High(cp, 5) == cp / 0x4000_0000
  {
    assert High(cp, 1) == High(cp / 64, 0);
    assert High(cp, 2) == High(cp / 64, 1) == High(cp / 64 / 64, 0);
    assert High(cp, 3) == High(cp / 64, 2) == High(cp / 64 / 64, 1) == High(cp / 64 / 64 / 64, 0);
    var q := cp / 64 / 64 / 64;
    assert q == cp / 0x4_0000;
    assert High(cp, 4) == High(cp / 64, 3) == High(cp / 64 / 64, 2) == High(q, 1) == High(q / 64, 0);
    assert High(cp, 5) == High(cp / 64, 4) == High(cp / 64 / 64, 3) == High(q, 2) == High(q / 64, 1)
           == High(q / 64 / 64, 0);
  }

  /** The canonical encoding; nothing for a codepoint outside SUCS. */
  function Enc(cp: nat): (s: seq<byte>)
    ensures IsValid(cp) ==> |s| == Length(cp)
    ensures !IsValid(cp) ==> s == []
  {
    if !IsValid(cp) then []
    else
      HighFits(cp);
      [Marker(Length(cp)) + High(cp, Length(cp) - 1)] + Tail(cp, Length(cp) - 1)
  }

  lemma TailIs(cp: nat, k: nat)
    ensures Tail(cp, k + 1) == Tail(cp / 64, k) + [0x80 + cp % 64]
  {
  }

  /** The forms of five and six bytes. */
  lemma LongForms(cp: nat)
    requires IsValid(cp) && cp >= 0x20_0000
    ensures cp < 0x400_0000 ==>
              Enc(cp) == [0xF8 + cp / 0x100_0000, 0x80 + cp / 0x4_0000 % 64, 0x80 + cp / 0x1000 % 64,
                          0x80 + cp / 64 % 64, 0x80 + cp % 64]
    ensures cp >= 0x400_0000 ==>
              Enc(cp) == [0xFC + cp / 0x4000_0000, 0x80 + cp / 0x100_0000 % 64, 0x80 + cp / 0x4_0000 % 64,
                          0x80 + cp / 0x1000 % 64, 0x80 + cp / 64 % 64, 0x80 + cp % 64]
  {
    Powers(cp);
    FourGroups(cp);
    if cp >= 0x400_0000 { FiveGroups(cp); }
  }

  lemma FourGroups(cp: nat)
    ensures Tail(cp, 4)
         == [0x80 + cp / 0x4_0000 % 64, 0x80 + cp / 0x1000 % 64, 0x80 + cp / 64 % 64, 0x80 + cp % 64]
  {
    var a, b, c := cp / 64, cp / 64 / 64, cp / 64 / 64 / 64;
    TailIs(cp, 3);
    TailIs(a, 2);
    TailIs(b, 1);
    TailIs(c, 0);
    assert b == cp / 0x1000 && c == cp / 0x4_0000;
  }

  lemma FiveGroups(cp: nat)
    ensures Tail(cp, 5) == [0x80 + cp / 0x100_0000 % 64, 0x80 + cp / 0x4_0000 % 64, 0x80 + cp / 0x1000 % 64,
                            0x80 + cp / 64 % 64, 0x80 + cp % 64]
  {
    TailIs(cp, 4);
    FourGroups(cp / 64);
    var a := cp / 64;
    assert a / 64 == cp / 0x1000 && a / 0x1000 == cp / 0x4_0000 && a / 0x4_0000 == cp / 0x100_0000;
  }

  // ---- decoding ------------------------------------------------------------------------------

  /** The length a first byte announces, or 0. */
  function Announced(b: byte): (n: nat)
    ensures n <= 6
  {
    if b < 0x80 then 1 else if 0xC0 <= b < 0xE0 then 2 else if 0xE0 <= b < 0xF0 then 3
    else if 0xF0 <= b < 0xF8 then 4 else if 0xF8 <= b < 0xFC then 5 else if 0xFC <= b < 0xFE then 6 else 0
  }

  predicate IsContinuation(b: byte) {
    0x80 <= b < 0xC0
  }

  predicate Continuations(t: seq<byte>) {
    forall i :: 0 <= i < |t| ==> IsContinuation(t[i])
  }

  /** `cp` followed by the six low bits of each byte. */
  function Shift(cp: nat, t: seq<byte>): nat {
    if t == [] then cp else Shift(cp, t[..|t| - 1]) * 64 + t[|t| - 1] % 64
  }

  /** The smallest codepoint an `n`-byte form may carry. */
  function Smallest(n: nat): nat {
    if n <= 1 then 0 else if n == 2 then 0x80 else if n == 3 then 0x800
    else if n == 4 then 0x1_0000 else if n == 5 then 0x20_0000 else 0x400_0000
  }

  function Decode(s: seq<byte>): Decoded {
    if s == [] || Announced(s[0]) == 0 || |s| < Announced(s[0]) then Bad
    else
      var n := Announced(s[0]);
      var cp := Shift(s[0] - Marker(n), s[1..n]);
      if !Continuations(s[1..n]) || cp < Smallest(n) || !IsValid(cp) then Bad
      else Good(cp, n)
  }

  // ---- the decoder accepts exactly the canonical forms ------------------------------------------

  lemma {:induction false} ShiftTail(cp: nat, k: nat)
    ensures Shift(High(cp, k), Tail(cp, k)) == cp && Continuations(Tail(cp, k))
    decreases k
  {
    if k == 0 {
    } else {
      ShiftTail(cp / 64, k - 1);
      var t := Tail(cp, k);
      assert t[..k - 1] == Tail(cp / 64, k - 1);
    }
  }

  lemma {:induction false} TailShift(x: nat, t: seq<byte>)
    requires Continuations(t)
    ensures High(Shift(x, t), |t|) == x && Tail(Shift(x, t), |t|) == t
    decreases |t|
  {
    if t == [] {
    } else {
      var front, b := t[..|t| - 1], t[|t| - 1];
      assert IsContinuation(b);
      TailShift(x, front);
      assert Shift(x, t) / 64 == Shift(x, front) && 0x80 + Shift(x, t) % 64 == b;
      assert t == front + [b];
    }
  }

  /** A first byte and the room it leaves determine each other. */
  lemma FirstByte(n: nat, x: nat)
    requires 1 <= n <= 6 && x < Room(n)
    ensures 0 <= Marker(n) + x < 0x100 && Announced(Marker(n) + x) == n
  {
  }

  lemma EncDecodes(cp: nat, s: seq<byte>)
    requires IsValid(cp) && Enc(cp) <= s
    ensures Decode(s) == Good(cp, Length(cp))
  {
    var n := Length(cp);
    HighFits(cp);
    EncParts(cp, s);
    ShiftTail(cp, n - 1);
    DecodeIs(s, n, High(cp, n - 1), cp);
  }

  lemma EncParts(cp: nat, s: seq<byte>)
    requires IsValid(cp) && Enc(cp) <= s
    ensures s != [] && Length(cp) <= |s| && s[0] == Marker(Length(cp)) + High(cp, Length(cp) - 1)
    ensures s[1..Length(cp)] == Tail(cp, Length(cp) - 1)
  {
    var n := Length(cp);
    assert s[0] == Enc(cp)[0];
    assert s[1..n] == Enc(cp)[1..n];
  }

  lemma DecodeIs(s: seq<byte>, n: nat, x: nat, cp: nat)
    requires 1 <= n <= 6 && n <= |s| && x < Room(n) && s[0] == Marker(n) + x
    requires Continuations(s[1..n]) && cp == Shift(x, s[1..n]) && Smallest(n) <= cp && IsValid(cp)
    ensures Decode(s) == Good(cp, n)
  {
    FirstByte(n, x);
  }

  lemma DecodedIsEnc(s: seq<byte>)
    requires Decode(s).Good?
    ensures IsValid(Decode(s).cp) && Decode(s).len == Length(Decode(s).cp) && Enc(Decode(s).cp) <= s
  {
    var n, cp := Decode(s).len, Decode(s).cp;
    var x := s[0] - Marker(n);
    TailShift(x, s[1..n]);
    LengthIs(cp, n, x);
    assert Enc(cp) == [s[0]] + s[1..n] == s[..n];
  }

  lemma LengthIs(cp: nat, n: nat, x: nat)
    requires 1 <= n <= 6 && High(cp, n - 1) == x < Room(n) && Smallest(n) <= cp
    ensures Length(cp) == n
  {
    Powers(cp);
  }

  /** The decoder accepts a string exactly when it begins with the canonical form of a valid
      codepoint, and then returns that codepoint and that length. */
  lemma DecodeIff(s: seq<byte>, cp: nat, n: nat)
    ensures Decode(s) == Good(cp, n) <==> IsValid(cp) && n == Length(cp) && Enc(cp) <= s
  {
    if Decode(s) == Good(cp, n) { DecodedIsEnc(s); }
    if IsValid(cp) && Enc(cp) <= s { EncDecodes(cp, s); }
  }

  lemma IsCanonical()
    ensures Canonical(Enc, Decode)
  {
    forall s: seq<byte>, cp: nat, n: nat {:trigger Decode(s), Good(cp, n)}
      ensures Decode(s) == Good(cp, n) <==> 0 < |Enc(cp)| == n && Enc(cp) <= s
    {
      DecodeIff(s, cp, n);
    }
  }

  /** Byte strings that decode to the same codepoints are equal. */
  lemma StreamsInjective(s: seq<byte>, t: seq<byte>)
    requires DecodeAll(Decode, s).Stream? && DecodeAll(Decode, s) == DecodeAll(Decode, t)
    ensures s == t
  {
    IsCanonical();
    DecodingInjective(Enc, Decode, s, t);
  }

  /** Decoding depends only on the bytes it takes. */
  lemma DecodeLocal(s: seq<byte>, t: seq<byte>)
    requires Decode(s).Good? && s[..Decode(s).len] <= t
    ensures Decode(t) == Decode(s)
  {
    DecodedIsEnc(s);
    EncDecodes(Decode(s).cp, t);
  }
}

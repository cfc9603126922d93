/** sutf8_encode_char as it is written, and exactly when the decoder undoes it. */
module Sutf8Encoder {
  import opened Bytes
  import opened PrefixCode
  import opened Sutf8

  /** sutf8_codepoint_length on valid codepoints. Four bytes end at 0x10FFFF here, while the
      decoder takes them up to 0x1FFFFF. */
  function ClaimedLength(cp: nat): (n: nat)
    ensures 1 <= n <= 6
  {
    if cp <= 0x7F then 1 else if cp <= 0x7FF then 2 else if cp <= 0xFFFF then 3
    else if cp <= 0x10_FFFF then 4 else if cp <= 0x3FF_FFFF then 5 else 6
  }

  /** Group `i` of six bits. */
  function Digit(cp: nat, i: nat): (d: nat)
    ensures d < 64
  {
    High(cp, i) % 64
  }

  /** The groups from `hi` down to 2 as continuation bytes; group 1 is never written. */
  function Upper(cp: nat, hi: nat): (s: seq<byte>)
    ensures |s| == if hi < 2 then 0 else hi - 1
    decreases hi, cp
  {
    if hi < 2 then [] else [0x80 + Digit(cp, hi)] + Upper(cp, hi - 1)
  }

  /** The bytes written for `cp`. The second byte of the two-byte form lacks its marker. */
  function AsWritten(cp: nat): (s: seq<byte>)
    ensures |s| == ClaimedLength(cp)
  {
    var n := ClaimedLength(cp);
    if n == 1 then [cp]
    else if n == 2 then [0xC0 + High(cp, 1) % 0x20, Digit(cp, 0)]
    else [Marker(n) + High(cp, n - 1) % Room(n)] + Upper(cp, n - 1) + [0x80 + Digit(cp, 0)]
  }

  /** The loop that splits `cp` into groups of six bits, all but the lowest marked. */
  method Split(cp: nat, groups: array<byte>, len: nat)
    requires len <= groups.Length
    modifies groups
    ensures forall i :: 0 <= i < len ==> groups[i] == Digit(cp, i) + if i == 0 then 0 else 0x80
  {
    var tmp, gcount := cp, 0;
    while gcount < len
      invariant 0 <= gcount <= len && tmp == High(cp, gcount)
      invariant forall i :: 0 <= i < gcount ==> groups[i] == Digit(cp, i) + if i == 0 then 0 else 0x80
    {
      groups[gcount] := tmp % 64 + if gcount == 0 then 0 else 0x80;
      HighNext(cp, gcount);
      gcount := gcount + 1;
      tmp := tmp / 64;
    }
  }

  lemma {:induction false} HighNext(cp: nat, k: nat)
    ensures High(cp, k + 1) == High(cp, k) / 64
    decreases k
  {
    if k == 0 {
    } else {
      HighNext(cp / 64, k - 1);
    }
  }

  /** The middle bytes, from group `len - 1` down to group 2. */
  method PutUpper(cp: nat, groups: array<byte>, out: array<byte>, len: nat)
    requires 3 <= len <= groups.Length && len <= out.Length && groups != out
    requires forall i :: 2 <= i < len ==> groups[i] == 0x80 + Digit(cp, i)
    modifies out
    ensures out[1..len - 1] == Upper(cp, len - 1)
    ensures out[len..] == old(out[len..]) && out[0] == old(out[0])
  {
    var i := 1;
    while i < len - 1
      invariant 1 <= i <= len - 1
      invariant forall j :: 1 <= j < i ==> out[j] == 0x80 + Digit(cp, len - j)
      invariant out[len..] == old(out[len..]) && out[0] == old(out[0])
    {
      out[i] := groups[len - i];
      i := i + 1;
    }
    ghost var a, u := out[1..len - 1], Upper(cp, len - 1);
    forall j | 0 <= j < len - 2 ensures a[j] == u[j] {
      UpperAt(cp, len - 1, j);
    }
  }

  lemma {:induction false} UpperAt(cp: nat, hi: nat, j: nat)
    requires 2 <= hi && j < hi - 1
    ensures Upper(cp, hi)[j] == 0x80 + Digit(cp, hi - j)
    decreases j
  {
    if j == 0 {
    } else {
      UpperAt(cp, hi - 1, j - 1);
    }
  }

  /** sutf8_encode_char. */
  method EncodeChar(cp: nat, out: array?<byte>, size: nat) returns (len: nat)
    requires cp < U32 && (out != null ==> size <= out.Length)
    modifies out
    ensures len == if out == null || !IsValid(cp) || size < ClaimedLength(cp) then 0 else ClaimedLength(cp)
    ensures len != 0 ==> out[..len] == AsWritten(cp) && out[len..] == old(out[len..])
    ensures len == 0 && out != null ==> out[..] == old(out[..])
  {
    if out == null || !IsValid(cp) { return 0; }
    len := ClaimedLength(cp);
    if size < len { return 0; }
    Powers(cp);
    var groups := new byte[6](_ => 0);
    Split(cp, groups, len);
    if len == 1 {
      out[0] := cp;
    } else if len == 2 {
      out[0] := 0xC0 + High(cp, 1) % 0x20;
      out[1] := groups[0];
    } else {
      out[0] := Marker(len) + High(cp, len - 1) % Room(len);
      PutUpper(cp, groups, out, len);
      out[len - 1] := 0x80 + groups[0];
      assert out[1..len - 1] == Upper(cp, len - 1);
      assert out[..len] == [out[0]] + out[1..len - 1] + [out[len - 1]];
    }
  }

  // ---- when the decoder undoes it ----------------------------------------------------------

  /** All groups of six bits above the lowest are equal. */
  predicate Level(cp: nat) {
    forall i :: 1 <= i < ClaimedLength(cp) ==> Digit(cp, i) == Digit(cp, ClaimedLength(cp) - 1)
  }

  lemma {:induction false} TailAt(cp: nat, k: nat, i: nat)
    requires i < k
    ensures Tail(cp, k)[i] == 0x80 + Digit(cp, k - 1 - i)
    decreases k
  {
    if i == k - 1 {
    } else {
      TailAt(cp / 64, k - 1, i);
    }
  }

  lemma EncAt(cp: nat, i: nat)
    requires IsValid(cp) && 1 <= i < Length(cp)
    ensures Enc(cp)[i] == 0x80 + Digit(cp, Length(cp) - 1 - i)
  {
    TailAt(cp, Length(cp) - 1, i - 1);
  }

  lemma WrittenAt(cp: nat, i: nat)
    requires ClaimedLength(cp) >= 3 && 1 <= i < ClaimedLength(cp)
    ensures AsWritten(cp)[i] == 0x80 + if i == ClaimedLength(cp) - 1 then Digit(cp, 0)
            else Digit(cp, ClaimedLength(cp) - i)
  {
    if i < ClaimedLength(cp) - 1 { UpperAt(cp, ClaimedLength(cp) - 1, i - 1); }
  }

  /** Byte by byte, canonical form and written form differ by one group. */
  lemma ByteAt(cp: nat, i: nat)
    requires IsValid(cp) && ClaimedLength(cp) == Length(cp) >= 3 && 1 <= i < Length(cp)
    ensures Enc(cp)[i] == 0x80 + Digit(cp, Length(cp) - 1 - i)
    ensures AsWritten(cp)[i] == 0x80 + if i == Length(cp) - 1 then Digit(cp, 0) else Digit(cp, Length(cp) - i)
  {
    EncAt(cp, i);
    WrittenAt(cp, i);
  }

  lemma FirstBytesAgree(cp: nat)
    requires IsValid(cp) && ClaimedLength(cp) == Length(cp) >= 3
    ensures Enc(cp)[0] == AsWritten(cp)[0]
  {
    HighFits(cp);
  }

  lemma SameThenLevel(cp: nat)
    requires IsValid(cp) && ClaimedLength(cp) == Length(cp) >= 3 && Enc(cp) == AsWritten(cp)
    ensures Level(cp)
  {
    var n := Length(cp);
    var j := n - 1;
    while j > 1
      invariant 1 <= j <= n - 1
      invariant forall i :: j <= i < n ==> Digit(cp, i) == Digit(cp, n - 1)
    {
      ByteAt(cp, n - j);
      j := j - 1;
    }
  }

  lemma LevelThenSame(cp: nat)
    requires IsValid(cp) && ClaimedLength(cp) == Length(cp) >= 3 && Level(cp)
    ensures Enc(cp) == AsWritten(cp)
  {
    FirstBytesAgree(cp);
    forall i | 1 <= i < Length(cp) ensures Enc(cp)[i] == AsWritten(cp)[i] {
      ByteAt(cp, i);
    }
  }

  /** Above 0x10FFFF the claimed length is one too long until 0x1FFFFF; no such codepoint is level. */
  lemma GapNotLevel(cp: nat)
    requires 0x11_0000 <= cp < 0x20_0000
    ensures !Level(cp)
  {
    Powers(cp);
    assert Digit(cp, 3) != Digit(cp, 4);
  }

  /** What the encoder writes for a valid codepoint decodes to that codepoint exactly for ASCII
      and for codepoints above 0x7FF whose groups of six bits above the lowest are all equal. */
  lemma RoundTripIff(cp: nat)
    requires IsValid(cp)
    ensures Decode(AsWritten(cp)) == Good(cp, |AsWritten(cp)|) <==> cp < 0x80 || (cp >= 0x800 && Level(cp))
  {
    var s := AsWritten(cp);
    DecodeIff(s, cp, |s|);
    Powers(cp);
    if cp < 0x80 {
      assert Enc(cp) == s;
    } else if cp < 0x800 {
      assert Enc(cp)[1] != s[1] by { TailAt(cp, 1, 0); }
    } else if ClaimedLength(cp) == Length(cp) {
      if Enc(cp) == s { SameThenLevel(cp); }
      if Level(cp) { LevelThenSame(cp); }
    } else {
      GapNotLevel(cp);
    }
  }

  /** No two-byte form is accepted at all. */
  lemma TwoBytesRejected(cp: nat)
    requires 0x80 <= cp < 0x800
    ensures Decode(AsWritten(cp)) == Bad
  {
    Powers(cp);
    var s := AsWritten(cp);
    assert Announced(s[0]) == 2;
    assert s[1..2][0] == s[1] < 0x80;
  }
}

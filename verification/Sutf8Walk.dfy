/** Decoding and walking byte buffers: sutf8_decode_char, sutf8_next_codepoint and the walks over
    NUL-terminated text in DLL/bootvid/bootvid.c. */
module Sutf8Walk {
  import opened Bytes
  import opened PrefixCode
  import opened Sutf8

  /** At most the first `n` bytes. */
  function Window(s: seq<byte>, n: nat): seq<byte> {
    if n < |s| then s[..n] else s
  }

  /** The returned length and codepoint for what was decoded. */
  predicate Returns(d: Decoded, len: nat, cp: nat) {
    match d
    case Bad => len == 0 && cp == INVALID_CODEPOINT
    case Good(c, n) => len == n && cp == c
  }

  /** The window may be inspected: it lies in the buffer, or the buffer ends with a NUL. */
  ghost predicate Inspectable(buf: array<byte>, at: nat, size: nat)
    reads buf
  {
    at < buf.Length && (at + size <= buf.Length || buf[buf.Length - 1] == 0)
  }

  /** The loop over the `n - 1` bytes after a first byte: it ends early at the first that is no
      continuation, and so at a NUL. */
  method ReadTail(buf: array<byte>, at: nat, n: nat, first: nat) returns (ok: bool, cp: nat)
    requires 1 <= n && at < buf.Length
    requires at + n <= buf.Length || (buf[buf.Length - 1] == 0 && at + 1 < buf.Length)
    ensures ok <==> at + n <= buf.Length && Continuations(buf[at + 1..at + n])
    ensures ok ==> cp == Shift(first, buf[at + 1..at + n])
  {
    cp := first;
    var i := 1;
    while i < n
      invariant 1 <= i <= n
      invariant at + i <= buf.Length && (i < n ==> at + i < buf.Length)
      invariant Continuations(buf[at + 1..at + i])
      invariant cp == Shift(first, buf[at + 1..at + i])
    {
      var b := buf[at + i];
      if !IsContinuation(b) {
        assert at + n <= buf.Length ==> buf[at + 1..at + n][i - 1] == b;
        return false, cp;
      }
      ghost var t := buf[at + 1..at + i + 1];
      assert t[..|t| - 1] == buf[at + 1..at + i];
      cp := cp * 64 + b % 64;
      i := i + 1;
    }
    ok := true;
  }

  lemma WindowSlice(s: seq<byte>, at: nat, size: nat, n: nat)
    requires at < |s| && 1 <= n <= size
    ensures |Window(s[at..], size)| >= n <==> at + n <= |s|
    ensures at + n <= |s| ==> Window(s[at..], size)[1..n] == s[at + 1..at + n]
  {
    var t := s[at..];
    var w := Window(t, size);
    if at + n <= |s| {
      assert |w| >= n && w[1..n] == t[1..n];
      assert t[1..n] == s[at + 1..at + n];
    }
  }

  /** Decoding a window, in terms of the buffer it lies in. */
  lemma WindowDecodes(s: seq<byte>, at: nat, size: nat, n: nat, ok: bool, cp: nat)
    requires at < |s| && n == Announced(s[at]) && 1 <= n <= size
    requires ok <==> at + n <= |s| && Continuations(s[at + 1..at + n])
    requires ok ==> cp == Shift(s[at] - Marker(n), s[at + 1..at + n])
    ensures Decode(Window(s[at..], size)) ==
              if ok && cp >= Smallest(n) && IsValid(cp) then Good(cp, n) else Bad
  {
    WindowSlice(s, at, size, n);
  }

  /** sutf8_decode_char on the `size` bytes at `at`. A window reaching past the end of the buffer
      is harmless when the buffer ends with a NUL: no byte past that is inspected. */
  method DecodeChar(buf: array<byte>, at: nat, size: nat) returns (len: nat, cp: nat)
    requires size > 0 ==> Inspectable(buf, at, size)
    requires at <= buf.Length
    ensures Returns(Decode(Window(buf[at..], size)), len, cp)
  {
    if size == 0 { return 0, INVALID_CODEPOINT; }
    var n := Announced(buf[at]);
    if n == 0 { return 0, INVALID_CODEPOINT; }
    if size < n { return 0, INVALID_CODEPOINT; }
    var ok;
    ok, cp := ReadTail(buf, at, n, buf[at] - Marker(n));
    assert buf[..][at..] == buf[at..];
    assert at + n <= buf.Length ==> buf[..][at + 1..at + n] == buf[at + 1..at + n];
    WindowDecodes(buf[..], at, size, n, ok, cp);
    if !ok || cp < Smallest(n) || !IsValid(cp) { return 0, INVALID_CODEPOINT; }
    len := n;
  }

  /** sutf8_next_codepoint: a malformed byte counts as one step. */
  method NextCodepoint(buf: array<byte>, at: nat, remaining: nat) returns (adv: nat, cp: nat)
    requires remaining > 0 ==> Inspectable(buf, at, remaining)
    requires at <= buf.Length
    ensures adv == 0 <==> remaining == 0 || buf[at] == 0
    ensures adv == 0 ==> cp == INVALID_CODEPOINT
    ensures adv != 0 ==> adv == Advance(Window(buf[at..], remaining)) && cp == Front(Window(buf[at..], remaining))
  {
    if remaining == 0 || buf[at] == 0 { return 0, INVALID_CODEPOINT; }
    adv, cp := DecodeChar(buf, at, remaining);
    if adv == 0 { adv := 1; }
  }

  /** How far one step goes. */
  function Advance(s: seq<byte>): (n: nat)
    ensures 0 < n
    ensures s != [] ==> n <= |s|
  {
    match Decode(s)
    case Bad => 1
    case Good(cp, n) => n
  }

  function Front(s: seq<byte>): nat {
    match Decode(s)
    case Bad => INVALID_CODEPOINT
    case Good(cp, n) => cp
  }

  /** The codepoints up to the first NUL; each malformed byte gives one invalid codepoint. */
  function Codepoints(s: seq<byte>): seq<nat>
    decreases |s|
  {
    if s == [] || s[0] == 0 then [] else [Front(s)] + Codepoints(s[Advance(s)..])
  }

  /** No form is longer than the fixed window of six bytes. */
  lemma SixIsEnough(s: seq<byte>)
    ensures Decode(Window(s, 6)) == Decode(s)
  {
    if Decode(s).Good? {
      assert s[..Decode(s).len] <= Window(s, 6);
      DecodeLocal(s, Window(s, 6));
    } else if Decode(Window(s, 6)).Good? {
      DecodeLocal(Window(s, 6), s);
    }
  }

  /** A step never jumps over a NUL. */
  lemma NoNulJumped(s: seq<byte>, i: nat)
    requires s != [] && s[0] != 0 && i < Advance(s)
    ensures i < |s| && s[i] != 0
  {
    if i > 0 {
      var n := Advance(s);
      assert IsContinuation(s[1..n][i - 1]);
    }
  }

  /** One step of a walk with the fixed window, over text ended by a NUL. */
  method WalkStep(text: array<byte>, at: nat) returns (adv: nat, cp: nat)
    requires at < text.Length && text[text.Length - 1] == 0 && text[at] != 0
    ensures 0 < adv && at + adv < text.Length && forall i :: at <= i < at + adv ==> text[i] != 0
    ensures adv == Advance(text[at..]) && cp == Front(text[at..])
  {
    ghost var s := text[at..];
    SixIsEnough(s);
    adv, cp := NextCodepoint(text, at, 6);
    forall i | at <= i < at + adv ensures text[i] != 0 {
      NoNulJumped(s, i - at);
    }
  }

  lemma WalkOn(s: seq<byte>)
    requires s != [] && s[0] != 0
    ensures Codepoints(s) == [Front(s)] + Codepoints(s[Advance(s)..])
  {
  }

  /** One step, in terms of the codepoints still to come. */
  method WalkNext(text: array<byte>, at: nat, ghost todo: seq<nat>) returns (next: nat, cp: nat, ghost rest: seq<nat>)
    requires at < text.Length && text[text.Length - 1] == 0 && text[at] != 0 && todo == Codepoints(text[at..])
    ensures at < next < text.Length && (forall i :: at <= i < next ==> text[i] != 0)
    ensures todo == [cp] + rest && rest == Codepoints(text[next..])
  {
    WalkOn(text[at..]);
    var adv;
    adv, cp := WalkStep(text, at);
    next := at + adv;
    assert text[at..][adv..] == text[next..];
    rest := Codepoints(text[next..]);
  }

  /** What a 32-bit counter shows after `n` steps. */
  function Counted(n: nat): nat {
    n % U32
  }

  method CountOne(count: nat, ghost n: nat) returns (count': nat)
    requires count == Counted(n)
    ensures count' == Counted(n + 1)
  {
    count' := (count + 1) % U32;
  }

  /** The walk of sutf8_codepoint_count over text ended by a NUL, malformed or not: it ends
      exactly on the first NUL. */
  method CodepointCount(text: array<byte>) returns (count: nat, end: nat)
    requires 0 < text.Length && text[text.Length - 1] == 0
    ensures end < text.Length && text[end] == 0 && forall i :: 0 <= i < end ==> text[i] != 0
    ensures count == Counted(|Codepoints(text[..])|)
  {
    count, end := 0, 0;
    ghost var steps, todo := 0, Codepoints(text[..]);
    ghost var total := |todo|;
    assert text[0..] == text[..];
    while text[end] != 0
      invariant end < text.Length && forall i :: 0 <= i < end ==> text[i] != 0
      invariant count == Counted(steps)
      invariant todo == Codepoints(text[end..]) && steps + |todo| == total
      decreases text.Length - end
    {
      var cp;
      end, cp, todo := WalkNext(text, end, todo);
      count := CountOne(count, steps);
      steps := steps + 1;
    }
    assert todo == [];
  }

  /** Nothing after the first NUL matters. */
  lemma {:induction false} StopsAtNul(body: seq<byte>, rest: seq<byte>)
    requires forall i :: 0 <= i < |body| ==> body[i] != 0
    ensures Codepoints(body + [0] + rest) == Codepoints(body + [0])
    decreases |body|
  {
    if body == [] {
    } else {
      var s, t := body + [0], body + [0] + rest;
      SameStep(s, t);
      var n := Advance(s);
      assert n <= |body| by { if n > |body| { NoNulJumped(s, |body|); } }
      assert s[n..] == body[n..] + [0] && t[n..] == body[n..] + [0] + rest;
      StopsAtNul(body[n..], rest);
    }
  }

  lemma SameStep(s: seq<byte>, t: seq<byte>)
    requires s != [] && s[|s| - 1] == 0 && s[0] != 0 && s <= t
    ensures Decode(t) == Decode(s)
  {
    if Decode(s).Good? {
      DecodeLocal(s, t);
    } else if Decode(t).Good? {
      var n := Decode(t).len;
      if n >= |s| { NoNulJumped(t, |s| - 1); }
      DecodeLocal(t, s);
    }
  }

  /** Walking encoded text gives back its codepoints, whatever follows the NUL. */
  lemma {:induction false} WalkEncoded(cps: seq<nat>, rest: seq<byte>)
    requires forall i :: 0 <= i < |cps| ==> IsValid(cps[i]) && cps[i] != 0
    ensures Codepoints(EncodeAll(Enc, cps) + [0] + rest) == cps
  {
    var s := EncodeAll(Enc, cps) + [0] + rest;
    if cps == [] {
    } else {
      var n := Length(cps[0]);
      assert Enc(cps[0]) <= s;
      EncDecodes(cps[0], s);
      assert s[0] != 0 by { if s[0] == 0 { DecodeNul(s); } }
      assert s[n..] == EncodeAll(Enc, cps[1..]) + [0] + rest;
      WalkEncoded(cps[1..], rest);
    }
  }

  lemma DecodeNul(s: seq<byte>)
    requires s != [] && s[0] == 0
    ensures Decode(s) == Good(0, 1)
  {
  }
}

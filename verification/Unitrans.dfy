/** Translation between UTF-8 buffers and codepoint buffers (Extensions/unitrans.h). */
module Unitrans {
  import opened Bytes
  import opened PrefixCode
  import opened Sutf8

  type Status = nat

  const OK: Status := 0
  const ERR_INVALID_UTF8: Status := 1
  const ERR_BUFFER_FULL: Status := 2
  const ERR_TRAP_RANGE: Status := 3

  const TRAP_BASE: nat := 0x7FFF_FFF0
  const TRAP_LIMIT: nat := 0x7FFF_FFFE
  const UNICODE_MAX: nat := 0x10_FFFF

  /** The count behind the `written` pointer, which error returns leave alone. */
  datatype Written = Untouched | Set(count: nat)

  // ---- UTF-8 to codepoints ---------------------------------------------------------------

  /** What the front of the input reads as. Continuation bytes are not checked, and neither
      overlong forms nor surrogates are refused. */
  datatype Step = Truncated | Unknown | Read(cp: nat, len: nat)

  function ReadOne(s: seq<byte>): Step
    requires s != []
  {
    var n := Announced(s[0]);
    if n == 0 || n > 4 then Unknown
    else if |s| < n then Truncated
    else Read(Shift(s[0] - Marker(n), s[1..n]), n)
  }

  /** Four bytes carry 21 bits, so the trap range is out of reach. */
  lemma ReadRange(s: seq<byte>)
    requires s != [] && ReadOne(s).Read?
    ensures 1 <= ReadOne(s).len <= 4 && ReadOne(s).len <= |s| && ReadOne(s).cp < 0x20_0000
  {
    var n := ReadOne(s).len;
    var x := s[0] - Marker(n);
    if n > 1 { ShiftGrows(x, s[1..n]); }
    if n > 2 { ShiftGrows(x, s[1..n][..n - 2]); }
    if n > 3 { ShiftGrows(x, s[1..n][..n - 2][..n - 3]); }
  }

  lemma ShiftGrows(x: nat, t: seq<byte>)
    requires t != []
    ensures Shift(x, t) < 64 * (Shift(x, t[..|t| - 1]) + 1)
  {
  }

  datatype Outcome = Outcome(cps: seq<nat>, malformed: bool)

  /** Codepoints read until the input or the room runs out, the input is cut short, or a byte
      cannot begin a form. */
  function Translate(s: seq<byte>, room: nat): (r: Outcome)
    ensures |r.cps| <= room
    decreases |s|
  {
    if s == [] || room == 0 then Outcome([], false)
    else
      match ReadOne(s)
      case Truncated => Outcome([], false)
      case Unknown => Outcome([], true)
      case Read(cp, n) =>
        if n == 0 || n > |s| then Outcome([], false)
        else
          var rest := Translate(s[n..], room - 1);
          Outcome([cp] + rest.cps, rest.malformed)
  }

  /** A full output buffer is reported even when the input ended with it. */
  function StatusOf(r: Outcome, room: nat): Status {
    if r.malformed then ERR_INVALID_UTF8 else if |r.cps| < room then OK else ERR_BUFFER_FULL
  }

  lemma Continues(s: seq<byte>, room: nat)
    requires s != [] && room > 0 && ReadOne(s).Read?
    ensures ReadOne(s).len <= |s|
    ensures Translate(s, room).cps == [ReadOne(s).cp] + Translate(s[ReadOne(s).len..], room - 1).cps
    ensures Translate(s, room).malformed == Translate(s[ReadOne(s).len..], room - 1).malformed
  {
    ReadRange(s);
  }

  /** The codepoints stored so far are the first of the outcome, and the rest of the buffer is as
      before. */
  ghost predicate Stored(s: seq<byte>, room: nat, before: seq<nat>, now: seq<nat>, i: nat, k: nat) {
    && i <= |s| && k <= room <= |now| == |before|
    && Translate(s, room).cps == now[..k] + Translate(s[i..], room - k).cps
    && Translate(s, room).malformed == Translate(s[i..], room - k).malformed
    && now[k..] == before[k..]
  }

  lemma StoreOne(before: seq<nat>, now: seq<nat>, k: nat, x: nat, rest: seq<nat>)
    requires k < |now| == |before| && now[k..] == before[k..]
    ensures now[..k] + ([x] + rest) == now[k := x][..k + 1] + rest
    ensures now[k := x][k + 1..] == before[k + 1..]
  {
    assert now[k := x][k + 1..] == now[k..][1..];
  }

  lemma StoredMore(s: seq<byte>, room: nat, before: seq<nat>, now: seq<nat>, i: nat, k: nat)
    requires Stored(s, room, before, now, i, k) && i < |s| && k < room && ReadOne(s[i..]).Read?
    ensures var r := ReadOne(s[i..]); Stored(s, room, before, now[k := r.cp], i + r.len, k + 1)
  {
    var r := ReadOne(s[i..]);
    Continues(s[i..], room - k);
    assert s[i..][r.len..] == s[i + r.len..];
    StoreOne(before, now, k, r.cp, Translate(s[i + r.len..], room - k - 1).cps);
  }

  lemma StoredAll(s: seq<byte>, room: nat, before: seq<nat>, now: seq<nat>, i: nat, k: nat)
    requires Stored(s, room, before, now, i, k)
    requires i == |s| || k == room || !ReadOne(s[i..]).Read?
    ensures Translate(s, room) == Outcome(now[..k], i < |s| && k < room && ReadOne(s[i..]).Unknown?)
    ensures now[k..] == before[k..]
  {
    assert now[..k] + [] == now[..k];
  }

  /** unitrans_utf8_to_sucs. */
  method Utf8ToSucs(input: Pointer<seq<byte>>, out: array?<nat>, maxOut: nat, hasWritten: bool)
    returns (st: Status, written: Written)
    requires out != null ==> maxOut <= out.Length
    modifies out
    ensures st != ERR_TRAP_RANGE
    ensures st == ERR_INVALID_UTF8 ==> written == Untouched
    ensures input.Null? || out == null || !hasWritten ==>
            st == ERR_INVALID_UTF8 && (out != null ==> out[..] == old(out[..]))
    ensures input.To? && out != null && hasWritten ==>
              var r := Translate(input.target, maxOut);
              && st == StatusOf(r, maxOut)
              && (st != ERR_INVALID_UTF8 ==> written == Set(|r.cps|))
              && out[..|r.cps|] == r.cps && out[|r.cps|..] == old(out[|r.cps|..])
  {
    if input.Null? || out == null || !hasWritten { return ERR_INVALID_UTF8, Untouched; }
    st, written := ReadAll(input.target, out, maxOut);
  }

  /** The loop of unitrans_utf8_to_sucs. */
  method ReadAll(input: seq<byte>, out: array<nat>, maxOut: nat) returns (st: Status, written: Written)
    requires maxOut <= out.Length
    modifies out
    ensures st == StatusOf(Translate(input, maxOut), maxOut) && st != ERR_TRAP_RANGE
    ensures written == if st == ERR_INVALID_UTF8 then Untouched else Set(|Translate(input, maxOut).cps|)
    ensures out[..|Translate(input, maxOut).cps|] == Translate(input, maxOut).cps
    ensures out[|Translate(input, maxOut).cps|..] == old(out[|Translate(input, maxOut).cps|..])
  {
    var i: nat, k: nat := 0, 0;
    assert input[0..] == input;
    ghost var before := out[..];
    while i < |input| && k < maxOut
      invariant Stored(input, maxOut, before, out[..], i, k)
      decreases |input| - i
    {
      var step := ReadOne(input[i..]);
      if step.Truncated? { break; }
      if step.Unknown? {
        StoredAll(input, maxOut, before, out[..], i, k);
        return ERR_INVALID_UTF8, Untouched;
      }
      ReadRange(input[i..]);
      assert step.cp < TRAP_BASE <= TRAP_LIMIT;
      StoredMore(input, maxOut, before, out[..], i, k);
      out[k] := step.cp;
      i, k := i + step.len, k + 1;
    }
    StoredAll(input, maxOut, before, out[..], i, k);
    written := Set(k);
    st := if k < maxOut then OK else ERR_BUFFER_FULL;
  }

  // ---- codepoints to UTF-8 ---------------------------------------------------------------

  /** The codepoints the translation keeps; others are skipped without a report. */
  function Kept(cps: seq<nat>): seq<nat> {
    if cps == [] then []
    else if cps[0] <= UNICODE_MAX then [cps[0]] + Kept(cps[1..])
    else Kept(cps[1..])
  }

  /** Encodings written until one does not fit. */
  function Emit(cps: seq<nat>, room: nat): (s: seq<byte>)
    ensures |s| <= room
  {
    if cps == [] then []
    else if cps[0] > UNICODE_MAX then Emit(cps[1..], room)
    else if Length(cps[0]) > room then []
    else Enc(cps[0]) + Emit(cps[1..], room - Length(cps[0]))
  }

  /** The bytes of the forms in section 3 of RFC 3629. */
  lemma EncBytes(cp: nat)
    requires cp <= UNICODE_MAX
    ensures cp < 0x80 ==> Enc(cp) == [cp]
    ensures 0x80 <= cp < 0x800 ==> Enc(cp) == [0xC0 + cp / 0x40, 0x80 + cp % 0x40]
    ensures 0x800 <= cp < 0x1_0000 ==> Enc(cp) == [0xE0 + cp / 0x1000, 0x80 + cp / 0x40 % 0x40, 0x80 + cp % 0x40]
    ensures 0x1_0000 <= cp ==>
              Enc(cp) == [0xF0 + cp / 0x4_0000, 0x80 + cp / 0x1000 % 0x40, 0x80 + cp / 0x40 % 0x40, 0x80 + cp % 0x40]
  {
    Powers(cp);
    var a, b := cp / 64, cp / 64 / 64;
    assert Tail(cp, 1) == Tail(a, 0) + [0x80 + cp % 64];
    assert Tail(cp, 2) == Tail(a, 1) + [0x80 + cp % 64] && Tail(a, 1) == Tail(b, 0) + [0x80 + a % 64];
    assert Tail(cp, 3) == Tail(a, 2) + [0x80 + cp % 64] && Tail(a, 2) == Tail(b, 1) + [0x80 + a % 64];
    assert Tail(b, 1) == Tail(b / 64, 0) + [0x80 + b % 64];
    assert b == cp / 0x1000;
  }

  /** One codepoint at `at`. */
  method EmitOne(cp: nat, out: array<byte>, at: nat) returns (n: nat)
    requires cp <= UNICODE_MAX && at + Length(cp) <= out.Length
    modifies out
    ensures n == Length(cp)
    ensures out[..] == Splice(old(out[..]), at, Enc(cp))
  {
    EncBytes(cp);
    if cp < 0x80 {
      out[at] := cp;
      n := 1;
    } else if cp < 0x800 {
      out[at] := 0xC0 + cp / 0x40;
      out[at + 1] := 0x80 + cp % 0x40;
      n := 2;
    } else if cp < 0x1_0000 {
      out[at] := 0xE0 + cp / 0x1000;
      out[at + 1] := 0x80 + cp / 0x40 % 0x40;
      out[at + 2] := 0x80 + cp % 0x40;
      n := 3;
    } else {
      out[at] := 0xF0 + cp / 0x4_0000;
      out[at + 1] := 0x80 + cp / 0x1000 % 0x40;
      out[at + 2] := 0x80 + cp / 0x40 % 0x40;
      out[at + 3] := 0x80 + cp % 0x40;
      n := 4;
    }
  }

  /** unitrans_sucs_to_sutf8. */
  method SucsToSutf8(input: Pointer<seq<nat>>, out: array?<byte>, maxOut: nat, hasWritten: bool)
    returns (st: Status, written: Written)
    requires out != null ==> maxOut <= out.Length
    modifies out
    ensures st == OK <==> input.To? && out != null && hasWritten
    ensures st != OK ==> st == ERR_INVALID_UTF8 && written == Untouched && (out != null ==> out[..] == old(out[..]))
    ensures st == OK ==>
              var s := Emit(input.target, maxOut);
              written == Set(|s|) && out[..|s|] == s && out[|s|..] == old(out[|s|..])
  {
    if input.Null? || out == null || !hasWritten { return ERR_INVALID_UTF8, Untouched; }
    var n := WriteAll(input.target, out, maxOut);
    st, written := OK, Set(n);
  }

  /** The loop of unitrans_sucs_to_sutf8. */
  method WriteAll(input: seq<nat>, out: array<byte>, maxOut: nat) returns (written: nat)
    requires maxOut <= out.Length
    modifies out
    ensures written == |Emit(input, maxOut)|
    ensures out[..written] == Emit(input, maxOut) && out[written..] == old(out[written..])
  {
    written := 0;
    var i := 0;
    assert input[0..] == input;
    while i < |input|
      invariant 0 <= i <= |input| && 0 <= written <= maxOut
      invariant Emit(input, maxOut) == out[..written] + Emit(input[i..], maxOut - written)
      invariant out[written..] == old(out[written..])
    {
      var cp := input[i];
      assert input[i..][1..] == input[i + 1..];
      if cp <= UNICODE_MAX {
        if written + Length(cp) > maxOut { break; }
        ghost var before := out[..];
        var n := EmitOne(cp, out, written);
        assert out[..written + n] == before[..written] + Enc(cp);
        assert out[written + n..] == before[written + n..] == before[written..][n..];
        written := written + n;
      }
      i := i + 1;
    }
    assert Emit(input, maxOut) == out[..written];
  }

  // ---- what the translations guarantee --------------------------------------------------------

  /** With a short buffer the output encodes whole codepoints of a prefix of the input, and that
      prefix ends only at the end or before the first kept codepoint that does not fit. */
  lemma {:induction false} EmitIsPrefix(cps: seq<nat>, room: nat) returns (k: nat)
    ensures k <= |cps| && Emit(cps, room) == EncodeAll(Enc, Kept(cps[..k]))
    ensures k < |cps| ==> cps[k] <= UNICODE_MAX && |Emit(cps, room)| + Length(cps[k]) > room
  {
    if cps == [] || (cps[0] <= UNICODE_MAX && Length(cps[0]) > room) {
      k := 0;
    } else {
      var n := if cps[0] <= UNICODE_MAX then Length(cps[0]) else 0;
      var j := EmitIsPrefix(cps[1..], room - n);
      k := j + 1;
      assert cps[..k][1..] == cps[1..][..j];
      if cps[0] <= UNICODE_MAX { assert Kept(cps[..k])[1..] == Kept(cps[1..][..j]); }
    }
  }

  /** Everything is written exactly when it fits. */
  lemma {:induction false} EmitsAllIff(cps: seq<nat>, room: nat)
    ensures Emit(cps, room) == EncodeAll(Enc, Kept(cps)) <==> |EncodeAll(Enc, Kept(cps))| <= room
  {
    if cps == [] || |EncodeAll(Enc, Kept(cps))| > room {
    } else if cps[0] <= UNICODE_MAX {
      assert Kept(cps)[1..] == Kept(cps[1..]);
      EmitsAllIff(cps[1..], room - Length(cps[0]));
    } else {
      EmitsAllIff(cps[1..], room);
    }
  }

  // ---- every input, byte by byte ---------------------------------------------------------------

  /** The length of the form that begins with `b`; 0x80 to 0xBF and 0xF8 to 0xFF begin none. */
  function FormLength(b: byte): nat {
    if b <= 0x7F then 1 else if b <= 0xBF then 0 else if b <= 0xDF then 2 else if b <= 0xEF then 3
    else if b <= 0xF7 then 4 else 0
  }

  /** The codepoint of a whole form, its continuation bytes taken as they are. */
  function FormValue(f: seq<byte>): int
    requires f != [] && |f| == FormLength(f[0])
  {
    var x: int := f[0];
    if |f| == 1 then x
    else if |f| == 2 then (x - 0xC0) * 0x40 + Low6(f[1])
    else if |f| == 3 then (x - 0xE0) * 0x1000 + Low6(f[1]) * 0x40 + Low6(f[2])
    else (x - 0xF0) * 0x4_0000 + Low6(f[1]) * 0x1000 + Low6(f[2]) * 0x40 + Low6(f[3])
  }

  function Low6(b: byte): int {
    b % 0x40
  }

  lemma ReadOneIs(s: seq<byte>)
    requires s != []
    ensures ReadOne(s) == if FormLength(s[0]) == 0 then Unknown
                          else if |s| < FormLength(s[0]) then Truncated
                          else Read(FormValue(s[..FormLength(s[0])]), FormLength(s[0]))
  {
    var n := FormLength(s[0]);
    if 0 < n <= |s| { ShiftIs(s[0] - Marker(n), s[1..n], s[..n]); }
  }

  lemma ShiftIs(x: nat, t: seq<byte>, f: seq<byte>)
    requires f != [] && |f| == FormLength(f[0]) && x == f[0] - Marker(|f|) && t == f[1..]
    ensures Shift(x, t) == FormValue(f)
  {
    if |t| >= 1 { assert Shift(x, t) == Shift(x, t[..|t| - 1]) * 64 + t[|t| - 1] % 64; }
    if |t| >= 2 { assert Shift(x, t[..|t| - 1]) == Shift(x, t[..|t| - 1][..|t| - 2]) * 64 + t[|t| - 2] % 64; }
    if |t| == 3 { assert t[..2][..1] == t[..1] && Shift(x, t[..1]) == Shift(x, t[..1][..0]) * 64 + t[0] % 64; }
  }

  /** Whole forms begin at these positions, each where the one before it ends; the last position is
      where they end. */
  ghost predicate Forms(s: seq<byte>, at: nat, ps: seq<nat>) {
    && ps != [] && ps[0] == at <= |s|
    && forall k :: 0 <= k < |ps| - 1 ==>
         ps[k] < |s| && FormLength(s[ps[k]]) > 0 && ps[k + 1] == ps[k] + FormLength(s[ps[k]]) <= |s|
  }

  /** The codepoints `cps` are those of the forms. */
  ghost predicate Values(s: seq<byte>, at: nat, ps: seq<nat>, cps: seq<nat>)
    requires Forms(s, at, ps)
  {
    |ps| == |cps| + 1 && forall k :: 0 <= k < |cps| ==> cps[k] == FormValue(s[ps[k]..ps[k + 1]])
  }

  /** A byte that begins no form. */
  predicate BeginsNone(s: seq<byte>, e: nat) {
    e < |s| && (0x80 <= s[e] <= 0xBF || 0xF8 <= s[e])
  }

  /** Nothing more, or only part of a form. */
  predicate IsCutOff(s: seq<byte>, e: nat) {
    e == |s| || (e < |s| && !BeginsNone(s, e) && |s| < e + FormLength(s[e]))
  }

  /** The outcome is that of whole forms at positions `ps`, from `at` on. */
  ghost predicate Explains(s: seq<byte>, at: nat, ps: seq<nat>, r: Outcome, room: nat) {
    && Forms(s, at, ps) && Values(s, at, ps, r.cps)
    && (r.malformed <==> |r.cps| < room && BeginsNone(s, ps[|ps| - 1]))
    && (!r.malformed <==> |r.cps| == room || IsCutOff(s, ps[|ps| - 1]))
  }

  lemma {:induction false} TranslateFrom(s: seq<byte>, at: nat, room: nat, r: Outcome) returns (ps: seq<nat>)
    requires at <= |s| && r == Translate(s[at..], room)
    ensures Explains(s, at, ps, r, room)
    decreases |s| - at
  {
    if at == |s| || room == 0 || !ReadOne(s[at..]).Read? {
      ps := [at];
      NoForm(s, at, room);
    } else {
      var n, cp, more := FirstForm(s, at, room, r);
      var rest := TranslateFrom(s, at + n, room - 1, more);
      ps := [at] + rest;
      MoreForms(s, at, n, rest, cp, more, room);
    }
  }

  lemma FirstForm(s: seq<byte>, at: nat, room: nat, r: Outcome) returns (n: nat, cp: nat, more: Outcome)
    requires at < |s| && room > 0 && ReadOne(s[at..]).Read? && r == Translate(s[at..], room)
    ensures n == FormLength(s[at]) && 0 < n && at + n <= |s| && cp == FormValue(s[at..at + n])
    ensures more == Translate(s[at + n..], room - 1) && r == Outcome([cp] + more.cps, more.malformed)
  {
    var t := s[at..];
    n := FormLength(t[0]);
    ReadOneIs(t);
    cp := ReadOne(t).cp;
    Continues(t, room);
    assert t[n..] == s[at + n..] && t[..n] == s[at..at + n];
    more := Translate(s[at + n..], room - 1);
  }

  lemma MoreForms(s: seq<byte>, at: nat, n: nat, rest: seq<nat>, cp: nat, r: Outcome, room: nat)
    requires at < |s| && n == FormLength(s[at]) && 0 < n && at + n <= |s| && cp == FormValue(s[at..at + n])
    requires room > 0 && Explains(s, at + n, rest, r, room - 1)
    ensures Explains(s, at, [at] + rest, Outcome([cp] + r.cps, r.malformed), room)
  {
    FormFirst(s, at, n, rest, cp, r.cps);
    assert ([at] + rest)[|rest|] == rest[|rest| - 1];
  }

  lemma NoForm(s: seq<byte>, at: nat, room: nat)
    requires at <= |s| && (at == |s| || room == 0 || !ReadOne(s[at..]).Read?)
    ensures Explains(s, at, [at], Translate(s[at..], room), room)
  {
    if at < |s| { ReadOneIs(s[at..]); }
  }

  lemma FormFirst(s: seq<byte>, at: nat, n: nat, rest: seq<nat>, cp: nat, cps: seq<nat>)
    requires at < |s| && n == FormLength(s[at]) && 0 < n && at + n <= |s| && cp == FormValue(s[at..at + n])
    requires Forms(s, at + n, rest) && Values(s, at + n, rest, cps)
    ensures Forms(s, at, [at] + rest) && Values(s, at, [at] + rest, [cp] + cps)
  {
    var ps := [at] + rest;
    forall k | 0 <= k < |ps| - 1
      ensures ps[k] < |s| && FormLength(s[ps[k]]) > 0 && ps[k + 1] == ps[k] + FormLength(s[ps[k]]) <= |s|
    {
      if k > 0 { assert ps[k] == rest[k - 1] && ps[k + 1] == rest[(k - 1) + 1]; }
    }
    forall k | 0 <= k < |cps| + 1 ensures ([cp] + cps)[k] == FormValue(s[ps[k]..ps[k + 1]]) {
      if k > 0 { assert ps[k] == rest[k - 1] && ps[k + 1] == rest[(k - 1) + 1] && cps[k - 1] == ([cp] + cps)[k]; }
    }
  }

  /** Every input and buffer: the result is the whole forms from the front, as many as there is room
      for. It is an error exactly when, with room left, the next byte begins no form, and OK exactly
      when, with room left, nothing or only part of a form is left. */
  lemma TranslateIs(s: seq<byte>, room: nat) returns (ps: seq<nat>)
    ensures Forms(s, 0, ps) && Values(s, 0, ps, Translate(s, room).cps)
    ensures var n, e, st := |ps| - 1, ps[|ps| - 1], StatusOf(Translate(s, room), room);
            && n <= room
            && (st == ERR_INVALID_UTF8 <==> n < room && BeginsNone(s, e))
            && (st == OK <==> n < room && IsCutOff(s, e))
            && (st == ERR_BUFFER_FULL <==> n == room)
  {
    assert s[0..] == s;
    ps := TranslateFrom(s, 0, room, Translate(s, room));
  }

  /** Where the strict decoder accepts a form of at most four bytes, the lenient one agrees. */
  lemma StrictAgrees(s: seq<byte>)
    requires Decode(s).Good? && Decode(s).cp < 0x20_0000
    ensures ReadOne(s) == Read(Decode(s).cp, Decode(s).len)
  {
    DecodedIsEnc(s);
  }

  function Min(a: nat, b: nat): nat {
    if a < b then a else b
  }

  /** On every stream the strict decoder accepts, within 21 bits, the translation yields the
      same codepoints, as many as fit. */
  lemma {:induction false} TranslateStrict(s: seq<byte>, room: nat)
    requires DecodeAll(Decode, s).Stream?
    requires forall i :: 0 <= i < |DecodeAll(Decode, s).cps| ==> DecodeAll(Decode, s).cps[i] < 0x20_0000
    ensures var cps := DecodeAll(Decode, s).cps; Translate(s, room) == Outcome(cps[..Min(room, |cps|)], false)
    decreases |s|
  {
    if s == [] || room == 0 {
    } else {
      var d := Decode(s);
      var rest := DecodeAll(Decode, s[d.len..]).cps;
      assert DecodeAll(Decode, s).cps == [d.cp] + rest && DecodeAll(Decode, s).cps[0] == d.cp;
      assert forall i :: 0 <= i < |rest| ==> rest[i] == ([d.cp] + rest)[i + 1];
      StrictAgrees(s);
      TranslateStrict(s[d.len..], room - 1);
      assert ([d.cp] + rest)[..Min(room, 1 + |rest|)] == [d.cp] + rest[..Min(room - 1, |rest|)];
    }
  }

  /** Through UTF-8 and back: every codepoint up to 0x10FFFF survives, in order, as many as the
      second buffer holds, and the strict decoder recovers the same sequence. */
  lemma RoundTrip(cps: seq<nat>, room: nat, room': nat)
    requires forall i :: 0 <= i < |cps| ==> cps[i] <= UNICODE_MAX
    requires |EncodeAll(Enc, cps)| <= room
    ensures DecodeAll(Decode, Emit(cps, room)) == Stream(cps)
    ensures Translate(Emit(cps, room), room') == Outcome(cps[..Min(room', |cps|)], false)
    ensures StatusOf(Translate(Emit(cps, room), room'), room') == OK <==> |cps| < room'
  {
    KeptAll(cps);
    EmitsAllIff(cps, room);
    IsCanonical();
    DecodeEncoded(Enc, Decode, cps);
    TranslateStrict(EncodeAll(Enc, cps), room');
  }

  lemma {:induction false} KeptAll(cps: seq<nat>)
    requires forall i :: 0 <= i < |cps| ==> cps[i] <= UNICODE_MAX
    ensures Kept(cps) == cps
  {
    if cps == [] {
    } else {
      KeptAll(cps[1..]);
    }
  }
}

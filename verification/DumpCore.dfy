/** The producer and the validator of Extensions/bdmp_core.h, working on buffers. */
module DumpCore {
  import opened Bytes
  import opened LittleEndian
  import opened Crc32c
  import opened DumpFormat
  import opened DumpProofs

  // ---- filling a buffer in order --------------------------------------------------------

  /** The first `total` bytes are `x` followed by zeros. */
  ghost predicate Filled(s: seq<byte>, x: seq<byte>, total: nat) {
    |x| <= total <= |s| && s[..|x|] == x && forall i :: |x| <= i < total ==> s[i] == 0
  }

  /** Storing `y` after skipping `gap` zeros. */
  lemma FilledNext(s: seq<byte>, x: seq<byte>, total: nat, gap: nat, y: seq<byte>)
    requires Filled(s, x, total) && |x| + gap + |y| <= total
    ensures Filled(Splice(s, |x| + gap, y), x + Zeros(gap) + y, total)
    ensures Splice(s, |x| + gap, y)[total..] == s[total..]
  {
  }

  method PutBytes(out: array<byte>, at: nat, y: seq<byte>)
    requires at + |y| <= out.Length
    modifies out
    ensures out[..] == Splice(old(out[..]), at, y)
  {
    var i := 0;
    while i < |y|
      invariant 0 <= i <= |y|
      invariant out[..] == Splice(old(out[..]), at, y[..i])
    {
      out[at + i] := y[i];
      i := i + 1;
    }
    assert y[..i] == y;
  }

  /** Appends `y`. */
  method Put(out: array<byte>, total: nat, ghost x: seq<byte>, at: nat, y: seq<byte>)
    requires Filled(out[..], x, total) && at == |x| && at + |y| <= total
    modifies out
    ensures Filled(out[..], x + y, total) && out[total..] == old(out[total..])
  {
    ghost var s := out[..];
    PutBytes(out, at, y);
    FilledNext(s, x, total, 0, y);
    assert x + Zeros(0) + y == x + y;
    assert out[total..] == out[..][total..] && s[total..] == old(out[total..]);
  }

  /** Skips `gap` zeros and appends `y`. */
  method PutAfterGap(out: array<byte>, total: nat, ghost x: seq<byte>, ghost gap: nat, at: nat, y: seq<byte>)
    requires Filled(out[..], x, total) && at == |x| + gap && at + |y| <= total
    modifies out
    ensures Filled(out[..], x + Zeros(gap) + y, total) && out[total..] == old(out[total..])
  {
    ghost var s := out[..];
    PutBytes(out, at, y);
    FilledNext(s, x, total, gap, y);
    assert out[total..] == out[..][total..] && s[total..] == old(out[total..]);
  }

  method ZeroFill(out: array<byte>, total: nat)
    requires total <= out.Length
    modifies out
    ensures Filled(out[..], [], total) && out[total..] == old(out[total..])
  {
    var i := 0;
    while i < total
      invariant 0 <= i <= total
      invariant forall j :: 0 <= j < i ==> out[j] == 0
      invariant out[total..] == old(out[total..])
    {
      out[i] := 0;
      i := i + 1;
    }
  }

  // ---- the producer ------------------------------------------------------------------------

  /** Appends four fields. */
  method PutFour(out: array<byte>, total: nat, ghost x: seq<byte>, at: nat,
                 a: seq<byte>, b: seq<byte>, c: seq<byte>, d: seq<byte>)
    requires Filled(out[..], x, total) && at == |x| && at + |a| + |b| + |c| + |d| <= total
    modifies out
    ensures Filled(out[..], x + (a + b + c + d), total) && out[total..] == old(out[total..])
  {
    Put(out, total, x, at, a);
    Put(out, total, x + a, at + |a|, b);
    Put(out, total, x + a + b, at + |a| + |b|, c);
    Put(out, total, x + a + b + c, at + |a| + |b| + |c|, d);
    assert x + a + b + c + d == x + (a + b + c + d);
  }

  method PutPreamble(out: array<byte>, total: nat)
    requires Filled(out[..], [], total) && HEADER_SIZE <= total
    modifies out
    ensures Filled(out[..], Preamble(total), total) && out[total..] == old(out[total..])
  {
    PutFour(out, total, [], 0x00,
            LeBytes(MAGIC, 4), LeBytes(FORMAT_VERSION, 2), LeBytes(HEADER_SIZE, 2), LeBytes(total, 4));
    assert [] + Preamble(total) == Preamble(total);
  }

  method PutFault(out: array<byte>, total: nat, ghost x: seq<byte>, f: Fault)
    requires Filled(out[..], x, total) && |x| == 0x10 && HEADER_SIZE <= total
    modifies out
    ensures Filled(out[..], x + FaultBytes(f), total) && out[total..] == old(out[total..])
  {
    PutFour(out, total, x, 0x10, LeBytes(f.bancode, 4), LeBytes(f.cpuId, 4), LeBytes(f.tsc, 8), LeBytes(f.cr2, 8));
  }

  method PutRegion(out: array<byte>, total: nat, ghost x: seq<byte>, trapCount: nat, memOff: nat, memSize: nat)
    requires Filled(out[..], x, total) && |x| == 0x28 && HEADER_SIZE <= total
    modifies out
    ensures Filled(out[..], x + RegionBytes(trapCount, memOff, memSize), total) && out[total..] == old(out[total..])
  {
    PutFour(out, total, x, 0x28, LeBytes(trapCount, 4), LeBytes(0, 8), LeBytes(memOff, 4), LeBytes(memSize, 8));
  }

  method PutMiddle(out: array<byte>, total: nat, ghost x: seq<byte>, f: Fault, trapCount: nat, memOff: nat,
                   memSize: nat)
    requires Filled(out[..], x, total) && |x| == 0x10 && HEADER_SIZE <= total
    modifies out
    ensures Filled(out[..], x + Middle(f, trapCount, memOff, memSize), total) && out[total..] == old(out[total..])
  {
    PutFault(out, total, x, f);
    PutRegion(out, total, x + FaultBytes(f), trapCount, memOff, memSize);
    assert x + FaultBytes(f) + RegionBytes(trapCount, memOff, memSize) == x + Middle(f, trapCount, memOff, memSize);
  }

  /** The header up to and including the dump checksum, both checksums still zero. */
  method PutHeader(out: array<byte>, total: nat, f: Fault, trapCount: nat, memOff: nat, memSize: nat)
    requires Filled(out[..], [], total) && HEADER_SIZE <= total
    modifies out
    ensures Filled(out[..], Preamble(total) + NONE + Middle(f, trapCount, memOff, memSize) + NONE, total)
    ensures out[total..] == old(out[total..])
  {
    PutPreamble(out, total);
    Put(out, total, Preamble(total), 0x0C, NONE);
    PutMiddle(out, total, Preamble(total) + NONE, f, trapCount, memOff, memSize);
    Put(out, total, Preamble(total) + NONE + Middle(f, trapCount, memOff, memSize), 0x40, NONE);
  }

  /** Register frame, trap table and memory image. */
  method PutBody(out: array<byte>, total: nat, ghost head: seq<byte>, frame: CpuFrame, traps: seq<TrapRecord>,
                 memOff: nat, mem: seq<byte>)
    requires Filled(out[..], head, total) && |head| == 0x44
    requires |traps| <= MAX_TRAPS && memOff == MemoryOffset(|traps|) && total == memOff + |mem|
    modifies out
    ensures Filled(out[..], head + Zeros(188) + WordsBytes(frame) + TrapsBytes(traps) + Zeros(Gap(|traps|)) + mem,
            total)
    ensures out[total..] == old(out[total..])
  {
    MemoryOffsetIs(|traps|);
    ghost var x := head + Zeros(188) + WordsBytes(frame);
    PutAfterGap(out, total, head, 188, HEADER_SIZE, WordsBytes(frame));
    Put(out, total, x, TRAP_TABLE_OFFSET, TrapsBytes(traps));
    PutAfterGap(out, total, x + TrapsBytes(traps), Gap(|traps|), memOff, mem);
  }

  /** The checksums go in last: first over everything, then over the header as it then is. */
  method PutSums(out: array<byte>, total: nat, ghost pre: seq<byte>, ghost mid: seq<byte>, ghost rest: seq<byte>)
    requires |pre| == 0x0C && |mid| == 0x30 && |rest| >= 188 && total == 0x44 + |rest| <= out.Length
    requires out[..total] == File(pre, NONE, mid, NONE, rest)
    modifies out
    ensures out[..total] == Seal(Crc32C, pre, mid, rest) && out[total..] == old(out[total..])
  {
    ghost var s := out[..];
    var crc := Pass(CASTAGNOLI, ONES, out, 0, total);
    assert out[0..0 + total] == out[..total];
    ghost var dc := DumpSum(Crc32C, pre, mid, rest);
    PutBytes(out, 0x40, Store(Not(crc)));
    WithSum(s, total, pre, NONE, mid, NONE, rest, dc);
    ghost var t := out[..];
    crc := Pass(CASTAGNOLI, ONES, out, 0x10, HEADER_SIZE - 0x10);
    assert out[0x10..0x10 + (HEADER_SIZE - 0x10)] == t[0x10..0x100];
    PutBytes(out, 0x0C, Store(Not(crc)));
    WithHeaderSum(t, total, pre, NONE, mid, dc, rest, HeaderSum(Crc32C, mid, dc, rest));
    assert out[..total] == out[..][..total] && out[total..] == out[..][total..];
  }

  lemma WithSum(s: seq<byte>, total: nat, pre: seq<byte>, hc: seq<byte>, mid: seq<byte>, dc: seq<byte>,
                rest: seq<byte>, dc': seq<byte>)
    requires |pre| == 0x0C && |hc| == 4 && |mid| == 0x30 && |dc| == 4 == |dc'| && |rest| >= 188
    requires total == 0x44 + |rest| <= |s| && s[..total] == File(pre, hc, mid, dc, rest)
    ensures Splice(s, 0x40, dc')[..total] == File(pre, hc, mid, dc', rest)
            && Splice(s, 0x40, dc')[total..] == s[total..]
    ensures Splice(s, 0x40, dc')[0x10..0x100] == mid + dc' + rest[..188]
  {
    assert s[..0x40] == s[..total][..0x40] == pre + hc + mid;
    assert s[0x44..total] == s[..total][0x44..] == rest;
    var t := Splice(s, 0x40, dc');
    assert t[..total] == s[..0x40] + dc' + s[0x44..total];
    PartsAreFile(t, pre, hc, mid, dc', rest);
  }

  lemma WithHeaderSum(s: seq<byte>, total: nat, pre: seq<byte>, hc: seq<byte>, mid: seq<byte>, dc: seq<byte>,
                      rest: seq<byte>, hc': seq<byte>)
    requires |pre| == 0x0C && |hc| == 4 == |hc'| && |mid| == 0x30 && |dc| == 4
    requires total == 0x44 + |rest| <= |s| && s[..total] == File(pre, hc, mid, dc, rest)
    ensures Splice(s, 0x0C, hc')[..total] == File(pre, hc', mid, dc, rest)
            && Splice(s, 0x0C, hc')[total..] == s[total..]
  {
    assert s[..0x0C] == s[..total][..0x0C] == pre;
    assert s[0x10..total] == s[..total][0x10..] == mid + dc + rest;
    assert Splice(s, 0x0C, hc')[..total] == s[..0x0C] + hc' + s[0x10..total];
  }

  /** When bdmp_build declines, given non-null buffers hold what they should. */
  predicate Refuses(out: bool, cap: nat, frame: bool, traps: bool, trapCount: nat, mem: bool, memSize: nat) {
    || !out || !frame || trapCount > MAX_TRAPS
    || (trapCount != 0 && !traps) || (memSize != 0 && !mem)
    || MemoryOffset(trapCount) + memSize > cap
  }

  /** The checks of bdmp_build, and the size it then announces; sums are 32-bit. */
  method SizeToBuild(out: bool, cap: nat, frame: bool, traps: bool, trapCount: nat, mem: bool, memSize: nat)
    returns (total: nat)
    requires cap < U32 && trapCount < U32 && memSize < U32
    ensures total == if Refuses(out, cap, frame, traps, trapCount, mem, memSize) then 0
            else MemoryOffset(trapCount) + memSize
    ensures total != 0 <==> !Refuses(out, cap, frame, traps, trapCount, mem, memSize)
  {
    if !out || !frame { return 0; }
    if trapCount > MAX_TRAPS { return 0; }
    if trapCount != 0 && !traps { return 0; }
    if memSize != 0 && !mem { return 0; }
    var memOff := MemoryOffset(trapCount);
    MemoryOffsetIs(trapCount);
    total := (memOff + memSize) % U32;
    if total < memOff { return 0; }
    if total > cap { return 0; }
  }

  /** The crash the arguments of bdmp_build describe. */
  ghost function Described(frame: CpuFrame, traps: Pointer<seq<TrapRecord>>, trapCount: nat, fault: Fault,
                           mem: seq<byte>, memSize: nat): Crash
    requires trapCount != 0 ==> traps.To? && trapCount <= |traps.target|
    requires memSize <= |mem|
  {
    Crash(fault, frame, if trapCount == 0 then [] else traps.target[..trapCount], mem[..memSize])
  }

  /** bdmp_build. */
  method Build(out: array?<byte>, cap: nat, frame: Pointer<CpuFrame>, traps: Pointer<seq<TrapRecord>>, trapCount: nat,
               fault: Fault, mem: array?<byte>, memSize: nat)
    returns (total: nat)
    requires cap < U32 && trapCount < U32 && memSize < U32 && FaultOk(fault)
    requires out != null ==> cap <= out.Length
    requires traps.To? ==> trapCount <= |traps.target| && forall i :: 0 <= i < trapCount ==> TrapOk(traps.target[i])
    requires mem != null ==> memSize <= mem.Length && mem != out
    modifies out
    ensures total == 0 <==> Refuses(out != null, cap, frame.To?, traps.To?, trapCount, mem != null, memSize)
    ensures total == 0 && out != null ==> out[..] == old(out[..])
    ensures total != 0 ==>
              var c := Described(frame.target, traps, trapCount, fault, if mem == null then [] else mem[..], memSize);
              && CrashOk(c) && total == DumpSize(c) <= cap
              && out[..total] == Image(Crc32C, c) && out[total..] == old(out[total..])
  {
    total := SizeToBuild(out != null, cap, frame.To?, traps.To?, trapCount, mem != null, memSize);
    if total == 0 { return; }
    var c := Crash(fault, frame.target, if trapCount == 0 then [] else traps.target[..trapCount],
                   if memSize == 0 then [] else mem[..memSize]);
    assert c == Described(frame.target, traps, trapCount, fault, if mem == null then [] else mem[..], memSize);
    Produce(out, c);
  }

  /** Lays out the dump of `c`. */
  method Produce(out: array<byte>, c: Crash)
    requires CrashOk(c) && DumpSize(c) <= out.Length
    modifies out
    ensures out[..DumpSize(c)] == Image(Crc32C, c) && out[DumpSize(c)..] == old(out[DumpSize(c)..])
  {
    var total, trapCount, memOff := DumpSize(c), |c.traps|, MemoryOffset(|c.traps|);
    MemoryOffsetIs(trapCount);
    ZeroFill(out, total);
    PutHeader(out, total, c.fault, trapCount, memOff, |c.mem|);
    ghost var pre, mid := Preamble(total), Middle(c.fault, trapCount, memOff, |c.mem|);
    PutBody(out, total, pre + NONE + mid + NONE, c.frame, c.traps, memOff, c.mem);
    FilledIsFile(out[..], total, pre, mid, c);
    PutSums(out, total, pre, mid, Rest(c));
  }

  lemma FilledIsFile(s: seq<byte>, total: nat, pre: seq<byte>, mid: seq<byte>, c: Crash)
    requires |pre| == 0x0C && |mid| == 0x30 && CrashOk(c) && total == DumpSize(c)
    requires Filled(s, pre + NONE + mid + NONE + Zeros(188) + WordsBytes(c.frame) + TrapsBytes(c.traps)
                       + Zeros(Gap(|c.traps|)) + c.mem, total)
    ensures |Rest(c)| >= 188 && total == 0x44 + |Rest(c)| <= |s| && s[..total] == File(pre, NONE, mid, NONE, Rest(c))
  {
    MemoryOffsetIs(|c.traps|);
    RestParts(c);
    var head := pre + NONE + mid + NONE;
    assert head + Zeros(188) + WordsBytes(c.frame) + TrapsBytes(c.traps) + Zeros(Gap(|c.traps|)) + c.mem
           == head + Rest(c);
  }

  // ---- the validator -----------------------------------------------------------------------

  /** An unsigned little-endian field. */
  method LoadField(buf: array<byte>, at: nat, k: nat) returns (n: nat)
    requires at + k <= buf.Length
    ensures n == LeNat(buf[at..at + k])
  {
    n := 0;
    var i := k;
    while i > 0
      invariant 0 <= i <= k
      invariant n == LeNat(buf[at + i..at + k])
    {
      i := i - 1;
      assert buf[at + i..at + k][1..] == buf[at + i + 1..at + k];
      n := buf[at + i] + 0x100 * n;
    }
  }

  /** The checks before any checksum. */
  method CheckLayout(buf: array<byte>, len: nat) returns (ok: bool)
    requires len <= buf.Length
    ensures ok <==> LayoutOk(buf[..], len)
  {
    ghost var p := buf[..];
    if len < HEADER_SIZE { return false; }
    var magic := LoadField(buf, 0x00, 4);
    assert buf[0x00..0x00 + 4] == p[0x00..0x04];
    if magic != MAGIC { return false; }
    var version := LoadField(buf, 0x04, 2);
    assert buf[0x04..0x04 + 2] == p[0x04..0x06];
    if version != FORMAT_VERSION { return false; }
    var headerSize := LoadField(buf, 0x06, 2);
    assert buf[0x06..0x06 + 2] == p[0x06..0x08];
    if headerSize != HEADER_SIZE { return false; }
    var total := LoadField(buf, 0x08, 4);
    assert buf[0x08..0x08 + 4] == p[0x08..0x0C];
    if total < HEADER_SIZE || total > len { return false; }
    ok := CheckSizes(buf, total);
  }

  method CheckSizes(buf: array<byte>, total: nat) returns (ok: bool)
    requires HEADER_SIZE <= total <= buf.Length
    ensures ok <==> var p := buf[..];
                    && TrapCountField(p) <= MAX_TRAPS
                    && MemoryOffset(TrapCountField(p)) <= MemoryOffsetField(p) <= total
                    && (MemoryOffsetField(p) + MemorySizeField(p)) % U64 <= total
  {
    ghost var p := buf[..];
    var trapCount := LoadField(buf, 0x28, 4);
    var memOff := LoadField(buf, 0x34, 4);
    var memSize := LoadField(buf, 0x38, 8);
    assert buf[0x28..0x28 + 4] == p[0x28..0x2C] && buf[0x34..0x34 + 4] == p[0x34..0x38]
           && buf[0x38..0x38 + 8] == p[0x38..0x40];
    if trapCount > MAX_TRAPS { return false; }
    var minOff := MemoryOffset(trapCount);
    if memOff < minOff { return false; }
    if memOff > total { return false; }
    ok := (memOff + memSize) % U64 <= total;
  }

  /** One more pass over a running value. */
  method PassOn(poly: Poly, ghost start: Reg, ghost fed: seq<byte>, crc: Reg, data: array<byte>, from: nat, n: nat)
    returns (r: Reg)
    requires from + n <= data.Length && crc == Feed(poly, start, fed)
    ensures r == Feed(poly, start, fed + data[from..from + n])
  {
    r := Pass(poly, crc, data, from, n);
    FeedConcat(poly, start, fed, data[from..from + n]);
  }

  /** The running value over the file with both checksum fields held at zero, in five passes. */
  method BlankedPass(poly: Poly, start: Reg, buf: array<byte>, zero4: array<byte>, total: nat) returns (crc: Reg)
    requires HEADER_SIZE <= total <= buf.Length && zero4.Length == 4
    ensures crc == Feed(poly, start, File(buf[..0x0C], zero4[..], buf[0x10..0x40], zero4[..], buf[0x44..total]))
  {
    ghost var pre, mid, rest, none := buf[0..0 + 0x0C], buf[0x10..0x10 + 0x30], buf[0x44..0x44 + (total - 0x44)],
        zero4[0..0 + 4];
    crc := PassOn(poly, start, [], start, buf, 0, 0x0C);
    crc := PassOn(poly, start, [] + pre, crc, zero4, 0, 4);
    crc := PassOn(poly, start, [] + pre + none, crc, buf, 0x10, 0x30);
    crc := PassOn(poly, start, [] + pre + none + mid, crc, zero4, 0, 4);
    crc := PassOn(poly, start, [] + pre + none + mid + none, crc, buf, 0x44, total - 0x44);
    assert [] + pre + none + mid + none + rest
        == File(buf[..0x0C], zero4[..], buf[0x10..0x40], zero4[..], buf[0x44..total]);
  }

  method CheckSums(buf: array<byte>, total: nat) returns (ok: bool)
    requires HEADER_SIZE <= total <= buf.Length
    ensures ok <==> SumsOk(Crc32C, buf[..], total)
  {
    ghost var p := buf[..];
    assert p[0x10..0x100] == buf[0x10..0x100] && p[0x0C..0x10] == buf[0x0C..0x10] && p[0x40..0x44] == buf[0x40..0x44];
    assert p[..0x0C] == buf[..0x0C] && p[0x10..0x40] == buf[0x10..0x40] && p[0x44..total] == buf[0x44..total];
    var crc := Pass(CASTAGNOLI, ONES, buf, 0x10, HEADER_SIZE - 0x10);
    if Not(crc) != Load(buf[0x0C..0x10]) { return false; }
    var zero4 := new byte[4](_ => 0);
    assert zero4[..] == NONE;
    crc := BlankedPass(CASTAGNOLI, ONES, buf, zero4, total);
    ok := Not(crc) == Load(buf[0x40..0x44]);
  }

  /** bdmp_validate. */
  method Validate(buf: array?<byte>, len: nat) returns (ok: bool)
    requires buf != null ==> len <= buf.Length
    ensures ok <==> buf != null && Valid(Crc32C, buf[..], len)
  {
    if buf == null || len < HEADER_SIZE { return false; }
    ok := CheckLayout(buf, len);
    if !ok { return false; }
    var total := LoadField(buf, 0x08, 4);
    assert buf[0x08..0x08 + 4] == buf[..][0x08..0x0C];
    ok := CheckSums(buf, total);
  }

  // ---- producer and validator together ------------------------------------------------------

  /** What bdmp_build leaves in a buffer is accepted, for every length that covers it. */
  method BuildThenValidate(out: array<byte>, cap: nat, frame: CpuFrame, traps: seq<TrapRecord>, fault: Fault,
                           mem: array<byte>, len: nat)
    returns (total: nat, ok: bool)
    requires cap <= out.Length < U32 && mem != out && mem.Length < U32 && FaultOk(fault) && |traps| < U32
    requires forall i :: 0 <= i < |traps| ==> TrapOk(traps[i])
    modifies out
    ensures total != 0 && total <= len <= out.Length ==> ok
  {
    total := Build(out, cap, To(frame), To(traps), |traps|, fault, mem, mem.Length);
    ok := false;
    if total != 0 && total <= len <= out.Length {
      ok := Validate(out, len);
      ghost var c := Described(frame, To(traps), |traps|, fault, mem[..], mem.Length);
      assert Image(Crc32C, c) == out[..][..total];
      BuiltIsValid(Crc32C, c, out[..], len);
    }
  }
}

/** What the producer and the validator of crash dumps agree on. */
module DumpProofs {
  import opened Bytes
  import opened LittleEndian
  import opened Crc32c
  import opened DumpFormat

  // ---- parts ---------------------------------------------------------------------------

  /** The parts of a file found at their offsets. */
  ghost predicate HasParts(p: seq<byte>, pre: seq<byte>, hc: seq<byte>, mid: seq<byte>, dc: seq<byte>,
                           rest: seq<byte>) {
    && |pre| == 0x0C && |hc| == 4 && |mid| == 0x30 && |dc| == 4 && |p| >= 0x44 + |rest|
    && p[..0x0C] == pre && p[0x0C..0x10] == hc && p[0x10..0x40] == mid && p[0x40..0x44] == dc
    && p[0x44..0x44 + |rest|] == rest
  }

  lemma FileHasParts(pre: seq<byte>, hc: seq<byte>, mid: seq<byte>, dc: seq<byte>, rest: seq<byte>, extra: seq<byte>)
    requires |pre| == 0x0C && |hc| == 4 && |mid| == 0x30 && |dc| == 4
    ensures HasParts(File(pre, hc, mid, dc, rest) + extra, pre, hc, mid, dc, rest)
  {
  }

  lemma PartsAreFile(p: seq<byte>, pre: seq<byte>, hc: seq<byte>, mid: seq<byte>, dc: seq<byte>, rest: seq<byte>)
    requires HasParts(p, pre, hc, mid, dc, rest)
    ensures p[..0x44 + |rest|] == File(pre, hc, mid, dc, rest)
    ensures |rest| >= 188 ==> p[0x10..0x100] == mid + dc + rest[..188]
  {
  }

  lemma LoadIsStore(s: seq<byte>, r: Reg)
    requires |s| == 4
    ensures Load(s) == r <==> s == Store(r)
  {
    LoadStore(r);
    if Load(s) == r { LoadInjective(s, Store(r)); }
  }

  /** The checksums hold exactly when the file is its own contents, sealed: the two fields are
      determined by everything else, in spite of each window covering the other's field. */
  lemma SumsOkIffSealed(sum: Checksum, p: seq<byte>, total: nat)
    requires HEADER_SIZE <= total <= |p|
    ensures SumsOk(sum, p, total) <==> p[..total] == Seal(sum, p[..0x0C], p[0x10..0x40], p[0x44..total])
  {
    var pre, hc, mid, dc, rest := p[..0x0C], p[0x0C..0x10], p[0x10..0x40], p[0x40..0x44], p[0x44..total];
    assert HasParts(p, pre, hc, mid, dc, rest);
    PartsAreFile(p, pre, hc, mid, dc, rest);
    LoadIsStore(hc, sum(p[0x10..0x100]));
    LoadIsStore(dc, sum(File(pre, NONE, mid, NONE, rest)));
    var stored := DumpSum(sum, pre, mid, rest);
    assert SumsOk(sum, p, total) <==> dc == stored && hc == HeaderSum(sum, mid, dc, rest);
    if p[..total] == Seal(sum, pre, mid, rest) {
      FileHasParts(pre, HeaderSum(sum, mid, stored, rest), mid, stored, rest, []);
      SameFile(p, total, Seal(sum, pre, mid, rest));
    }
  }

  /** What the validator accepts, without checksums: files with a proper layout that are sealed.
      Nothing else is looked at, neither padding nor bytes after the memory region. */
  lemma ValidIff(sum: Checksum, p: seq<byte>, len: nat)
    ensures Valid(sum, p, len) <==>
              && LayoutOk(p, len)
              && p[..SizeField(p)] == Seal(sum, p[..0x0C], p[0x10..0x40], p[0x44..SizeField(p)])
  {
    if LayoutOk(p, len) { SumsOkIffSealed(sum, p, SizeField(p)); }
  }

  lemma SameFile(p: seq<byte>, total: nat, q: seq<byte>)
    requires HEADER_SIZE <= total <= |p| && p[..total] == q
    ensures p[0x0C..0x10] == (q + [])[0x0C..0x10] && p[0x40..0x44] == (q + [])[0x40..0x44]
  {
    assert q + [] == q;
  }

  // ---- fields ------------------------------------------------------------------------

  /** Bytes found at `off` in a part found at `at`. */
  lemma Within(p: seq<byte>, at: nat, part: seq<byte>, off: nat, n: nat)
    requires at + |part| <= |p| && p[at..at + |part|] == part && off + n <= |part|
    ensures p[at + off..at + off + n] == part[off..off + n]
  {
    assert forall i :: off <= i < off + n ==> part[i] == p[at + i];
  }

  lemma PreambleFields(p: seq<byte>, size: nat)
    requires |p| >= HEADER_SIZE && p[..0x0C] == Preamble(size) && size < U32
    ensures LeNat(p[0x00..0x04]) == MAGIC && LeNat(p[0x04..0x06]) == FORMAT_VERSION
    ensures LeNat(p[0x06..0x08]) == HEADER_SIZE && SizeField(p) == size
  {
    Limits();
    var pre := Preamble(size);
    Within(p, 0, pre, 0, 4);
    Within(p, 0, pre, 4, 2);
    Within(p, 0, pre, 6, 2);
    Within(p, 0, pre, 8, 4);
    assert pre[..4] == LeBytes(MAGIC, 4) && pre[4..6] == LeBytes(FORMAT_VERSION, 2);
    assert pre[6..8] == LeBytes(HEADER_SIZE, 2) && pre[8..] == LeBytes(size, 4);
    LeNatBytes(MAGIC, 4);
    LeNatBytes(FORMAT_VERSION, 2);
    LeNatBytes(HEADER_SIZE, 2);
    LeNatBytes(size, 4);
  }

  lemma RegionFields(p: seq<byte>, n: nat, off: nat, size: nat)
    requires |p| >= HEADER_SIZE && p[0x28..0x40] == RegionBytes(n, off, size)
    requires n < U32 && off < U32 && size < U64
    ensures TrapCountField(p) == n && MemoryOffsetField(p) == off && MemorySizeField(p) == size
  {
    Limits();
    var region := RegionBytes(n, off, size);
    Within(p, 0x28, region, 0, 4);
    Within(p, 0x28, region, 12, 4);
    Within(p, 0x28, region, 16, 8);
    assert region[..4] == LeBytes(n, 4) && region[12..16] == LeBytes(off, 4) && region[16..] == LeBytes(size, 8);
    LeNatBytes(n, 4);
    LeNatBytes(off, 4);
    LeNatBytes(size, 8);
  }

  /** The fault as the header records it. */
  function FaultField(p: seq<byte>): Fault
    requires |p| >= HEADER_SIZE
  {
    Fault(LeNat(p[0x10..0x14]), LeNat(p[0x14..0x18]), LeNat(p[0x18..0x20]), LeNat(p[0x20..0x28]))
  }

  lemma FaultFields(p: seq<byte>, f: Fault)
    requires |p| >= HEADER_SIZE && p[0x10..0x28] == FaultBytes(f) && FaultOk(f)
    ensures FaultField(p) == f
  {
    Limits();
    var fault := FaultBytes(f);
    Within(p, 0x10, fault, 0, 4);
    Within(p, 0x10, fault, 4, 4);
    Within(p, 0x10, fault, 8, 8);
    Within(p, 0x10, fault, 16, 8);
    assert fault[..4] == LeBytes(f.bancode, 4) && fault[4..8] == LeBytes(f.cpuId, 4);
    assert fault[8..16] == LeBytes(f.tsc, 8) && fault[16..] == LeBytes(f.cr2, 8);
    LeNatBytes(f.bancode, 4);
    LeNatBytes(f.cpuId, 4);
    LeNatBytes(f.tsc, 8);
    LeNatBytes(f.cr2, 8);
  }

  // ---- sealed files ------------------------------------------------------------------

  /** The buffer begins with a file announcing the given sizes, whatever its checksum fields. */
  ghost predicate Announces(p: seq<byte>, f: Fault, n: nat, off: nat, size: nat, rest: seq<byte>) {
    && 188 <= |rest| && 0x44 + |rest| < U32 && 0x44 + |rest| <= |p| && n < U32 && off < U32 && size < U64
    && p[..0x0C] == Preamble(0x44 + |rest|) && p[0x10..0x40] == Middle(f, n, off, size)
    && p[0x44..0x44 + |rest|] == rest
  }

  lemma SealParts(sum: Checksum, p: seq<byte>, pre: seq<byte>, mid: seq<byte>, rest: seq<byte>)
    requires |pre| == 0x0C && |mid| == 0x30 && |rest| >= 188 && Seal(sum, pre, mid, rest) <= p
    ensures |p| >= 0x44 + |rest|
    ensures p[..0x0C] == pre && p[0x10..0x40] == mid && p[0x44..0x44 + |rest|] == rest
    ensures SumsOk(sum, p, 0x44 + |rest|)
  {
    var dc := DumpSum(sum, pre, mid, rest);
    var file := Seal(sum, pre, mid, rest);
    assert p == file + p[|file|..];
    FileHasParts(pre, HeaderSum(sum, mid, dc, rest), mid, dc, rest, p[|file|..]);
    assert p[..0x44 + |rest|] == file;
    SumsOkIffSealed(sum, p, 0x44 + |rest|);
  }

  lemma Announced(p: seq<byte>, f: Fault, n: nat, off: nat, size: nat, rest: seq<byte>)
    requires Announces(p, f, n, off, size, rest)
    ensures LeNat(p[0x00..0x04]) == MAGIC && LeNat(p[0x04..0x06]) == FORMAT_VERSION
            && LeNat(p[0x06..0x08]) == HEADER_SIZE
    ensures SizeField(p) == 0x44 + |rest|
    ensures TrapCountField(p) == n && MemoryOffsetField(p) == off && MemorySizeField(p) == size
    ensures FaultOk(f) ==> FaultField(p) == f
  {
    HeaderFields(p, 0x44 + |rest|, f, n, off, size);
  }

  lemma HeaderFields(p: seq<byte>, total: nat, f: Fault, n: nat, off: nat, size: nat)
    requires |p| >= HEADER_SIZE && total < U32 && n < U32 && off < U32 && size < U64
    requires p[..0x0C] == Preamble(total) && p[0x10..0x40] == Middle(f, n, off, size)
    ensures LeNat(p[0x00..0x04]) == MAGIC && LeNat(p[0x04..0x06]) == FORMAT_VERSION
    ensures LeNat(p[0x06..0x08]) == HEADER_SIZE && SizeField(p) == total
    ensures TrapCountField(p) == n && MemoryOffsetField(p) == off && MemorySizeField(p) == size
    ensures FaultOk(f) ==> FaultField(p) == f
  {
    MiddleFields(p, f, n, off, size);
    PreambleFields(p, total);
  }

  lemma MiddleFields(p: seq<byte>, f: Fault, n: nat, off: nat, size: nat)
    requires |p| >= HEADER_SIZE && p[0x10..0x40] == Middle(f, n, off, size) && n < U32 && off < U32 && size < U64
    ensures TrapCountField(p) == n && MemoryOffsetField(p) == off && MemorySizeField(p) == size
    ensures FaultOk(f) ==> FaultField(p) == f
  {
    var mid := Middle(f, n, off, size);
    Within(p, 0x10, mid, 0, 24);
    Within(p, 0x10, mid, 24, 24);
    assert mid[..24] == FaultBytes(f) && mid[24..] == RegionBytes(n, off, size);
    RegionFields(p, n, off, size);
    if FaultOk(f) { FaultFields(p, f); }
  }

  lemma LayoutIsOk(p: seq<byte>, f: Fault, n: nat, off: nat, size: nat, rest: seq<byte>, len: nat)
    requires Announces(p, f, n, off, size, rest) && n <= MAX_TRAPS
    requires MemoryOffset(n) <= off <= 0x44 + |rest| && (off + size) % U64 <= 0x44 + |rest| <= len <= |p|
    ensures LayoutOk(p, len) && SizeField(p) == 0x44 + |rest|
  {
    Announced(p, f, n, off, size, rest);
  }

  /** Any sealed file whose announced sizes fit is accepted, with whatever follows it. */
  lemma SealedIsValid(sum: Checksum, p: seq<byte>, f: Fault, n: nat, off: nat, size: nat, rest: seq<byte>, len: nat)
    requires 188 <= |rest| && Seal(sum, Preamble(0x44 + |rest|), Middle(f, n, off, size), rest) <= p
    requires n <= MAX_TRAPS && size < U64
    requires MemoryOffset(n) <= off <= 0x44 + |rest| && (off + size) % U64 <= 0x44 + |rest| <= len <= |p|
    requires len < U32
    ensures Valid(sum, p, len) && Announces(p, f, n, off, size, rest)
  {
    SealParts(sum, p, Preamble(0x44 + |rest|), Middle(f, n, off, size), rest);
    LayoutIsOk(p, f, n, off, size, rest, len);
  }

  // ---- dumps -------------------------------------------------------------------------

  lemma RestParts(c: Crash)
    requires CrashOk(c)
    ensures Rest(c) == Zeros(188) + WordsBytes(c.frame) + TrapsBytes(c.traps) + c.mem
    ensures 0x44 + |Rest(c)| == DumpSize(c) < U32
  {
    MemoryOffsetIs(|c.traps|);
    assert Zeros(Gap(|c.traps|)) == [];
  }

  /** A dump is accepted wherever it is the beginning of the buffer. */
  lemma BuiltIsValid(sum: Checksum, c: Crash, p: seq<byte>, len: nat)
    requires CrashOk(c) && Image(sum, c) <= p && DumpSize(c) <= len <= |p| && len < U32
    ensures Valid(sum, p, len)
    ensures Announces(p, c.fault, |c.traps|, MemoryOffset(|c.traps|), |c.mem|, Rest(c))
  {
    var n, off, size := ImageSizes(sum, c);
    SealedIsValid(sum, p, c.fault, n, off, size, Rest(c), len);
  }

  /** A dump is a sealed file whose sizes fit. */
  lemma ImageSizes(sum: Checksum, c: Crash) returns (n: nat, off: nat, size: nat)
    requires CrashOk(c)
    ensures n == |c.traps| <= MAX_TRAPS && off == MemoryOffset(n) && size == |c.mem| < U64 && 188 <= |Rest(c)|
    ensures 0x44 + |Rest(c)| == DumpSize(c) == off + size == (off + size) % U64 < U32
    ensures Image(sum, c) == Seal(sum, Preamble(0x44 + |Rest(c)|), Middle(c.fault, n, off, size), Rest(c))
  {
    n, off, size := |c.traps|, MemoryOffset(|c.traps|), |c.mem|;
    MemoryOffsetIs(n);
    RestParts(c);
  }

  lemma {:induction false} TrapsRoundTrip(ts: seq<TrapRecord>)
    requires forall i :: 0 <= i < |ts| ==> TrapOk(ts[i])
    ensures TrapsOf(TrapsBytes(ts)) == ts
  {
    if ts == [] {
    } else {
      TrapRoundTrip(ts[0]);
      TrapsRoundTrip(ts[1..]);
      var s := TrapsBytes(ts);
      assert s[..TRAP_RECORD_SIZE] == TrapBytes(ts[0]) && s[TRAP_RECORD_SIZE..] == TrapsBytes(ts[1..]);
    }
  }

  lemma TrapRoundTrip(t: TrapRecord)
    requires TrapOk(t)
    ensures TrapOf(TrapBytes(t)) == t
  {
    Limits();
    var s := TrapBytes(t);
    assert s[..4] == LeBytes(t.bancode, 4) && s[4..8] == LeBytes(t.trapSlot, 4);
    assert s[8..16] == LeBytes(t.timestamp, 8) && s[16..] == LeBytes(t.contextIp, 8);
    LeNatBytes(t.bancode, 4);
    LeNatBytes(t.trapSlot, 4);
    LeNatBytes(t.timestamp, 8);
    LeNatBytes(t.contextIp, 8);
  }

  /** What the accessors reach lies inside the file. */
  predicate BodyInside(p: seq<byte>) {
    && |p| >= TRAP_TABLE_OFFSET
    && TRAP_TABLE_OFFSET + TrapCountField(p) * TRAP_RECORD_SIZE <= |p|
    && MemoryOffsetField(p) + MemorySizeField(p) <= |p|
  }

  /** The fault, and through the accessors the register frame, trap table and memory image. */
  function ReadCrash(p: seq<byte>): (Fault, seq<nat>, seq<TrapRecord>, seq<byte>)
    requires BodyInside(p)
  {
    (FaultField(p),
     BytesWords(p[HEADER_SIZE..TRAP_TABLE_OFFSET]),
     TrapsOf(p[TRAP_TABLE_OFFSET..TRAP_TABLE_OFFSET + TrapCountField(p) * TRAP_RECORD_SIZE]),
     p[MemoryOffsetField(p)..MemoryOffsetField(p) + MemorySizeField(p)])
  }

  /** Where the body of a dump lies. */
  lemma BodyParts(c: Crash, p: seq<byte>)
    requires CrashOk(c) && |p| >= DumpSize(c) && p[0x44..DumpSize(c)] == Rest(c)
    ensures var tableEnd := TRAP_TABLE_OFFSET + |c.traps| * TRAP_RECORD_SIZE;
            && DumpSize(c) == tableEnd + |c.mem|
            && p[HEADER_SIZE..TRAP_TABLE_OFFSET] == WordsBytes(c.frame)
            && p[TRAP_TABLE_OFFSET..tableEnd] == TrapsBytes(c.traps)
            && p[tableEnd..DumpSize(c)] == c.mem
  {
    MemoryOffsetIs(|c.traps|);
    RestParts(c);
    var rest, t := Rest(c), |c.traps| * TRAP_RECORD_SIZE;
    Within(p, 0x44, rest, 188, 176);
    Within(p, 0x44, rest, 364, t);
    Within(p, 0x44, rest, 364 + t, |c.mem|);
    assert rest[188..364] == WordsBytes(c.frame);
    assert rest[364..364 + t] == TrapsBytes(c.traps);
    assert rest[364 + t..] == c.mem;
  }

  /** Everything recorded is read back through the header and the accessors, and the announced
      size is exactly where the memory image ends. */
  lemma ReadBack(sum: Checksum, c: Crash, p: seq<byte>)
    requires CrashOk(c) && Image(sum, c) <= p
    ensures BodyInside(p) && ReadCrash(p) == (c.fault, c.frame, c.traps, c.mem)
    ensures SizeField(p) == MemoryOffsetField(p) + MemorySizeField(p) == |Image(sum, c)|
  {
    MemoryOffsetIs(|c.traps|);
    RestParts(c);
    BuiltIsValid(sum, c, p, DumpSize(c));
    ReadAnnounced(c, p);
  }

  lemma ReadAnnounced(c: Crash, p: seq<byte>)
    requires CrashOk(c) && Announces(p, c.fault, |c.traps|, MemoryOffset(|c.traps|), |c.mem|, Rest(c))
    ensures BodyInside(p) && ReadCrash(p) == (c.fault, c.frame, c.traps, c.mem)
    ensures SizeField(p) == MemoryOffsetField(p) + MemorySizeField(p) == DumpSize(c)
  {
    MemoryOffsetIs(|c.traps|);
    RestParts(c);
    Announced(p, c.fault, |c.traps|, MemoryOffset(|c.traps|), |c.mem|, Rest(c));
    BodyParts(c, p);
    ReadParts(c, p, TRAP_TABLE_OFFSET + |c.traps| * TRAP_RECORD_SIZE);
  }

  lemma ReadParts(c: Crash, p: seq<byte>, tableEnd: nat)
    requires forall i :: 0 <= i < |c.traps| ==> TrapOk(c.traps[i])
    requires tableEnd == TRAP_TABLE_OFFSET + |c.traps| * TRAP_RECORD_SIZE && tableEnd + |c.mem| <= |p|
    requires FaultField(p) == c.fault && TrapCountField(p) == |c.traps|
    requires MemoryOffsetField(p) == tableEnd && MemorySizeField(p) == |c.mem|
    requires p[HEADER_SIZE..TRAP_TABLE_OFFSET] == WordsBytes(c.frame)
    requires p[TRAP_TABLE_OFFSET..tableEnd] == TrapsBytes(c.traps) && p[tableEnd..tableEnd + |c.mem|] == c.mem
    ensures BodyInside(p) && ReadCrash(p) == (c.fault, c.frame, c.traps, c.mem)
  {
    WordsRoundTrip(c.frame);
    TrapsRoundTrip(c.traps);
  }

  /** Different crashes have different dumps. */
  lemma ImageInjective(sum: Checksum, c: Crash, c': Crash)
    requires CrashOk(c) && CrashOk(c') && Image(sum, c) == Image(sum, c')
    ensures c == c'
  {
    ReadBack(sum, c, Image(sum, c));
    ReadBack(sum, c', Image(sum, c));
  }

  // ---- what acceptance guarantees ----------------------------------------------------------

  /** In every accepted file the trap table holds at most 64 records and ends before the memory
      region, which begins inside the file, and ends there unless the 64-bit sum wraps. */
  lemma AcceptedLayout(sum: Checksum, p: seq<byte>, len: nat)
    requires Valid(sum, p, len)
    ensures TrapCountField(p) <= 64
    ensures 432 + 24 * TrapCountField(p) <= MemoryOffsetField(p) <= SizeField(p) <= len <= |p|
    ensures MemoryOffsetField(p) + MemorySizeField(p) < U64 ==>
              MemoryOffsetField(p) + MemorySizeField(p) <= SizeField(p)
  {
    MemoryOffsetIs(TrapCountField(p));
    MemoryInsideIff(sum, p, len);
  }

  /** And it begins with the four letters, format 1 and the header size. */
  lemma AcceptedBegins(sum: Checksum, p: seq<byte>, len: nat)
    requires Valid(sum, p, len)
    ensures p[..8] == [0x50, 0x4D, 0x44, 0x42, 1, 0, 0, 1]
  {
    Beginning(p, p[0x00..0x04], p[0x04..0x06], p[0x06..0x08]);
  }

  lemma Beginning(p: seq<byte>, a: seq<byte>, b: seq<byte>, c: seq<byte>)
    requires |p| >= 8 && a == p[0x00..0x04] && b == p[0x04..0x06] && c == p[0x06..0x08]
    requires LeNat(a) == 0x42444D50 && LeNat(b) == 1 && LeNat(c) == 256
    ensures p[..8] == [0x50, 0x4D, 0x44, 0x42, 1, 0, 0, 1]
  {
    assert a == [0x50, 0x4D, 0x44, 0x42] by { FourBytesOf(a); }
    assert b == [1, 0] by { TwoBytesOf(b); }
    assert c == [0, 1] by { TwoBytesOf(c); }
    Eight(p, a, b, c);
  }

  lemma Eight(p: seq<byte>, a: seq<byte>, b: seq<byte>, c: seq<byte>)
    requires |p| >= 8 && a == p[0x00..0x04] && b == p[0x04..0x06] && c == p[0x06..0x08]
    ensures p[..8] == a + b + c
  {
  }

  /** The sentinel fields and the rest of the header of a built dump are zero. */
  lemma ReservedAreZero(sum: Checksum, c: Crash, i: nat)
    requires CrashOk(c) && (0x2C <= i < 0x34 || 0x44 <= i < 0x100)
    ensures i < |Image(sum, c)| && Image(sum, c)[i] == 0
  {
    var p := Image(sum, c);
    RestParts(c);
    assert p + [] == p;
    BuiltIsValid(sum, c, p, DumpSize(c));
    if i < 0x34 {
      SentinelBytes(p, c, i);
    } else {
      assert p[0x44..0x44 + |Rest(c)|][i - 0x44] == Zeros(188)[i - 0x44];
    }
  }

  lemma SentinelBytes(p: seq<byte>, c: Crash, i: nat)
    requires Announces(p, c.fault, |c.traps|, MemoryOffset(|c.traps|), |c.mem|, Rest(c)) && 0x2C <= i < 0x34
    ensures i < |p| && p[i] == 0
  {
    var mid := Middle(c.fault, |c.traps|, MemoryOffset(|c.traps|), |c.mem|);
    assert p[0x10..0x40][i - 0x10] == mid[i - 0x10] == LeBytes(0, 8)[i - 0x2C];
    ZeroBytes(8, i - 0x2C);
  }

  lemma {:induction false} ZeroBytes(k: nat, i: nat)
    requires i < k
    ensures LeBytes(0, k)[i] == 0
    decreases k
  {
    if i == 0 {
    } else {
      ZeroBytes(k - 1, i - 1);
    }
  }

  // ---- where the validator is laxer than the format text ---------------------------------

  /** The memory region of an accepted file lies inside it exactly when the 64-bit sum of its
      offset and size does not wrap. */
  lemma MemoryInsideIff(sum: Checksum, p: seq<byte>, len: nat)
    requires Valid(sum, p, len)
    ensures MemoryOffsetField(p) + MemorySizeField(p) <= SizeField(p)
       <==> MemoryOffsetField(p) + MemorySizeField(p) < U64
  {
    Limits();
    LeBytesNat(p[0x08..0x0C]);
    LeBytesNat(p[0x38..0x40]);
  }

  /** `p` with both checksum fields of its first `total` bytes filled in. */
  function Resealed(sum: Checksum, p: seq<byte>, total: nat): seq<byte>
    requires HEADER_SIZE <= total <= |p|
  {
    Seal(sum, p[..0x0C], p[0x10..0x40], p[0x44..total]) + p[total..]
  }

  /** The checks before the checksums look at nothing but these two parts of the header. */
  lemma SameLayout(p: seq<byte>, q: seq<byte>)
    requires |p| == |q| >= HEADER_SIZE && p[..0x0C] == q[..0x0C] && p[0x10..0x40] == q[0x10..0x40]
    ensures p[0x00..0x04] == q[0x00..0x04] && p[0x04..0x06] == q[0x04..0x06] && p[0x06..0x08] == q[0x06..0x08]
    ensures SizeField(p) == SizeField(q) && TrapCountField(p) == TrapCountField(q)
    ensures MemoryOffsetField(p) == MemoryOffsetField(q) && MemorySizeField(p) == MemorySizeField(q)
  {
    var pre, mid := p[..0x0C], p[0x10..0x40];
    SameWithin(p, q, 0, pre, 0, 4);
    SameWithin(p, q, 0, pre, 4, 2);
    SameWithin(p, q, 0, pre, 6, 2);
    SameWithin(p, q, 0, pre, 8, 4);
    SameWithin(p, q, 0x10, mid, 0x18, 4);
    SameWithin(p, q, 0x10, mid, 0x24, 4);
    SameWithin(p, q, 0x10, mid, 0x28, 8);
  }

  lemma SameWithin(p: seq<byte>, q: seq<byte>, at: nat, part: seq<byte>, off: nat, n: nat)
    requires at + |part| <= |p| == |q| && p[at..at + |part|] == part == q[at..at + |part|] && off + n <= |part|
    ensures p[at + off..at + off + n] == q[at + off..at + off + n]
  {
    Within(p, at, part, off, n);
    Within(q, at, part, off, n);
  }

  /** Every file with a proper layout is accepted once it is sealed. */
  lemma ResealedIsValid(sum: Checksum, p: seq<byte>, len: nat)
    requires LayoutOk(p, len)
    ensures var q := Resealed(sum, p, SizeField(p));
            && |q| == |p| && Valid(sum, q, len) && SizeField(q) == SizeField(p)
            && MemoryOffsetField(q) == MemoryOffsetField(p) && MemorySizeField(q) == MemorySizeField(p)
  {
    var total := SizeField(p);
    var q := Resealed(sum, p, total);
    SealParts(sum, q, p[..0x0C], p[0x10..0x40], p[0x44..total]);
    SameLayout(p, q);
  }

  /** The format text calls a file with bytes after the memory region malformed. The validator
      does not look: among the files with a proper layout and such bytes it accepts exactly the
      sealed ones, and sealing makes any of them accepted. */
  lemma TrailerIsAccepted(sum: Checksum, p: seq<byte>, len: nat)
    requires LayoutOk(p, len) && MemoryOffsetField(p) + MemorySizeField(p) < SizeField(p)
    ensures Valid(sum, p, len) <==>
              p[..SizeField(p)] == Seal(sum, p[..0x0C], p[0x10..0x40], p[0x44..SizeField(p)])
    ensures var q := Resealed(sum, p, SizeField(p));
            Valid(sum, q, len) && MemoryOffsetField(q) + MemorySizeField(q) < SizeField(q)
  {
    ValidIff(sum, p, len);
    ResealedIsValid(sum, p, len);
  }

  /** The same for a memory region that reaches far past the end, the 64-bit sum having wrapped. */
  lemma WrapIsAccepted(sum: Checksum, p: seq<byte>, len: nat)
    requires LayoutOk(p, len) && MemoryOffsetField(p) + MemorySizeField(p) >= U64
    ensures Valid(sum, p, len) <==>
              p[..SizeField(p)] == Seal(sum, p[..0x0C], p[0x10..0x40], p[0x44..SizeField(p)])
    ensures var q := Resealed(sum, p, SizeField(p));
            Valid(sum, q, len) && MemoryOffsetField(q) + MemorySizeField(q) > SizeField(q)
  {
    ValidIff(sum, p, len);
    ResealedIsValid(sum, p, len);
    Limits();
    LeBytesNat(p[0x08..0x0C]);
  }

  /** Both families have members, for every body: any announced region from the minimal offset on
      whose 64-bit sum fits is a proper layout. */
  lemma RegionsExist(f: Fault, n: nat, off: nat, size: nat, rest: seq<byte>, p: seq<byte>)
    requires n <= MAX_TRAPS && size < U64 && 188 <= |rest| && 0x44 + |rest| < U32
    requires MemoryOffset(n) <= off <= 0x44 + |rest| && (off + size) % U64 <= 0x44 + |rest|
    requires p == File(Preamble(0x44 + |rest|), NONE, Middle(f, n, off, size), NONE, rest)
    ensures LayoutOk(p, |p|) && MemoryOffsetField(p) == off && MemorySizeField(p) == size && SizeField(p) == |p|
  {
    FileHasParts(Preamble(0x44 + |rest|), NONE, Middle(f, n, off, size), NONE, rest, []);
    assert p + [] == p;
    LayoutIsOk(p, f, n, off, size, rest, |p|);
    Announced(p, f, n, off, size, rest);
  }
}

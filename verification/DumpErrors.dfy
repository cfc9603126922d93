/** Damage to a crash dump is noticed. */
module DumpErrors {
  import opened Bytes
  import opened LittleEndian
  import opened Crc32c
  import opened DumpFormat
  import opened DumpProofs

  /** What the proof needs of the checksum. */
  ghost predicate DetectsBursts(sum: Checksum) {
    forall x, y, k :: Burst(x, y, k) && x != y ==> sum(x) != sum(y)
  }

  lemma Crc32cDetectsBursts()
    ensures DetectsBursts(Crc32C)
  {
    forall x: seq<byte>, y: seq<byte>, k: nat | Burst(x, y, k) && x != y ensures Crc32C(x) != Crc32C(y) {
      BurstDetected(CASTAGNOLI, x, y, k);
    }
  }

  /** The file as the dump checksum sees it. */
  function Blanked(p: seq<byte>): seq<byte>
    requires |p| >= 0x44
  {
    File(p[..0x0C], NONE, p[0x10..0x40], NONE, p[0x44..])
  }

  lemma BlankedAt(p: seq<byte>, i: nat)
    requires |p| >= 0x44 && i < |p|
    ensures |Blanked(p)| == |p|
    ensures Blanked(p)[i] == if 0x0C <= i < 0x10 || 0x40 <= i < 0x44 then 0 else p[i]
  {
  }

  lemma BlankedBurst(p: seq<byte>, q: seq<byte>, k: nat)
    requires |p| >= 0x44 && Burst(p, q, k)
    ensures Burst(Blanked(p), Blanked(q), k)
  {
    forall j | 0 <= j < 8 * |p| && !(k <= j < k + 32) ensures BitAt(Blanked(p), j) == BitAt(Blanked(q), j) {
      BlankedAt(p, j / 8);
      BlankedAt(q, j / 8);
      assert BitAt(p, j) == BitAt(q, j);
    }
  }

  /** If the stored dump checksums agree, so does everything outside the two fields. */
  lemma BlankedAgree(sum: Checksum, p: seq<byte>, q: seq<byte>, k: nat)
    requires DetectsBursts(sum) && |p| >= HEADER_SIZE && Burst(p, q, k)
    requires SumsOk(sum, p, |p|) && SumsOk(sum, q, |q|) && p[0x40..0x44] == q[0x40..0x44]
    ensures Blanked(p) == Blanked(q)
  {
    BlankedBurst(p, q, k);
    assert p[0x44..|p|] == p[0x44..] && q[0x44..|q|] == q[0x44..];
    assert sum(Blanked(p)) == sum(Blanked(q));
  }

  /** Two files whose checksums both hold and that differ by a burst agree on everything the
      header checksum covers: a burst that also changed the stored header checksum would be
      too short to reach the stored dump checksum, and would show there. */
  lemma HeadersAgree(sum: Checksum, p: seq<byte>, q: seq<byte>, k: nat)
    requires DetectsBursts(sum) && |p| >= HEADER_SIZE && Burst(p, q, k)
    requires SumsOk(sum, p, |p|) && SumsOk(sum, q, |q|)
    ensures p[0x10..0x100] == q[0x10..0x100]
  {
    if p[0x10..0x100] != q[0x10..0x100] {
      var k' := BurstSlice(p, q, k, 0x10, 0x100);
      assert p[0x0C..0x10] != q[0x0C..0x10];
      var i := DifferenceIn(p, q, 0x0C, 0x10);
      var j := DifferenceIn(p, q, 0x10, 0x100);
      forall m | 0x40 <= m < 0x44 ensures p[m] == q[m] { BurstReach(p, q, k, i, m); }
      assert p[0x40..0x44] == q[0x40..0x44];
      BlankedAgree(sum, p, q, k);
      BlankedAt(p, j);
      BlankedAt(q, j);
    }
  }

  lemma DifferenceIn(p: seq<byte>, q: seq<byte>, lo: nat, hi: nat) returns (i: nat)
    requires lo <= hi <= |p| == |q| && p[lo..hi] != q[lo..hi]
    ensures lo <= i < hi && p[i] != q[i]
  {
    var j := FirstIndex(p[lo..hi], q[lo..hi]);
    i := lo + j;
  }

  /** Hence they are equal. */
  lemma SumsDetectBursts(sum: Checksum, p: seq<byte>, q: seq<byte>, k: nat)
    requires DetectsBursts(sum) && |p| >= HEADER_SIZE && Burst(p, q, k) && p[..0x0C] == q[..0x0C]
    requires SumsOk(sum, p, |p|) && SumsOk(sum, q, |q|)
    ensures p == q
  {
    HeadersAgree(sum, p, q, k);
    Within(p, 0x10, p[0x10..0x100], 0x30, 4);
    Within(q, 0x10, q[0x10..0x100], 0x30, 4);
    BlankedAgree(sum, p, q, k);
    LoadInjective(p[0x0C..0x10], q[0x0C..0x10]);
    forall i | 0 <= i < |p| ensures p[i] == q[i] {
      BlankedAt(p, i);
      BlankedAt(q, i);
      if 0x0C <= i < 0x10 {
        assert p[i] == p[0x0C..0x10][i - 0x0C];
      } else if 0x10 <= i < 0x100 {
        assert p[i] == p[0x10..0x100][i - 0x10];
      }
    }
  }

  /** The file fills the buffer and ends with its memory image, as every built one does. */
  predicate Exact(p: seq<byte>) {
    |p| >= HEADER_SIZE && SizeField(p) == |p| == MemoryOffsetField(p) + MemorySizeField(p)
  }

  /** A burst that changes the announced size cannot also change the announced memory region,
      which then no longer fits. */
  lemma SizeAgrees(p: seq<byte>, q: seq<byte>, k: nat)
    requires LayoutOk(p, |p|) && Exact(p) && LayoutOk(q, |q|) && Burst(p, q, k)
    ensures SizeField(q) == |q| && p[0x08..0x0C] == q[0x08..0x0C]
  {
    if p[0x08..0x0C] != q[0x08..0x0C] {
      RegionAgrees(p, q, k);
      Limits();
      LeBytesNat(p[0x08..0x0C]);
      LeNatInjective(p[0x08..0x0C], q[0x08..0x0C]);
    }
  }

  lemma RegionAgrees(p: seq<byte>, q: seq<byte>, k: nat)
    requires |p| >= HEADER_SIZE && Burst(p, q, k) && p[0x08..0x0C] != q[0x08..0x0C]
    ensures p[0x34..0x38] == q[0x34..0x38] && p[0x38..0x40] == q[0x38..0x40]
  {
    var i := DifferenceIn(p, q, 0x08, 0x0C);
    forall m | 0x34 <= m < 0x40 ensures p[m] == q[m] { BurstReach(p, q, k, i, m); }
  }

  lemma PreamblesAgree(p: seq<byte>, q: seq<byte>)
    requires LayoutOk(p, |p|) && LayoutOk(q, |q|) && p[0x08..0x0C] == q[0x08..0x0C]
    ensures p[..0x0C] == q[..0x0C]
  {
    LeNatInjective(p[0x00..0x04], q[0x00..0x04]);
    LeNatInjective(p[0x04..0x06], q[0x04..0x06]);
    LeNatInjective(p[0x06..0x08], q[0x06..0x08]);
    Quarters(p);
    Quarters(q);
  }

  lemma Quarters(p: seq<byte>)
    requires |p| >= 0x0C
    ensures p[..0x0C] == p[0x00..0x04] + p[0x04..0x06] + p[0x06..0x08] + p[0x08..0x0C]
  {
  }

  /** An accepted file that is exact is no longer accepted after any change confined to 32
      consecutive bits: header constants, sizes, checksum fields and body alike. */
  lemma BurstRejected(sum: Checksum, p: seq<byte>, q: seq<byte>, k: nat)
    requires DetectsBursts(sum) && Valid(sum, p, |p|) && Exact(p) && Burst(p, q, k) && p != q
    ensures !Valid(sum, q, |q|)
  {
    if Valid(sum, q, |q|) {
      SizeAgrees(p, q, k);
      PreamblesAgree(p, q);
      SumsDetectBursts(sum, p, q, k);
    }
  }

  /** Every built dump, and any change confined to 32 consecutive bits. */
  lemma DamagedDumpRejected(c: Crash, q: seq<byte>, k: nat)
    requires CrashOk(c) && Burst(Image(Crc32C, c), q, k) && Image(Crc32C, c) != q
    ensures !Valid(Crc32C, q, DumpSize(c))
  {
    var p := Image(Crc32C, c);
    RestParts(c);
    BuiltIsValid(Crc32C, c, p, DumpSize(c));
    ReadBack(Crc32C, c, p);
    Crc32cDetectsBursts();
    BurstRejected(Crc32C, p, q, k);
  }

  /** In particular any change of a single byte. */
  lemma DamagedByteRejected(c: Crash, i: nat, b: byte)
    requires CrashOk(c) && i < |Image(Crc32C, c)| && Image(Crc32C, c)[i] != b
    ensures !Valid(Crc32C, Image(Crc32C, c)[i := b], DumpSize(c))
  {
    var p := Image(Crc32C, c);
    ByteBurst(p, i, b);
    assert p[i := b][i] != p[i];
    DamagedDumpRejected(c, p[i := b], 8 * i);
  }

  // ---- an odd number of bits -------------------------------------------------------------------

  /** What the proof needs of the checksum. */
  ghost predicate KeepsParity(sum: Checksum) {
    forall x {:trigger sum(x)} :: Odd(sum(x)) == OddBytes(x)
  }

  lemma Crc32cKeepsParity()
    ensures KeepsParity(Crc32C)
  {
    CastagnoliIsOdd();
    forall x: seq<byte> {:trigger Crc32C(x)} ensures Odd(Crc32C(x)) == OddBytes(x) {
      CrcParity(CASTAGNOLI, x);
    }
  }

  lemma NoneIsEven()
    ensures !OddBytes(NONE)
  {
    assert NONE == [0, 0] + [0, 0];
    OddBytesConcat([0, 0], [0, 0]);
  }

  /** The first `total` bytes without the header checksum. */
  function Beside(p: seq<byte>, total: nat): seq<byte>
    requires 0x10 <= total <= |p|
  {
    p[..0x0C] + p[0x10..total]
  }

  lemma HeaderIsEven(sum: Checksum, p: seq<byte>, total: nat)
    requires KeepsParity(sum) && HEADER_SIZE <= total <= |p| && SumsOk(sum, p, total)
    ensures !OddBytes(p[0x0C..0x100])
  {
    assert p[0x0C..0x100] == p[0x0C..0x10] + p[0x10..0x100];
    OddBytesConcat(p[0x0C..0x10], p[0x10..0x100]);
    LoadParity(p[0x0C..0x10]);
  }

  lemma FileParity(pre: seq<byte>, hc: seq<byte>, mid: seq<byte>, dc: seq<byte>, rest: seq<byte>)
    ensures OddBytes(File(pre, hc, mid, dc, rest))
       <==> OddBytes(pre) != (OddBytes(hc) != (OddBytes(mid) != (OddBytes(dc) != OddBytes(rest))))
  {
    OddBytesConcat(pre, hc);
    OddBytesConcat(pre + hc, mid);
    OddBytesConcat(pre + hc + mid, dc);
    OddBytesConcat(pre + hc + mid + dc, rest);
  }

  lemma BesideIsEven(sum: Checksum, p: seq<byte>, total: nat)
    requires KeepsParity(sum) && HEADER_SIZE <= total <= |p| && SumsOk(sum, p, total)
    ensures !OddBytes(Beside(p, total))
  {
    var pre, mid, dc, rest := p[..0x0C], p[0x10..0x40], p[0x40..0x44], p[0x44..total];
    assert Beside(p, total) == File(pre, [], mid, dc, rest);
    FileParity(pre, [], mid, dc, rest);
    FileParity(pre, NONE, mid, NONE, rest);
    NoneIsEven();
    LoadParity(dc);
  }

  /** In every accepted file an even number of bits is set between bytes 0x0C and 0xFF, and an even
      number outside the header checksum. */
  lemma ValidIsEven(sum: Checksum, p: seq<byte>, len: nat)
    requires KeepsParity(sum) && Valid(sum, p, len)
    ensures !OddBytes(p[0x0C..0x100]) && !OddBytes(Beside(p, SizeField(p)))
  {
    HeaderIsEven(sum, p, SizeField(p));
    BesideIsEven(sum, p, SizeField(p));
  }

  /** An accepted file is no longer accepted after a change of an odd number of bits, however far
      apart they are, between bytes 0x0C and 0xFF, or, the announced size being the same, outside
      the header checksum. */
  lemma OddDamageRejected(sum: Checksum, p: seq<byte>, len: nat, q: seq<byte>, len': nat)
    requires KeepsParity(sum) && Valid(sum, p, len) && |q| >= HEADER_SIZE
    requires Distance(p[0x0C..0x100], q[0x0C..0x100]) % 2 == 1
             || (SizeField(q) == SizeField(p) <= |q|
                 && Distance(Beside(p, SizeField(p)), Beside(q, SizeField(p))) % 2 == 1)
    ensures !Valid(sum, q, len')
  {
    if Valid(sum, q, len') {
      ValidIsEven(sum, p, len);
      ValidIsEven(sum, q, len');
      if Distance(p[0x0C..0x100], q[0x0C..0x100]) % 2 == 1 {
        DistanceParity(p[0x0C..0x100], q[0x0C..0x100]);
      } else {
        DistanceParity(Beside(p, SizeField(p)), Beside(q, SizeField(p)));
      }
    }
  }

  /** Every built dump, and any such change. */
  lemma OddDamagedDumpRejected(c: Crash, q: seq<byte>, len: nat)
    requires CrashOk(c) && |q| == |Image(Crc32C, c)| >= HEADER_SIZE
    requires Distance(Image(Crc32C, c)[0x0C..0x100], q[0x0C..0x100]) % 2 == 1
             || (SizeField(q) == |q| && Distance(Beside(Image(Crc32C, c), |q|), Beside(q, |q|)) % 2 == 1)
    ensures !Valid(Crc32C, q, len)
  {
    var p := Image(Crc32C, c);
    RestParts(c);
    BuiltIsValid(Crc32C, c, p, DumpSize(c));
    ReadBack(Crc32C, c, p);
    Crc32cKeepsParity();
    OddDamageRejected(Crc32C, p, DumpSize(c), q, len);
  }
}

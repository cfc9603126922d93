/** One iteration of the sector loops, as a read or a splice of the flat byte array, and what
    follows for whole calls. */
module HtlSectors {
  import opened Bytes
  import opened HtlTypes
  import opened HtlFlat
  import opened HtlSteps

  /** Block sizes the sector calls handle: whole sectors that fit the 4096-byte bounce buffer.
      A block smaller than a sector makes the device zero sectors long. */
  predicate SectorGeometry(dev: Device) {
    dev.blockSize < SECTOR_SIZE || (dev.blockSize % SECTOR_SIZE == 0 && dev.blockSize <= CACHE_DATA_SIZE)
  }

  /** Sector `lba` of a device with `n` blocks of `spb` sectors, as a byte address: block
      `lba / spb`, offset `lba % spb` sectors. */
  lemma Address(lba: nat, spb: nat, n: nat)
    requires 0 < spb && lba < n * spb
    ensures lba / spb < n
    ensures lba * SECTOR_SIZE == lba / spb * (spb * SECTOR_SIZE) + lba % spb * SECTOR_SIZE
  {
    var b, o := lba / spb, lba % spb;
    assert lba == b * spb + o;
    if b >= n { BlockOrder(n, b, spb); }
    ScaleUp(b, spb);
  }

  lemma BlockOrder(x: nat, y: nat, k: nat)
    requires x <= y
    ensures x * k <= y * k
  {
  }

  lemma QuotientBounds(x: nat, k: nat)
    requires 0 < k
    ensures x / k * k <= x < (x / k + 1) * k
  {
  }

  lemma QuotientIs(x: nat, k: nat, q: nat)
    requires 0 < k && q * k <= x < (q + 1) * k
    ensures x / k == q
  {
    QuotientBounds(x, k);
    if x / k < q {
      BlockOrder(x / k + 1, q, k);
    } else if q < x / k {
      BlockOrder(q + 1, x / k, k);
    }
  }

  lemma ScaleUp(b: nat, spb: nat)
    ensures b * spb * SECTOR_SIZE == b * (spb * SECTOR_SIZE)
  {
  }

  lemma ReadInBlock(disk: seq<Block>, bs: nat, b: nat, off: nat, n: nat)
    requires Blocked(disk, bs) && b < |disk| && off + n <= bs
    ensures b * bs + off + n <= |Flat(disk)|
    ensures Flat(disk)[b * bs + off..b * bs + off + n] == disk[b][off..off + n]
  {
    FlatBlock(disk, bs, b);
  }

  lemma WriteInBlock(disk: seq<Block>, bs: nat, b: nat, off: nat, x: seq<byte>)
    requires Blocked(disk, bs) && b < |disk| && off + |x| <= bs
    ensures b * bs + off + |x| <= |Flat(disk)|
    ensures Flat(disk[b := Splice(disk[b], off, x)]) == Splice(Flat(disk), b * bs + off, x)
  {
    FlatBlock(disk, bs, b);
    FlatUpdate(disk, bs, b, Splice(disk[b], off, x));
    SpliceWithin(Flat(disk), b * bs, b * bs + bs, off, x);
  }

  // ---- whole calls ---------------------------------------------------------------

  /** The wrapped bounds test is the true one exactly when the 64-bit sum does not wrap back
      into the device. */
  lemma InBoundsExact(lba: nat, count: nat, sectors: nat)
    requires lba < U64 && count < U32 && sectors < U64
    ensures (InBounds(lba, count, sectors) <==> lba + count <= sectors)
       <==> !(U64 <= lba + count <= U64 + sectors)
  {
  }

  /** A sector range written and then read back is what was written. */
  lemma ReadAfterWrite(s: State, d: nat, lba: nat, count: nat, data: seq<byte>, s1: State, data': seq<byte>, s2: State)
    requires Inv(s) && Inv(s1) && lba + count < U64
    requires WriteSectorsStep(s, d, lba, count, true, data, HTL_OK, s1)
    requires ReadSectorsStep(s1, d, lba, count, true, HTL_OK, data', s2)
    ensures data' == data
  {
    assert SectorRefusal(s, d, lba, count, true, true) == HTL_OK;
    assert SectorRefusal(s1, d, lba, count, true, false) == HTL_OK;
  }

  /** A sector write elsewhere on the device leaves a range readable as before. */
  lemma WriteElsewhere(s: State, d: nat, lba: nat, count: nat, data: seq<byte>, s': State, a: nat, n: nat)
    requires Inv(s) && lba + count < U64
    requires WriteSectorsStep(s, d, lba, count, true, data, HTL_OK, s')
    requires a + n <= lba || lba + count <= a
    requires d < s.deviceCount && (a + n) * SECTOR_SIZE <= |Flat(s.disks[s.devices[d].handle])|
    ensures (a + n) * SECTOR_SIZE <= |Flat(s'.disks[s.devices[d].handle])|
    ensures Flat(s'.disks[s.devices[d].handle])[a * SECTOR_SIZE..(a + n) * SECTOR_SIZE]
         == Flat(s.disks[s.devices[d].handle])[a * SECTOR_SIZE..(a + n) * SECTOR_SIZE]
  {
  }
}

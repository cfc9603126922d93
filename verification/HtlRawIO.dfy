/** Raw sector and block I/O against the cache, in terms of a call's arguments and the state
    before it. */
module HtlRawIO {
  import opened Bytes
  import opened HtlTypes
  import opened HtlFlat
  import opened HtlSteps
  import opened HtlSectors
  import opened HtlCoherence
  import opened HtlCalls
  import opened HtlRuns
  import opened HtlEviction

  // ---- where a raw write goes --------------------------------------------------------------

  /** No parameter check refuses raw write `e`. */
  predicate Accepted(s: State, e: Event)
    requires DevicesOk(s) && IsRawWrite(e)
  {
    match e
    case WriteSectors(d, lba, count, hasBuf, _, _) => SectorRefusal(s, d, lba, count, hasBuf, true) == HTL_OK
    case ZeroBlock(d, b, _) => d < s.deviceCount && !s.devices[d].writeProtect && b < s.devices[d].totalBlocks
  }

  /** Raw write `e`, carried out, writes byte `a` of block `b` of its device. */
  predicate Reaches(s: State, e: Event, b: nat, a: nat)
    requires IsRawWrite(e) && e.d < |s.devices|
  {
    match e
    case WriteSectors(d, lba, _, _, bytes, _) =>
      lba * SECTOR_SIZE <= b * s.devices[d].blockSize + a < lba * SECTOR_SIZE + |bytes|
    case ZeroBlock(_, b', _) => b' == b
  }

  /** What it writes there. */
  function Written(s: State, e: Event, b: nat, a: nat): byte
    requires IsRawWrite(e) && e.d < |s.devices| && Reaches(s, e, b, a)
  {
    match e
    case WriteSectors(d, lba, _, _, bytes, _) => bytes[b * s.devices[d].blockSize + a - lba * SECTOR_SIZE]
    case ZeroBlock(_, _, _) => 0
  }

  /** Byte `a` of block `b` of the store once `e` is carried out. */
  ghost function After(s: State, e: Event, b: nat, a: nat): byte
    requires Inv(s) && IsRawWrite(e) && e.d < s.deviceCount
    requires b < s.devices[e.d].totalBlocks && a < s.devices[e.d].blockSize
  {
    assert Backed(s.devices[e.d], s.disks);
    if Reaches(s, e, b, a) then Written(s, e, b, a) else OnDisk(s, e.d, b)[a]
  }

  /** Block `b` of the device has a sector among those of `e`. */
  predicate Spans(s: State, e: Event, b: nat)
    requires IsRawWrite(e) && e.d < |s.devices|
  {
    match e
    case WriteSectors(d, lba, count, _, _, _) =>
      var spb := s.devices[d].blockSize / SECTOR_SIZE;
      b * spb < lba + count && lba < (b + 1) * spb
    case ZeroBlock(_, b', _) => b' == b
  }

  lemma SplicedByte(disk: seq<Block>, bs: nat, start: nat, bytes: seq<byte>, disk': seq<Block>, b: nat, a: nat, x: nat)
    requires Blocked(disk, bs) && Blocked(disk', bs) && |disk'| == |disk| && b < |disk| && a < bs && x == b * bs + a
    requires start + |bytes| <= |Flat(disk)| && Flat(disk') == Splice(Flat(disk), start, bytes)
    ensures disk'[b][a] == if start <= x < start + |bytes| then bytes[x - start] else disk[b][a]
  {
    FlatAt(disk, bs, b, a, x);
    FlatAt(disk', bs, b, a, x);
    SpliceAt(Flat(disk), start, bytes, x);
  }

  /** A raw write that returns HTL_OK leaves every byte of the store as its arguments say. */
  lemma RawWriteLands(s: State, e: Event, s': State, b: nat, a: nat)
    requires Inv(s) && IsRawWrite(e) && e.st == HTL_OK && Step(s, e, s')
    requires e.d < s.deviceCount && b < s.devices[e.d].totalBlocks && a < s.devices[e.d].blockSize
    ensures Inv(s') && s'.devices == s.devices && s'.deviceCount == s.deviceCount
    ensures |OnDisk(s', e.d, b)| == s.devices[e.d].blockSize && OnDisk(s', e.d, b)[a] == After(s, e, b, a)
  {
    RawWriteFrame(s, e, s');
    if e.WriteSectors? {
      SectorsWritten(s, e, s', b, a);
    } else {
      BlockZeroed(s, e, s', b, a);
    }
  }

  lemma SectorsWritten(s: State, e: Event, s': State, b: nat, a: nat)
    requires Inv(s) && Inv(s') && e.WriteSectors? && e.st == HTL_OK && Step(s, e, s')
    requires e.d < s.deviceCount && b < s.devices[e.d].totalBlocks && a < s.devices[e.d].blockSize
    ensures s'.devices == s.devices && s'.deviceCount == s.deviceCount
    ensures |OnDisk(s', e.d, b)| == s.devices[e.d].blockSize && OnDisk(s', e.d, b)[a] == After(s, e, b, a)
  {
    var dev := s.devices[e.d];
    assert Backed(dev, s.disks) && Backed(dev, s'.disks);
    SectorWriteSplices(s, e, s');
    SplicedByte(s.disks[dev.handle], dev.blockSize, e.lba * SECTOR_SIZE, e.bytes, s'.disks[dev.handle], b, a,
                b * dev.blockSize + a);
  }

  lemma SectorWriteSplices(s: State, e: Event, s': State)
    requires Inv(s) && e.WriteSectors? && e.st == HTL_OK && Step(s, e, s') && e.d < s.deviceCount
    ensures var dev := s.devices[e.d];
            && dev.handle in s.disks && dev.handle in s'.disks
            && e.lba * SECTOR_SIZE + |e.bytes| <= |Flat(s.disks[dev.handle])|
            && Flat(s'.disks[dev.handle]) == Splice(Flat(s.disks[dev.handle]), e.lba * SECTOR_SIZE, e.bytes)
  {
  }

  lemma BlockZeroed(s: State, e: Event, s': State, b: nat, a: nat)
    requires Inv(s) && Inv(s') && e.ZeroBlock? && e.st == HTL_OK && Step(s, e, s')
    requires e.d < s.deviceCount && b < s.devices[e.d].totalBlocks && a < s.devices[e.d].blockSize
    ensures s'.devices == s.devices && s'.deviceCount == s.deviceCount
    ensures |OnDisk(s', e.d, b)| == s.devices[e.d].blockSize && OnDisk(s', e.d, b)[a] == After(s, e, b, a)
  {
    assert Backed(s.devices[e.d], s.disks) && Backed(s.devices[e.d], s'.disks);
  }

  // ---- coherence ---------------------------------------------------------------------------

  /** Entry `i` is a clean copy of a block of device `d`. */
  predicate Clean(s: State, i: int, d: nat) {
    0 <= i < |s.entries| && s.entries[i].valid && !s.entries[i].dirty && s.entries[i].device == d
  }

  /** The bytes that `e` would write over blocks with clean copies are those the copies hold. */
  ghost predicate Repeats(s: State, e: Event)
    requires Inv(s) && IsRawWrite(e) && e.d < s.deviceCount
  {
    forall i, a ::
      Clean(s, i, e.d) && 0 <= a < s.devices[e.d].blockSize && Reaches(s, e, s.entries[i].blockNum, a) ==>
      s.entries[i].data[a] == Written(s, e, s.entries[i].blockNum, a)
  }

  lemma CleanCopy(s: State, i: nat, d: nat, a: nat)
    requires Inv(s) && Coherent(s) && Clean(s, i, d) && d < s.deviceCount && a < s.devices[d].blockSize
    ensures s.entries[i].blockNum < s.devices[d].totalBlocks && a < |s.entries[i].data|
    ensures a < |OnDisk(s, d, s.entries[i].blockNum)| && s.entries[i].data[a] == OnDisk(s, d, s.entries[i].blockNum)[a]
  {
    assert EntryOk(s, i) && Backed(s.devices[d], s.disks);
    assert Cached(s, i) == OnDisk(s, d, s.entries[i].blockNum);
    assert Cached(s, i)[a] == s.entries[i].data[a];
  }

  /** A raw write that returns HTL_OK keeps the cache coherent exactly when, over the blocks with
      clean copies, it writes what these copies hold. */
  lemma RawWriteSafeIff(s: State, e: Event, s': State)
    requires Inv(s) && Coherent(s) && IsRawWrite(e) && e.st == HTL_OK && Step(s, e, s')
    ensures e.d < s.deviceCount && Inv(s') && (Coherent(s') <==> Repeats(s, e))
  {
    RawWriteFrame(s, e, s');
    if Repeats(s, e) {
      forall i | Clean(s, i, e.d)
        ensures OnDisk(s', e.d, s.entries[i].blockNum) == OnDisk(s, e.d, s.entries[i].blockNum)
      {
        CopyKept(s, e, s', i);
      }
      RawWriteCoherence(s, e, s');
    }
    if Coherent(s') {
      forall i, a | Clean(s, i, e.d) && 0 <= a < s.devices[e.d].blockSize && Reaches(s, e, s.entries[i].blockNum, a)
        ensures s.entries[i].data[a] == Written(s, e, s.entries[i].blockNum, a)
      {
        CleanCopy(s', i, e.d, a);
        RawWriteLands(s, e, s', s.entries[i].blockNum, a);
      }
    }
  }

  lemma CopyKept(s: State, e: Event, s': State, i: nat)
    requires Inv(s) && Coherent(s) && IsRawWrite(e) && e.st == HTL_OK && Step(s, e, s')
    requires e.d < s.deviceCount && Clean(s, i, e.d) && Repeats(s, e)
    ensures Inv(s') && s'.devices == s.devices && s'.deviceCount == s.deviceCount
    ensures s.entries[i].blockNum < s.devices[e.d].totalBlocks
    ensures OnDisk(s', e.d, s.entries[i].blockNum) == OnDisk(s, e.d, s.entries[i].blockNum)
  {
    RawWriteFrame(s, e, s');
    assert EntryOk(s, i);
    var b := s.entries[i].blockNum;
    assert Backed(s.devices[e.d], s.disks) && Backed(s.devices[e.d], s'.disks);
    forall a | 0 <= a < s.devices[e.d].blockSize ensures OnDisk(s', e.d, b)[a] == OnDisk(s, e.d, b)[a] {
      CleanCopy(s, i, e.d, a);
      RawWriteLands(s, e, s', b, a);
    }
  }

  // ---- failed writes -------------------------------------------------------------------------

  /** A failed sector write changes no block without a sector in the range. */
  lemma UntouchedBlock(disk: seq<Block>, bs: nat, lba: nat, count: nat, data: seq<byte>, done: nat, disk': seq<Block>,
                       b: nat)
    requires Blocked(disk, bs) && Blocked(disk', bs) && b < |disk| && done < count && 0 < bs / SECTOR_SIZE
    requires WrittenUpTo(disk, bs / SECTOR_SIZE, lba, data, done, disk')
    requires !(b * (bs / SECTOR_SIZE) < lba + count && lba < (b + 1) * (bs / SECTOR_SIZE))
    ensures disk'[b] == disk[b]
  {
    var spb := bs / SECTOR_SIZE;
    var mid: seq<Block> :|
      && |mid| == |disk| == |disk'| && Blocked(mid, spb * SECTOR_SIZE)
      && done * SECTOR_SIZE <= |data|
      && lba * SECTOR_SIZE + done * SECTOR_SIZE <= |Flat(disk)|
      && Flat(mid) == Splice(Flat(disk), lba * SECTOR_SIZE, data[..done * SECTOR_SIZE])
      && (forall b :: 0 <= b < |disk| && b != (lba + done) / spb ==> disk'[b] == mid[b]);
    StopsElsewhere(b, spb, lba, count, done);
    SameBefore(disk, bs, spb, lba, count, data[..done * SECTOR_SIZE], done, mid, b);
  }

  lemma SameBefore(disk: seq<Block>, bs: nat, spb: nat, lba: nat, count: nat, x: seq<byte>, done: nat, mid: seq<Block>,
                   b: nat)
    requires Blocked(disk, bs) && Blocked(mid, spb * SECTOR_SIZE) && |mid| == |disk| && b < |disk| && |mid[b]| == bs
    requires |x| == done * SECTOR_SIZE && lba * SECTOR_SIZE + |x| <= |Flat(disk)|
    requires Flat(mid) == Splice(Flat(disk), lba * SECTOR_SIZE, x)
    requires done < count && !(b * spb < lba + count && lba < (b + 1) * spb)
    ensures mid[b] == disk[b]
  {
    OutOfRange(b, spb, bs, lba, count, done);
    PassedOver(disk, bs, lba * SECTOR_SIZE, x, mid, b, b * bs);
  }

  lemma StopsElsewhere(b: nat, spb: nat, lba: nat, count: nat, done: nat)
    requires 0 < spb && done < count && !(b * spb < lba + count && lba < (b + 1) * spb)
    ensures b != (lba + done) / spb
  {
    QuotientBounds(lba + done, spb);
  }

  /** A splice that misses a block leaves it alone. */
  lemma PassedOver(disk: seq<Block>, bs: nat, start: nat, x: seq<byte>, mid: seq<Block>, b: nat, at: nat)
    requires Blocked(disk, bs) && Blocked(mid, bs) && |mid| == |disk| && b < |disk| && at == b * bs
    requires start + |x| <= |Flat(disk)| && Flat(mid) == Splice(Flat(disk), start, x)
    requires at + bs <= start || start + |x| <= at
    ensures mid[b] == disk[b]
  {
    forall a | 0 <= a < bs ensures mid[b][a] == disk[b][a] {
      OutsideSplice(disk, bs, start, x, mid, b, a, at + a);
    }
  }

  lemma OutsideSplice(disk: seq<Block>, bs: nat, start: nat, x: seq<byte>, mid: seq<Block>, b: nat, a: nat, at: nat)
    requires Blocked(disk, bs) && Blocked(mid, bs) && |mid| == |disk| && b < |disk| && a < bs && at == b * bs + a
    requires start + |x| <= |Flat(disk)| && Flat(mid) == Splice(Flat(disk), start, x)
    requires !(start <= at < start + |x|)
    ensures mid[b][a] == disk[b][a]
  {
    SplicedByte(disk, bs, start, x, mid, b, a, at);
  }

  lemma OutOfRange(b: nat, spb: nat, bs: nat, lba: nat, count: nat, done: nat)
    requires bs == spb * SECTOR_SIZE && done < count && !(b * spb < lba + count && lba < (b + 1) * spb)
    ensures b * bs + bs <= lba * SECTOR_SIZE || lba * SECTOR_SIZE + done * SECTOR_SIZE <= b * bs
  {
    ScaleUp(b, spb);
    assert (b + 1) * spb == b * spb + spb;
  }

  lemma FailedLeaves(s: State, e: Event, s': State, b: nat)
    requires Inv(s) && IsRawWrite(e) && e.st != HTL_OK && Accepted(s, e) && Step(s, e, s')
    requires b < s.devices[e.d].totalBlocks && !Spans(s, e, b)
    ensures Inv(s') && s'.devices == s.devices && s'.deviceCount == s.deviceCount
    ensures OnDisk(s', e.d, b) == OnDisk(s, e.d, b)
  {
    RawWriteFrame(s, e, s');
    var dev := s.devices[e.d];
    assert Backed(dev, s.disks) && Backed(dev, s'.disks);
    if e.WriteSectors? {
      var disk, disk' := s.disks[dev.handle], s'.disks[dev.handle];
      var done: nat :|
        done < e.count && WrittenUpTo(disk, dev.blockSize / SECTOR_SIZE, e.lba, e.bytes, done, disk');
      UntouchedBlock(disk, dev.blockSize, e.lba, e.count, e.bytes, done, disk', b);
    }
  }

  /** If call `e` is a raw write that is not refused: carried out, it repeats the clean copies it
      meets; failed, its range holds no block with a clean copy. */
  ghost predicate Spares(s: State, e: Event)
    requires Inv(s)
  {
    IsRawWrite(e) && Accepted(s, e) ==>
      if e.st == HTL_OK then Repeats(s, e)
      else forall i :: Clean(s, i, e.d) ==> !Spans(s, e, s.entries[i].blockNum)
  }

  /** Then the cache stays coherent. */
  lemma SparingIsQuiet(s: State, e: Event, s': State)
    requires Inv(s) && Coherent(s) && Step(s, e, s') && Spares(s, e)
    ensures Inv(s') && Quiet(s, e, s')
  {
    StepKeepsInv(s, e, s');
    if IsRawWrite(e) {
      RawWriteFrame(s, e, s');
      if e.st == HTL_OK {
        RawWriteSafeIff(s, e, s');
        RawWriteCoherence(s, e, s');
      } else if Accepted(s, e) {
        forall i | Clean(s, i, e.d)
          ensures EntryOk(s, i) && OnDisk(s', e.d, s.entries[i].blockNum) == OnDisk(s, e.d, s.entries[i].blockNum)
        {
          assert EntryOk(s, i);
          FailedLeaves(s, e, s', s.entries[i].blockNum);
        }
      }
    }
  }

  /** So whether the run theorems apply can be told call by call, before each call but for the
      driver's verdict. */
  lemma {:induction false} SparingRun(ss: seq<State>, es: seq<Event>, k: nat)
    requires IsRun(ss, es) && k <= |es|
    requires forall j :: 0 <= j < k ==> Inv(ss[j]) ==> Spares(ss[j], es[j])
    ensures Inv(ss[k]) && Coherent(ss[k])
    ensures forall j :: 0 <= j < k ==> Quiet(ss[j], es[j], ss[j + 1])
  {
    if k == 0 {
    } else {
      SparingRun(ss, es, k - 1);
      SparingIsQuiet(ss[k - 1], es[k - 1], ss[k]);
    }
    RunRefinesPlain(ss, es, k);
  }

  /** What the driver may do, it can do: a failing raw write may leave anything in any block of its
      range. */
  lemma CanFail(s: State, e: Event, b: nat, x: Block) returns (s': State)
    requires Inv(s) && IsRawWrite(e) && e.st != HTL_OK && Accepted(s, e) && Proper(s, e)
    requires b < s.devices[e.d].totalBlocks && Spans(s, e, b) && |x| == s.devices[e.d].blockSize
    ensures Step(s, e, s') && Inv(s') && s'.entries == s.entries && s'.devices == s.devices
    ensures s'.deviceCount == s.deviceCount && OnDisk(s', e.d, b) == x
  {
    var dev := s.devices[e.d];
    assert Backed(dev, s.disks);
    var disk := s.disks[dev.handle];
    if e.WriteSectors? {
      RangeIsInside(s, e);
      var disk' := StoppedIn(disk, dev.blockSize / SECTOR_SIZE, e.lba, e.count, e.bytes, b, x);
      s' := AddErrors(s.(disks := s.disks[dev.handle := disk']), e.d, 1);
      assert Backed(dev, s'.disks);
      WriteSectorsKeepsInv(s, e.d, e.lba, e.count, e.hasBuf, e.bytes, e.st, s');
    } else {
      s' := AddErrors(s.(disks := s.disks[dev.handle := disk[b := x]]), e.d, 1);
      assert Backed(dev, s'.disks);
      ZeroBlockKeepsInv(s, e.d, e.b, e.st, s');
    }
  }

  /** The buffer holds the announced sectors, blocks are whole sectors, and no sector number wraps. */
  predicate Proper(s: State, e: Event)
    requires IsRawWrite(e) && e.d < |s.devices|
  {
    e.WriteSectors? ==>
      && s.devices[e.d].blockSize % SECTOR_SIZE == 0
      && |e.bytes| == e.count * SECTOR_SIZE && e.lba + e.count < U64
  }

  lemma RangeIsInside(s: State, e: Event)
    requires DevicesOk(s) && e.WriteSectors? && Accepted(s, e) && Proper(s, e)
    ensures var dev := s.devices[e.d];
            var spb := dev.blockSize / SECTOR_SIZE;
            && 0 < spb && dev.blockSize == spb * SECTOR_SIZE && 0 < e.count && e.lba + e.count <= dev.totalBlocks * spb
  {
  }

  lemma StoppedIn(disk: seq<Block>, spb: nat, lba: nat, count: nat, data: seq<byte>, b: nat, x: Block)
    returns (disk': seq<Block>)
    requires 0 < spb && Blocked(disk, spb * SECTOR_SIZE) && lba + count <= |disk| * spb && b < |disk|
    requires 0 < count && |data| == count * SECTOR_SIZE && |x| == spb * SECTOR_SIZE
    requires b * spb < lba + count && lba < (b + 1) * spb
    ensures |disk'| == |disk| && Blocked(disk', spb * SECTOR_SIZE) && disk'[b] == x
    ensures exists done :: 0 <= done < count && WrittenUpTo(disk, spb, lba, data, done, disk')
  {
    var done := SectorOf(b, spb, lba, count);
    RangeInside(disk, spb, lba + count);
    disk' := StoppedAfter(disk, spb, spb * SECTOR_SIZE, lba, data, done, b, x);
  }

  /** The first sector of the range that lies in block `b`, counted from `lba`. */
  lemma SectorOf(b: nat, spb: nat, lba: nat, count: nat) returns (done: nat)
    requires 0 < spb && 0 < count && b * spb < lba + count && lba < (b + 1) * spb
    ensures done < count && (lba + done) / spb == b
  {
    done := if b * spb <= lba then 0 else b * spb - lba;
    assert (b + 1) * spb == b * spb + spb;
    QuotientIs(lba + done, spb, b);
  }

  lemma RangeInside(disk: seq<Block>, spb: nat, end: nat)
    requires Blocked(disk, spb * SECTOR_SIZE) && end <= |disk| * spb
    ensures end * SECTOR_SIZE <= |Flat(disk)|
  {
    FlatLength(disk, spb * SECTOR_SIZE);
    ScaleUp(|disk|, spb);
  }

  lemma StoppedAfter(disk: seq<Block>, spb: nat, bs: nat, lba: nat, data: seq<byte>, done: nat, b: nat, x: Block)
    returns (disk': seq<Block>)
    requires 0 < spb && bs == spb * SECTOR_SIZE && Blocked(disk, bs) && b == (lba + done) / spb < |disk|
    requires done * SECTOR_SIZE <= |data| && lba * SECTOR_SIZE + done * SECTOR_SIZE <= |Flat(disk)| && |x| == bs
    ensures |disk'| == |disk| && Blocked(disk', bs) && disk'[b] == x
    ensures WrittenUpTo(disk, spb, lba, data, done, disk')
  {
    FlatLength(disk, bs);
    var flat := Splice(Flat(disk), lba * SECTOR_SIZE, data[..done * SECTOR_SIZE]);
    var mid := Reblocked(flat, |disk|, bs);
    disk' := mid[b := x];
    assert Flat(mid) == flat && Blocked(mid, spb * SECTOR_SIZE);
  }

  /** Whatever a failing driver does the cache stays coherent, exactly when no block in the range of
      the write has a clean copy. */
  lemma FailedWriteSafeIff(s: State, e: Event)
    requires Inv(s) && Coherent(s) && IsRawWrite(e) && e.st != HTL_OK && Accepted(s, e) && Proper(s, e)
    ensures (forall s' :: Step(s, e, s') ==> Inv(s') && Coherent(s'))
       <==> forall i :: Clean(s, i, e.d) ==> !Spans(s, e, s.entries[i].blockNum)
  {
    if i: nat :| Clean(s, i, e.d) && Spans(s, e, s.entries[i].blockNum) {
      assert EntryOk(s, i);
      var x := Cached(s, i)[0 := if Cached(s, i)[0] == 0 then 1 else 0];
      var s' := CanFail(s, e, s.entries[i].blockNum, x);
      assert x[0] != Cached(s, i)[0];
      assert Cached(s', i) == Cached(s, i) && !Coherent(s');
    } else {
      forall s' | Step(s, e, s') ensures Inv(s') && Coherent(s') {
        SparingIsQuiet(s, e, s');
        RawWriteCoherence(s, e, s');
      }
    }
  }

  // ---- raw reads -----------------------------------------------------------------------------

  lemma ContentsBlocked(s: State, d: nat)
    requires Inv(s) && d < s.deviceCount
    ensures Blocked(Contents(s, d), s.devices[d].blockSize)
  {
    forall b | 0 <= b < s.devices[d].totalBlocks ensures |Contents(s, d)[b]| == s.devices[d].blockSize {
      assert Backed(s.devices[d], s.disks);
      if i :| Hit(s, i, d, b) {
        assert EntryOk(s, i);
        LogicalHit(s, i);
      }
    }
  }

  /** The unsaved copy of byte `a` of block `b` differs from the store. */
  ghost predicate Differs(s: State, d: nat, b: nat, a: nat)
    requires Inv(s) && d < s.deviceCount
  {
    && b < s.devices[d].totalBlocks && a < |OnDisk(s, d, b)|
    && exists i :: Hit(s, i, d, b) && s.entries[i].dirty && a < |s.entries[i].data|
                   && s.entries[i].data[a] != OnDisk(s, d, b)[a]
  }

  lemma ContentByte(s: State, d: nat, b: nat, a: nat)
    requires Inv(s) && Coherent(s) && d < s.deviceCount && b < s.devices[d].totalBlocks && a < s.devices[d].blockSize
    ensures a < |OnDisk(s, d, b)| && a < |Contents(s, d)[b]|
    ensures Contents(s, d)[b][a] == OnDisk(s, d, b)[a] <==> !Differs(s, d, b, a)
  {
    assert Backed(s.devices[d], s.disks);
    if i :| Hit(s, i, d, b) {
      assert EntryOk(s, i);
      LogicalHit(s, i);
      assert Contents(s, d)[b] == Cached(s, i) && Cached(s, i)[a] == s.entries[i].data[a];
      forall j | Hit(s, j, d, b) ensures j == i { UniqueHit(s, d, b, i, j); }
    }
  }

  /** A sector read that succeeds returns the device's content, seen through the cache, exactly when
      no unsaved copy differs from the store within the range. */
  lemma ReadSectorsCurrentIff(s: State, e: Event, s': State)
    requires Inv(s) && Coherent(s) && e.ReadSectors? && e.st == HTL_OK && Step(s, e, s')
    ensures e.d < s.deviceCount && (e.lba + e.count) * SECTOR_SIZE <= |Flat(Contents(s, e.d))|
    ensures e.bytes == Flat(Contents(s, e.d))[e.lba * SECTOR_SIZE..(e.lba + e.count) * SECTOR_SIZE]
       <==> forall b: nat, a: nat | Differs(s, e.d, b, a) ::
              !(e.lba * SECTOR_SIZE <= b * s.devices[e.d].blockSize + a < (e.lba + e.count) * SECTOR_SIZE)
  {
    var dev := s.devices[e.d];
    assert Backed(dev, s.disks);
    ContentsBlocked(s, e.d);
    var lo, hi := e.lba * SECTOR_SIZE, (e.lba + e.count) * SECTOR_SIZE;
    SlicesAgreeIff(s.disks[dev.handle], Contents(s, e.d), dev.blockSize, lo, hi);
    StoreAgreesIff(s, e.d, lo, hi);
  }

  lemma StoreAgreesIff(s: State, d: nat, lo: nat, hi: nat)
    requires Inv(s) && Coherent(s) && d < s.deviceCount && Backed(s.devices[d], s.disks)
    requires Blocked(Contents(s, d), s.devices[d].blockSize)
    ensures AgreeWithin(s.disks[s.devices[d].handle], Contents(s, d), s.devices[d].blockSize, lo, hi)
       <==> forall b: nat, a: nat | Differs(s, d, b, a) :: !(lo <= b * s.devices[d].blockSize + a < hi)
  {
    forall b: nat, a: nat | b < s.devices[d].totalBlocks && a < s.devices[d].blockSize
      ensures s.disks[s.devices[d].handle][b][a] == Contents(s, d)[b][a] <==> !Differs(s, d, b, a)
    {
      ContentByte(s, d, b, a);
    }
  }

  // ---- a run that reads stale data -----------------------------------------------------------

  /** Block 0 is read into the first slot. */
  lemma CanFetch(s: State, dev: Device, x: Block) returns (s': State)
    requires Serves(s, dev, 1) && IsSlot(s.entries, 0) && |x| == CACHE_DATA_SIZE
    requires x[..dev.blockSize] == s.disks[dev.handle][0] && forall i :: !Hit(s, i, 0, 0)
    ensures Step(s, ReadCached(0, 0, true, HTL_OK, x), s') && Serves(s', dev, 1) && s'.disks == s.disks
    ensures Clean(s', 0, 0) && s'.entries[0].blockNum == 0 && s'.entries[0].data == x
  {
    var counted := s.(misses := SatAdd(s.misses, 1), accessCounter := Next32(s.accessCounter));
    var placed := Place(counted, 0, Entry(0, false, true, 0, Next32(s.accessCounter), x));
    s' := AddRead(placed, 0, dev.blockSize);
    assert s'.(stats := s.stats) == placed;
    ReadCachedKeepsInv(s, 0, 0, true, HTL_OK, x, s');
  }

  /** The cached block 0 is read again. */
  lemma CanReread(s: State, dev: Device, x: Block) returns (s': State)
    requires Serves(s, dev, 1) && Hit(s, 0, 0, 0) && s.entries[0].data == x
    ensures Step(s, ReadCached(0, 0, true, HTL_OK, x), s') && Serves(s', dev, 1) && s'.disks == s.disks
  {
    s' := s.(hits := SatAdd(s.hits, 1));
    CountersKeepInv(s, s');
  }

  /** The sectors of block 0 are written. */
  lemma CanOverwrite(s: State, dev: Device, bytes: seq<byte>) returns (s': State)
    requires Serves(s, dev, 1) && dev.blockSize % SECTOR_SIZE == 0 && |bytes| == dev.blockSize
    ensures Step(s, WriteSectors(0, 0, dev.blockSize / SECTOR_SIZE, true, bytes, HTL_OK), s')
    ensures Serves(s', dev, 1) && s'.entries == s.entries && s'.disks[dev.handle][0] == bytes
  {
    var h, n := dev.handle, dev.blockSize / SECTOR_SIZE;
    assert Backed(s.devices[0], s.disks);
    var disk := s.disks[h];
    FlatUpdate(disk, dev.blockSize, 0, bytes);
    s' := AddWrite(s.(disks := s.disks[h := disk[0 := bytes]]), 0, n * SECTOR_SIZE);
    FirstBlockFits(s, dev, n);
    assert Backed(s.devices[0], s'.disks);
    WriteSectorsKeepsInv(s, 0, 0, n, true, bytes, HTL_OK, s');
  }

  lemma FirstBlockFits(s: State, dev: Device, n: nat)
    requires Serves(s, dev, 1) && dev.blockSize % SECTOR_SIZE == 0 && n == dev.blockSize / SECTOR_SIZE
    ensures SectorRefusal(s, 0, 0, n, true, true) == HTL_OK && n < U32 && n * SECTOR_SIZE == dev.blockSize
  {
    BlockOrder(1, dev.totalBlocks, n);
  }

  /** A run in which a sector write makes the cache incoherent: the block was read before, and the
      next read returns the old bytes, not those the store holds. */
  lemma StaleRead(s0: State, dev: Device, x: Block, bytes: seq<byte>) returns (ss: seq<State>, es: seq<Event>)
    requires IsInitial(s0) && |s0.entries| >= 1 && Callable(dev) && FreshDriver(s0, dev)
    requires dev.blockSize % SECTOR_SIZE == 0 && dev.blockSize <= CACHE_DATA_SIZE == |x|
    requires x[..dev.blockSize] == s0.disks[dev.handle][0] && |bytes| == dev.blockSize && bytes != x[..dev.blockSize]
    ensures IsRun(ss, es) && ss[0] == s0 && |es| == 4
    ensures es[1] == ReadCached(0, 0, true, HTL_OK, x) && es[3] == ReadCached(0, 0, true, HTL_OK, x)
    ensures es[2] == WriteSectors(0, 0, dev.blockSize / SECTOR_SIZE, true, bytes, HTL_OK)
    ensures Inv(ss[3]) && !Coherent(ss[3]) && Serves(ss[4], dev, 1) && ss[4].disks[dev.handle][0] == bytes
  {
    ss, es := FetchFirst(s0, dev, x);
    assert Hit(Now(ss), 0, 0, 0);
    ss, es := RunOverwrite(ss, es, dev, bytes);
    var s' := CanReread(Now(ss), dev, x);
    Extend(ss, es, ReadCached(0, 0, true, HTL_OK, x), s');
    assert Cached(Now(ss), 0) != OnDisk(Now(ss), 0, 0);
    ss, es := ss + [s'], es + [ReadCached(0, 0, true, HTL_OK, x)];
  }

  lemma FetchFirst(s0: State, dev: Device, x: Block) returns (ss: seq<State>, es: seq<Event>)
    requires IsInitial(s0) && |s0.entries| >= 1 && Callable(dev) && FreshDriver(s0, dev)
    requires dev.blockSize <= CACHE_DATA_SIZE == |x| && x[..dev.blockSize] == s0.disks[dev.handle][0]
    ensures IsRun(ss, es) && ss[0] == s0 && |es| == 2 && es[1] == ReadCached(0, 0, true, HTL_OK, x)
    ensures Serves(Now(ss), dev, 1) && Clean(Now(ss), 0, 0) && Now(ss).entries[0].blockNum == 0
    ensures Now(ss).entries[0].data == x
  {
    ss, es := RunRegister(s0, dev);
    assert IsZeroed(s0.entries[0]) && IsSlot(s0.entries, 0);
    forall i ensures !Hit(Now(ss), i, 0, 0) {
      if 0 <= i < |s0.entries| { assert IsZeroed(s0.entries[i]); }
    }
    ss, es := RunFetch(ss, es, dev, x);
  }

  lemma RunFetch(ss: seq<State>, es: seq<Event>, dev: Device, x: Block) returns (ss': seq<State>, es': seq<Event>)
    requires IsRun(ss, es) && Serves(Now(ss), dev, 1) && IsSlot(Now(ss).entries, 0) && |x| == CACHE_DATA_SIZE
    requires x[..dev.blockSize] == Now(ss).disks[dev.handle][0] && forall i :: !Hit(Now(ss), i, 0, 0)
    ensures IsRun(ss', es') && ss' == ss + [Now(ss')] && es' == es + [ReadCached(0, 0, true, HTL_OK, x)]
    ensures Serves(Now(ss'), dev, 1) && Clean(Now(ss'), 0, 0) && Now(ss').entries[0].blockNum == 0
    ensures Now(ss').entries[0].data == x
  {
    var s' := CanFetch(Now(ss), dev, x);
    Extend(ss, es, ReadCached(0, 0, true, HTL_OK, x), s');
    ss', es' := ss + [s'], es + [ReadCached(0, 0, true, HTL_OK, x)];
  }

  lemma RunOverwrite(ss: seq<State>, es: seq<Event>, dev: Device, bytes: seq<byte>)
    returns (ss': seq<State>, es': seq<Event>)
    requires IsRun(ss, es) && Serves(Now(ss), dev, 1)
    requires dev.blockSize % SECTOR_SIZE == 0 && |bytes| == dev.blockSize
    ensures IsRun(ss', es') && ss' == ss + [Now(ss')] && Serves(Now(ss'), dev, 1)
    ensures es' == es + [WriteSectors(0, 0, dev.blockSize / SECTOR_SIZE, true, bytes, HTL_OK)]
    ensures Now(ss').entries == Now(ss).entries && Now(ss').disks[dev.handle][0] == bytes
  {
    var s' := CanOverwrite(Now(ss), dev, bytes);
    var e := WriteSectors(0, 0, dev.blockSize / SECTOR_SIZE, true, bytes, HTL_OK);
    Extend(ss, es, e, s');
    ss', es' := ss + [s'], es + [e];
  }
}

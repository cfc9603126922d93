/** The effect of each call, seen through the plain view: a list of devices without a cache. */
module HtlCalls {
  import opened Bytes
  import opened HtlTypes
  import opened HtlSteps
  import opened HtlCoherence

  lemma InitialIsPlain(s: State)
    requires IsInitial(s)
    ensures Inv(s) && Coherent(s) && Plain(s) == []
  {
    forall i | 0 <= i < |s.entries| ensures EntryOk(s, i) {
      assert IsZeroed(s.entries[i]);
    }
  }

  // ---- cached block I/O ----------------------------------------------------------

  lemma PlainBlock(s: State, d: nat, b: nat)
    requires Inv(s) && d < s.deviceCount && b < s.devices[d].totalBlocks
    ensures Plain(s)[d] == PlainDevice(s.devices[d], Contents(s, d)) && Contents(s, d)[b] == Logical(s, d, b)
  {
  }

  /** A put of the content a block already has changes nothing. */
  lemma PlainUpdateSame(s: State, d: nat, b: nat, s': State)
    requires Inv(s) && Inv(s') && d < s.deviceCount && b < s.devices[d].totalBlocks
    requires PlainUpdate(s, d, b, Logical(s, d, b), s')
    ensures Plain(s') == Plain(s)
  {
    PlainBlock(s, d, b);
    assert Contents(s, d)[b := Logical(s, d, b)] == Contents(s, d);
  }

  /** Entry `e` is fit for the table and its block is not cached yet. */
  ghost predicate NewEntry(s: State, e: Entry)
    requires Inv(s)
  {
    && e.valid && |e.data| == CACHE_DATA_SIZE && e.order < U32
    && e.device < s.deviceCount && e.blockNum < s.devices[e.device].totalBlocks
    && s.devices[e.device].blockSize <= CACHE_DATA_SIZE
    && (forall j :: !Hit(s, j, e.device, e.blockNum))
  }

  lemma InsertKeepsInv(s: State, e: Entry, s': State)
    requires Inv(s) && NewEntry(s, e) && Inserts(s, e, s')
    ensures Inv(s')
  {
    if s' != s {
      var i :| IsSlot(s.entries, i) && s' == Place(s, i, e);
      SlotMayPut(s, i, e);
      PutKeepsInv(s, i, e);
    }
  }

  lemma InsertCleanIsPlain(s: State, e: Entry, s': State)
    requires Inv(s) && Coherent(s) && Inserts(s, e, s') && NewEntry(s, e) && !e.dirty
    requires e.data[..s.devices[e.device].blockSize] == OnDisk(s, e.device, e.blockNum)
    ensures Inv(s') && Coherent(s') && Plain(s') == Plain(s)
  {
    if s' != s {
      var i :| IsSlot(s.entries, i) && s' == Place(s, i, e);
      SlotMayPut(s, i, e);
      PutLogical(s, i, e);
      PlainUpdateSame(s, e.device, e.blockNum, s');
    }
  }

  /** The slot a table with all valid entries below `count` hands out is below the new `count`. */
  lemma PlaceScannable(s: State, i: nat, e: Entry)
    requires Scannable(s.entries, s.count) && IsSlot(s.entries, i)
    ensures Scannable(Place(s, i, e).entries, Place(s, i, e).count)
  {
    assert s.count < |s.entries| ==> !s.entries[s.count].valid;
  }

  /** Both a served read miss and an accepted write miss insert into the counted state. */
  lemma MissKeepsInv(s: State, counted: State, e: Entry, s': State)
    requires Inv(s) && SameButCounters(s, counted) && counted.stats == s.stats
    requires Inserts(counted, e, s'.(stats := s.stats))
    requires SameButCounters(s'.(stats := s.stats), s')
    requires NewEntry(s, e)
    ensures Inv(counted) && NewEntry(counted, e) && Inv(s'.(stats := s.stats)) && Inv(s')
  {
    CountersKeepInv(s, counted);
    assert forall j :: Hit(counted, j, e.device, e.blockNum) ==> Hit(s, j, e.device, e.blockNum);
    InsertKeepsInv(counted, e, s'.(stats := s.stats));
    CountersKeepInv(s'.(stats := s.stats), s');
  }

  lemma ReadMissKeepsInv(s: State, d: nat, b: nat, data: Block, s': State)
    requires Inv(s) && d < s.deviceCount && b < s.devices[d].totalBlocks
    requires forall i :: !Hit(s, i, d, b)
    requires ReadMiss(s, d, b, data, s')
    ensures Inv(s')
  {
    MissKeepsInv(s, s.(misses := SatAdd(s.misses, 1), accessCounter := Next32(s.accessCounter)),
                 Entry(b, false, true, d, Next32(s.accessCounter), data), s');
  }

  lemma ReadCachedKeepsInv(s: State, d: nat, b: nat, hasBuf: bool, st: Status, data: Block, s': State)
    requires Inv(s) && ReadCachedStep(s, d, b, hasBuf, st, data, s')
    ensures Inv(s')
  {
    if d < s.deviceCount && hasBuf && b < s.devices[d].totalBlocks {
      if st == HTL_OK && !exists i :: Hit(s, i, d, b) {
        ReadMissKeepsInv(s, d, b, data, s');
      } else {
        CountersKeepInv(s, s');
      }
    }
  }

  lemma OverwriteMayPut(s: State, i: nat, e: Entry)
    requires Inv(s) && Hit(s, i, e.device, e.blockNum)
    requires e.valid && |e.data| == CACHE_DATA_SIZE && e.order < U32
    ensures MayPut(s, i, e) && Place(s, i, e) == s.(entries := s.entries[i := e])
  {
    forall j | 0 <= j < |s.entries| && Caches(s.entries[j], e.device, e.blockNum) ensures j == i {
      assert Hit(s, j, e.device, e.blockNum);
      UniqueHit(s, e.device, e.blockNum, i, j);
    }
  }

  lemma WriteHitKeepsInv(s: State, d: nat, b: nat, data: Block, s': State) returns (i: nat)
    requires Inv(s) && d < s.deviceCount && b < s.devices[d].totalBlocks && |data| == CACHE_DATA_SIZE
    requires WriteHit(s, d, b, data, s')
    ensures var e := Entry(b, true, true, d, s.accessCounter, data);
            MayPut(s, i, e) && s'.entries == Place(s, i, e).entries && SameButCounters(Place(s, i, e), s')
    ensures Inv(s')
  {
    var e := Entry(b, true, true, d, s.accessCounter, data);
    i :| Hit(s, i, d, b) && s'.entries == s.entries[i := e];
    OverwriteMayPut(s, i, e);
    PutKeepsInv(s, i, e);
    CountersKeepInv(Place(s, i, e), s');
  }

  lemma WriteMissKeepsInv(s: State, d: nat, b: nat, data: Block, st: Status, s': State)
    requires Inv(s) && d < s.deviceCount && b < s.devices[d].totalBlocks
    requires s.devices[d].blockSize <= CACHE_DATA_SIZE == |data|
    requires forall i :: !Hit(s, i, d, b)
    requires WriteMiss(s, d, b, data, st, s')
    ensures Inv(s')
  {
    MissKeepsInv(s, s.(accessCounter := Next32(s.accessCounter)),
                 Entry(b, true, true, d, Next32(s.accessCounter), data), s');
  }

  lemma WriteCachedKeepsInv(s: State, d: nat, b: nat, hasBuf: bool, data: Block, st: Status, s': State)
    requires Inv(s) && WriteCachedStep(s, d, b, hasBuf, data, st, s')
    ensures Inv(s')
  {
    if d < s.deviceCount && hasBuf && !s.devices[d].writeProtect && b < s.devices[d].totalBlocks {
      if exists i :: Hit(s, i, d, b) {
        var _ := WriteHitKeepsInv(s, d, b, data, s');
      } else {
        WriteMissKeepsInv(s, d, b, data, st, s');
      }
    }
  }

  /** A read returns the logical content and changes none; a refused or failed one changes none. */
  lemma ReadCachedIsPlain(s: State, d: nat, b: nat, hasBuf: bool, st: Status, data: Block, s': State)
    requires Inv(s) && Coherent(s) && ReadCachedStep(s, d, b, hasBuf, st, data, s')
    ensures Inv(s') && Coherent(s') && Plain(s') == Plain(s)
    ensures st == HTL_OK ==>
              && d < s.deviceCount && b < s.devices[d].totalBlocks && s.devices[d].blockSize <= |data|
              && data[..s.devices[d].blockSize] == Logical(s, d, b)
  {
    if d >= s.deviceCount || !hasBuf || b >= s.devices[d].totalBlocks {
    } else if i :| Hit(s, i, d, b) && data == s.entries[i].data {
      LogicalHit(s, i);
      CountersIrrelevant(s, s');
    } else if st != HTL_OK {
      CountersIrrelevant(s, s');
    } else {
      ReadMissIsPlain(s, d, b, data, s');
    }
  }

  lemma ReadMissIsPlain(s: State, d: nat, b: nat, data: Block, s': State)
    requires Inv(s) && Coherent(s) && d < s.deviceCount && b < s.devices[d].totalBlocks
    requires forall i :: !Hit(s, i, d, b)
    requires ReadMiss(s, d, b, data, s')
    ensures Inv(s') && Coherent(s') && Plain(s') == Plain(s)
  {
    var counted := s.(misses := SatAdd(s.misses, 1), accessCounter := Next32(s.accessCounter));
    var e := Entry(b, false, true, d, Next32(s.accessCounter), data);
    var mid := s'.(stats := s.stats);
    MissKeepsInv(s, counted, e, s');
    CountersIrrelevant(s, counted);
    InsertCleanIsPlain(counted, e, mid);
    CountersIrrelevant(mid, s');
  }

  /** The write's data is now held dirty in the cache. */
  ghost predicate HeldDirty(s: State, d: nat, b: nat, data: Block) {
    exists i :: Hit(s, i, d, b) && s.entries[i].dirty && s.entries[i].data == data
  }

  /** A write that succeeds replaces exactly one block; any other changes no block. */
  lemma WriteCachedIsPlain(s: State, d: nat, b: nat, hasBuf: bool, data: Block, st: Status, s': State)
    requires Inv(s) && Coherent(s) && WriteCachedStep(s, d, b, hasBuf, data, st, s')
    ensures Inv(s') && Coherent(s')
    ensures st != HTL_OK ==> Plain(s') == Plain(s)
    ensures st == HTL_OK ==>
              && d < s.deviceCount && b < s.devices[d].totalBlocks && s.devices[d].blockSize <= |data|
              && PlainUpdate(s, d, b, data[..s.devices[d].blockSize], s')
              && HeldDirty(s', d, b, data)
  {
    if d < s.deviceCount && hasBuf && !s.devices[d].writeProtect && b < s.devices[d].totalBlocks {
      if exists i :: Hit(s, i, d, b) {
        WriteHitIsPlain(s, d, b, data, s');
      } else {
        WriteMissIsPlain(s, d, b, data, st, s');
      }
    }
  }

  lemma WriteHitIsPlain(s: State, d: nat, b: nat, data: Block, s': State)
    requires Inv(s) && Coherent(s) && d < s.deviceCount && b < s.devices[d].totalBlocks
    requires s.devices[d].blockSize <= CACHE_DATA_SIZE == |data|
    requires WriteHit(s, d, b, data, s')
    ensures Inv(s') && Coherent(s') && PlainUpdate(s, d, b, data[..s.devices[d].blockSize], s')
    ensures HeldDirty(s', d, b, data)
  {
    var e := Entry(b, true, true, d, s.accessCounter, data);
    var i := WriteHitKeepsInv(s, d, b, data, s');
    PutLogical(s, i, e);
    CountersIrrelevant(Place(s, i, e), s');
    assert Hit(s', i, d, b);
  }

  lemma WriteMissIsPlain(s: State, d: nat, b: nat, data: Block, st: Status, s': State)
    requires Inv(s) && Coherent(s) && d < s.deviceCount && b < s.devices[d].totalBlocks
    requires s.devices[d].blockSize <= CACHE_DATA_SIZE == |data|
    requires forall i :: !Hit(s, i, d, b)
    requires WriteMiss(s, d, b, data, st, s')
    ensures Inv(s') && Coherent(s')
    ensures st != HTL_OK ==> Plain(s') == Plain(s)
    ensures st == HTL_OK ==> PlainUpdate(s, d, b, data[..s.devices[d].blockSize], s') && HeldDirty(s', d, b, data)
  {
    var counted := s.(accessCounter := Next32(s.accessCounter));
    var e := Entry(b, true, true, d, Next32(s.accessCounter), data);
    var mid := s'.(stats := s.stats);
    MissKeepsInv(s, counted, e, s');
    CountersIrrelevant(s, counted);
    CountersIrrelevant(mid, s');
    if st == HTL_OK {
      InsertDirtyIsPlain(counted, e, mid);
      PlainBlock(s, d, b);
      PlainBlock(counted, d, b);
      SameHeld(mid, s', d, b, data);
    }
  }

  lemma InsertDirtyIsPlain(s: State, e: Entry, s': State)
    requires Inv(s) && Coherent(s) && HasSlot(s.entries) && Inserts(s, e, s') && NewEntry(s, e) && e.dirty
    ensures Inv(s') && Coherent(s')
    ensures PlainUpdate(s, e.device, e.blockNum, e.data[..s.devices[e.device].blockSize], s')
    ensures HeldDirty(s', e.device, e.blockNum, e.data)
  {
    var i: nat :| IsSlot(s.entries, i) && s' == Place(s, i, e);
    SlotMayPut(s, i, e);
    PutLogical(s, i, e);
    assert Hit(s', i, e.device, e.blockNum);
  }

  lemma SameHeld(s: State, s': State, d: nat, b: nat, data: Block)
    requires s'.entries == s.entries && HeldDirty(s, d, b, data)
    ensures HeldDirty(s', d, b, data)
  {
    var i :| Hit(s, i, d, b) && s.entries[i].dirty && s.entries[i].data == data;
    assert Hit(s', i, d, b);
  }

  // ---- flush ---------------------------------------------------------------------

  /** Writing to one store, within its geometry, and counting keeps the device table. */
  lemma DiskChangeKeepsDevices(s: State, d: nat, s': State)
    requires DevicesOk(s) && d < s.deviceCount
    requires s'.devices == s.devices && s'.deviceCount == s.deviceCount
    requires Backed(s.devices[d], s'.disks)
    requires s'.disks == s.disks[s.devices[d].handle := s'.disks[s.devices[d].handle]]
    requires |s'.stats| == |s.stats| && StatsInRange(s'.stats[d]) && s'.stats == s.stats[d := s'.stats[d]]
    ensures DevicesOk(s')
  {
    forall d' | 0 <= d' < s.deviceCount ensures Backed(s'.devices[d'], s'.disks) {
      assert Backed(s.devices[d'], s.disks);
      assert d' != d ==> s.devices[d'].handle != s.devices[d].handle;
    }
  }

  lemma FlushKeepsInv(s: State, d: nat, st: Status, s': State)
    requires Inv(s) && FlushStep(s, d, st, s')
    ensures Inv(s')
  {
    if d < s.deviceCount {
      DiskChangeKeepsDevices(s, d, s');
      KeysStayUnique(s.entries, s'.entries);
      forall i | 0 <= i < |s'.entries| ensures EntryOk(s', i) {
        assert EntryOk(s, i);
      }
    }
  }

  /** No flush, however it ends, changes any logical content; one that returns HTL_OK leaves
      nothing pending and the device holding all of its content. */
  lemma FlushIsPlain(s: State, d: nat, st: Status, s': State)
    requires Inv(s) && Coherent(s) && FlushStep(s, d, st, s')
    ensures Inv(s') && Coherent(s') && Plain(s') == Plain(s)
    ensures st == HTL_OK ==>
              && d < s.deviceCount
              && (forall i :: 0 <= i < |s'.entries| ==> !Pending(s'.entries[i], d))
              && s'.disks[s.devices[d].handle] == Contents(s', d)
  {
    FlushKeepsInv(s, d, st, s');
    if d < s.deviceCount {
      FlushCoherent(s, d, st, s');
      forall d', b | 0 <= d' < s.deviceCount && 0 <= b < s.devices[d'].totalBlocks
        ensures Logical(s', d', b) == Logical(s, d', b)
      {
        FlushLogical(s, d, st, s', d', b);
      }
      PlainFromLogical(s, s');
      if st == HTL_OK {
        forall b | 0 <= b < s.devices[d].totalBlocks
          ensures s'.disks[s.devices[d].handle][b] == Contents(s', d)[b]
        {
          if i :| Hit(s', i, d, b) {
            LogicalHit(s', i);
          }
        }
      }
    }
  }

  lemma CleanNotPending(s: State, i: nat)
    requires Inv(s) && i < |s.entries| && s.entries[i].valid && !s.entries[i].dirty
    ensures !PendingBlock(s, s.entries[i].device, s.entries[i].blockNum)
  {
    forall j | Hit(s, j, s.entries[i].device, s.entries[i].blockNum) ensures j == i {
      UniqueHit(s, s.entries[i].device, s.entries[i].blockNum, i, j);
    }
  }

  lemma FlushCoherent(s: State, d: nat, st: Status, s': State)
    requires Inv(s) && Coherent(s) && FlushStep(s, d, st, s') && d < s.deviceCount
    requires Inv(s')
    ensures Coherent(s')
  {
    forall i | 0 <= i < |s'.entries| && s'.entries[i].valid && !s'.entries[i].dirty
      ensures Cached(s', i) == OnDisk(s', s'.entries[i].device, s'.entries[i].blockNum)
    {
      var e := s.entries[i];
      assert FlushedEntry(e, d, s.devices[d].blockSize, s'.disks[s.devices[d].handle], s'.entries[i]);
      if !Pending(e, d) {
        assert Cached(s, i) == OnDisk(s, e.device, e.blockNum);
        if e.device == d {
          CleanNotPending(s, i);
        } else {
          assert s.devices[e.device].handle != s.devices[d].handle;
        }
      }
    }
  }

  lemma FlushLogical(s: State, d: nat, st: Status, s': State, d': nat, b: nat)
    requires Inv(s) && Coherent(s) && FlushStep(s, d, st, s') && d < s.deviceCount && Inv(s')
    requires d' < s.deviceCount && b < s.devices[d'].totalBlocks
    ensures Logical(s', d', b) == Logical(s, d', b)
  {
    if i :| Hit(s, i, d', b) {
      LogicalHit(s, i);
      assert FlushedEntry(s.entries[i], d, s.devices[d].blockSize, s'.disks[s.devices[d].handle], s'.entries[i]);
      assert Hit(s', i, d', b);
      LogicalHit(s', i);
    } else {
      assert forall i :: Hit(s', i, d', b) ==> Hit(s, i, d', b);
      if d' == d {
        assert !PendingBlock(s, d, b);
      } else {
        assert s.devices[d'].handle != s.devices[d].handle;
      }
    }
  }

  // ---- invalidate ------------------------------------------------------------------

  /** Discarding a device's entries leaves it with what its store holds, and every other
      device as it was. */
  lemma InvalidateIsPlain(s: State, d: nat, st: Status, s': State)
    requires Inv(s) && InvalidateStep(s, d, st, s')
    ensures Inv(s') && (Coherent(s) ==> Coherent(s'))
    ensures st != HTL_OK ==> Plain(s') == Plain(s)
    ensures st == HTL_OK ==>
              && d < s.deviceCount
              && Plain(s') == Plain(s)[d := PlainDevice(s.devices[d], s.disks[s.devices[d].handle])]
              && (forall i :: 0 <= i < |s'.entries| && s'.entries[i].valid ==> s'.entries[i].device != d)
  {
    InvalidateKeepsInv(s, d, st, s');
    if d < s.deviceCount {
      var target := Plain(s)[d := PlainDevice(s.devices[d], s.disks[s.devices[d].handle])];
      forall d' | 0 <= d' < s.deviceCount ensures Plain(s')[d'] == target[d'] {
        InvalidateContents(s, d, st, s', d');
      }
    }
  }

  lemma InvalidateKeepsInv(s: State, d: nat, st: Status, s': State)
    requires Inv(s) && InvalidateStep(s, d, st, s')
    ensures Inv(s') && (Coherent(s) ==> Coherent(s'))
  {
    if d < s.deviceCount {
      forall i | 0 <= i < |s'.entries| ensures EntryOk(s', i) {
        assert EntryOk(s, i);
      }
      KeysStayUnique(s.entries, s'.entries);
      assert forall i :: 0 <= i < |s.entries| && s'.entries[i].valid ==> s'.entries[i] == s.entries[i];
    }
  }

  lemma InvalidateContents(s: State, d: nat, st: Status, s': State, d': nat)
    requires Inv(s) && Inv(s') && InvalidateStep(s, d, st, s') && d < s.deviceCount && d' < s.deviceCount
    ensures Contents(s', d') == if d' == d then s.disks[s.devices[d].handle] else Contents(s, d')
  {
    forall b | 0 <= b < s.devices[d'].totalBlocks
      ensures Logical(s', d', b) == if d' == d then OnDisk(s, d, b) else Logical(s, d', b)
    {
      assert forall i :: Hit(s', i, d', b) <==> Hit(s, i, d', b) && d' != d;
      if i :| Hit(s', i, d', b) {
        LogicalHit(s', i);
        LogicalHit(s, i);
      }
    }
  }

  // ---- register and unregister -------------------------------------------------------

  /** A new device is appended with zero statistics, nothing cached, and its store's content. */
  lemma RegisterIsPlain(s: State, dev: Device, st: Status, s': State)
    requires Inv(s) && (Callable(dev) ==> FreshDriver(s, dev)) && RegisterStep(s, dev, st, s')
    ensures Inv(s') && (Coherent(s) ==> Coherent(s'))
    ensures st != HTL_OK ==> s' == s
    ensures st == HTL_OK ==>
              && Plain(s') == Plain(s) + [PlainDevice(Registered(dev), s.disks[dev.handle])]
              && s'.stats[s.deviceCount] == ZERO_STATS
              && (forall i :: 0 <= i < |s'.entries| && s'.entries[i].valid ==> s'.entries[i].device != s.deviceCount)
  {
    if s' != s {
      RegisterKeepsInv(s, dev, s');
      var target := Plain(s) + [PlainDevice(Registered(dev), s.disks[dev.handle])];
      forall d | 0 <= d < s'.deviceCount ensures Plain(s')[d] == target[d] {
        RegisterContents(s, dev, s', d);
      }
      if Coherent(s) {
        assert forall i :: 0 <= i < |s.entries| && s.entries[i].valid ==> Cached(s', i) == Cached(s, i);
      }
    }
  }

  lemma RegisterKeepsInv(s: State, dev: Device, s': State)
    requires Inv(s) && FreshDriver(s, dev) && RegisterStep(s, dev, HTL_OK, s')
    ensures Inv(s')
  {
    forall i | 0 <= i < |s'.entries| ensures EntryOk(s', i) {
      assert EntryOk(s, i);
    }
  }

  lemma RegisterContents(s: State, dev: Device, s': State, d: nat)
    requires Inv(s) && Inv(s') && FreshDriver(s, dev) && RegisterStep(s, dev, HTL_OK, s') && d < s'.deviceCount
    ensures Contents(s', d) == if d < s.deviceCount then Contents(s, d) else s.disks[dev.handle]
  {
    forall b | 0 <= b < s'.devices[d].totalBlocks
      ensures Logical(s', d, b) == if d < s.deviceCount then Logical(s, d, b) else s.disks[dev.handle][b]
    {
      assert forall i :: Hit(s', i, d, b) <==> Hit(s, i, d, b);
      if i :| Hit(s, i, d, b) {
        LogicalHit(s, i);
        LogicalHit(s', i);
      }
    }
  }

  /** Where device `d'` was before device `d` was taken out. */
  function Origin(d: nat, d': nat): nat {
    if d' < d then d' else d' + 1
  }

  lemma UnregisterKeepsInv(s: State, d: nat, st: Status, s': State)
    requires Inv(s) && UnregisterStep(s, d, st, s')
    ensures Inv(s')
  {
    if d < s.deviceCount {
      UnregisterKeepsDevices(s, d, s');
      forall i | 0 <= i < |s'.entries| ensures EntryOk(s', i) {
        assert EntryOk(s, i);
      }
      KeysStayUnique(s.entries, s'.entries);
    }
  }

  /** Discarding the device's entries and then moving everything above it down is the whole step. */
  lemma UnregisterDone(s: State, d: nat, t: State, s': State)
    requires Inv(s) && d < s.deviceCount && InvalidateStep(s, d, HTL_OK, t) && |s'.entries| == |t.entries|
    requires forall i :: 0 <= i < |t.entries| ==> s'.entries[i] == Renumber(t.entries[i], d, s.deviceCount - 1)
    requires s' == t.(entries := s'.entries,
                      devices := Compact(s.devices, d, s.deviceCount, NO_DEVICE),
                      stats := Compact(s.stats, d, s.deviceCount, ZERO_STATS),
                      deviceCount := s.deviceCount - 1)
    ensures UnregisterStep(s, d, HTL_OK, s') && Inv(s')
  {
    forall i | 0 <= i < |s.entries|
      ensures s'.entries[i] == Renumber(Discard(s.entries[i], d), d, s.deviceCount)
    {
      assert EntryOk(s, i);
    }
    UnregisterKeepsInv(s, d, HTL_OK, s');
  }

  lemma UnregisterKeepsDevices(s: State, d: nat, s': State)
    requires DevicesOk(s) && UnregisterStep(s, d, HTL_OK, s') && d < s.deviceCount
    ensures DevicesOk(s')
    ensures forall d' :: 0 <= d' < s'.deviceCount ==> s'.devices[d'] == s.devices[Origin(d, d')]
  {
    CompactAt(s.devices, d, s.deviceCount, NO_DEVICE);
    CompactAt(s.stats, d, s.deviceCount, ZERO_STATS);
    forall d' | 0 <= d' < s'.deviceCount
      ensures s'.devices[d'] == s.devices[Origin(d, d')] && Backed(s'.devices[d'], s'.disks)
    {
      assert Backed(s.devices[Origin(d, d')], s.disks);
    }
  }

  /** Renumbering never merges two devices: block `b` of device `d'` is cached afterwards in
      the same slot that cached block `b` of its former index, and in no other. */
  lemma UnregisterHits(s: State, d: nat, st: Status, s': State, i: int, d': nat, b: nat)
    requires Inv(s) && UnregisterStep(s, d, st, s') && d < s.deviceCount && d' < s'.deviceCount
    ensures Hit(s', i, d', b) <==> Hit(s, i, Origin(d, d'), b)
  {
    if 0 <= i < |s.entries| {
      assert EntryOk(s, i);
    }
  }

  /** Unregistering removes one element of the list of plain devices, together with its
      statistics, and disturbs no other. */
  lemma UnregisterIsPlain(s: State, d: nat, st: Status, s': State)
    requires Inv(s) && UnregisterStep(s, d, st, s')
    ensures Inv(s') && (Coherent(s) ==> Coherent(s'))
    ensures st != HTL_OK ==> s' == s
    ensures st == HTL_OK ==>
              && d < s.deviceCount
              && Plain(s') == Plain(s)[..d] + Plain(s)[d + 1..]
              && s'.stats[..s'.deviceCount] == s.stats[..d] + s.stats[d + 1..s.deviceCount]
              && (forall i :: 0 <= i < |s'.entries| && s'.entries[i].valid ==> s'.entries[i].device < s'.deviceCount)
  {
    UnregisterKeepsInv(s, d, st, s');
    if d < s.deviceCount {
      var target := Plain(s)[..d] + Plain(s)[d + 1..];
      forall d' | 0 <= d' < s'.deviceCount ensures Plain(s')[d'] == target[d'] {
        UnregisterContents(s, d, st, s', d');
      }
      if Coherent(s) {
        UnregisterCoherent(s, d, st, s');
      }
    }
  }

  lemma UnregisterContents(s: State, d: nat, st: Status, s': State, d': nat)
    requires Inv(s) && Inv(s') && UnregisterStep(s, d, st, s') && d < s.deviceCount && d' < s'.deviceCount
    ensures s'.devices[d'] == s.devices[Origin(d, d')]
    ensures Contents(s', d') == Contents(s, Origin(d, d'))
  {
    forall b | 0 <= b < s'.devices[d'].totalBlocks
      ensures Logical(s', d', b) == Logical(s, Origin(d, d'), b)
    {
      forall i ensures Hit(s', i, d', b) <==> Hit(s, i, Origin(d, d'), b) {
        UnregisterHits(s, d, st, s', i, d', b);
      }
      if i :| Hit(s', i, d', b) {
        LogicalHit(s', i);
        LogicalHit(s, i);
      }
    }
  }

  lemma UnregisterCoherent(s: State, d: nat, st: Status, s': State)
    requires Inv(s) && Inv(s') && UnregisterStep(s, d, st, s') && d < s.deviceCount && Coherent(s)
    ensures Coherent(s')
  {
    forall i | 0 <= i < |s'.entries| && s'.entries[i].valid && !s'.entries[i].dirty
      ensures Cached(s', i) == OnDisk(s', s'.entries[i].device, s'.entries[i].blockNum)
    {
      assert Cached(s, i) == OnDisk(s, s.entries[i].device, s.entries[i].blockNum);
    }
  }

  // ---- raw I/O -----------------------------------------------------------------------

  /** Writing to a store, within its geometry, keeps the table; only coherence is at stake. */
  lemma DiskChangeKeepsInv(s: State, d: nat, s': State)
    requires Inv(s) && d < s.deviceCount
    requires Backed(s.devices[d], s'.disks)
    requires s'.disks == s.disks[s.devices[d].handle := s'.disks[s.devices[d].handle]]
    requires |s'.stats| == |s.stats| && StatsInRange(s'.stats[d]) && s'.stats == s.stats[d := s'.stats[d]]
    requires s' == s.(disks := s'.disks, stats := s'.stats)
    ensures Inv(s')
  {
    DiskChangeKeepsDevices(s, d, s');
    forall i | 0 <= i < |s'.entries| ensures EntryOk(s', i) {
      assert EntryOk(s, i);
    }
  }

  lemma WriteSectorsKeepsInv(s: State, d: nat, lba: nat, count: nat, hasBuf: bool, data: seq<byte>, st: Status,
                             s': State)
    requires Inv(s) && WriteSectorsStep(s, d, lba, count, hasBuf, data, st, s')
    ensures Inv(s')
  {
    if SectorRefusal(s, d, lba, count, hasBuf, true) == HTL_OK {
      DiskChangeKeepsInv(s, d, s');
    }
  }

  lemma ZeroBlockKeepsInv(s: State, d: nat, b: nat, st: Status, s': State)
    requires Inv(s) && ZeroBlockStep(s, d, b, st, s')
    ensures Inv(s')
  {
    if d < s.deviceCount && !s.devices[d].writeProtect && b < s.devices[d].totalBlocks {
      assert s.stats[d := s.stats[d]] == s.stats;
      DiskChangeKeepsInv(s, d, s');
    }
  }
}

/** The translation layer itself: htl_context_t and the calls that update it in place. */
module HtlContext {
  import opened Bytes
  import opened HtlTypes
  import opened HtlSteps
  import opened HtlCoherence
  import opened HtlCalls
  import opened HtlHardware
  import opened HtlSectors
  import opened HtlSectorIO
  import opened HtlFlush
  import opened HtlRequests

  class Context {
    const hw: Hardware
    const devices: array<Device>
    const stats: array<Stats>
    const entries: array<Entry>
    var deviceCount: nat
    var count: nat
    var hits: nat
    var misses: nat
    var accessCounter: nat

    /** The context and the stores behind its drivers, as one value. */
    ghost function St(): State
      reads this, hw`disks, devices, stats, entries
    {
      State(devices[..], deviceCount, entries[..], count, hits, misses, stats[..], accessCounter, hw.disks)
    }

    ghost predicate Ready()
      reads this, hw`disks, devices, stats, entries
    {
      Inv(St())
    }

    /** The caller's buffer does not overlap the context. */
    ghost predicate Apart(buf: array<byte>)
    {
      buf as object !in {devices as object, stats as object, entries as object}
    }

    /** htl_init: zeroes the context and the cache buffer the caller provides. */
    constructor (hw: Hardware, cacheBuf: array<Entry>)
      requires cacheBuf.Length <= 0x8000_0000
      modifies cacheBuf
      ensures this.hw == hw && entries == cacheBuf && fresh(devices) && fresh(stats)
      ensures Ready() && IsInitial(St()) && hw.disks == old(hw.disks)
    {
      this.hw := hw;
      entries := cacheBuf;
      devices := new Device[MAX_DEVICES](_ => NO_DEVICE);
      stats := new Stats[MAX_DEVICES](_ => ZERO_STATS);
      deviceCount := 0;
      count := 0;
      hits := 0;
      misses := 0;
      accessCounter := 0;
      new;
      var i := 0;
      while i < cacheBuf.Length
        modifies cacheBuf
        invariant 0 <= i <= cacheBuf.Length
        invariant forall j :: 0 <= j < i ==> IsZeroed(cacheBuf[j])
        invariant forall d :: 0 <= d < MAX_DEVICES ==> devices[d] == NO_DEVICE && stats[d] == ZERO_STATS
      {
        cacheBuf[i] := Entry(0, false, false, 0, 0, seq(CACHE_DATA_SIZE, _ => 0));
        i := i + 1;
      }
      InitialIsPlain(St());
    }

    // ---- cache ---------------------------------------------------------------------

    /** cache_find: the scan stops at `count`, yet misses no entry. */
    method CacheFind(d: nat, b: nat) returns (idx: int)
      requires Scannable(entries[..], count) && d < MAX_DEVICES
      ensures idx == -1 ==> forall i :: !Hit(St(), i, d, b)
      ensures idx != -1 ==> Hit(St(), idx, d, b)
    {
      var i := 0;
      while i < count
        invariant 0 <= i <= count
        invariant forall j :: 0 <= j < i ==> !Caches(entries[j], d, b)
      {
        if entries[i].valid && entries[i].device == d % 0x100 && entries[i].blockNum == b {
          return i;
        }
        i := i + 1;
      }
      idx := -1;
    }

    /** The eviction scan of cache_insert. */
    method FindVictim() returns (found: bool, victim: nat)
      ensures found ==> IsVictim(entries[..], victim)
      ensures !found ==> forall j :: 0 <= j < entries.Length ==> !Evictable(entries[j])
    {
      var oldest := U32 - 1;
      found, victim := false, 0;
      var i := 0;
      while i < entries.Length
        invariant 0 <= i <= entries.Length
        invariant oldest <= U32 - 1
        invariant !found ==> oldest == U32 - 1 && forall j :: 0 <= j < i ==> !Evictable(entries[j])
        invariant found ==> victim < i && IsVictim(entries[..i], victim) && entries[victim].order == oldest
      {
        if !entries[i].dirty && entries[i].order < oldest {
          oldest := entries[i].order;
          victim := i;
          found := true;
        }
        i := i + 1;
        assert entries[..i] == entries[..i - 1] + [entries[i - 1]];
      }
      assert entries[..i] == entries[..];
    }

    method FindFree() returns (slot: nat)
      ensures slot <= entries.Length
      ensures slot < entries.Length ==> IsFirstFree(entries[..], slot)
      ensures slot == entries.Length ==> AllUsed(entries[..])
    {
      slot := 0;
      while slot < entries.Length && entries[slot].valid
        invariant 0 <= slot <= entries.Length
        invariant forall j :: 0 <= j < slot ==> entries[j].valid
      {
        slot := slot + 1;
      }
    }

    /** cache_insert. */
    method CacheInsert(d: nat, b: nat, data: Block) returns (st: Status)
      modifies `count, entries
      ensures st == InsertStatus(old(entries[..]))
      ensures Inserts(old(St()), Entry(b, false, true, d % 0x100, accessCounter, data), St())
    {
      ghost var s := St();
      var e := Entry(b, false, true, d % 0x100, accessCounter, data);
      if entries.Length == 0 {
        return ERR_INVALID_PARAM;
      }
      var slot := FindFree();
      if slot < entries.Length {
        assert IsSlot(s.entries, slot);
        entries[slot] := e;
        if count < entries.Length { count := count + 1; }
        assert St() == Place(s, slot, e);
        return HTL_OK;
      }
      var found, victim := FindVictim();
      if !found {
        return ERR_IO;
      }
      assert IsSlot(s.entries, victim);
      entries[victim] := e;
      assert St() == Place(s, victim, e);
      return HTL_OK;
    }

    // ---- device table ------------------------------------------------------------------

    /** htl_register_device. */
    method RegisterDevice(dev: Device) returns (st: Status, idx: nat)
      requires Ready() && (Callable(dev) ==> FreshDriver(St(), dev))
      modifies `deviceCount, devices
      ensures RegisterStep(old(St()), dev, st, St())
      ensures Ready()
      ensures st == HTL_OK ==> idx == old(deviceCount)
    {
      ghost var s := St();
      idx := 0;
      if !dev.canRead || !dev.canWrite { return ERR_INVALID_PARAM, idx; }
      if dev.blockSize == 0 || dev.totalBlocks == 0 { return ERR_INVALID_PARAM, idx; }
      if deviceCount >= MAX_DEVICES { return ERR_INVALID_PARAM, idx; }
      idx := deviceCount;
      devices[idx] := Registered(dev);
      deviceCount := deviceCount + 1;
      st := HTL_OK;
      RegisterIsPlain(s, dev, st, St());
    }

    /** htl_invalidate_cache. */
    method InvalidateCache(d: nat) returns (st: Status)
      requires Ready()
      modifies entries
      ensures InvalidateStep(old(St()), d, st, St())
      ensures Ready()
    {
      ghost var s := St();
      if d >= deviceCount { return ERR_NO_DEVICE; }
      var i := 0;
      while i < entries.Length
        invariant 0 <= i <= entries.Length
        invariant forall j :: 0 <= j < i ==> entries[j] == Discard(s.entries[j], d)
        invariant forall j :: i <= j < entries.Length ==> entries[j] == s.entries[j]
      {
        if entries[i].valid && entries[i].device == d % 0x100 {
          entries[i] := entries[i].(valid := false, dirty := false);
        }
        i := i + 1;
      }
      st := HTL_OK;
      InvalidateIsPlain(s, d, st, St());
    }

    /** The inner loop of htl_unregister_device: entries of device `src` follow it to `src - 1`. */
    method RenameEntries(src: nat)
      requires 0 < src < MAX_DEVICES && count <= entries.Length
      modifies entries
      ensures forall j :: 0 <= j < entries.Length ==>
                entries[j] == if j < count && old(entries[j]).valid && old(entries[j]).device == src
                              then old(entries[j]).(device := src - 1) else old(entries[j])
    {
      var c := 0;
      while c < count
        invariant 0 <= c <= count
        invariant forall j :: 0 <= j < c ==>
                    entries[j] == if old(entries[j]).valid && old(entries[j]).device == src
                                  then old(entries[j]).(device := src - 1) else old(entries[j])
        invariant forall j :: c <= j < entries.Length ==> entries[j] == old(entries[j])
      {
        if entries[c].valid && entries[c].device == src {
          entries[c] := entries[c].(device := src - 1);
        }
        c := c + 1;
      }
    }

    /** Moves one slot down, together with its cache entries. */
    method MoveSlot(src: nat)
      requires 0 < src < MAX_DEVICES == devices.Length == stats.Length && count <= entries.Length
      modifies devices, stats, entries
      ensures devices[..] == old(devices[..])[src - 1 := old(devices[src])]
      ensures stats[..] == old(stats[..])[src - 1 := old(stats[src])]
      ensures forall j :: 0 <= j < entries.Length ==>
                entries[j] == if j < count && old(entries[j]).valid && old(entries[j]).device == src
                              then old(entries[j]).(device := src - 1) else old(entries[j])
    {
      devices[src - 1] := devices[src];
      stats[src - 1] := stats[src];
      RenameEntries(src);
    }

    /** Moves every slot above `d` down by one, in order. */
    method ShiftSlots(d: nat)
      requires d < deviceCount <= MAX_DEVICES == devices.Length == stats.Length
      requires count <= entries.Length && forall j :: 0 <= j < entries.Length && entries[j].valid ==> j < count
      modifies devices, stats, entries
      ensures Moved(old(devices[..]), d, deviceCount - 1, devices[..])
      ensures Moved(old(stats[..]), d, deviceCount - 1, stats[..])
      ensures Renumbered(old(entries[..]), d, deviceCount - 1, entries[..])
    {
      var remaining := deviceCount - d - 1;
      var i := 0;
      while i < remaining
        invariant 0 <= i <= remaining
        invariant Moved(old(devices[..]), d, d + i, devices[..]) && Moved(old(stats[..]), d, d + i, stats[..])
        invariant Renumbered(old(entries[..]), d, d + i, entries[..])
      {
        MovedOne(old(devices[..]), d, d + i, devices[..]);
        MovedOne(old(stats[..]), d, d + i, stats[..]);
        ghost var mid := entries[..];
        MoveSlot(d + 1 + i);
        RenumberedOne(old(entries[..]), d, d + i, mid, count, entries[..]);
        i := i + 1;
      }
    }

    /** Compacts the device table over slot `d`. */
    method ShiftDown(d: nat)
      requires d < deviceCount <= MAX_DEVICES == devices.Length == stats.Length
      requires count <= entries.Length && forall j :: 0 <= j < entries.Length && entries[j].valid ==> j < count
      modifies devices, stats, entries
      ensures devices[..] == Compact(old(devices[..]), d, deviceCount, NO_DEVICE)
      ensures stats[..] == Compact(old(stats[..]), d, deviceCount, ZERO_STATS)
      ensures forall j :: 0 <= j < entries.Length ==> entries[j] == Renumber(old(entries[j]), d, deviceCount - 1)
    {
      devices[d] := NO_DEVICE;
      stats[d] := ZERO_STATS;
      ShiftSlots(d);
      var last := deviceCount - 1;
      devices[last] := NO_DEVICE;
      stats[last] := ZERO_STATS;
      CompactIs(old(devices[..]), d, deviceCount, NO_DEVICE, devices[..]);
      CompactIs(old(stats[..]), d, deviceCount, ZERO_STATS, stats[..]);
    }

    /** htl_unregister_device. */
    method UnregisterDevice(d: nat) returns (st: Status)
      requires Ready()
      modifies `deviceCount, devices, stats, entries
      ensures UnregisterStep(old(St()), d, st, St())
      ensures Ready()
    {
      ghost var s := St();
      if d >= deviceCount { return ERR_NO_DEVICE; }
      st := InvalidateCache(d);
      ghost var t := St();
      assert forall j :: 0 <= j < entries.Length ==> EntryOk(t, j);
      ShiftDown(d);
      deviceCount := deviceCount - 1;
      UnregisterDone(s, d, t, St());
    }

    // ---- cached block I/O ----------------------------------------------------------------

    /** htl_read_cached. */
    method ReadCached(d: nat, b: nat, buf: array?<byte>) returns (st: Status, ghost calls: seq<Request>)
      requires Ready()
      requires buf != null ==> buf.Length >= CACHE_DATA_SIZE && Apart(buf)
      requires d < deviceCount && b < devices[d].totalBlocks ==> devices[d].blockSize <= CACHE_DATA_SIZE
      modifies `hits, `misses, `accessCounter, `count, entries, stats, buf, hw`log
      ensures ReadCachedStep(old(St()), d, b, buf != null, st, if buf == null then [] else buf[..CACHE_DATA_SIZE], St())
      ensures Ready()
      ensures buf != null ==> buf[CACHE_DATA_SIZE..] == old(buf[CACHE_DATA_SIZE..])
      ensures hw.log == old(hw.log) + calls && ReadCachedAsks(old(St()), d, b, buf != null, st, calls)
    {
      ghost var s := St();
      calls := [];
      if d >= deviceCount { return ERR_NO_DEVICE, calls; }
      if buf == null { return ERR_INVALID_PARAM, calls; }
      if b >= devices[d].totalBlocks { return ERR_INVALID_BLOCK, calls; }
      var idx := CacheFind(d, b);
      if idx >= 0 {
        hits := SatAdd(hits, 1);
        CopyOut(entries[idx].data, buf);
        st := HTL_OK;
        assert Hit(s, idx, d, b) && St() == s.(hits := SatAdd(s.hits, 1)) by {
          assert entries[..] == s.entries && devices[..] == s.devices && stats[..] == s.stats;
        }
      } else {
        st := ReadThrough(d, b, buf);
        calls := [ReadOf(s.devices[d].handle, b, st)];
      }
      ReadCachedKeepsInv(s, d, b, true, st, buf[..CACHE_DATA_SIZE], St());
    }

    method CopyOut(data: Block, buf: array<byte>)
      requires |data| == CACHE_DATA_SIZE <= buf.Length
      modifies buf
      ensures buf[..CACHE_DATA_SIZE] == data && buf[CACHE_DATA_SIZE..] == old(buf[CACHE_DATA_SIZE..])
    {
      var i := 0;
      while i < CACHE_DATA_SIZE
        invariant 0 <= i <= CACHE_DATA_SIZE
        invariant buf[..i] == data[..i]
        invariant buf[CACHE_DATA_SIZE..] == old(buf[CACHE_DATA_SIZE..])
      {
        buf[i] := data[i];
        i := i + 1;
      }
    }

    /** The miss path of htl_read_cached. */
    method ReadThrough(d: nat, b: nat, buf: array<byte>) returns (st: Status)
      requires Addressable(St(), d, b) && |hw.disks[devices[d].handle][b]| == devices[d].blockSize
      requires d < MAX_DEVICES && devices[d].blockSize <= CACHE_DATA_SIZE <= buf.Length && Apart(buf)
      modifies `misses, `accessCounter, `count, entries, stats, buf, hw`log
      ensures st != HTL_OK ==> St() == AddErrors(old(St()).(misses := SatAdd(old(misses), 1)), d, 1)
      ensures st == HTL_OK ==> ReadMiss(old(St()), d, b, buf[..CACHE_DATA_SIZE], St())
      ensures buf[CACHE_DATA_SIZE..] == old(buf[CACHE_DATA_SIZE..])
      ensures hw.log == old(hw.log) + [ReadOf(old(devices[d]).handle, b, st)]
    {
      st := Fetch(d, b, buf);
      if st != HTL_OK {
        CountError(d);
        return;
      }
      KeepRead(d, b, buf[..CACHE_DATA_SIZE]);
    }

    /** The driver's part of a miss. */
    method Fetch(d: nat, b: nat, buf: array<byte>) returns (st: Status)
      requires Addressable(St(), d, b) && |hw.disks[devices[d].handle][b]| == devices[d].blockSize
      requires devices[d].blockSize <= CACHE_DATA_SIZE <= buf.Length && Apart(buf)
      modifies `misses, buf, hw`log
      ensures St() == old(St()).(misses := SatAdd(old(misses), 1))
      ensures st == HTL_OK ==> buf[..devices[d].blockSize] == hw.disks[devices[d].handle][b]
      ensures buf[CACHE_DATA_SIZE..] == old(buf[CACHE_DATA_SIZE..])
      ensures hw.log == old(hw.log) + [ReadOf(devices[d].handle, b, st)]
    {
      ghost var s := St();
      var bs := devices[d].blockSize;
      misses := SatAdd(misses, 1);
      ghost var before := buf[..];
      st := hw.ReadBlock(devices[d].handle, b, buf, 0, bs);
      assert entries[..] == s.entries && devices[..] == s.devices && stats[..] == s.stats;
      assert buf[CACHE_DATA_SIZE..] == buf[bs..][CACHE_DATA_SIZE - bs..];
      assert before[CACHE_DATA_SIZE..] == before[bs..][CACHE_DATA_SIZE - bs..];
    }

    /** The cache's part of a miss: the block is inserted clean, if there is a slot, and counted. */
    method KeepRead(d: nat, b: nat, data: Block)
      requires d < MAX_DEVICES && d < devices.Length && d < stats.Length
      requires StatsInRange(stats[d]) && devices[d].blockSize < U32
      modifies `accessCounter, `count, entries, stats
      ensures Inserts(old(St()).(accessCounter := Next32(old(accessCounter))),
                      Entry(b, false, true, d, Next32(old(accessCounter)), data), St().(stats := old(stats[..])))
      ensures stats[..] == AddRead(old(St()), d, devices[d].blockSize).stats
    {
      ghost var before := stats[..];
      accessCounter := Next32(accessCounter);
      var _ := CacheInsert(d, b, data);
      ghost var mid := St();
      CountRead(d, devices[d].blockSize);
      assert St().(stats := before) == mid;
    }

    // ---- statistics ------------------------------------------------------------------------

    method CountRead(d: nat, n: nat)
      requires d < stats.Length && StatsInRange(stats[d]) && n < U64
      modifies stats
      ensures St() == AddRead(old(St()), d, n)
    {
      stats[d] := stats[d].(readOps := SatAdd(stats[d].readOps, 1), bytesRead := SatAdd(stats[d].bytesRead, n));
    }

    method CountWrite(d: nat, n: nat)
      requires d < stats.Length && StatsInRange(stats[d]) && n < U64
      modifies stats
      ensures St() == AddWrite(old(St()), d, n)
    {
      stats[d] := stats[d].(writeOps := SatAdd(stats[d].writeOps, 1), bytesWritten := SatAdd(stats[d].bytesWritten, n));
    }

    method CountError(d: nat)
      requires d < stats.Length && StatsInRange(stats[d])
      modifies stats
      ensures St() == AddErrors(old(St()), d, 1)
    {
      stats[d] := stats[d].(errors := SatAdd(stats[d].errors, 1));
    }

    /** htl_write_cached. */
    method WriteCached(d: nat, b: nat, buf: array?<byte>) returns (st: Status)
      requires Ready()
      requires buf != null ==> buf.Length >= CACHE_DATA_SIZE && Apart(buf)
      requires d < deviceCount && b < devices[d].totalBlocks && !devices[d].writeProtect ==>
                 devices[d].blockSize <= CACHE_DATA_SIZE
      modifies `accessCounter, `count, entries, stats
      ensures WriteCachedStep(old(St()), d, b, buf != null,
                              if buf == null then [] else buf[..CACHE_DATA_SIZE], st, St())
      ensures Ready()
    {
      ghost var s := St();
      if d >= deviceCount { return ERR_NO_DEVICE; }
      if buf == null { return ERR_INVALID_PARAM; }
      if devices[d].writeProtect { return ERR_WRITE_PROTECT; }
      if b >= devices[d].totalBlocks { return ERR_INVALID_BLOCK; }
      var idx := CacheFind(d, b);
      assert forall i :: 0 <= i < entries.Length && Caches(entries[i], d, b) ==> Hit(s, i, d, b);
      if idx >= 0 {
        assert Hit(s, idx, d, b);
        Overwrite(idx, d, b, buf[..CACHE_DATA_SIZE]);
        st := HTL_OK;
      } else {
        st := WriteNew(d, b, buf[..CACHE_DATA_SIZE]);
      }
      WriteCachedKeepsInv(s, d, b, true, buf[..CACHE_DATA_SIZE], st, St());
    }

    /** The hit path of htl_write_cached. */
    method Overwrite(idx: nat, d: nat, b: nat, data: Block)
      requires Addressable(St(), d, b) && Hit(St(), idx, d, b)
      modifies `accessCounter, entries, stats
      ensures WriteHit(old(St()), d, b, data, St())
    {
      entries[idx] := entries[idx].(data := data, dirty := true, order := accessCounter);
      accessCounter := Next32(accessCounter);
      CountWrite(d, devices[d].blockSize);
    }

    /** The miss path of htl_write_cached: insertion, then a search to mark the entry dirty. */
    method WriteNew(d: nat, b: nat, data: Block) returns (st: Status)
      requires Addressable(St(), d, b) && d < MAX_DEVICES && Scannable(entries[..], count)
      requires forall i :: 0 <= i < entries.Length ==> !Caches(entries[i], d, b)
      modifies `accessCounter, `count, entries, stats
      ensures WriteMiss(old(St()), d, b, data, st, St())
    {
      ghost var s := St();
      accessCounter := Next32(accessCounter);
      ghost var counted := St();
      st := CacheInsert(d, b, data);
      if st == HTL_OK {
        MarkDirty(counted, d, b, data);
        ghost var mid := St();
        CountWrite(d, devices[d].blockSize);
        assert St().(stats := s.stats) == mid;
      }
    }

    method MarkDirty(ghost s: State, d: nat, b: nat, data: Block)
      requires d < MAX_DEVICES && Scannable(s.entries, s.count)
      requires forall i :: 0 <= i < |s.entries| ==> !Caches(s.entries[i], d, b)
      requires HasSlot(s.entries) && Inserts(s, Entry(b, false, true, d, accessCounter, data), St())
      modifies entries
      ensures Inserts(s, Entry(b, true, true, d, accessCounter, data), St())
    {
      ghost var e := Entry(b, false, true, d, accessCounter, data);
      ghost var i: nat :| IsSlot(s.entries, i) && St() == Place(s, i, e);
      PlaceScannable(s, i, e);
      assert Hit(St(), i, d, b);
      var idx := CacheFind(d, b);
      if idx >= 0 {
        assert idx == i;
        entries[idx] := entries[idx].(dirty := true);
      }
      assert St() == Place(s, i, e.(dirty := true));
    }

    // ---- flush ------------------------------------------------------------------------------

    /** One iteration of the flush loop. */
    method FlushOne(i: nat, d: nat) returns (st: Status, ghost calls: seq<Request>)
      requires i < entries.Length && d < MAX_DEVICES && FlushReady(St(), d, i)
      modifies hw, entries, stats
      ensures FlushOneStep(old(St()), d, i, st, St())
      ensures hw.log == old(hw.log) + calls && FlushOneAsks(old(entries[i]), d, old(devices[d]).handle, st, calls)
    {
      st, calls := HTL_OK, [];
      var e := entries[i];
      if e.valid && e.dirty && e.device == d % 0x100 {
        var dev := devices[d];
        st := hw.WriteBlock(dev.handle, e.blockNum, e.data[..dev.blockSize]);
        calls := [WriteOf(dev.handle, e.blockNum, st)];
        if st != HTL_OK {
          CountError(d);
        } else {
          entries[i] := e.(dirty := false);
        }
      }
    }

    /** The flush loop over the whole cache. */
    method FlushEntries(d: nat) returns (lastErr: Status, ghost calls: seq<Request>)
      requires Ready() && d < deviceCount
      modifies hw, entries, stats
      ensures hw.log == old(hw.log) + calls && FlushLoop(old(St()), d, entries.Length, St(), lastErr, calls)
    {
      ghost var s := St();
      lastErr, calls := HTL_OK, [];
      var i := 0;
      LoopBegin(s, d);
      while i < entries.Length
        invariant 0 <= i <= entries.Length
        invariant hw.log == old(hw.log) + calls && FlushLoop(s, d, i, St(), lastErr, calls)
      {
        ghost var t := St();
        LoopReady(s, d, i, t, lastErr, calls);
        var st;
        ghost var one;
        st, one := FlushOne(i, d);
        LoopProgress(s, d, i, t, lastErr, calls, st, one, St());
        Reassociate(old(hw.log), calls, one);
        calls := calls + one;
        if st != HTL_OK { lastErr := st; }
        i := i + 1;
      }
    }

    /** htl_flush_device_cache: the loop, then the driver's own flush if it has one. */
    method FlushDeviceCache(d: nat) returns (lastErr: Status, ghost calls: seq<Request>)
      requires Ready()
      modifies hw, entries, stats
      ensures FlushStep(old(St()), d, lastErr, St())
      ensures Ready()
      ensures hw.log == old(hw.log) + calls && FlushAsks(old(St()), d, lastErr, St(), calls)
    {
      ghost var s, start := St(), hw.log;
      calls := [];
      if d >= deviceCount { return ERR_NO_DEVICE, calls; }
      lastErr, calls := FlushEntries(d);
      ghost var t, err := St(), lastErr;
      ghost var failed, own;
      LoopCounts(s, d, t, err, calls);
      lastErr, failed, own := FlushOwn(d, lastErr);
      CountFlush(d);
      LoopDone(s, d, t, err, calls, lastErr, failed, own, St());
      Reassociate(start, calls, own);
      calls := calls + own;
    }

    /** The driver's own flush, if it has one. */
    method FlushOwn(d: nat, err: Status) returns (lastErr: Status, ghost failed: nat, ghost own: seq<Request>)
      requires d < devices.Length && d < stats.Length && StatsInRange(stats[d])
      modifies hw`log, stats
      ensures failed <= 1 && St() == AddErrors(old(St()), d, failed)
      ensures hw.log == old(hw.log) + own && OwnFlush(devices[d], err, lastErr, failed, own)
    {
      lastErr, failed, own := err, 0, [];
      if devices[d].canFlush {
        var st := hw.FlushCache(devices[d].handle);
        own := [FlushOf(devices[d].handle, st)];
        if st != HTL_OK {
          lastErr, failed := st, 1;
          CountError(d);
        }
      }
    }

    method CountFlush(d: nat)
      requires d < stats.Length && StatsInRange(stats[d])
      modifies stats
      ensures St() == AddFlush(old(St()), d)
    {
      stats[d] := stats[d].(flushOps := SatAdd(stats[d].flushOps, 1));
    }

    // ---- sector I/O -----------------------------------------------------------------------------

    /** htl_read_sectors. */
    method ReadSectors(d: nat, lba: nat, sectors: nat, buf: array?<byte>)
      returns (st: Status, ghost calls: seq<Request>)
      requires Ready() && lba < U64 && sectors < U32
      requires buf != null ==> sectors * SECTOR_SIZE <= buf.Length && Apart(buf)
      requires d < deviceCount && InBounds(lba, sectors, Sectors(devices[d])) ==>
                 lba + sectors < U64 && SectorGeometry(devices[d])
      modifies stats, buf, hw`log
      ensures ReadSectorsStep(old(St()), d, lba, sectors, buf != null, st,
                              if buf == null then [] else buf[..sectors * SECTOR_SIZE], St())
      ensures Ready()
      ensures buf != null ==> buf[sectors * SECTOR_SIZE..] == old(buf[sectors * SECTOR_SIZE..])
      ensures hw.log == old(hw.log) + calls && ReadSectorsAsks(old(St()), d, lba, sectors, buf != null, st, calls)
    {
      ghost var s := St();
      calls := [];
      if d >= deviceCount { return ERR_NO_DEVICE, calls; }
      if buf == null || sectors == 0 { return ERR_INVALID_PARAM, calls; }
      var dev := devices[d];
      var spb := dev.blockSize / SECTOR_SIZE;
      if (lba + sectors) % U64 > dev.totalBlocks * spb { return ERR_INVALID_BLOCK, calls; }
      assert 0 < spb && dev.blockSize == spb * SECTOR_SIZE;
      ghost var done;
      st, done, calls := ReadRun(hw, dev.handle, spb, lba, sectors, buf);
      assert entries[..] == s.entries && devices[..] == s.devices && stats[..] == s.stats;
      if st != HTL_OK {
        CountError(d);
      } else {
        CountRead(d, sectors * SECTOR_SIZE);
      }
      CountersKeepInv(s, St());
    }

    /** htl_write_sectors. */
    method WriteSectors(d: nat, lba: nat, sectors: nat, buf: array?<byte>)
      returns (st: Status, ghost calls: seq<Request>)
      requires Ready() && lba < U64 && sectors < U32
      requires buf != null ==> sectors * SECTOR_SIZE <= buf.Length && Apart(buf)
      requires d < deviceCount && InBounds(lba, sectors, Sectors(devices[d])) ==>
                 lba + sectors < U64 && SectorGeometry(devices[d])
      modifies hw, stats
      ensures WriteSectorsStep(old(St()), d, lba, sectors, buf != null,
                               if buf == null then [] else buf[..sectors * SECTOR_SIZE], st, St())
      ensures Ready()
      ensures hw.log == old(hw.log) + calls && WriteSectorsAsks(old(St()), d, lba, sectors, buf != null, st, calls)
    {
      ghost var s := St();
      calls := [];
      if d >= deviceCount { return ERR_NO_DEVICE, calls; }
      if buf == null || sectors == 0 { return ERR_INVALID_PARAM, calls; }
      var dev := devices[d];
      if dev.writeProtect { return ERR_WRITE_PROTECT, calls; }
      var spb := dev.blockSize / SECTOR_SIZE;
      if (lba + sectors) % U64 > dev.totalBlocks * spb { return ERR_INVALID_BLOCK, calls; }
      assert 0 < spb && dev.blockSize == spb * SECTOR_SIZE;
      ghost var done;
      st, done, calls := WriteRun(hw, dev.handle, spb, lba, sectors, buf);
      if st != HTL_OK {
        CountError(d);
      } else {
        CountWrite(d, sectors * SECTOR_SIZE);
      }
      WriteSectorsKeepsInv(s, d, lba, sectors, true, buf[..sectors * SECTOR_SIZE], st, St());
    }

    /** htl_zero_block. */
    method ZeroBlock(d: nat, b: nat) returns (st: Status, ghost calls: seq<Request>)
      requires Ready()
      requires d < deviceCount && b < devices[d].totalBlocks && !devices[d].writeProtect ==>
                 devices[d].blockSize <= CACHE_DATA_SIZE
      modifies hw, stats
      ensures ZeroBlockStep(old(St()), d, b, st, St())
      ensures Ready()
      ensures hw.log == old(hw.log) + calls && ZeroBlockAsks(old(St()), d, b, st, calls)
    {
      ghost var s := St();
      calls := [];
      if d >= deviceCount { return ERR_NO_DEVICE, calls; }
      var dev := devices[d];
      if dev.writeProtect { return ERR_WRITE_PROTECT, calls; }
      if b >= dev.totalBlocks { return ERR_INVALID_BLOCK, calls; }
      st := hw.WriteBlock(dev.handle, b, seq(dev.blockSize, _ => 0));
      calls := [WriteOf(dev.handle, b, st)];
      if st != HTL_OK {
        CountError(d);
      }
      ZeroBlockKeepsInv(s, d, b, st, St());
    }
  }
}

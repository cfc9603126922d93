/** What one call of the Hardware Translation Layer does to the whole state (DLL/htl/htl.c).
    A driver may fail at any call, so a step relates the state before, the status returned
    and the state after. */
module HtlSteps {
  import opened Bytes
  import opened HtlTypes
  import opened HtlFlat

  // ---- statistics ------------------------------------------------------------

  function AddErrors(s: State, d: nat, n: nat): State
    requires d < |s.stats| && s.stats[d].errors < U64 && n < U64
  {
    s.(stats := s.stats[d := s.stats[d].(errors := SatAdd(s.stats[d].errors, n))])
  }

  function AddRead(s: State, d: nat, n: nat): State
    requires d < |s.stats| && s.stats[d].readOps < U64 && s.stats[d].bytesRead < U64 && n < U64
  {
    s.(stats := s.stats[d := s.stats[d].(readOps := SatAdd(s.stats[d].readOps, 1),
                                         bytesRead := SatAdd(s.stats[d].bytesRead, n))])
  }

  function AddWrite(s: State, d: nat, n: nat): State
    requires d < |s.stats| && s.stats[d].writeOps < U64 && s.stats[d].bytesWritten < U64 && n < U64
  {
    s.(stats := s.stats[d := s.stats[d].(writeOps := SatAdd(s.stats[d].writeOps, 1),
                                         bytesWritten := SatAdd(s.stats[d].bytesWritten, n))])
  }

  function AddFlush(s: State, d: nat): State
    requires d < |s.stats| && s.stats[d].flushOps < U64
  {
    s.(stats := s.stats[d := s.stats[d].(flushOps := SatAdd(s.stats[d].flushOps, 1))])
  }

  /** Every valid entry lies below `count`, so a scan of the first `count` slots sees them all. */
  ghost predicate Scannable(es: seq<Entry>, count: nat) {
    count <= |es| && forall j :: 0 <= j < |es| && es[j].valid ==> j < count
  }

  // ---- choosing a cache slot ---------------------------------------------------

  predicate IsFirstFree(es: seq<Entry>, i: nat) {
    i < |es| && !es[i].valid && forall j :: 0 <= j < i ==> es[j].valid
  }

  predicate AllUsed(es: seq<Entry>) {
    forall j :: 0 <= j < |es| ==> es[j].valid
  }

  /** The eviction scan starts from the largest 32-bit order, so an entry carrying exactly
      that order is passed over even when it is clean. */
  predicate Evictable(e: Entry) {
    !e.dirty && e.order < U32 - 1
  }

  /** The first of the evictable entries with the least stamp. */
  predicate IsVictim(es: seq<Entry>, i: nat) {
    && i < |es|
    && Evictable(es[i])
    && (forall j :: 0 <= j < |es| && Evictable(es[j]) ==> es[i].order <= es[j].order)
    && (forall j :: 0 <= j < i && Evictable(es[j]) ==> es[i].order < es[j].order)
  }

  predicate IsSlot(es: seq<Entry>, i: nat) {
    IsFirstFree(es, i) || (AllUsed(es) && IsVictim(es, i))
  }

  ghost predicate HasSlot(es: seq<Entry>) {
    exists i :: IsSlot(es, i)
  }

  /** `s` with entry `e` placed in slot `i`; `count` grows when the slot was free. */
  function Place(s: State, i: nat, e: Entry): State
    requires i < |s.entries|
  {
    s.(entries := s.entries[i := e],
       count := if !s.entries[i].valid && s.count < |s.entries| then s.count + 1 else s.count)
  }

  /** The status of an insertion; without a slot it is refused. */
  ghost function InsertStatus(es: seq<Entry>): Status {
    if HasSlot(es) then HTL_OK else if es == [] then ERR_INVALID_PARAM else ERR_IO
  }

  /** Insertion of `e` into the chosen slot, if there is one. */
  ghost predicate Inserts(s: State, e: Entry, s': State) {
    if HasSlot(s.entries) then
      exists i :: IsSlot(s.entries, i) && s' == Place(s, i, e)
    else
      s' == s
  }

  /** A fresh context over a zeroed cache buffer. */
  ghost predicate IsInitial(s: State) {
    && |s.devices| == MAX_DEVICES && (forall d :: 0 <= d < MAX_DEVICES ==> s.devices[d] == NO_DEVICE)
    && |s.stats| == MAX_DEVICES && (forall d :: 0 <= d < MAX_DEVICES ==> s.stats[d] == ZERO_STATS)
    && |s.entries| <= 0x8000_0000 && (forall i :: 0 <= i < |s.entries| ==> IsZeroed(s.entries[i]))
    && s.deviceCount == s.count == s.hits == s.misses == s.accessCounter == 0
  }

  // ---- device table ------------------------------------------------------------

  /** What the caller of htl_register_device promises about its driver: the backing store
      exists, has the announced geometry, and is not shared with a registered device. */
  ghost predicate FreshDriver(s: State, dev: Device) {
    && Backed(dev, s.disks)
    && dev.blockSize < U32 && dev.totalBlocks < U32
    && (forall d :: 0 <= d < s.deviceCount && d < |s.devices| ==> s.devices[d].handle != dev.handle)
  }

  /** A device as it is registered, writable. */
  function Registered(dev: Device): Device {
    dev.(writeProtect := false)
  }

  ghost predicate RegisterStep(s: State, dev: Device, st: Status, s': State) {
    if !Callable(dev) || s.deviceCount >= MAX_DEVICES || |s.devices| != MAX_DEVICES then
      st == ERR_INVALID_PARAM && s' == s
    else
      && st == HTL_OK
      && s' == s.(devices := s.devices[s.deviceCount := Registered(dev)], deviceCount := s.deviceCount + 1)
  }

  /** An entry after everything cached for device `d` is discarded. */
  function Discard(e: Entry, d: nat): Entry {
    if e.valid && e.device == d then e.(valid := false, dirty := false) else e
  }

  /** An entry after the devices in (d, upTo] moved down by one. */
  function Renumber(e: Entry, d: nat, upTo: nat): Entry {
    if e.valid && d < e.device <= upTo then e.(device := e.device - 1) else e
  }

  ghost predicate InvalidateStep(s: State, d: nat, st: Status, s': State) {
    if d >= s.deviceCount then
      st == ERR_NO_DEVICE && s' == s
    else
      && st == HTL_OK
      && s' == s.(entries := s'.entries)
      && |s'.entries| == |s.entries|
      && (forall i :: 0 <= i < |s.entries| ==> s'.entries[i] == Discard(s.entries[i], d))
  }

  /** `ys` is `xs` with the elements after `d` up to `n` moved down by one. */
  ghost predicate Moved<T>(xs: seq<T>, d: nat, n: nat, ys: seq<T>) {
    && n < |xs| == |ys|
    && forall j :: 0 <= j < |xs| ==> ys[j] == xs[if d <= j < n then j + 1 else j]
  }

  lemma MovedOne<T>(xs: seq<T>, d: nat, n: nat, ys: seq<T>)
    requires d <= n && Moved(xs, d, n, ys) && n + 1 < |xs|
    ensures Moved(xs, d, n + 1, ys[n := ys[n + 1]])
  {
  }

  ghost predicate Renumbered(es: seq<Entry>, d: nat, n: nat, es': seq<Entry>) {
    |es'| == |es| && forall j :: 0 <= j < |es| ==> es'[j] == Renumber(es[j], d, n)
  }

  lemma RenumberedOne(es: seq<Entry>, d: nat, n: nat, mid: seq<Entry>, count: nat, es': seq<Entry>)
    requires d <= n && Renumbered(es, d, n, mid) && Scannable(es, count) && |es'| == |es|
    requires forall j :: 0 <= j < |es| ==>
               es'[j] == if j < count && mid[j].valid && mid[j].device == n + 1
                         then mid[j].(device := n) else mid[j]
    ensures Renumbered(es, d, n + 1, es')
  {
  }

  /** `xs` with element `d` of the first `n` taken out, the rest moved down and slot `n - 1` zeroed. */
  function Compact<T>(xs: seq<T>, d: nat, n: nat, zero: T): seq<T>
    requires d < n <= |xs|
  {
    xs[..d] + xs[d + 1..n] + [zero] + xs[n..]
  }

  lemma CompactAt<T>(xs: seq<T>, d: nat, n: nat, zero: T)
    requires d < n <= |xs|
    ensures var ys := Compact(xs, d, n, zero);
            && |ys| == |xs|
            && forall j :: 0 <= j < |xs| ==>
                 ys[j] == if j == n - 1 then zero else xs[if d <= j < n - 1 then j + 1 else j]
  {
  }

  lemma CompactIs<T>(xs: seq<T>, d: nat, n: nat, zero: T, ys: seq<T>)
    requires d < n <= |xs| == |ys|
    requires forall j :: 0 <= j < |xs| && j != n - 1 ==> ys[j] == xs[if d <= j < n - 1 then j + 1 else j]
    requires ys[n - 1] == zero
    ensures ys == Compact(xs, d, n, zero)
  {
  }

  ghost predicate UnregisterStep(s: State, d: nat, st: Status, s': State)
    requires DevicesOk(s)
  {
    if d >= s.deviceCount then
      st == ERR_NO_DEVICE && s' == s
    else
      && st == HTL_OK
      && s' == s.(entries := s'.entries,
                  devices := Compact(s.devices, d, s.deviceCount, NO_DEVICE),
                  stats := Compact(s.stats, d, s.deviceCount, ZERO_STATS),
                  deviceCount := s.deviceCount - 1)
      && |s'.entries| == |s.entries|
      && (forall i :: 0 <= i < |s.entries| ==>
            s'.entries[i] == Renumber(Discard(s.entries[i], d), d, s.deviceCount))
  }

  // ---- cached block I/O ----------------------------------------------------------

  /** Block `b` of device `d` can be addressed and the call counted. */
  ghost predicate Addressable(s: State, d: nat, b: nat) {
    && d < |s.devices| && d < |s.stats|
    && s.devices[d].handle in s.disks
    && b < |s.disks[s.devices[d].handle]|
    && s.devices[d].blockSize < U32
    && StatsInRange(s.stats[d])
    && s.misses < U64
  }

  ghost predicate ReadHit(s: State, d: nat, b: nat, data: Block, s': State)
    requires s.hits < U64
  {
    && s' == s.(hits := SatAdd(s.hits, 1))
    && (exists i :: Hit(s, i, d, b) && data == s.entries[i].data)
  }

  /** A miss served by the driver; whether the block then finds a cache slot is not reported. */
  ghost predicate ReadMiss(s: State, d: nat, b: nat, data: Block, s': State)
    requires Addressable(s, d, b)
  {
    && |data| == CACHE_DATA_SIZE
    && s.devices[d].blockSize <= CACHE_DATA_SIZE
    && data[..s.devices[d].blockSize] == s.disks[s.devices[d].handle][b]
    && Inserts(s.(misses := SatAdd(s.misses, 1), accessCounter := Next32(s.accessCounter)),
               Entry(b, false, true, d, Next32(s.accessCounter), data), s'.(stats := s.stats))
    && s'.stats == AddRead(s, d, s.devices[d].blockSize).stats
  }

  /** `data` is the first 4096 bytes of the caller's buffer afterwards. */
  ghost predicate ReadCachedStep(s: State, d: nat, b: nat, hasBuf: bool, st: Status, data: Block, s': State)
    requires Inv(s)
  {
    if d >= s.deviceCount then
      st == ERR_NO_DEVICE && s' == s
    else if !hasBuf then
      st == ERR_INVALID_PARAM && s' == s
    else if b >= s.devices[d].totalBlocks then
      st == ERR_INVALID_BLOCK && s' == s
    else if exists i :: Hit(s, i, d, b) then
      st == HTL_OK && ReadHit(s, d, b, data, s')
    else if st != HTL_OK then
      s' == AddErrors(s.(misses := SatAdd(s.misses, 1)), d, 1)
    else
      ReadMiss(s, d, b, data, s')
  }

  /** The cached copy is replaced and marked dirty, with the counter's value before the call. */
  ghost predicate WriteHit(s: State, d: nat, b: nat, data: Block, s': State)
    requires Addressable(s, d, b)
  {
    && (exists i :: Hit(s, i, d, b) && s'.entries == s.entries[i := Entry(b, true, true, d, s.accessCounter, data)])
    && s' == AddWrite(s.(accessCounter := Next32(s.accessCounter), entries := s'.entries), d, s.devices[d].blockSize)
  }

  /** A dirty entry is inserted, with the counter's value after the call; without a slot the
      write is refused and only the counter has moved. */
  ghost predicate WriteMiss(s: State, d: nat, b: nat, data: Block, st: Status, s': State)
    requires Addressable(s, d, b)
  {
    && st == InsertStatus(s.entries)
    && Inserts(s.(accessCounter := Next32(s.accessCounter)),
               Entry(b, true, true, d, Next32(s.accessCounter), data), s'.(stats := s.stats))
    && s'.stats == if st == HTL_OK then AddWrite(s, d, s.devices[d].blockSize).stats else s.stats
  }

  ghost predicate WriteCachedStep(s: State, d: nat, b: nat, hasBuf: bool, data: Block, st: Status, s': State)
    requires Inv(s)
  {
    if d >= s.deviceCount then
      st == ERR_NO_DEVICE && s' == s
    else if !hasBuf then
      st == ERR_INVALID_PARAM && s' == s
    else if s.devices[d].writeProtect then
      st == ERR_WRITE_PROTECT && s' == s
    else if b >= s.devices[d].totalBlocks then
      st == ERR_INVALID_BLOCK && s' == s
    else
      && s.devices[d].blockSize <= CACHE_DATA_SIZE
      && |data| == CACHE_DATA_SIZE
      && if exists i :: Hit(s, i, d, b) then
           st == HTL_OK && WriteHit(s, d, b, data, s')
         else
           WriteMiss(s, d, b, data, st, s')
  }

  // ---- flushing ------------------------------------------------------------------

  /** Entry `e` holds data of device `d` that the device does not have yet. */
  predicate Pending(e: Entry, d: nat) {
    e.valid && e.dirty && e.device == d
  }

  function CountPending(es: seq<Entry>, d: nat): (n: nat)
    ensures n <= |es|
    ensures n == 0 <==> forall i :: 0 <= i < |es| ==> !Pending(es[i], d)
  {
    if es == [] then 0
    else
      var last := |es| - 1;
      var n := CountPending(es[..last], d);
      assert forall i :: 0 <= i < last ==> es[i] == es[..last][i];
      n + if Pending(es[last], d) then 1 else 0
  }

  /** A pending entry is either written through and cleaned, or left exactly as it was. */
  ghost predicate FlushedEntry(e: Entry, d: nat, bs: nat, disk': seq<Block>, e': Entry) {
    if Pending(e, d) then
      || e' == e
      || (e' == e.(dirty := false) && bs <= |e.data| && e.blockNum < |disk'| && disk'[e.blockNum] == e.data[..bs])
    else e' == e
  }

  ghost predicate PendingBlock(s: State, d: nat, b: nat) {
    exists i :: Hit(s, i, d, b) && s.entries[i].dirty
  }

  /** Entry `i` can be written back to device `d`. */
  ghost predicate FlushReady(s: State, d: nat, i: nat) {
    && i < |s.entries| && d < |s.devices| && d < |s.stats| && StatsInRange(s.stats[d])
    && (Pending(s.entries[i], d) ==>
          var dev := s.devices[d];
          && dev.handle in s.disks && s.entries[i].blockNum < |s.disks[dev.handle]|
          && |s.disks[dev.handle][s.entries[i].blockNum]| == dev.blockSize <= |s.entries[i].data|)
  }

  /** Entry `i` is written through if it is pending; a failed write is counted. */
  ghost predicate FlushOneStep(s: State, d: nat, i: nat, st: Status, s': State)
    requires FlushReady(s, d, i)
  {
    var e, dev := s.entries[i], s.devices[d];
    if !Pending(e, d) then
      st == HTL_OK && s' == s
    else
      && dev.handle in s'.disks && e.blockNum < |s'.disks[dev.handle]|
      && |s'.disks[dev.handle][e.blockNum]| == dev.blockSize
      && s'.disks == s.disks[dev.handle := s.disks[dev.handle][e.blockNum := s'.disks[dev.handle][e.blockNum]]]
      && if st == HTL_OK then
           && s'.disks[dev.handle][e.blockNum] == e.data[..dev.blockSize]
           && s' == s.(disks := s'.disks, entries := s.entries[i := e.(dirty := false)])
         else
           s' == AddErrors(s.(disks := s'.disks), d, 1)
  }

  /** Entries and store after the first `i` iterations of the flush loop. */
  ghost predicate FlushedUpTo(s: State, d: nat, i: nat, t: State)
    requires d < |s.devices| && s.devices[d].handle in s.disks
  {
    var dev := s.devices[d];
    && i <= |s.entries| == |t.entries|
    && |s.disks[dev.handle]| == dev.totalBlocks
    && Backed(dev, t.disks)
    && t.disks == s.disks[dev.handle := t.disks[dev.handle]]
    && (forall j :: 0 <= j < i ==>
          FlushedEntry(s.entries[j], d, dev.blockSize, t.disks[dev.handle], t.entries[j]))
    && (forall j :: i <= j < |s.entries| ==> t.entries[j] == s.entries[j])
    && (forall b :: 0 <= b < dev.totalBlocks && !PendingBlock(s, d, b) ==>
          t.disks[dev.handle][b] == s.disks[dev.handle][b])
  }

  /** Errors counted and status kept after the first `i` iterations. */
  ghost predicate FlushTally(s: State, d: nat, i: nat, t: State, lastErr: Status)
    requires d < |s.stats| && StatsInRange(s.stats[d])
  {
    && i <= |t.entries| <= 0x8000_0000
    && var failures := CountPending(t.entries[..i], d);
       && (lastErr == HTL_OK <==> failures == 0)
       && t == AddErrors(s.(entries := t.entries, disks := t.disks), d, failures)
  }

  /** Every entry still pending cost one error, and so did a failed call of the driver's own
      flush; the status is HTL_OK exactly when there was none. */
  ghost predicate FlushCounted(s: State, d: nat, st: Status, s': State, driverFailures: nat)
    requires d < |s.stats| && StatsInRange(s.stats[d])
  {
    var failures := CountPending(s'.entries, d) + driverFailures;
    && (st == HTL_OK <==> failures == 0)
    && failures < U64
    && s' == AddFlush(AddErrors(s.(entries := s'.entries, disks := s'.disks), d, failures), d)
  }

  ghost predicate FlushStep(s: State, d: nat, st: Status, s': State)
    requires Inv(s)
  {
    if d >= s.deviceCount then
      st == ERR_NO_DEVICE && s' == s
    else
      && FlushedUpTo(s, d, |s.entries|, s')
      && (FlushCounted(s, d, st, s', 0) || FlushCounted(s, d, st, s', 1))
  }

  // ---- raw I/O, which bypasses the cache ---------------------------------------------

  /** The 64-bit bounds test of the sector calls, wrap-around included. */
  predicate InBounds(lba: nat, count: nat, sectors: nat) {
    (lba + count) % U64 <= sectors
  }

  function Sectors(dev: Device): nat {
    dev.totalBlocks * (dev.blockSize / SECTOR_SIZE)
  }

  /** The status of a sector call refused before any driver call, or HTL_OK. */
  function SectorRefusal(s: State, d: nat, lba: nat, count: nat, hasBuf: bool, writing: bool): Status
    requires DevicesOk(s)
  {
    if d >= s.deviceCount then ERR_NO_DEVICE
    else if !hasBuf || count == 0 then ERR_INVALID_PARAM
    else if writing && s.devices[d].writeProtect then ERR_WRITE_PROTECT
    else if !InBounds(lba, count, Sectors(s.devices[d])) then ERR_INVALID_BLOCK
    else HTL_OK
  }

  ghost predicate ReadSectorsStep(s: State, d: nat, lba: nat, count: nat, hasBuf: bool, st: Status, data: seq<byte>,
                                  s': State)
    requires Inv(s)
  {
    var refusal := SectorRefusal(s, d, lba, count, hasBuf, false);
    if refusal != HTL_OK then
      st == refusal && s' == s
    else if st != HTL_OK then
      s' == AddErrors(s, d, 1)
    else
      var flat := Flat(s.disks[s.devices[d].handle]);
      && (lba + count) * SECTOR_SIZE <= |flat|
      && data == flat[lba * SECTOR_SIZE..(lba + count) * SECTOR_SIZE]
      && count < U32
      && s' == AddRead(s, d, count * SECTOR_SIZE)
  }

  /** After a driver error exactly the first `done` sectors are written; only the block in
      which the error struck may differ from that. */
  ghost predicate WrittenUpTo(disk: seq<Block>, spb: nat, lba: nat, data: seq<byte>, done: nat, disk': seq<Block>)
    requires 0 < spb
  {
    exists mid: seq<Block> ::
      && |mid| == |disk| == |disk'| && Blocked(mid, spb * SECTOR_SIZE)
      && done * SECTOR_SIZE <= |data|
      && lba * SECTOR_SIZE + done * SECTOR_SIZE <= |Flat(disk)|
      && Flat(mid) == Splice(Flat(disk), lba * SECTOR_SIZE, data[..done * SECTOR_SIZE])
      && (forall b :: 0 <= b < |disk| && b != (lba + done) / spb ==> disk'[b] == mid[b])
  }

  ghost predicate WriteSectorsStep(s: State, d: nat, lba: nat, count: nat, hasBuf: bool, data: seq<byte>, st: Status,
                                   s': State)
    requires Inv(s)
  {
    var refusal := SectorRefusal(s, d, lba, count, hasBuf, true);
    if refusal != HTL_OK then
      st == refusal && s' == s
    else
      var dev := s.devices[d];
      && Backed(dev, s'.disks)
      && s'.disks == s.disks[dev.handle := s'.disks[dev.handle]]
      && if st != HTL_OK then
           && 0 < dev.blockSize / SECTOR_SIZE
           && (exists done :: 0 <= done < count &&
                 WrittenUpTo(s.disks[dev.handle], dev.blockSize / SECTOR_SIZE, lba, data, done, s'.disks[dev.handle]))
           && s' == AddErrors(s.(disks := s'.disks), d, 1)
         else
           && count < U32
           && |data| == count * SECTOR_SIZE
           && lba * SECTOR_SIZE + |data| <= |Flat(s.disks[dev.handle])|
           && Flat(s'.disks[dev.handle]) == Splice(Flat(s.disks[dev.handle]), lba * SECTOR_SIZE, data)
           && s' == AddWrite(s.(disks := s'.disks), d, count * SECTOR_SIZE)
  }

  ghost predicate ZeroBlockStep(s: State, d: nat, b: nat, st: Status, s': State)
    requires Inv(s)
  {
    if d >= s.deviceCount then
      st == ERR_NO_DEVICE && s' == s
    else if s.devices[d].writeProtect then
      st == ERR_WRITE_PROTECT && s' == s
    else if b >= s.devices[d].totalBlocks then
      st == ERR_INVALID_BLOCK && s' == s
    else
      var dev := s.devices[d];
      && Backed(dev, s'.disks)
      && s'.disks == s.disks[dev.handle := s.disks[dev.handle][b := s'.disks[dev.handle][b]]]
      && if st != HTL_OK then
           s' == AddErrors(s.(disks := s'.disks), d, 1)
         else
           && s'.disks[dev.handle][b] == seq(dev.blockSize, _ => 0)
           && s' == s.(disks := s'.disks)
  }
}

/** The data of the Hardware Translation Layer (DLL/htl/htl.h) as plain values. */
module HtlTypes {
  import opened Bytes

  // ---- constants -----------------------------------------------------------

  const SECTOR_SIZE: nat := 512
  const CACHE_DATA_SIZE: nat := 4096
  const MAX_DEVICES: nat := 8

  type Status = nat

  const HTL_OK: Status := 0
  const ERR_IO: Status := 0x0011A000
  const ERR_INVALID_BLOCK: Status := 0x0011A001
  const ERR_WRITE_PROTECT: Status := 0x0011A802
  const ERR_NO_DEVICE: Status := 0x0011AE00
  const ERR_INVALID_PARAM: Status := 0x0011AE01

  // ---- entities ------------------------------------------------------------

  type Block = seq<byte>

  // The opaque driver context pointer. Each handle names one backing store.
  type Handle = nat

  /** A device slot. The three flags say which callbacks are present. */
  datatype Device = Device(
    canRead: bool,
    canWrite: bool,
    canFlush: bool,
    handle: Handle,
    blockSize: nat,
    totalBlocks: nat,
    writeProtect: bool)

  const NO_DEVICE: Device := Device(false, false, false, 0, 0, 0, false)

  datatype Stats = Stats(
    readOps: nat,
    writeOps: nat,
    flushOps: nat,
    errors: nat,
    bytesRead: nat,
    bytesWritten: nat)

  const ZERO_STATS: Stats := Stats(0, 0, 0, 0, 0, 0)

  datatype Entry = Entry(
    blockNum: nat,
    dirty: bool,
    valid: bool,
    device: nat,
    order: nat,
    data: Block)

  /** A zeroed cache slot, as htl_init leaves it. */
  predicate IsZeroed(e: Entry) {
    e.blockNum == 0 && !e.dirty && !e.valid && e.device == 0 && e.order == 0 && e.data == seq(CACHE_DATA_SIZE, _ => 0)
  }

  /** The whole context together with the backing stores behind the drivers. */
  datatype State = State(
    devices: seq<Device>,
    deviceCount: nat,
    entries: seq<Entry>,
    count: nat,
    hits: nat,
    misses: nat,
    stats: seq<Stats>,
    accessCounter: nat,
    disks: map<Handle, seq<Block>>)

  /** One call of a driver, with the status it returned. */
  datatype Request =
    | ReadOf(handle: Handle, block: nat, st: Status)
    | WriteOf(handle: Handle, block: nat, st: Status)
    | FlushOf(handle: Handle, st: Status)

  // ---- arithmetic ----------------------------------------------------------

  /** Saturating 64-bit addition, through the wrapped sum as the source computes it. */
  function SatAdd(a: nat, b: nat): (r: nat)
    requires a < U64 && b < U64
    ensures r == if a + b < U64 then a + b else U64 - 1
  {
    var wrapped := (a + b) % U64;
    if wrapped < a then U64 - 1 else wrapped
  }

  /** A post-incremented 32-bit counter. */
  function Next32(x: nat): (r: nat)
    ensures r < U32
  {
    (x + 1) % U32
  }

  // ---- what holds of every reachable context --------------------------------

  predicate Callable(dev: Device) {
    dev.canRead && dev.canWrite && dev.blockSize != 0 && dev.totalBlocks != 0
  }

  /** The driver behind `dev` really stores the blocks the device claims. */
  ghost predicate Backed(dev: Device, disks: map<Handle, seq<Block>>) {
    && dev.handle in disks
    && |disks[dev.handle]| == dev.totalBlocks
    && (forall b :: 0 <= b < dev.totalBlocks ==> |disks[dev.handle][b]| == dev.blockSize)
  }

  ghost predicate StatsInRange(x: Stats) {
    && x.readOps < U64 && x.writeOps < U64 && x.flushOps < U64 && x.errors < U64
    && x.bytesRead < U64 && x.bytesWritten < U64
  }

  /** Live slots hold callable devices on separate stores; dead slots are zero. */
  ghost predicate DevicesOk(s: State) {
    && |s.devices| == MAX_DEVICES
    && |s.stats| == MAX_DEVICES
    && s.deviceCount <= MAX_DEVICES
    && (forall d :: 0 <= d < s.deviceCount ==>
          && Callable(s.devices[d]) && Backed(s.devices[d], s.disks)
          && s.devices[d].blockSize < U32 && s.devices[d].totalBlocks < U32)
    && (forall d, d' :: 0 <= d < d' < s.deviceCount ==> s.devices[d].handle != s.devices[d'].handle)
    && (forall d :: s.deviceCount <= d < MAX_DEVICES ==> s.devices[d] == NO_DEVICE && s.stats[d] == ZERO_STATS)
    && (forall d :: 0 <= d < MAX_DEVICES ==> StatsInRange(s.stats[d]))
  }

  /** Entry `e` caches block `b` of device `d`. */
  predicate Caches(e: Entry, d: nat, b: nat) {
    e.valid && e.device == d && e.blockNum == b
  }

  ghost predicate KeysUnique(es: seq<Entry>) {
    forall i, j :: 0 <= i < j < |es| && es[i].valid && es[j].valid ==>
      es[i].device != es[j].device || es[i].blockNum != es[j].blockNum
  }

  ghost predicate EntryOk(s: State, i: nat)
    requires |s.devices| == MAX_DEVICES && s.deviceCount <= MAX_DEVICES && i < |s.entries|
  {
    var e := s.entries[i];
    && |e.data| == CACHE_DATA_SIZE
    && e.order < U32
    && (e.dirty ==> e.valid)
    && (e.valid ==>
          && i < s.count
          && e.device < s.deviceCount
          && e.blockNum < s.devices[e.device].totalBlocks
          && s.devices[e.device].blockSize <= CACHE_DATA_SIZE)
  }

  /** The cache table: valid entries lie below `count`, name live blocks, and never repeat a key. */
  ghost predicate CacheOk(s: State)
    requires |s.devices| == MAX_DEVICES && s.deviceCount <= MAX_DEVICES
  {
    && s.count <= |s.entries| <= 0x8000_0000
    && s.hits < U64 && s.misses < U64 && s.accessCounter < U32
    && (forall i {:trigger s.entries[i]} :: 0 <= i < |s.entries| ==> EntryOk(s, i))
    && KeysUnique(s.entries)
  }

  ghost predicate Inv(s: State) {
    DevicesOk(s) && CacheOk(s)
  }

  // ---- logical content -------------------------------------------------------

  /** The block a cache entry stands for: the first `blockSize` bytes of its buffer. */
  ghost function Cached(s: State, i: nat): Block
    requires Inv(s) && i < |s.entries| && s.entries[i].valid
  {
    s.entries[i].data[..s.devices[s.entries[i].device].blockSize]
  }

  /** The block as stored behind the driver. */
  ghost function OnDisk(s: State, d: nat, b: nat): Block
    requires Inv(s) && d < s.deviceCount && b < s.devices[d].totalBlocks
  {
    s.disks[s.devices[d].handle][b]
  }

  ghost predicate Hit(s: State, i: int, d: nat, b: nat) {
    0 <= i < |s.entries| && Caches(s.entries[i], d, b)
  }

  /** The content of block `b` of device `d`: its cache entry if there is one, else the stored block. */
  ghost function Logical(s: State, d: nat, b: nat): Block
    requires Inv(s) && d < s.deviceCount && b < s.devices[d].totalBlocks
  {
    if exists i :: Hit(s, i, d, b) then
      var i :| Hit(s, i, d, b);
      Cached(s, i)
    else
      OnDisk(s, d, b)
  }

  /** A device as its user sees it: no cache, only blocks. */
  datatype PlainDevice = PlainDevice(dev: Device, blocks: seq<Block>)

  ghost function Contents(s: State, d: nat): (blocks: seq<Block>)
    requires Inv(s) && d < s.deviceCount
    ensures |blocks| == s.devices[d].totalBlocks
  {
    seq(s.devices[d].totalBlocks, b requires 0 <= b < s.devices[d].totalBlocks => Logical(s, d, b))
  }

  /** The context as a list of plain devices. */
  ghost function Plain(s: State): (ps: seq<PlainDevice>)
    requires Inv(s)
    ensures |ps| == s.deviceCount
  {
    seq(s.deviceCount, d requires 0 <= d < s.deviceCount => PlainDevice(s.devices[d], Contents(s, d)))
  }

  /** Clean entries agree with the store. */
  ghost predicate Coherent(s: State)
    requires Inv(s)
  {
    forall i :: 0 <= i < |s.entries| && s.entries[i].valid && !s.entries[i].dirty ==>
      Cached(s, i) == OnDisk(s, s.entries[i].device, s.entries[i].blockNum)
  }
}

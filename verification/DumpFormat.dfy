/** The byte layout of a .bdmp crash dump (Extensions/bdmp_format.h), as values. */
module DumpFormat {
  import opened Bytes
  import opened LittleEndian
  import opened Crc32c

  const MAGIC: nat := 0x42444D50
  const FORMAT_VERSION: nat := 1
  const HEADER_SIZE: nat := 256
  const MAX_TRAPS: nat := 64
  const TRAP_TABLE_OFFSET: nat := 432
  const TRAP_RECORD_SIZE: nat := 24

  // ---- what goes into a dump -------------------------------------------------------------

  /** rax, rbx, rcx, rdx, rsi, rdi, rbp, rsp, r8 to r15, rip, rflags, cr0, cr2, cr3, cr4. */
  type CpuFrame = f: seq<nat> | |f| == 22 && forall i :: 0 <= i < 22 ==> f[i] < U64
    witness [0, 0, 0, 0, 0, 0, 0, 0, 0, 0, 0, 0, 0, 0, 0, 0, 0, 0, 0, 0, 0, 0]

  datatype TrapRecord = TrapRecord(bancode: nat, trapSlot: nat, timestamp: nat, contextIp: nat)

  predicate TrapOk(t: TrapRecord) {
    t.bancode < U32 && t.trapSlot < U32 && t.timestamp < U64 && t.contextIp < U64
  }

  datatype Fault = Fault(bancode: nat, cpuId: nat, tsc: nat, cr2: nat)

  predicate FaultOk(f: Fault) {
    f.bancode < U32 && f.cpuId < U32 && f.tsc < U64 && f.cr2 < U64
  }

  /** Everything a dump records. */
  datatype Crash = Crash(fault: Fault, frame: CpuFrame, traps: seq<TrapRecord>, mem: seq<byte>)

  predicate CrashOk(c: Crash) {
    && FaultOk(c.fault)
    && |c.traps| <= MAX_TRAPS && (forall i :: 0 <= i < |c.traps| ==> TrapOk(c.traps[i]))
    && MemoryOffset(|c.traps|) + |c.mem| < U32
  }

  // ---- offsets ------------------------------------------------------------------------------

  /** bdmp_align8 on 32-bit numbers. */
  function Align8(x: nat): nat {
    (x + 7) % U32 / 8 * 8
  }

  /** bdmp_body_min_offset. */
  function MemoryOffset(trapCount: nat): nat {
    Align8((TRAP_TABLE_OFFSET + trapCount * TRAP_RECORD_SIZE) % U32)
  }

  /** The table ends on an 8-byte boundary already, so no padding is ever inserted. */
  lemma MemoryOffsetIs(trapCount: nat)
    requires trapCount <= MAX_TRAPS
    ensures MemoryOffset(trapCount) == TRAP_TABLE_OFFSET + trapCount * TRAP_RECORD_SIZE
  {
  }

  function DumpSize(c: Crash): nat {
    MemoryOffset(|c.traps|) + |c.mem|
  }

  // ---- bytes ----------------------------------------------------------------------------------

  function TrapBytes(t: TrapRecord): (s: seq<byte>)
    ensures |s| == TRAP_RECORD_SIZE
  {
    LeBytes(t.bancode, 4) + LeBytes(t.trapSlot, 4) + LeBytes(t.timestamp, 8) + LeBytes(t.contextIp, 8)
  }

  function TrapsBytes(ts: seq<TrapRecord>): (s: seq<byte>)
    ensures |s| == |ts| * TRAP_RECORD_SIZE
  {
    if ts == [] then [] else TrapBytes(ts[0]) + TrapsBytes(ts[1..])
  }

  function TrapOf(s: seq<byte>): TrapRecord
    requires |s| == TRAP_RECORD_SIZE
  {
    TrapRecord(LeNat(s[..4]), LeNat(s[4..8]), LeNat(s[8..16]), LeNat(s[16..]))
  }

  function TrapsOf(s: seq<byte>): seq<TrapRecord>
    requires |s| % TRAP_RECORD_SIZE == 0
  {
    if s == [] then [] else [TrapOf(s[..TRAP_RECORD_SIZE])] + TrapsOf(s[TRAP_RECORD_SIZE..])
  }

  function Zeros(n: nat): (s: seq<byte>)
    ensures |s| == n
  {
    seq(n, _ => 0)
  }

  /** Bytes 0x00 to 0x0B: magic, version, header size, dump size. */
  function Preamble(size: nat): (s: seq<byte>)
    ensures |s| == 12
  {
    LeBytes(MAGIC, 4) + LeBytes(FORMAT_VERSION, 2) + LeBytes(HEADER_SIZE, 2) + LeBytes(size, 4)
  }

  /** Bytes 0x10 to 0x27. */
  function FaultBytes(f: Fault): (s: seq<byte>)
    ensures |s| == 24
  {
    LeBytes(f.bancode, 4) + LeBytes(f.cpuId, 4) + LeBytes(f.tsc, 8) + LeBytes(f.cr2, 8)
  }

  /** Bytes 0x28 to 0x3F: the trap count, the two sentinel fields and the memory region. */
  function RegionBytes(trapCount: nat, memOff: nat, memSize: nat): (s: seq<byte>)
    ensures |s| == 24
  {
    LeBytes(trapCount, 4) + LeBytes(0, 8) + LeBytes(memOff, 4) + LeBytes(memSize, 8)
  }

  function Middle(f: Fault, trapCount: nat, memOff: nat, memSize: nat): (s: seq<byte>)
    ensures |s| == 48
  {
    FaultBytes(f) + RegionBytes(trapCount, memOff, memSize)
  }

  /** Bytes from 0x44 on: header padding, register frame, trap table, alignment, memory. */
  function Rest(c: Crash): seq<byte> {
    Zeros(188) + WordsBytes(c.frame) + TrapsBytes(c.traps)
    + Zeros(Gap(|c.traps|)) + c.mem
  }

  function Gap(trapCount: nat): nat {
    var end := TRAP_TABLE_OFFSET + trapCount * TRAP_RECORD_SIZE;
    if MemoryOffset(trapCount) < end then 0 else MemoryOffset(trapCount) - end
  }

  /** A file with header checksum field `hc` (0x0C) and dump checksum field `dc` (0x40). */
  function File(pre: seq<byte>, hc: seq<byte>, mid: seq<byte>, dc: seq<byte>, rest: seq<byte>): seq<byte> {
    pre + hc + mid + dc + rest
  }

  const NONE: seq<byte> := [0, 0, 0, 0]

  /** The layout does not depend on which checksum fills the two fields. */
  type Checksum = seq<byte> -> Reg

  /** bdmp_crc32c, the checksum dumps are made with. */
  function Crc32C(data: seq<byte>): Reg {
    Crc(CASTAGNOLI, data)
  }

  /** The stored form of the checksum over the file with both checksum fields zero. */
  function DumpSum(sum: Checksum, pre: seq<byte>, mid: seq<byte>, rest: seq<byte>): (s: seq<byte>)
    ensures |s| == 4
  {
    Store(sum(File(pre, NONE, mid, NONE, rest)))
  }

  /** The stored form of the checksum over bytes 0x10 to 0xFF as stored. */
  function HeaderSum(sum: Checksum, mid: seq<byte>, dc: seq<byte>, rest: seq<byte>): (s: seq<byte>)
    requires |rest| >= 188
    ensures |s| == 4
  {
    Store(sum(mid + dc + rest[..188]))
  }

  /** A file with both checksum fields filled in. */
  function Seal(sum: Checksum, pre: seq<byte>, mid: seq<byte>, rest: seq<byte>): seq<byte>
    requires |rest| >= 188
  {
    var dc := DumpSum(sum, pre, mid, rest);
    File(pre, HeaderSum(sum, mid, dc, rest), mid, dc, rest)
  }

  /** The dump of a crash. */
  function Image(sum: Checksum, c: Crash): seq<byte> {
    Seal(sum, Preamble(DumpSize(c)), Middle(c.fault, |c.traps|, MemoryOffset(|c.traps|), |c.mem|), Rest(c))
  }

  // ---- what a validator accepts -------------------------------------------------------------

  function SizeField(p: seq<byte>): nat
    requires |p| >= HEADER_SIZE
  {
    LeNat(p[0x08..0x0C])
  }

  function TrapCountField(p: seq<byte>): nat
    requires |p| >= HEADER_SIZE
  {
    LeNat(p[0x28..0x2C])
  }

  function MemoryOffsetField(p: seq<byte>): nat
    requires |p| >= HEADER_SIZE
  {
    LeNat(p[0x34..0x38])
  }

  function MemorySizeField(p: seq<byte>): nat
    requires |p| >= HEADER_SIZE
  {
    LeNat(p[0x38..0x40])
  }

  /** The checks made before any checksum; the last sum is a 64-bit one. */
  predicate LayoutOk(p: seq<byte>, len: nat) {
    && HEADER_SIZE <= len <= |p|
    && LeNat(p[0x00..0x04]) == MAGIC
    && LeNat(p[0x04..0x06]) == FORMAT_VERSION
    && LeNat(p[0x06..0x08]) == HEADER_SIZE
    && HEADER_SIZE <= SizeField(p) <= len
    && TrapCountField(p) <= MAX_TRAPS
    && MemoryOffset(TrapCountField(p)) <= MemoryOffsetField(p) <= SizeField(p)
    && (MemoryOffsetField(p) + MemorySizeField(p)) % U64 <= SizeField(p)
  }

  predicate SumsOk(sum: Checksum, p: seq<byte>, total: nat)
    requires HEADER_SIZE <= total <= |p|
  {
    && Load(p[0x0C..0x10]) == sum(p[0x10..0x100])
    && Load(p[0x40..0x44]) == sum(File(p[..0x0C], NONE, p[0x10..0x40], NONE, p[0x44..total]))
  }

  /** What bdmp_validate accepts. */
  predicate Valid(sum: Checksum, p: seq<byte>, len: nat) {
    LayoutOk(p, len) && SumsOk(sum, p, SizeField(p))
  }
}

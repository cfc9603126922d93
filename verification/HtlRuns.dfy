/** Whole runs of the translation layer, from htl_init on. */
module HtlRuns {
  import opened Bytes
  import opened HtlTypes
  import opened HtlFlat
  import opened HtlSteps
  import opened HtlCoherence
  import opened HtlCalls

  /** One completed call: its arguments, the buffer contents it consumed or produced, its status. */
  datatype Event =
    | Register(dev: Device, st: Status)
    | Unregister(d: nat, st: Status)
    | ReadCached(d: nat, b: nat, hasBuf: bool, st: Status, data: Block)
    | WriteCached(d: nat, b: nat, hasBuf: bool, data: Block, st: Status)
    | Flush(d: nat, st: Status)
    | Invalidate(d: nat, st: Status)
    | ReadSectors(d: nat, lba: nat, count: nat, hasBuf: bool, st: Status, bytes: seq<byte>)
    | WriteSectors(d: nat, lba: nat, count: nat, hasBuf: bool, bytes: seq<byte>, st: Status)
    | ZeroBlock(d: nat, b: nat, st: Status)

  ghost predicate Step(s: State, e: Event, s': State)
    requires Inv(s)
  {
    match e
    case Register(dev, st) => (Callable(dev) ==> FreshDriver(s, dev)) && RegisterStep(s, dev, st, s')
    case Unregister(d, st) => UnregisterStep(s, d, st, s')
    case ReadCached(d, b, hasBuf, st, data) => ReadCachedStep(s, d, b, hasBuf, st, data, s')
    case WriteCached(d, b, hasBuf, data, st) => WriteCachedStep(s, d, b, hasBuf, data, st, s')
    case Flush(d, st) => FlushStep(s, d, st, s')
    case Invalidate(d, st) => InvalidateStep(s, d, st, s')
    case ReadSectors(d, lba, count, hasBuf, st, bytes) => ReadSectorsStep(s, d, lba, count, hasBuf, st, bytes, s')
    case WriteSectors(d, lba, count, hasBuf, bytes, st) => WriteSectorsStep(s, d, lba, count, hasBuf, bytes, st, s')
    case ZeroBlock(d, b, st) => ZeroBlockStep(s, d, b, st, s')
  }

  /** Calls that write to a store behind the cache's back. */
  predicate IsRawWrite(e: Event) {
    e.WriteSectors? || e.ZeroBlock?
  }

  /** A run visits states `ss` through the calls `es`. */
  ghost predicate IsRun(ss: seq<State>, es: seq<Event>) {
    && |ss| == |es| + 1
    && IsInitial(ss[0])
    && forall k :: 0 <= k < |es| ==> Inv(ss[k]) ==> Step(ss[k], es[k], ss[k + 1])
  }

  lemma StepKeepsInv(s: State, e: Event, s': State)
    requires Inv(s) && Step(s, e, s')
    ensures Inv(s')
  {
    match e
    case Register(dev, st) => RegisterIsPlain(s, dev, st, s');
    case Unregister(d, st) => UnregisterKeepsInv(s, d, st, s');
    case ReadCached(d, b, hasBuf, st, data) => ReadCachedKeepsInv(s, d, b, hasBuf, st, data, s');
    case WriteCached(d, b, hasBuf, data, st) => WriteCachedKeepsInv(s, d, b, hasBuf, data, st, s');
    case Flush(d, st) => FlushKeepsInv(s, d, st, s');
    case Invalidate(d, st) => InvalidateIsPlain(s, d, st, s');
    case ReadSectors(d, lba, count, hasBuf, st, bytes) => ReadSectorsIsPlain(s, d, lba, count, hasBuf, st, bytes, s');
    case WriteSectors(d, lba, count, hasBuf, bytes, st) =>
        WriteSectorsKeepsInv(s, d, lba, count, hasBuf, bytes, st, s');
    case ZeroBlock(d, b, st) => ZeroBlockKeepsInv(s, d, b, st, s');
  }

  lemma ReadSectorsIsPlain(s: State, d: nat, lba: nat, count: nat, hasBuf: bool, st: Status, bytes: seq<byte>,
                           s': State)
    requires Inv(s) && ReadSectorsStep(s, d, lba, count, hasBuf, st, bytes, s')
    ensures Inv(s') && Plain(s') == Plain(s) && (Coherent(s) ==> Coherent(s'))
  {
    CountersIrrelevant(s, s');
  }

  /** The table invariant holds in every state of every run, raw I/O and driver failures included. */
  lemma {:induction false} RunKeepsInv(ss: seq<State>, es: seq<Event>, k: nat)
    requires IsRun(ss, es) && k < |ss|
    ensures Inv(ss[k])
  {
    if k == 0 {
      InitialIsPlain(ss[0]);
    } else {
      RunKeepsInv(ss, es, k - 1);
      StepKeepsInv(ss[k - 1], es[k - 1], ss[k]);
    }
  }

  // ---- raw writes ------------------------------------------------------------------

  lemma RawWriteFrame(s: State, e: Event, s': State)
    requires Inv(s) && IsRawWrite(e) && Step(s, e, s')
    ensures Inv(s') && s'.entries == s.entries && s'.devices == s.devices && s'.deviceCount == s.deviceCount
    ensures forall d, b :: 0 <= d < s.deviceCount && d != e.d && 0 <= b < s.devices[d].totalBlocks ==>
              OnDisk(s', d, b) == OnDisk(s, d, b)
  {
    StepKeepsInv(s, e, s');
    forall d, b | 0 <= d < s.deviceCount && d != e.d && 0 <= b < s.devices[d].totalBlocks
      ensures OnDisk(s', d, b) == OnDisk(s, d, b)
    {
      if e.d < s.deviceCount { assert s.devices[d].handle != s.devices[e.d].handle; }
    }
  }

  /** After a raw write a cached block shows its cached copy as before, an uncached one what the
      store now holds. */
  lemma RawWriteLogical(s: State, e: Event, s': State, d: nat, b: nat)
    requires Inv(s) && IsRawWrite(e) && Step(s, e, s') && d < s.deviceCount && b < s.devices[d].totalBlocks
    ensures Inv(s') && s'.devices == s.devices && s'.deviceCount == s.deviceCount
    ensures Logical(s', d, b) == if exists i :: Hit(s, i, d, b) then Logical(s, d, b) else OnDisk(s', d, b)
    ensures d != e.d ==> Logical(s', d, b) == Logical(s, d, b)
  {
    RawWriteFrame(s, e, s');
    if i :| Hit(s, i, d, b) {
      assert Hit(s', i, d, b);
      LogicalHit(s, i);
      LogicalHit(s', i);
    } else {
      assert forall i :: Hit(s', i, d, b) ==> Hit(s, i, d, b);
    }
  }

  /** A successful sector write to a device with nothing cached splices its flat content. */
  lemma UncachedWriteIsSplice(s: State, e: Event, s': State)
    requires Inv(s) && e.WriteSectors? && e.st == HTL_OK && Step(s, e, s')
    requires forall i :: 0 <= i < |s.entries| && s.entries[i].valid ==> s.entries[i].device != e.d
    ensures Inv(s') && e.d < s.deviceCount && s'.deviceCount == s.deviceCount
    ensures e.lba * SECTOR_SIZE + |e.bytes| <= |Flat(Contents(s, e.d))|
    ensures Flat(Contents(s', e.d)) == Splice(Flat(Contents(s, e.d)), e.lba * SECTOR_SIZE, e.bytes)
  {
    RawWriteFrame(s, e, s');
    var h := s.devices[e.d].handle;
    forall b | 0 <= b < s.devices[e.d].totalBlocks
      ensures Contents(s, e.d)[b] == s.disks[h][b] && Contents(s', e.d)[b] == s'.disks[h][b]
    {
      assert forall i :: !Hit(s, i, e.d, b) && !Hit(s', i, e.d, b);
    }
    assert Contents(s, e.d) == s.disks[h] && Contents(s', e.d) == s'.disks[h];
  }

  /** If call `e` is a raw write, it changed no block that has a clean cached copy. */
  ghost predicate Quiet(s: State, e: Event, s': State) {
    IsRawWrite(e) ==>
      && Inv(s) && Inv(s') && s'.devices == s.devices && s'.deviceCount == s.deviceCount
      && (forall i ::
            0 <= i < |s.entries| && s.entries[i].valid && !s.entries[i].dirty && s.entries[i].device == e.d ==>
            OnDisk(s', e.d, s.entries[i].blockNum) == OnDisk(s, e.d, s.entries[i].blockNum))
  }

  /** A raw write keeps the cache coherent exactly when no clean entry of the device had its
      block changed. */
  lemma RawWriteCoherence(s: State, e: Event, s': State)
    requires Inv(s) && Coherent(s) && IsRawWrite(e) && Step(s, e, s')
    ensures Inv(s') && (Coherent(s') <==> Quiet(s, e, s'))
  {
    RawWriteFrame(s, e, s');
    forall i | 0 <= i < |s.entries| && s.entries[i].valid && !s.entries[i].dirty
      ensures Cached(s', i) == OnDisk(s, s.entries[i].device, s.entries[i].blockNum)
    {
      assert EntryOk(s, i);
      assert Cached(s, i) == OnDisk(s, s.entries[i].device, s.entries[i].blockNum);
    }
  }

  // ---- refinement of plain devices ---------------------------------------------------

  /** A layer without cache or compaction: a list of devices, each a list of blocks. Only
      registration and invalidation look at the stores. */
  ghost predicate PlainStep(ps: seq<PlainDevice>, e: Event, ps': seq<PlainDevice>, disks: map<Handle, seq<Block>>) {
    match e
    case Register(dev, st) =>
      if st != HTL_OK then ps' == ps
      else dev.handle in disks && ps' == ps + [PlainDevice(Registered(dev), disks[dev.handle])]
    case Unregister(d, st) =>
      if st != HTL_OK then ps' == ps else d < |ps| && ps' == ps[..d] + ps[d + 1..]
    case ReadCached(d, b, _, st, data) =>
      && ps' == ps
      && (st == HTL_OK ==>
            && d < |ps| && b < |ps[d].blocks| && ps[d].dev.blockSize <= |data|
            && data[..ps[d].dev.blockSize] == ps[d].blocks[b])
    case WriteCached(d, b, _, data, st) =>
      if st != HTL_OK then ps' == ps
      else
        && d < |ps| && b < |ps[d].blocks| && ps[d].dev.blockSize <= |data|
        && ps' == ps[d := PlainDevice(ps[d].dev, ps[d].blocks[b := data[..ps[d].dev.blockSize]])]
    case Flush(d, st) =>
      && ps' == ps
      && (st == HTL_OK ==> d < |ps| && ps[d].dev.handle in disks && ps[d].blocks == disks[ps[d].dev.handle])
    case Invalidate(d, st) =>
      if st != HTL_OK then ps' == ps
      else
        && d < |ps| && ps[d].dev.handle in disks
        && ps' == ps[d := PlainDevice(ps[d].dev, disks[ps[d].dev.handle])]
    case ReadSectors(_, _, _, _, _, _) => ps' == ps
    case WriteSectors(d, _, _, _, _, _) => PlainRaw(ps, d, ps', disks)
    case ZeroBlock(d, _, _) => PlainRaw(ps, d, ps', disks)
  }

  /** Raw writes change at most one device, and each of its blocks only to what its store holds. */
  ghost predicate PlainRaw(ps: seq<PlainDevice>, d: nat, ps': seq<PlainDevice>, disks: map<Handle, seq<Block>>) {
    if d >= |ps| then ps' == ps
    else
      && |ps'| == |ps| && ps' == ps[d := ps'[d]] && ps'[d].dev == ps[d].dev
      && |ps'[d].blocks| == |ps[d].blocks|
      && ps[d].dev.handle in disks && |disks[ps[d].dev.handle]| == |ps[d].blocks|
      && (forall b :: 0 <= b < |ps[d].blocks| ==>
            ps'[d].blocks[b] == ps[d].blocks[b] || ps'[d].blocks[b] == disks[ps[d].dev.handle][b])
  }

  lemma RawWriteIsPlain(s: State, e: Event, s': State)
    requires Inv(s) && IsRawWrite(e) && Step(s, e, s')
    ensures Inv(s') && PlainRaw(Plain(s), e.d, Plain(s'), s'.disks)
  {
    RawWriteFrame(s, e, s');
    forall d, b | 0 <= d < s.deviceCount && 0 <= b < s.devices[d].totalBlocks
      ensures Contents(s', d)[b] == Contents(s, d)[b] || (d == e.d && Contents(s', d)[b] == OnDisk(s', d, b))
    {
      RawWriteLogical(s, e, s', d, b);
    }
    forall d | 0 <= d < s.deviceCount && d != e.d ensures Plain(s')[d] == Plain(s)[d] {
      assert Contents(s', d) == Contents(s, d);
    }
  }

  lemma StepIsPlain(s: State, e: Event, s': State)
    requires Inv(s) && Coherent(s) && Step(s, e, s') && Quiet(s, e, s')
    ensures Inv(s') && Coherent(s') && PlainStep(Plain(s), e, Plain(s'), s'.disks)
  {
    if IsRawWrite(e) {
      QuietWriteIsPlain(s, e, s');
    } else if e.Register? || e.Unregister? || e.Invalidate? {
      TableCallIsPlain(s, e, s');
    } else {
      BlockCallIsPlain(s, e, s');
    }
  }

  lemma TableCallIsPlain(s: State, e: Event, s': State)
    requires Inv(s) && Coherent(s) && Step(s, e, s') && (e.Register? || e.Unregister? || e.Invalidate?)
    ensures Inv(s') && Coherent(s') && PlainStep(Plain(s), e, Plain(s'), s'.disks)
  {
    match e
    case Register(dev, st) => RegisterIsPlain(s, dev, st, s');
    case Unregister(d, st) => UnregisterIsPlain(s, d, st, s');
    case Invalidate(d, st) => InvalidateIsPlain(s, d, st, s');
  }

  lemma BlockCallIsPlain(s: State, e: Event, s': State)
    requires Inv(s) && Coherent(s) && Step(s, e, s')
    requires e.ReadCached? || e.WriteCached? || e.Flush? || e.ReadSectors?
    ensures Inv(s') && Coherent(s') && PlainStep(Plain(s), e, Plain(s'), s'.disks)
  {
    match e
    case ReadCached(d, b, hasBuf, st, data) => ReadCachedIsPlain(s, d, b, hasBuf, st, data, s');
    case WriteCached(d, b, hasBuf, data, st) => WriteCachedIsPlain(s, d, b, hasBuf, data, st, s');
    case Flush(d, st) => FlushIsPlain(s, d, st, s');
    case ReadSectors(d, lba, count, hasBuf, st, bytes) =>
      ReadSectorsIsPlain(s, d, lba, count, hasBuf, st, bytes, s');
  }

  lemma QuietWriteIsPlain(s: State, e: Event, s': State)
    requires Inv(s) && Coherent(s) && IsRawWrite(e) && Step(s, e, s') && Quiet(s, e, s')
    ensures Inv(s') && Coherent(s') && PlainStep(Plain(s), e, Plain(s'), s'.disks)
  {
    RawWriteCoherence(s, e, s');
    RawWriteIsPlain(s, e, s');
  }

  /** As long as raw writes spare the blocks with clean copies, every run is, call by call, a run
      of the plain layer. */
  lemma {:induction false} RunRefinesPlain(ss: seq<State>, es: seq<Event>, k: nat)
    requires IsRun(ss, es) && k <= |es|
    requires forall j :: 0 <= j < k ==> Quiet(ss[j], es[j], ss[j + 1])
    ensures Inv(ss[k]) && Coherent(ss[k])
    ensures k < |es| && Quiet(ss[k], es[k], ss[k + 1]) ==>
              Inv(ss[k + 1]) && PlainStep(Plain(ss[k]), es[k], Plain(ss[k + 1]), ss[k + 1].disks)
  {
    if k == 0 {
      InitialIsPlain(ss[0]);
    } else {
      RunRefinesPlain(ss, es, k - 1);
      StepIsPlain(ss[k - 1], es[k - 1], ss[k]);
    }
    if k < |es| && Quiet(ss[k], es[k], ss[k + 1]) {
      StepIsPlain(ss[k], es[k], ss[k + 1]);
    }
  }
}

/** Which entries the cache gives up, and when it has none to give. */
module HtlEviction {
  import opened Bytes
  import opened HtlTypes
  import opened HtlSteps
  import opened HtlCoherence
  import opened HtlCalls
  import opened HtlRuns

  // ---- room in the cache -------------------------------------------------------------------

  /** Some entry is free, or clean and stamped below the scan's starting value of 0xFFFFFFFF. */
  ghost predicate Replaceable(es: seq<Entry>) {
    exists i :: 0 <= i < |es| && (!es[i].valid || Evictable(es[i]))
  }

  /** An insertion is refused exactly when every entry is in use and either dirty or stamped
      0xFFFFFFFF: a clean entry with that stamp is never evicted. */
  lemma HasSlotIff(es: seq<Entry>)
    ensures HasSlot(es) <==> Replaceable(es)
  {
    if Replaceable(es) {
      var i := if exists i :: 0 <= i < |es| && !es[i].valid then FreeSlot(es) else OldestClean(es);
      assert IsSlot(es, i);
    }
  }

  ghost function FreeSlot(es: seq<Entry>): (i: nat)
    requires exists i :: 0 <= i < |es| && !es[i].valid
    ensures IsFirstFree(es, i)
  {
    if !es[0].valid then 0
    else
      assert exists i :: 0 <= i < |es[1..]| && !es[1..][i].valid by {
        var k :| 0 <= k < |es| && !es[k].valid;
        assert es[1..][k - 1] == es[k];
      }
      var i := FreeSlot(es[1..]);
      assert forall j :: 1 <= j < i + 1 ==> es[j] == es[1..][j - 1];
      i + 1
  }

  ghost function OldestClean(es: seq<Entry>): (i: nat)
    requires exists i :: 0 <= i < |es| && Evictable(es[i])
    ensures IsVictim(es, i)
  {
    var last := |es| - 1;
    var front := es[..last];
    if exists i :: 0 <= i < |front| && Evictable(front[i]) then
      var i := OldestClean(front);
      assert forall j :: 0 <= j < last ==> es[j] == front[j];
      if Evictable(es[last]) && es[last].order < es[i].order then last else i
    else
      assert forall j :: 0 <= j < last ==> es[j] == front[j];
      last
  }

  /** A write of an addressable block is accepted exactly when the block is cached or the cache can
      make room, and changes no content otherwise. */
  lemma WriteAcceptedIff(s: State, d: nat, b: nat, data: Block, st: Status, s': State)
    requires Inv(s) && WriteCachedStep(s, d, b, true, data, st, s')
    requires d < s.deviceCount && !s.devices[d].writeProtect && b < s.devices[d].totalBlocks
    ensures st == HTL_OK <==> (exists i :: Hit(s, i, d, b)) || Replaceable(s.entries)
    ensures st != HTL_OK ==> st == if s.entries == [] then ERR_INVALID_PARAM else ERR_IO
  {
    HasSlotIff(s.entries);
  }

  // ---- building runs -------------------------------------------------------------------------

  lemma Extend(ss: seq<State>, es: seq<Event>, e: Event, s': State)
    requires IsRun(ss, es) && Inv(ss[|es|]) && Step(ss[|es|], e, s')
    ensures IsRun(ss + [s'], es + [e]) && Inv(s')
  {
    StepKeepsInv(ss[|es|], e, s');
  }

  /** The first device of a run, on a store of at least `blocks` blocks. */
  ghost predicate Serves(s: State, dev: Device, blocks: nat) {
    && Inv(s) && s.deviceCount == 1 && s.devices[0] == Registered(dev)
    && dev.blockSize <= CACHE_DATA_SIZE && blocks <= dev.totalBlocks
  }

  lemma CanRegister(s: State, dev: Device) returns (s': State)
    requires IsInitial(s) && Callable(dev) && FreshDriver(s, dev) && dev.blockSize <= CACHE_DATA_SIZE
    ensures Inv(s) && Step(s, Register(dev, HTL_OK), s') && Serves(s', dev, dev.totalBlocks)
    ensures s'.entries == s.entries && s'.count == s.count && s'.accessCounter == s.accessCounter && s'.disks == s.disks
  {
    InitialIsPlain(s);
    s' := s.(devices := s.devices[0 := Registered(dev)], deviceCount := 1);
    RegisterIsPlain(s, dev, HTL_OK, s');
  }

  /** A write to the block cached in entry `i`. */
  lemma CanRewrite(s: State, dev: Device, b: nat, data: Block, i: nat) returns (s': State)
    requires Serves(s, dev, b + 1) && Hit(s, i, 0, b) && |data| == CACHE_DATA_SIZE
    ensures Step(s, WriteCached(0, b, true, data, HTL_OK), s') && Serves(s', dev, b + 1)
    ensures s'.entries == s.entries[i := Entry(b, true, true, 0, s.accessCounter, data)]
    ensures s'.count == s.count && s'.accessCounter == Next32(s.accessCounter) && s'.disks == s.disks
  {
    var es' := s.entries[i := Entry(b, true, true, 0, s.accessCounter, data)];
    s' := AddWrite(s.(accessCounter := Next32(s.accessCounter), entries := es'), 0, dev.blockSize);
    WriteCachedKeepsInv(s, 0, b, true, data, HTL_OK, s');
  }

  /** A write of a block that is not cached, into slot `i`. */
  lemma CanInsert(s: State, dev: Device, b: nat, data: Block, i: nat) returns (s': State)
    requires Serves(s, dev, b + 1) && IsSlot(s.entries, i) && |data| == CACHE_DATA_SIZE
    requires forall j :: !Hit(s, j, 0, b)
    ensures Step(s, WriteCached(0, b, true, data, HTL_OK), s') && Serves(s', dev, b + 1)
    ensures s'.entries == s.entries[i := Entry(b, true, true, 0, Next32(s.accessCounter), data)]
    ensures s'.accessCounter == Next32(s.accessCounter) && s'.disks == s.disks
  {
    var counted := s.(accessCounter := Next32(s.accessCounter));
    var placed := Place(counted, i, Entry(b, true, true, 0, Next32(s.accessCounter), data));
    s' := AddWrite(placed, 0, dev.blockSize);
    assert s'.(stats := s.stats) == placed;
    WriteCachedKeepsInv(s, 0, b, true, data, HTL_OK, s');
  }

  /** A flush of the only pending entry, `i`. */
  lemma CanFlush(s: State, dev: Device, i: nat) returns (s': State)
    requires Serves(s, dev, 0) && i < |s.entries| && s.entries[i].dirty
    requires forall j :: 0 <= j < |s.entries| && j != i ==> !s.entries[j].dirty
    ensures Step(s, Flush(0, HTL_OK), s') && Serves(s', dev, 0)
    ensures s'.entries == s.entries[i := s.entries[i].(dirty := false)] && s'.accessCounter == s.accessCounter
  {
    assert EntryOk(s, i);
    var e, h := s.entries[i], dev.handle;
    var disk := s.disks[h][e.blockNum := e.data[..dev.blockSize]];
    var t := s.(entries := s.entries[i := e.(dirty := false)], disks := s.disks[h := disk]);
    s' := AddFlush(t, 0);
    assert FlushedUpTo(s, 0, |s.entries|, s') by {
      assert PendingBlock(s, 0, e.blockNum) by { assert Hit(s, i, 0, e.blockNum); }
    }
    assert FlushCounted(s, 0, HTL_OK, s', 0) by {
      assert CountPending(s'.entries, 0) == 0;
      assert AddErrors(t, 0, 0) == t;
    }
    FlushKeepsInv(s, 0, HTL_OK, s');
  }

  /** The state a run has reached. */
  ghost function Now(ss: seq<State>): State
    requires ss != []
  {
    ss[|ss| - 1]
  }

  lemma RunRewrite(ss: seq<State>, es: seq<Event>, dev: Device, b: nat, data: Block, i: nat)
    returns (ss': seq<State>, es': seq<Event>)
    requires IsRun(ss, es) && Serves(Now(ss), dev, b + 1) && Hit(Now(ss), i, 0, b) && |data| == CACHE_DATA_SIZE
    ensures IsRun(ss', es') && ss' == ss + [Now(ss')] && es' == es + [WriteCached(0, b, true, data, HTL_OK)]
    ensures Serves(Now(ss'), dev, b + 1) && Now(ss').accessCounter == Next32(Now(ss).accessCounter)
    ensures Now(ss').entries == Now(ss).entries[i := Entry(b, true, true, 0, Now(ss).accessCounter, data)]
  {
    var s' := CanRewrite(Now(ss), dev, b, data, i);
    Extend(ss, es, WriteCached(0, b, true, data, HTL_OK), s');
    ss', es' := ss + [s'], es + [WriteCached(0, b, true, data, HTL_OK)];
  }

  lemma RunInsert(ss: seq<State>, es: seq<Event>, dev: Device, b: nat, data: Block, i: nat)
    returns (ss': seq<State>, es': seq<Event>)
    requires IsRun(ss, es) && Serves(Now(ss), dev, b + 1) && IsSlot(Now(ss).entries, i) && |data| == CACHE_DATA_SIZE
    requires forall j :: !Hit(Now(ss), j, 0, b)
    ensures IsRun(ss', es') && ss' == ss + [Now(ss')] && es' == es + [WriteCached(0, b, true, data, HTL_OK)]
    ensures Serves(Now(ss'), dev, b + 1) && Now(ss').accessCounter == Next32(Now(ss).accessCounter)
    ensures Now(ss').entries == Now(ss).entries[i := Entry(b, true, true, 0, Now(ss').accessCounter, data)]
  {
    var s' := CanInsert(Now(ss), dev, b, data, i);
    Extend(ss, es, WriteCached(0, b, true, data, HTL_OK), s');
    ss', es' := ss + [s'], es + [WriteCached(0, b, true, data, HTL_OK)];
  }

  lemma RunFlush(ss: seq<State>, es: seq<Event>, dev: Device, i: nat) returns (ss': seq<State>, es': seq<Event>)
    requires IsRun(ss, es) && Serves(Now(ss), dev, 0) && i < |Now(ss).entries| && Now(ss).entries[i].dirty
    requires forall j :: 0 <= j < |Now(ss).entries| && j != i ==> !Now(ss).entries[j].dirty
    ensures IsRun(ss', es') && ss' == ss + [Now(ss')] && es' == es + [Flush(0, HTL_OK)]
    ensures Serves(Now(ss'), dev, 0) && Now(ss').accessCounter == Now(ss).accessCounter
    ensures Now(ss').entries == Now(ss).entries[i := Now(ss).entries[i].(dirty := false)]
  {
    var s' := CanFlush(Now(ss), dev, i);
    Extend(ss, es, Flush(0, HTL_OK), s');
    ss', es' := ss + [s'], es + [Flush(0, HTL_OK)];
  }

  lemma RunRegister(s0: State, dev: Device) returns (ss: seq<State>, es: seq<Event>)
    requires IsInitial(s0) && Callable(dev) && FreshDriver(s0, dev) && dev.blockSize <= CACHE_DATA_SIZE
    ensures IsRun(ss, es) && ss == [s0, Now(ss)] && es == [Register(dev, HTL_OK)]
    ensures Serves(Now(ss), dev, dev.totalBlocks) && Now(ss).entries == s0.entries && Now(ss).accessCounter == 0
    ensures Now(ss).disks == s0.disks
  {
    var s1 := CanRegister(s0, dev);
    assert IsRun([s0], []);
    Extend([s0], [], Register(dev, HTL_OK), s1);
    ss, es := [s0] + [s1], [] + [Register(dev, HTL_OK)];
  }

  // ---- the stamp that sticks -----------------------------------------------------------------

  /** One entry, of block 0, dirty and stamped `order`. */
  ghost predicate OneDirty(s: State, dev: Device, data: Block, order: nat) {
    Serves(s, dev, 2) && s.entries == [Entry(0, true, true, 0, order, data)]
  }

  /** After the insertion of block 0 and `n` further writes to it. */
  lemma {:induction false} WriteAgain(s0: State, dev: Device, data: Block, n: nat)
    returns (ss: seq<State>, es: seq<Event>)
    requires IsInitial(s0) && |s0.entries| == 1 && Callable(dev) && FreshDriver(s0, dev)
    requires dev.blockSize <= CACHE_DATA_SIZE && 2 <= dev.totalBlocks && |data| == CACHE_DATA_SIZE && 1 <= n < U32
    ensures IsRun(ss, es) && ss[0] == s0 && OneDirty(ss[|es|], dev, data, n)
    ensures ss[|es|].accessCounter == Next32(n)
    decreases n
  {
    if n == 1 {
      ss, es := RunRegister(s0, dev);
      assert IsZeroed(s0.entries[0]) && IsSlot(s0.entries, 0);
      ss, es := RunInsert(ss, es, dev, 0, data, 0);
    } else {
      ss, es := WriteAgain(s0, dev, data, n - 1);
    }
    assert Hit(Now(ss), 0, 0, 0);
    ss, es := RunRewrite(ss, es, dev, 0, data, 0);
  }

  /** A run the comment on eviction does not allow for: a cache of one entry, written 2^32 times and
      flushed, holds a clean entry stamped 0xFFFFFFFF and refuses to cache any other block. */
  lemma CleanEntryStuck(s0: State, dev: Device, data: Block) returns (ss: seq<State>, es: seq<Event>)
    requires IsInitial(s0) && |s0.entries| == 1 && Callable(dev) && FreshDriver(s0, dev)
    requires dev.blockSize <= CACHE_DATA_SIZE && 2 <= dev.totalBlocks && |data| == CACHE_DATA_SIZE
    ensures IsRun(ss, es) && ss[0] == s0 && |es| > 0
    ensures es[|es| - 1] == WriteCached(0, 1, true, data, ERR_IO)
    ensures ss[|es| - 1].entries == [Entry(0, false, true, 0, U32 - 1, data)]
  {
    ss, es := WriteAgain(s0, dev, data, U32 - 1);
    ss, es := RunFlush(ss, es, dev, 0);
    var s := Now(ss);
    var refused := s.(accessCounter := Next32(s.accessCounter));
    var e := WriteCached(0, 1, true, data, ERR_IO);
    assert Step(s, e, refused) by {
      HasSlotIff(s.entries);
      assert refused.(stats := s.stats) == refused;
    }
    Extend(ss, es, e, refused);
    ss, es := ss + [refused], es + [e];
  }

  // ---- age ------------------------------------------------------------------------------------

  /** How often the access counter moved during the first `k` calls. */
  ghost function Clock(ss: seq<State>, k: nat): (n: nat)
    requires k < |ss|
    ensures n <= k
  {
    if k == 0 then 0
    else Clock(ss, k - 1) + if ss[k].accessCounter != ss[k - 1].accessCounter then 1 else 0
  }

  lemma {:induction false} ClockGrows(ss: seq<State>, j: nat, k: nat)
    requires j <= k < |ss|
    ensures Clock(ss, j) <= Clock(ss, k)
    decreases k
  {
    if j == k {
    } else {
      ClockGrows(ss, j, k - 1);
    }
  }

  /** Call `e` stamped entry `i`: an insertion or a write. */
  ghost predicate Stamps(s: State, e: Event, s': State, i: nat) {
    && (e.ReadCached? || e.WriteCached?)
    && s'.accessCounter != s.accessCounter && Hit(s', i, e.d, e.b)
  }

  ghost predicate WasCached(s: State, e: Event)
    requires e.ReadCached? || e.WriteCached?
  {
    exists i :: Hit(s, i, e.d, e.b)
  }

  /** The stamp: a write to a cached block takes the counter before it moves, an insertion after. */
  lemma StampIs(s: State, e: Event, s': State, i: nat)
    requires Inv(s) && Step(s, e, s') && i < |s.entries|
    ensures s'.accessCounter == s.accessCounter || s'.accessCounter == Next32(s.accessCounter)
    ensures |s'.entries| == |s.entries|
    ensures Stamps(s, e, s', i) ==>
              s'.entries[i].order == if WasCached(s, e) then s.accessCounter else Next32(s.accessCounter)
    ensures !Stamps(s, e, s', i) && s'.entries[i].valid ==>
              s.entries[i].valid && s'.entries[i].order == s.entries[i].order
  {
    match e
    case WriteCached(d, b, hasBuf, data, st) => WriteStampIs(s, e, s', i);
    case ReadCached(d, b, hasBuf, st, data) => ReadStampIs(s, e, s', i);
    case Flush(d, st) =>
      if d < s.deviceCount {
        assert FlushedEntry(s.entries[i], d, s.devices[d].blockSize, s'.disks[s.devices[d].handle], s'.entries[i]);
      }
    case _ =>
  }

  /** Only the entry put there caches the block. */
  lemma OnlyPut(es: seq<Entry>, i: nat, e: Entry, j: nat)
    requires i < |es| && j < |es| && e.valid && KeysUnique(es[i := e])
    ensures Caches(es[i := e][j], e.device, e.blockNum) <==> j == i
  {
    var es' := es[i := e];
    assert es'[i] == e;
  }

  lemma WriteStampIs(s: State, e: Event, s': State, i: nat)
    requires Inv(s) && e.WriteCached? && Step(s, e, s') && i < |s.entries|
    ensures s'.accessCounter == s.accessCounter || s'.accessCounter == Next32(s.accessCounter)
    ensures |s'.entries| == |s.entries|
    ensures Stamps(s, e, s', i) ==>
              s'.entries[i].order == if WasCached(s, e) then s.accessCounter else Next32(s.accessCounter)
    ensures !Stamps(s, e, s', i) && s'.entries[i].valid ==>
              s.entries[i].valid && s'.entries[i].order == s.entries[i].order
  {
    WriteCachedKeepsInv(s, e.d, e.b, e.hasBuf, e.data, e.st, s');
    if s'.accessCounter != s.accessCounter {
      if WasCached(s, e) {
        var put := Entry(e.b, true, true, e.d, s.accessCounter, e.data);
        var j: nat :| Hit(s, j, e.d, e.b) && s'.entries == s.entries[j := put];
        OnlyPut(s.entries, j, put, i);
      } else if HasSlot(s.entries) {
        InsertedStamp(s.(accessCounter := Next32(s.accessCounter)),
                      Entry(e.b, true, true, e.d, Next32(s.accessCounter), e.data), s', i);
      } else {
        assert Hit(s', i, e.d, e.b) <==> Hit(s, i, e.d, e.b);
      }
    }
  }

  lemma InsertedStamp(s: State, e: Entry, s': State, i: nat)
    requires Inserts(s, e, s'.(stats := s.stats)) && HasSlot(s.entries) && KeysUnique(s'.entries)
    requires e.valid && i < |s.entries|
    ensures |s'.entries| == |s.entries|
    ensures s'.entries[i] == if Caches(s'.entries[i], e.device, e.blockNum) then e else s.entries[i]
  {
    var j: nat :| IsSlot(s.entries, j) && s'.(stats := s.stats) == Place(s, j, e);
    OnlyPut(s.entries, j, e, i);
  }

  lemma ReadStampIs(s: State, e: Event, s': State, i: nat)
    requires Inv(s) && e.ReadCached? && Step(s, e, s') && i < |s.entries|
    ensures s'.accessCounter == s.accessCounter || s'.accessCounter == Next32(s.accessCounter)
    ensures |s'.entries| == |s.entries|
    ensures Stamps(s, e, s', i) ==>
              s'.entries[i].order == if WasCached(s, e) then s.accessCounter else Next32(s.accessCounter)
    ensures !Stamps(s, e, s', i) && s'.entries[i].valid ==>
              s.entries[i].valid && s'.entries[i].order == s.entries[i].order
  {
    ReadCachedKeepsInv(s, e.d, e.b, e.hasBuf, e.st, e.data, s');
    if s'.accessCounter != s.accessCounter {
      var counted := s.(misses := SatAdd(s.misses, 1), accessCounter := Next32(s.accessCounter));
      var put := Entry(e.b, false, true, e.d, Next32(s.accessCounter), e.data);
      if HasSlot(s.entries) {
        InsertedStamp(counted, put, s', i);
      } else {
        assert Hit(s', i, e.d, e.b) <==> Hit(s, i, e.d, e.b);
      }
    }
  }

  /** Call `p` is the last before state `k` that stamped entry `i`. */
  ghost predicate LastStamp(ss: seq<State>, es: seq<Event>, k: nat, i: nat, p: nat) {
    && p < k < |ss| == |es| + 1 && Stamps(ss[p], es[p], ss[p + 1], i)
    && (forall j :: p < j < k ==> !Stamps(ss[j], es[j], ss[j + 1], i))
  }

  /** Until the counter wraps it shows the clock, and every cached entry is stamped with the clock
      of the last call that inserted or wrote it. */
  lemma {:induction false} StampDates(ss: seq<State>, es: seq<Event>, k: nat, i: nat) returns (p: nat)
    requires IsRun(ss, es) && k < |ss| && Clock(ss, k) < U32
    requires i < |ss[k].entries| && ss[k].entries[i].valid
    ensures LastStamp(ss, es, k, i, p) && ss[k].accessCounter == Clock(ss, k)
    ensures ss[k].entries[i].order == Clock(ss, p) + if WasCached(ss[p], es[p]) then 0 else 1
    decreases k
  {
    RunKeepsInv(ss, es, k);
    CounterIsClock(ss, es, k);
    if k == 0 {
      p := k;
    } else {
      RunKeepsInv(ss, es, k - 1);
      ClockGrows(ss, k - 1, k);
      CounterIsClock(ss, es, k - 1);
      SameCapacity(ss[k - 1], es[k - 1], ss[k]);
      StampIs(ss[k - 1], es[k - 1], ss[k], i);
      if Stamps(ss[k - 1], es[k - 1], ss[k], i) {
        p := k - 1;
      } else {
        p := StampDates(ss, es, k - 1, i);
      }
    }
  }

  lemma SameCapacity(s: State, e: Event, s': State)
    requires Inv(s) && Step(s, e, s')
    ensures |s'.entries| == |s.entries|
  {
  }

  lemma {:induction false} CounterIsClock(ss: seq<State>, es: seq<Event>, k: nat)
    requires IsRun(ss, es) && k < |ss| && Clock(ss, k) < U32
    ensures ss[k].accessCounter == Clock(ss, k)
    decreases k
  {
    if k == 0 {
    } else {
      CounterIsClock(ss, es, k - 1);
      RunKeepsInv(ss, es, k - 1);
      CounterMoves(ss[k - 1], es[k - 1], ss[k]);
    }
  }

  lemma CounterMoves(s: State, e: Event, s': State)
    requires Inv(s) && Step(s, e, s')
    ensures s'.accessCounter == s.accessCounter || s'.accessCounter == Next32(s.accessCounter)
  {
  }

  /** Call `p` inserted, call `q` wrote a cached block in the next tick: they give the same stamp. */
  ghost predicate Tie(ss: seq<State>, es: seq<Event>, p: nat, q: nat)
    requires p < |ss| && p < |es| && (es[p].ReadCached? || es[p].WriteCached?)
    requires q < |ss| && q < |es| && (es[q].ReadCached? || es[q].WriteCached?)
  {
    !WasCached(ss[p], es[p]) && WasCached(ss[q], es[q]) && Clock(ss, q) == Clock(ss, p) + 1
  }

  /** Entry `v`, stamped by call `p`, is evicted rather than entry `j`, stamped by call `q`: the
      earlier stamp goes first, and of two that tie the one in the lower slot. */
  ghost predicate GoesBefore(ss: seq<State>, es: seq<Event>, v: nat, p: nat, j: nat, q: nat)
    requires p < |ss| && p < |es| && (es[p].ReadCached? || es[p].WriteCached?)
    requires q < |ss| && q < |es| && (es[q].ReadCached? || es[q].WriteCached?)
  {
    if Tie(ss, es, p, q) || Tie(ss, es, q, p) then v < j else p < q
  }

  /** Entry `v`, last stamped by call `p`, goes before every other evictable entry. */
  ghost predicate GoesFirst(ss: seq<State>, es: seq<Event>, k: nat, v: nat, p: nat)
    requires LastStamp(ss, es, k, v, p)
  {
    forall j, q :: 0 <= j < |ss[k].entries| && j != v && Evictable(ss[k].entries[j]) && LastStamp(ss, es, k, j, q) ==>
      GoesBefore(ss, es, v, p, j, q)
  }

  lemma StampsCompare(ss: seq<State>, es: seq<Event>, k: nat, v: nat, p: nat, j: nat, q: nat)
    requires IsRun(ss, es) && k < |ss| && Clock(ss, k) < U32 && LastStamp(ss, es, k, v, p) && LastStamp(ss, es, k, j, q)
    requires v < |ss[k].entries| && ss[k].entries[v].valid && j < |ss[k].entries| && ss[k].entries[j].valid && j != v
    ensures var x, y := ss[k].entries[v].order, ss[k].entries[j].order;
            GoesBefore(ss, es, v, p, j, q) <==> x < y || (x == y && v < j)
  {
    StampIsDated(ss, es, k, v, p);
    StampIsDated(ss, es, k, j, q);
    if p == q { OneStampAtATime(ss, es, p, v, j); }
    OrderOfStamps(ss, es, v, p, j, q, ss[k].entries[v].order, ss[k].entries[j].order);
  }

  /** Calls `p` and `q`, each a tick of the clock, give stamps `x` and `y`. */
  lemma OrderOfStamps(ss: seq<State>, es: seq<Event>, v: nat, p: nat, j: nat, q: nat, x: nat, y: nat)
    requires p + 1 < |ss| && p < |es| && (es[p].ReadCached? || es[p].WriteCached?)
    requires q + 1 < |ss| && q < |es| && (es[q].ReadCached? || es[q].WriteCached?)
    requires p != q && Clock(ss, p + 1) == Clock(ss, p) + 1 && Clock(ss, q + 1) == Clock(ss, q) + 1
    requires x == Clock(ss, p) + if WasCached(ss[p], es[p]) then 0 else 1
    requires y == Clock(ss, q) + if WasCached(ss[q], es[q]) then 0 else 1
    ensures GoesBefore(ss, es, v, p, j, q) <==> x < y || (x == y && v < j)
  {
    if p < q {
      ClockGrows(ss, p + 1, q);
    } else {
      ClockGrows(ss, q + 1, p);
    }
  }

  lemma StampIsDated(ss: seq<State>, es: seq<Event>, k: nat, i: nat, p: nat)
    requires IsRun(ss, es) && k < |ss| && Clock(ss, k) < U32 && LastStamp(ss, es, k, i, p)
    requires i < |ss[k].entries| && ss[k].entries[i].valid
    ensures ss[k].entries[i].order == Clock(ss, p) + if WasCached(ss[p], es[p]) then 0 else 1
    ensures Clock(ss, p + 1) == Clock(ss, p) + 1
  {
    var p' := StampDates(ss, es, k, i);
    assert p' == p;
  }

  lemma OneStampAtATime(ss: seq<State>, es: seq<Event>, p: nat, i: nat, j: nat)
    requires IsRun(ss, es) && p < |es| && Stamps(ss[p], es[p], ss[p + 1], i) && Stamps(ss[p], es[p], ss[p + 1], j)
    ensures i == j
  {
    RunKeepsInv(ss, es, p + 1);
    UniqueHit(ss[p + 1], es[p].d, es[p].b, i, j);
  }

  /** Until the counter wraps, the victim of a full cache is the evictable entry that was inserted or
      written longest ago, and no other. */
  lemma VictimIff(ss: seq<State>, es: seq<Event>, k: nat, v: nat, p: nat)
    requires IsRun(ss, es) && k < |ss| && Clock(ss, k) < U32 && AllUsed(ss[k].entries)
    requires v < |ss[k].entries| && Evictable(ss[k].entries[v]) && LastStamp(ss, es, k, v, p)
    ensures IsVictim(ss[k].entries, v) <==> GoesFirst(ss, es, k, v, p)
  {
    var entries := ss[k].entries;
    forall j: nat, q: nat | j < |entries| && j != v && LastStamp(ss, es, k, j, q)
      ensures GoesBefore(ss, es, v, p, j, q)
         <==> entries[v].order < entries[j].order || (entries[v].order == entries[j].order && v < j)
    {
      StampsCompare(ss, es, k, v, p, j, q);
    }
    if GoesFirst(ss, es, k, v, p) {
      forall j: nat | j < |entries| && j != v && Evictable(entries[j])
        ensures entries[v].order < entries[j].order || (entries[v].order == entries[j].order && v < j)
      {
        var q := StampDates(ss, es, k, j);
      }
    }
  }

  // ---- first in, first out -------------------------------------------------------------------

  /** Call `p` put the block that entry `i` holds in state `k`. */
  ghost predicate Inserted(ss: seq<State>, es: seq<Event>, k: nat, i: nat, p: nat) {
    && p < k < |ss| == |es| + 1 && Stamps(ss[p], es[p], ss[p + 1], i) && !WasCached(ss[p], es[p])
    && (forall j :: p < j < k ==> Stamps(ss[j], es[j], ss[j + 1], i) ==> WasCached(ss[j], es[j]))
  }

  /** Of the evictable entries `f` is the one inserted first. */
  ghost predicate FirstIn(ss: seq<State>, es: seq<Event>, k: nat, f: nat, p: nat) {
    && Inserted(ss, es, k, f, p) && f < |ss[k].entries| && Evictable(ss[k].entries[f])
    && forall j, q ::
         0 <= j < |ss[k].entries| && j != f && Evictable(ss[k].entries[j]) && Inserted(ss, es, k, j, q) ==> p < q
  }

  /** Call `e` brings a block into the cache. */
  ghost predicate BringsIn(s: State, e: Event, s': State) {
    (e.ReadCached? || e.WriteCached?) && s'.accessCounter != s.accessCounter && !WasCached(s, e)
  }

  /** Every entry in use was inserted by some call. */
  lemma {:induction false} InsertionDates(ss: seq<State>, es: seq<Event>, k: nat, i: nat) returns (p: nat)
    requires IsRun(ss, es) && k < |ss| && i < |ss[k].entries| && ss[k].entries[i].valid
    ensures Inserted(ss, es, k, i, p)
    decreases k
  {
    if k == 0 {
      p := k;
    } else {
      RunKeepsInv(ss, es, k - 1);
      SameCapacity(ss[k - 1], es[k - 1], ss[k]);
      StampIs(ss[k - 1], es[k - 1], ss[k], i);
      if Stamps(ss[k - 1], es[k - 1], ss[k], i) && !WasCached(ss[k - 1], es[k - 1]) {
        p := k - 1;
      } else {
        if Stamps(ss[k - 1], es[k - 1], ss[k], i) { RewrittenInPlace(ss[k - 1], es[k - 1], ss[k], i); }
        p := InsertionDates(ss, es, k - 1, i);
      }
    }
  }

  /** A write to a cached block stamps the entry that held it. */
  lemma RewrittenInPlace(s: State, e: Event, s': State, i: nat)
    requires Inv(s) && Step(s, e, s') && i < |s.entries| && Stamps(s, e, s', i) && WasCached(s, e)
    ensures s.entries[i].valid
  {
    WriteCachedKeepsInv(s, e.d, e.b, e.hasBuf, e.data, e.st, s');
    var put := Entry(e.b, true, true, e.d, s.accessCounter, e.data);
    var j: nat :| Hit(s, j, e.d, e.b) && s'.entries == s.entries[j := put];
    OnlyPut(s.entries, j, put, i);
  }

  lemma VictimUnique(es: seq<Entry>, i: nat, j: nat)
    requires IsVictim(es, i) && IsVictim(es, j)
    ensures i == j
  {
  }

  /** A call that brings a block into a full cache puts it in place of the victim. */
  lemma BroughtInto(s: State, e: Event, s': State, v: nat)
    requires Inv(s) && Step(s, e, s') && BringsIn(s, e, s') && AllUsed(s.entries)
    requires v < |s.entries| && Evictable(s.entries[v])
    ensures Stamps(s, e, s', v) <==> IsVictim(s.entries, v)
  {
    StepKeepsInv(s, e, s');
    assert Replaceable(s.entries);
    HasSlotIff(s.entries);
    var j := SlotTaken(s, e, s');
    OnlyPut(s.entries, j, s'.entries[j], v);
    if IsVictim(s.entries, v) { VictimUnique(s.entries, j, v); }
  }

  lemma SlotTaken(s: State, e: Event, s': State) returns (j: nat)
    requires Inv(s) && Step(s, e, s') && BringsIn(s, e, s') && HasSlot(s.entries)
    ensures IsSlot(s.entries, j) && s'.entries == s.entries[j := s'.entries[j]]
    ensures Caches(s'.entries[j], e.d, e.b)
  {
    if e.WriteCached? {
      var put := Entry(e.b, true, true, e.d, Next32(s.accessCounter), e.data);
      var counted := s.(accessCounter := Next32(s.accessCounter));
      j :| IsSlot(counted.entries, j) && s'.(stats := s.stats) == Place(counted, j, put);
    } else {
      var put := Entry(e.b, false, true, e.d, Next32(s.accessCounter), e.data);
      var counted := s.(misses := SatAdd(s.misses, 1), accessCounter := Next32(s.accessCounter));
      j :| IsSlot(counted.entries, j) && s'.(stats := s.stats) == Place(counted, j, put);
    }
  }

  /** The comment calls eviction first-in first-out. Until the counter wraps a call evicts the entry
      inserted first, `f`, exactly when no other evictable entry has an older stamp. */
  lemma EvictsFirstInIff(ss: seq<State>, es: seq<Event>, k: nat, f: nat, p: nat, r: nat)
    requires IsRun(ss, es) && k < |es| && Clock(ss, k) < U32 && AllUsed(ss[k].entries)
    requires BringsIn(ss[k], es[k], ss[k + 1]) && FirstIn(ss, es, k, f, p) && LastStamp(ss, es, k, f, r)
    ensures Stamps(ss[k], es[k], ss[k + 1], f) <==> GoesFirst(ss, es, k, f, r)
  {
    RunKeepsInv(ss, es, k);
    VictimIff(ss, es, k, f, r);
    BroughtInto(ss[k], es[k], ss[k + 1], f);
  }

  /** So it does whenever that entry was not written since. */
  lemma UnwrittenGoesFirst(ss: seq<State>, es: seq<Event>, k: nat, f: nat, p: nat)
    requires IsRun(ss, es) && k < |ss| && AllUsed(ss[k].entries) && FirstIn(ss, es, k, f, p)
    requires LastStamp(ss, es, k, f, p)
    ensures GoesFirst(ss, es, k, f, p)
  {
    forall j: nat, q: nat |
      j < |ss[k].entries| && j != f && Evictable(ss[k].entries[j]) && LastStamp(ss, es, k, j, q)
      ensures GoesBefore(ss, es, f, p, j, q)
    {
      var q0 := InsertionDates(ss, es, k, j);
      assert p < q0 <= q;
      ClockGrows(ss, p + 1, q0);
      if q0 < q { ClockGrows(ss, q0 + 1, q); }
    }
  }

  /** It does not always: block 0 is inserted before block 1, but a write restamps it, and block 1 is
      evicted first. */
  lemma FirstInStays(s0: State, dev: Device, data: Block) returns (ss: seq<State>, es: seq<Event>)
    requires IsInitial(s0) && |s0.entries| == 2 && Callable(dev) && FreshDriver(s0, dev)
    requires dev.blockSize <= CACHE_DATA_SIZE && 3 <= dev.totalBlocks && |data| == CACHE_DATA_SIZE
    ensures IsRun(ss, es) && ss[0] == s0 && |es| == 9
    ensures es[1] == WriteCached(0, 0, true, data, HTL_OK) && es[3] == WriteCached(0, 1, true, data, HTL_OK)
    ensures es[8] == WriteCached(0, 2, true, data, HTL_OK)
    ensures Hit(ss[9], 0, 0, 0) && forall i :: !Hit(ss[9], i, 0, 1)
  {
    ss, es := InsertTwo(s0, dev, data);
    ss, es := RewriteTwice(ss, es, dev, data);
    assert IsSlot(Now(ss).entries, 1);
    ss, es := RunInsert(ss, es, dev, 2, data, 1);
  }

  /** Blocks 0 and 1 are inserted in this order and flushed. */
  lemma InsertTwo(s0: State, dev: Device, data: Block) returns (ss: seq<State>, es: seq<Event>)
    requires IsInitial(s0) && |s0.entries| == 2 && Callable(dev) && FreshDriver(s0, dev)
    requires dev.blockSize <= CACHE_DATA_SIZE && 2 <= dev.totalBlocks && |data| == CACHE_DATA_SIZE
    ensures IsRun(ss, es) && ss[0] == s0 && |es| == 5 && Serves(Now(ss), dev, 2) && Now(ss).accessCounter == 2
    ensures es[1] == WriteCached(0, 0, true, data, HTL_OK) && es[3] == WriteCached(0, 1, true, data, HTL_OK)
    ensures Now(ss).entries == [Entry(0, false, true, 0, 1, data), Entry(1, false, true, 0, 2, data)]
  {
    ss, es := InsertOne(s0, dev, data);
    assert IsSlot(Now(ss).entries, 1);
    ss, es := RunInsert(ss, es, dev, 1, data, 1);
    ss, es := RunFlush(ss, es, dev, 1);
  }

  lemma InsertOne(s0: State, dev: Device, data: Block) returns (ss: seq<State>, es: seq<Event>)
    requires IsInitial(s0) && |s0.entries| == 2 && Callable(dev) && FreshDriver(s0, dev)
    requires dev.blockSize <= CACHE_DATA_SIZE && 2 <= dev.totalBlocks && |data| == CACHE_DATA_SIZE
    ensures IsRun(ss, es) && ss[0] == s0 && |es| == 3 && Serves(Now(ss), dev, 2) && Now(ss).accessCounter == 1
    ensures es[1] == WriteCached(0, 0, true, data, HTL_OK) && |Now(ss).entries| == 2
    ensures Now(ss).entries[0] == Entry(0, false, true, 0, 1, data) && IsZeroed(Now(ss).entries[1])
  {
    ss, es := RunRegister(s0, dev);
    assert IsZeroed(s0.entries[0]) && IsZeroed(s0.entries[1]) && IsSlot(s0.entries, 0);
    ss, es := RunInsert(ss, es, dev, 0, data, 0);
    ss, es := RunFlush(ss, es, dev, 0);
  }

  /** With blocks 0 and 1 cached, block 0 is written twice and flushed. */
  lemma RewriteTwice(ss: seq<State>, es: seq<Event>, dev: Device, data: Block)
    returns (ss': seq<State>, es': seq<Event>)
    requires IsRun(ss, es) && Serves(Now(ss), dev, 2) && |data| == CACHE_DATA_SIZE && Now(ss).accessCounter == 2
    requires Now(ss).entries == [Entry(0, false, true, 0, 1, data), Entry(1, false, true, 0, 2, data)]
    ensures IsRun(ss', es') && |es'| == |es| + 3 && ss'[..|ss|] == ss && es'[..|es|] == es && Serves(Now(ss'), dev, 2)
    ensures Now(ss').entries == [Entry(0, false, true, 0, 3, data), Entry(1, false, true, 0, 2, data)]
  {
    assert Hit(Now(ss), 0, 0, 0);
    ss', es' := RunRewrite(ss, es, dev, 0, data, 0);
    assert Hit(Now(ss'), 0, 0, 0);
    ss', es' := RunRewrite(ss', es', dev, 0, data, 0);
    ss', es' := RunFlush(ss', es', dev, 0);
  }
}

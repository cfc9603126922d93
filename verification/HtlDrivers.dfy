/** What the drivers' answers decide: which errors a call can return, and what a run without
    driver failures guarantees. */
module HtlDrivers {
  import opened Bytes
  import opened HtlTypes
  import opened HtlSteps
  import opened HtlCalls
  import opened HtlRuns
  import opened HtlRequests
  import opened HtlEviction

  /** The driver calls `cs` are those call `e` makes. */
  ghost predicate Asks(s: State, e: Event, cs: seq<Request>, s': State)
    requires Inv(s)
  {
    match e
    case ReadCached(d, b, hasBuf, st, _) => ReadCachedAsks(s, d, b, hasBuf, st, cs)
    case Flush(d, st) => FlushAsks(s, d, st, s', cs)
    case ReadSectors(d, lba, count, hasBuf, st, _) => ReadSectorsAsks(s, d, lba, count, hasBuf, st, cs)
    case WriteSectors(d, lba, count, hasBuf, _, st) => WriteSectorsAsks(s, d, lba, count, hasBuf, st, cs)
    case ZeroBlock(d, b, st) => ZeroBlockAsks(s, d, b, st, cs)
    case _ => cs == []
  }

  /** No parameter check refuses call `e`. */
  ghost predicate InRange(s: State, e: Event)
    requires Inv(s)
  {
    match e
    case Register(dev, _) => Callable(dev) && s.deviceCount < MAX_DEVICES
    case Unregister(d, _) => d < s.deviceCount
    case ReadCached(d, b, hasBuf, _, _) => d < s.deviceCount && hasBuf && b < s.devices[d].totalBlocks
    case WriteCached(d, b, hasBuf, _, _) =>
      d < s.deviceCount && hasBuf && b < s.devices[d].totalBlocks && !s.devices[d].writeProtect
    case Flush(d, _) => d < s.deviceCount
    case Invalidate(d, _) => d < s.deviceCount
    case ReadSectors(d, lba, count, hasBuf, _, _) => SectorRefusal(s, d, lba, count, hasBuf, false) == HTL_OK
    case WriteSectors(d, lba, count, hasBuf, _, _) => SectorRefusal(s, d, lba, count, hasBuf, true) == HTL_OK
    case ZeroBlock(d, b, _) => d < s.deviceCount && b < s.devices[d].totalBlocks && !s.devices[d].writeProtect
  }

  // ---- statuses and failures of the sweeps ---------------------------------------------------

  lemma ReadSweepStatus(h: Handle, lba: nat, count: nat, spb: nat, st: Status, cs: seq<Request>)
    requires 0 < spb && 0 < count && ReadSweep(h, lba, count, spb, st, cs)
    ensures LastError(cs) == st && Failures(cs) == if st == HTL_OK then 0 else 1
  {
    var front := cs[..|cs| - 1];
    assert AllOk(front) by { assert forall k :: 0 <= k < |front| ==> front[k] == cs[k]; }
    NoFailureIff(front);
  }

  lemma {:induction false} SweepOk(h: Handle, lba: nat, count: nat, spb: nat, n: nat)
    requires 0 < spb
    ensures AllOk(SweepCalls(h, lba, count, spb, n))
    decreases n
  {
    if n == 0 {
    } else {
      SweepOk(h, lba, count, spb, n - 1);
    }
  }

  lemma EndsInFailure(cs: seq<Request>, tail: seq<Request>, st: Status)
    requires AllOk(cs) && 0 < |tail| <= 2 && tail[|tail| - 1].st == st != HTL_OK && AllOk(tail[..|tail| - 1])
    ensures LastError(cs + tail) == st && Failures(cs + tail) == 1
  {
    var front := cs + tail[..|tail| - 1];
    assert AllOk(front);
    NoFailureIff(front);
    assert cs + tail == front + [tail[|tail| - 1]];
    OneMoreCall(front, tail[|tail| - 1]);
  }

  lemma WriteSweepStatus(h: Handle, lba: nat, count: nat, spb: nat, st: Status, cs: seq<Request>)
    requires 0 < spb && 0 < count && WriteSweep(h, lba, count, spb, st, cs)
    ensures LastError(cs) == st && Failures(cs) == if st == HTL_OK then 0 else 1
  {
    var n, tail :| WritesInTurn(h, lba, count, spb, st, n, cs, tail);
    SweepOk(h, lba, count, spb, n);
    if st == HTL_OK {
      assert cs == SweepCalls(h, lba, count, spb, n);
      NoFailureIff(cs);
    } else {
      EndsInFailure(SweepCalls(h, lba, count, spb, n), tail, st);
    }
  }

  // ---- one call --------------------------------------------------------------------------------

  /** Past the parameter checks the status of every call but a cached write is its driver calls':
      that of the last one that failed, or HTL_OK if none did. */
  lemma StatusIsDrivers(s: State, e: Event, cs: seq<Request>, s': State)
    requires Inv(s) && Step(s, e, s') && Asks(s, e, cs, s') && InRange(s, e) && !e.WriteCached?
    ensures e.st == LastError(cs)
  {
    match e
    case ReadCached(d, b, _, st, _) => OneCall(ReadOf(s.devices[d].handle, b, st));
    case ReadSectors(d, lba, count, _, st, _) =>
      ReadSweepStatus(s.devices[d].handle, lba, count, s.devices[d].blockSize / SECTOR_SIZE, st, cs);
    case WriteSectors(d, lba, count, _, _, st) =>
      WriteSweepStatus(s.devices[d].handle, lba, count, s.devices[d].blockSize / SECTOR_SIZE, st, cs);
    case ZeroBlock(d, b, st) => OneCall(WriteOf(s.devices[d].handle, b, st));
    case _ =>
  }

  /** An error past the parameter checks is the status of a driver call that failed. */
  lemma ErrorHasCause(s: State, e: Event, cs: seq<Request>, s': State) returns (k: nat)
    requires Inv(s) && Step(s, e, s') && Asks(s, e, cs, s') && InRange(s, e) && !e.WriteCached?
    requires e.st != HTL_OK
    ensures k < |cs| && cs[k].st == e.st
  {
    StatusIsDrivers(s, e, cs, s');
    k := ErrorIsLogged(cs);
  }

  /** A call whose driver calls all succeed succeeds; a cached write makes none and is refused exactly
      when its block is not cached and no entry can be replaced. */
  lemma HealthyCallSucceeds(s: State, e: Event, cs: seq<Request>, s': State)
    requires Inv(s) && Step(s, e, s') && Asks(s, e, cs, s') && InRange(s, e) && AllOk(cs)
    ensures !e.WriteCached? ==> e.st == HTL_OK
    ensures e.WriteCached? ==> (e.st == HTL_OK <==> (exists i :: Hit(s, i, e.d, e.b)) || Replaceable(s.entries))
  {
    if e.WriteCached? {
      WriteAcceptedIff(s, e.d, e.b, e.data, e.st, s');
    } else {
      StatusIsDrivers(s, e, cs, s');
      NoFailureIff(cs);
    }
  }

  /** Call `e` addresses device `d` with I/O. */
  predicate Serves(e: Event, d: nat) {
    match e
    case ReadCached(d', _, _, _, _) => d' == d
    case WriteCached(d', _, _, _, _) => d' == d
    case Flush(d', _) => d' == d
    case ReadSectors(d', _, _, _, _, _) => d' == d
    case WriteSectors(d', _, _, _, _, _) => d' == d
    case ZeroBlock(d', _, _) => d' == d
    case _ => false
  }

  /** Driver failures are counted, each once and against its device. */
  lemma FailuresCounted(s: State, e: Event, cs: seq<Request>, s': State, d: nat)
    requires Inv(s) && Step(s, e, s') && Asks(s, e, cs, s') && d < s.deviceCount
    requires e.Unregister? ==> e.st != HTL_OK
    ensures Inv(s') && d < s'.deviceCount && Failures(cs) < U64
    ensures s'.stats[d].errors == if Serves(e, d) then SatAdd(s.stats[d].errors, Failures(cs)) else s.stats[d].errors
  {
    StepKeepsInv(s, e, s');
    if e.Flush? {
      if e.d < s.deviceCount { FlushFailures(s, e, cs, s'); }
    } else {
      OneFailure(s, e, cs, s');
      if e.ReadCached? || e.WriteCached? {
        CachedErrors(s, e, s', d);
      } else {
        RawErrors(s, e, s', d);
      }
    }
  }

  /** The error a failed call counts. */
  ghost predicate CountsOne(s: State, e: Event)
    requires Inv(s)
  {
    InRange(s, e) && !e.WriteCached? && !e.Register? && e.st != HTL_OK
  }

  lemma OneFailure(s: State, e: Event, cs: seq<Request>, s': State)
    requires Inv(s) && Step(s, e, s') && Asks(s, e, cs, s') && !e.Flush?
    ensures Failures(cs) == if CountsOne(s, e) then 1 else 0
  {
    match e
    case ReadCached(d, b, _, st, _) => if InRange(s, e) { OneCall(ReadOf(s.devices[d].handle, b, st)); }
    case ReadSectors(d, lba, count, hasBuf, st, _) =>
      if InRange(s, e) {
        ReadSweepStatus(s.devices[d].handle, lba, count, s.devices[d].blockSize / SECTOR_SIZE, st, cs);
      }
    case WriteSectors(d, lba, count, hasBuf, _, st) =>
      if InRange(s, e) {
        WriteSweepStatus(s.devices[d].handle, lba, count, s.devices[d].blockSize / SECTOR_SIZE, st, cs);
      }
    case ZeroBlock(d, b, st) => if InRange(s, e) { OneCall(WriteOf(s.devices[d].handle, b, st)); }
    case _ =>
  }

  lemma CachedErrors(s: State, e: Event, s': State, d: nat)
    requires Inv(s) && Step(s, e, s') && d < s.deviceCount && (e.ReadCached? || e.WriteCached?)
    ensures d < s'.deviceCount && d < |s'.stats|
    ensures s'.stats[d].errors == SatAdd(s.stats[d].errors, if Serves(e, d) && CountsOne(s, e) then 1 else 0)
  {
  }

  lemma RawErrors(s: State, e: Event, s': State, d: nat)
    requires Inv(s) && Step(s, e, s') && d < s.deviceCount && !e.ReadCached? && !e.WriteCached? && !e.Flush?
    requires e.Unregister? ==> e.st != HTL_OK
    ensures d < s'.deviceCount && d < |s'.stats|
    ensures s'.stats[d].errors == SatAdd(s.stats[d].errors, if Serves(e, d) && CountsOne(s, e) then 1 else 0)
  {
  }

  lemma {:induction false} FailuresConcat(a: seq<Request>, b: seq<Request>)
    ensures Failures(a + b) == Failures(a) + Failures(b)
    decreases |b|
  {
    if b == [] {
      assert a + b == a;
    } else {
      var last := |b| - 1;
      assert a + b == a + b[..last] + [b[last]];
      OneMoreCall(a + b[..last], b[last]);
      FailuresConcat(a, b[..last]);
    }
  }

  lemma FlushFailures(s: State, e: Event, cs: seq<Request>, s': State)
    requires Inv(s) && e.Flush? && FlushAsks(s, e.d, e.st, s', cs) && e.d < s.deviceCount
    ensures s'.stats == s.stats[e.d := s'.stats[e.d]]
    ensures Failures(cs) < U64 && s'.stats[e.d].errors == SatAdd(s.stats[e.d].errors, Failures(cs))
  {
    var n := CountPending(s.entries, e.d);
    FlushWritesCount(s.entries, e.d, s.devices[e.d].handle, s'.entries, cs[..n]);
    assert cs == cs[..n] + cs[n..];
    FailuresConcat(cs[..n], cs[n..]);
    CountedErrors(s, e.d, e.st, s', Failures(cs[n..]));
  }

  lemma CountedErrors(s: State, d: nat, st: Status, s': State, own: nat)
    requires d < |s.stats| && StatsInRange(s.stats[d]) && FlushCounted(s, d, st, s', own)
    ensures s'.stats == s.stats[d := s'.stats[d]] && CountPending(s'.entries, d) + own < U64
    ensures s'.stats[d].errors == SatAdd(s.stats[d].errors, CountPending(s'.entries, d) + own)
  {
  }

  // ---- runs --------------------------------------------------------------------------------------

  /** A run together with the driver calls of each call. */
  ghost predicate IsServedRun(ss: seq<State>, es: seq<Event>, cs: seq<seq<Request>>) {
    && IsRun(ss, es) && |cs| == |es|
    && forall k :: 0 <= k < |es| ==> Inv(ss[k]) ==> Asks(ss[k], es[k], cs[k], ss[k + 1])
  }

  /** In every run: where no driver call fails, every call past the parameter checks returns HTL_OK,
      but for cached writes when the cache can make no room. */
  lemma HealthyRun(ss: seq<State>, es: seq<Event>, cs: seq<seq<Request>>, k: nat)
    requires IsServedRun(ss, es, cs) && k < |es| && AllOk(cs[k])
    ensures Inv(ss[k])
    ensures InRange(ss[k], es[k]) && !es[k].WriteCached? ==> es[k].st == HTL_OK
    ensures InRange(ss[k], es[k]) && es[k].WriteCached? ==>
              (es[k].st == HTL_OK <==> (exists i :: Hit(ss[k], i, es[k].d, es[k].b)) || Replaceable(ss[k].entries))
  {
    RunKeepsInv(ss, es, k);
    if InRange(ss[k], es[k]) { HealthyCallSucceeds(ss[k], es[k], cs[k], ss[k + 1]); }
  }

  /** And no error is ever counted. */
  lemma {:induction false} HealthyRunCountsNone(ss: seq<State>, es: seq<Event>, cs: seq<seq<Request>>, k: nat, d: nat)
    requires IsServedRun(ss, es, cs) && k <= |es| && forall j :: 0 <= j < k ==> AllOk(cs[j])
    ensures Inv(ss[k]) && (d < MAX_DEVICES ==> ss[k].stats[d].errors == 0)
    decreases k
  {
    RunKeepsInv(ss, es, k);
    if k == 0 {
    } else {
      RunKeepsInv(ss, es, k - 1);
      var d' := if es[k - 1].Unregister? && es[k - 1].st == HTL_OK && d >= es[k - 1].d then d + 1 else d;
      HealthyRunCountsNone(ss, es, cs, k - 1, d');
      NoFailureIff(cs[k - 1]);
      if d < MAX_DEVICES { CountsNone(ss[k - 1], es[k - 1], cs[k - 1], ss[k], d, d'); }
    }
  }

  lemma CountsNone(s: State, e: Event, cs: seq<Request>, s': State, d: nat, d': nat)
    requires Inv(s) && Inv(s') && Step(s, e, s') && Asks(s, e, cs, s') && Failures(cs) == 0 && d < MAX_DEVICES
    requires d' == if e.Unregister? && e.st == HTL_OK && d >= e.d then d + 1 else d
    requires d' < MAX_DEVICES ==> s.stats[d'].errors == 0
    ensures s'.stats[d].errors == 0
  {
    if d >= s'.deviceCount {
    } else if e.Unregister? && e.st == HTL_OK {
      CompactAt(s.stats, e.d, s.deviceCount, ZERO_STATS);
    } else if d < s.deviceCount {
      FailuresCounted(s, e, cs, s', d);
    } else {
      assert e.Register? && s'.stats == s.stats;
    }
  }

  /** A flush in such a run leaves the store holding all of the device's content. */
  lemma HealthyFlushSaves(ss: seq<State>, es: seq<Event>, cs: seq<seq<Request>>, k: nat)
    requires IsServedRun(ss, es, cs) && k < |es| && AllOk(cs[k]) && es[k].Flush?
    requires forall j :: 0 <= j < k ==> Quiet(ss[j], es[j], ss[j + 1])
    ensures Inv(ss[k]) && Inv(ss[k + 1])
    ensures es[k].d < ss[k].deviceCount ==>
              && es[k].d < ss[k + 1].deviceCount
              && ss[k + 1].devices == ss[k].devices && ss[k].devices[es[k].d].handle in ss[k + 1].disks
              && ss[k + 1].disks[ss[k].devices[es[k].d].handle] == Contents(ss[k], es[k].d)
  {
    RunRefinesPlain(ss, es, k);
    HealthyRun(ss, es, cs, k);
    FlushIsPlain(ss[k], es[k].d, es[k].st, ss[k + 1]);
    if es[k].d < ss[k].deviceCount {
      assert Plain(ss[k + 1])[es[k].d] == Plain(ss[k])[es[k].d];
    }
  }
}

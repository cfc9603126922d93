/** The flush loop, iteration by iteration. */
module HtlFlush {
  import opened HtlTypes
  import opened HtlSteps
  import opened HtlCoherence
  import opened HtlCalls
  import opened HtlRequests

  lemma FlushBegin(s: State, d: nat)
    requires Inv(s) && d < s.deviceCount
    ensures FlushedUpTo(s, d, 0, s) && FlushTally(s, d, 0, s, HTL_OK)
  {
    assert s.disks == s.disks[s.devices[d].handle := s.disks[s.devices[d].handle]];
    assert CountPending(s.entries[..0], d) == 0;
  }

  lemma FlushReadySoFar(s: State, d: nat, i: nat, t: State, lastErr: Status)
    requires Inv(s) && d < s.deviceCount && i < |s.entries|
    requires FlushedUpTo(s, d, i, t) && FlushTally(s, d, i, t, lastErr)
    ensures FlushReady(t, d, i) && t.devices == s.devices
  {
    assert EntryOk(s, i);
  }

  /** Two entries never write to the same block, so an entry flushed earlier stays flushed. */
  lemma FlushProgress(s: State, d: nat, i: nat, t: State, st: Status, t': State)
    requires Inv(s) && d < s.deviceCount && i < |s.entries| && FlushedUpTo(s, d, i, t)
    requires FlushReady(t, d, i) && t.devices == s.devices && FlushOneStep(t, d, i, st, t')
    ensures FlushedUpTo(s, d, i + 1, t')
  {
    var h := s.devices[d].handle;
    var e := s.entries[i];
    if Pending(e, d) {
      assert PendingBlock(s, d, e.blockNum) by { assert Hit(s, i, d, e.blockNum); }
      forall j | 0 <= j < i
        ensures FlushedEntry(s.entries[j], d, s.devices[d].blockSize, t'.disks[h], t'.entries[j])
      {
        assert FlushedEntry(s.entries[j], d, s.devices[d].blockSize, t.disks[h], t.entries[j]);
        if Pending(s.entries[j], d) {
          OtherBlock(s, d, i, j);
        }
      }
    }
  }

  lemma OtherBlock(s: State, d: nat, i: nat, j: nat)
    requires Inv(s) && i < |s.entries| && j < |s.entries| && i != j
    requires Pending(s.entries[i], d) && Pending(s.entries[j], d)
    ensures s.entries[j].blockNum != s.entries[i].blockNum
  {
    if s.entries[j].blockNum == s.entries[i].blockNum {
      UniqueHit(s, d, s.entries[i].blockNum, i, j);
    }
  }

  lemma TallyProgress(s: State, d: nat, i: nat, t: State, lastErr: Status, st: Status, t': State)
    requires d < |s.stats| && StatsInRange(s.stats[d]) && FlushTally(s, d, i, t, lastErr) && i < |t.entries|
    requires FlushReady(t, d, i) && FlushOneStep(t, d, i, st, t')
    ensures FlushTally(s, d, i + 1, t', if st != HTL_OK then st else lastErr)
  {
    assert t'.entries[..i + 1][..i] == t.entries[..i];
  }

  /** The driver calls made so far, and the status they leave. */
  lemma AskedProgress(s: State, d: nat, i: nat, t: State, h: Handle, cs: seq<Request>, lastErr: Status, st: Status,
                      one: seq<Request>, t': State)
    requires i < |s.entries| == |t.entries| && t.entries[i] == s.entries[i]
    requires FlushReady(t, d, i) && FlushOneStep(t, d, i, st, t') && FlushOneAsks(t.entries[i], d, h, st, one)
    requires FlushWrites(s.entries[..i], d, h, t.entries[..i], cs) && lastErr == LastError(cs)
    ensures |t'.entries| == |s.entries| && FlushWrites(s.entries[..i + 1], d, h, t'.entries[..i + 1], cs + one)
    ensures LastError(cs + one) == if st != HTL_OK then st else lastErr
  {
    assert t'.entries == t.entries[i := t'.entries[i]];
    FlushWritesNext(s.entries, i, d, h, t.entries, cs, t'.entries[i], one);
    if Pending(s.entries[i], d) {
      OneMoreCall(cs, one[0]);
    } else {
      assert cs + one == cs;
    }
  }

  /** Entries, store, error count and driver calls after the first `i` iterations. */
  ghost predicate FlushLoop(s: State, d: nat, i: nat, t: State, lastErr: Status, cs: seq<Request>)
    requires Inv(s) && d < s.deviceCount
  {
    && FlushedUpTo(s, d, i, t) && FlushTally(s, d, i, t, lastErr) && lastErr == LastError(cs)
    && FlushWrites(s.entries[..i], d, s.devices[d].handle, t.entries[..i], cs)
  }

  lemma LoopBegin(s: State, d: nat)
    requires Inv(s) && d < s.deviceCount
    ensures FlushLoop(s, d, 0, s, HTL_OK, [])
  {
    FlushBegin(s, d);
  }

  lemma LoopReady(s: State, d: nat, i: nat, t: State, lastErr: Status, cs: seq<Request>)
    requires Inv(s) && d < s.deviceCount && i < |s.entries| && FlushLoop(s, d, i, t, lastErr, cs)
    ensures FlushReady(t, d, i) && t.devices == s.devices
  {
    FlushReadySoFar(s, d, i, t, lastErr);
  }

  lemma LoopProgress(s: State, d: nat, i: nat, t: State, lastErr: Status, cs: seq<Request>, st: Status,
                     one: seq<Request>, t': State)
    requires Inv(s) && d < s.deviceCount && i < |s.entries| && FlushLoop(s, d, i, t, lastErr, cs)
    requires FlushReady(t, d, i) && FlushOneStep(t, d, i, st, t')
    requires FlushOneAsks(t.entries[i], d, s.devices[d].handle, st, one)
    ensures FlushLoop(s, d, i + 1, t', if st != HTL_OK then st else lastErr, cs + one)
  {
    FlushReadySoFar(s, d, i, t, lastErr);
    FlushProgress(s, d, i, t, st, t');
    TallyProgress(s, d, i, t, lastErr, st, t');
    AskedProgress(s, d, i, t, s.devices[d].handle, cs, lastErr, st, one, t');
  }

  /** The driver's own flush, if there is one, and what it adds to the calls. */
  ghost predicate OwnFlush(dev: Device, err: Status, lastErr: Status, failures: nat, own: seq<Request>) {
    if dev.canFlush then
      && |own| == 1 && own[0] == FlushOf(dev.handle, own[0].st)
      && if own[0].st == HTL_OK then lastErr == err && failures == 0 else lastErr == own[0].st && failures == 1
    else own == [] && lastErr == err && failures == 0
  }

  lemma LoopDone(s: State, d: nat, t: State, err: Status, cs: seq<Request>, lastErr: Status, failures: nat,
                 own: seq<Request>, s': State)
    requires Inv(s) && d < s.deviceCount && FlushLoop(s, d, |s.entries|, t, err, cs)
    requires OwnFlush(s.devices[d], err, lastErr, failures, own)
    requires d < |t.stats| && StatsInRange(t.stats[d]) && s' == AddFlush(AddErrors(t, d, failures), d)
    ensures FlushStep(s, d, lastErr, s') && Inv(s') && FlushAsks(s, d, lastErr, s', cs + own)
  {
    FlushDone(s, d, t, err, lastErr, failures, s');
    FlushKeepsInv(s, d, lastErr, s');
    TallyDone(s, d, t, err, lastErr, failures, s');
    AskedDone(s, d, t, err, cs, lastErr, failures, own, s');
  }

  /** The counters can go on counting. */
  lemma LoopCounts(s: State, d: nat, t: State, err: Status, cs: seq<Request>)
    requires Inv(s) && d < s.deviceCount && FlushLoop(s, d, |s.entries|, t, err, cs)
    ensures t.devices == s.devices && d < |t.stats| && d < |t.devices| && StatsInRange(t.stats[d])
  {
  }

  lemma AskedDone(s: State, d: nat, t: State, err: Status, cs: seq<Request>, lastErr: Status, failures: nat,
                  own: seq<Request>, s': State)
    requires Inv(s) && d < s.deviceCount && FlushLoop(s, d, |s.entries|, t, err, cs)
    requires OwnFlush(s.devices[d], err, lastErr, failures, own) && s'.entries == t.entries
    requires FlushCounted(s, d, lastErr, s', failures)
    ensures FlushAsks(s, d, lastErr, s', cs + own)
  {
    assert s.entries[..|s.entries|] == s.entries && t.entries[..|s.entries|] == t.entries;
    FlushWritesCount(s.entries, d, s.devices[d].handle, t.entries, cs);
    OwnCalls(s.devices[d], err, cs, lastErr, failures, own);
  }

  lemma OwnCalls(dev: Device, err: Status, cs: seq<Request>, lastErr: Status, failures: nat, own: seq<Request>)
    requires OwnFlush(dev, err, lastErr, failures, own) && err == LastError(cs)
    ensures (cs + own)[..|cs|] == cs && (cs + own)[|cs|..] == own
    ensures lastErr == LastError(cs + own) && Failures(own) == failures
  {
    Parts(cs, own);
    if own == [] {
      assert cs + own == cs;
    } else {
      var c := own[0];
      assert own == [c];
      OneMoreCall(cs, c);
      OneCall(c);
    }
  }

  lemma Parts(x: seq<Request>, y: seq<Request>)
    ensures (x + y)[..|x|] == x && (x + y)[|x|..] == y
  {
  }

  lemma FlushDone(s: State, d: nat, t: State, err: Status, lastErr: Status, driverFailures: nat, s': State)
    requires Inv(s) && d < s.deviceCount && driverFailures <= 1
    requires FlushedUpTo(s, d, |s.entries|, t) && FlushTally(s, d, |s.entries|, t, err)
    requires if driverFailures == 0 then lastErr == err else lastErr != HTL_OK
    requires d < |t.stats| && StatsInRange(t.stats[d])
    requires s' == AddFlush(AddErrors(t, d, driverFailures), d)
    ensures FlushStep(s, d, lastErr, s')
  {
    TallyDone(s, d, t, err, lastErr, driverFailures, s');
    FlushedSame(s, d, t, s');
    FlushIs(s, d, lastErr, driverFailures, s');
  }

  /** Store, entries and tally together are the whole step. */
  lemma FlushIs(s: State, d: nat, st: Status, failures: nat, s': State)
    requires Inv(s) && d < s.deviceCount && failures <= 1
    requires FlushedUpTo(s, d, |s.entries|, s') && FlushCounted(s, d, st, s', failures)
    ensures FlushStep(s, d, st, s')
  {
  }

  /** Counting does not touch entries or stores. */
  lemma FlushedSame(s: State, d: nat, t: State, s': State)
    requires d < |s.devices| && s.devices[d].handle in s.disks
    requires FlushedUpTo(s, d, |s.entries|, t) && s'.entries == t.entries && s'.disks == t.disks
    ensures FlushedUpTo(s, d, |s.entries|, s')
  {
  }

  lemma TallyDone(s: State, d: nat, t: State, err: Status, lastErr: Status, driverFailures: nat, s': State)
    requires d < |s.stats| && StatsInRange(s.stats[d]) && driverFailures <= 1
    requires FlushTally(s, d, |t.entries|, t, err)
    requires if driverFailures == 0 then lastErr == err else lastErr != HTL_OK
    requires d < |t.stats| && StatsInRange(t.stats[d])
    requires s' == AddFlush(AddErrors(t, d, driverFailures), d)
    ensures FlushCounted(s, d, lastErr, s', driverFailures)
  {
    assert t.entries[..|t.entries|] == t.entries;
  }
}

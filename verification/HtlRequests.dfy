/** Which driver calls the translation layer makes, and what they decide. */
module HtlRequests {
  import opened HtlTypes
  import opened HtlSteps

  // ---- statuses --------------------------------------------------------------------------

  /** The status of the last call that failed, or HTL_OK. */
  function LastError(cs: seq<Request>): Status {
    if cs == [] then HTL_OK
    else if cs[|cs| - 1].st != HTL_OK then cs[|cs| - 1].st
    else LastError(cs[..|cs| - 1])
  }

  function Failures(cs: seq<Request>): (n: nat)
    ensures n <= |cs|
  {
    if cs == [] then 0 else Failures(cs[..|cs| - 1]) + if cs[|cs| - 1].st != HTL_OK then 1 else 0
  }

  predicate AllOk(cs: seq<Request>) {
    forall k :: 0 <= k < |cs| ==> cs[k].st == HTL_OK
  }

  lemma {:induction false} NoFailureIff(cs: seq<Request>)
    ensures AllOk(cs) <==> Failures(cs) == 0
    ensures AllOk(cs) <==> LastError(cs) == HTL_OK
    decreases |cs|
  {
    if cs == [] {
    } else {
      var front := cs[..|cs| - 1];
      NoFailureIff(front);
      assert AllOk(cs) <==> AllOk(front) && cs[|cs| - 1].st == HTL_OK by {
        assert forall k :: 0 <= k < |front| ==> front[k] == cs[k];
      }
    }
  }

  lemma {:induction false} ErrorIsLogged(cs: seq<Request>) returns (k: nat)
    requires LastError(cs) != HTL_OK
    ensures k < |cs| && cs[k].st == LastError(cs)
    decreases |cs|
  {
    if cs[|cs| - 1].st != HTL_OK {
      k := |cs| - 1;
    } else {
      k := ErrorIsLogged(cs[..|cs| - 1]);
    }
  }

  lemma OneMoreCall(cs: seq<Request>, c: Request)
    ensures LastError(cs + [c]) == if c.st != HTL_OK then c.st else LastError(cs)
    ensures Failures(cs + [c]) == Failures(cs) + if c.st != HTL_OK then 1 else 0
  {
    assert (cs + [c])[..|cs|] == cs;
  }

  lemma OneCall(c: Request)
    ensures LastError([c]) == c.st && Failures([c]) == if c.st == HTL_OK then 0 else 1
  {
    OneMoreCall([], c);
    assert [] + [c] == [c];
  }

  lemma Reassociate(a: seq<Request>, b: seq<Request>, c: seq<Request>)
    ensures a + b + c == a + (b + c)
  {
  }

  // ---- single calls ------------------------------------------------------------------------

  /** A cached read asks the driver for the block once, and only on a miss. */
  ghost predicate ReadCachedAsks(s: State, d: nat, b: nat, hasBuf: bool, st: Status, cs: seq<Request>)
    requires Inv(s)
  {
    if d < s.deviceCount && hasBuf && b < s.devices[d].totalBlocks && !exists i :: Hit(s, i, d, b) then
      cs == [ReadOf(s.devices[d].handle, b, st)]
    else
      cs == []
  }

  ghost predicate ZeroBlockAsks(s: State, d: nat, b: nat, st: Status, cs: seq<Request>)
    requires Inv(s)
  {
    if d < s.deviceCount && !s.devices[d].writeProtect && b < s.devices[d].totalBlocks then
      cs == [WriteOf(s.devices[d].handle, b, st)]
    else
      cs == []
  }

  // ---- sector calls --------------------------------------------------------------------------

  /** The number of blocks that `count` sectors from `lba` on lie in. */
  function BlocksOf(lba: nat, count: nat, spb: nat): nat
    requires 0 < spb && 0 < count
  {
    (lba + count - 1) / spb - lba / spb + 1
  }

  /** The blocks are read one after another, each once, up to the first failure. */
  ghost predicate ReadsInTurn(h: Handle, first: nat, cs: seq<Request>, st: Status) {
    forall k :: 0 <= k < |cs| ==> cs[k] == ReadOf(h, first + k, if k < |cs| - 1 then HTL_OK else st)
  }

  /** All blocks of the range, or those up to the one that failed. */
  ghost predicate ReadSweep(h: Handle, lba: nat, count: nat, spb: nat, st: Status, cs: seq<Request>)
    requires 0 < spb && 0 < count
  {
    && cs != [] && ReadsInTurn(h, lba / spb, cs, st)
    && if st == HTL_OK then |cs| == BlocksOf(lba, count, spb) else |cs| <= BlocksOf(lba, count, spb)
  }

  ghost predicate ReadSectorsAsks(s: State, d: nat, lba: nat, count: nat, hasBuf: bool, st: Status, cs: seq<Request>)
    requires Inv(s)
  {
    if SectorRefusal(s, d, lba, count, hasBuf, false) != HTL_OK then cs == []
    else
      var spb := s.devices[d].blockSize / SECTOR_SIZE;
      0 < spb && ReadSweep(s.devices[d].handle, lba, count, spb, st, cs)
  }

  /** Block `b` is only partly covered, so a write reads it first. */
  predicate Partial(lba: nat, count: nat, spb: nat, b: nat) {
    b * spb < lba || lba + count < (b + 1) * spb
  }

  /** The calls of one block that is written without failure. */
  function BlockCalls(h: Handle, b: nat, partial: bool): seq<Request> {
    if partial then [ReadOf(h, b, HTL_OK), WriteOf(h, b, HTL_OK)] else [WriteOf(h, b, HTL_OK)]
  }

  /** The calls of one block whose read or write failed. */
  predicate FailedCalls(h: Handle, b: nat, partial: bool, st: Status, cs: seq<Request>) {
    && st != HTL_OK
    && if partial then cs == [ReadOf(h, b, st)] || cs == [ReadOf(h, b, HTL_OK), WriteOf(h, b, st)]
       else cs == [WriteOf(h, b, st)]
  }

  predicate TriedCalls(h: Handle, b: nat, partial: bool, st: Status, cs: seq<Request>) {
    if st == HTL_OK then cs == BlockCalls(h, b, partial) else FailedCalls(h, b, partial, st, cs)
  }

  /** The calls of the first `n` blocks of a sector write, all without failure. */
  function SweepCalls(h: Handle, lba: nat, count: nat, spb: nat, n: nat): seq<Request>
    requires 0 < spb
  {
    if n == 0 then []
    else
      var b := lba / spb + n - 1;
      SweepCalls(h, lba, count, spb, n - 1) + BlockCalls(h, b, Partial(lba, count, spb, b))
  }

  /** The calls of a sector write: those of whole blocks, and of the one that failed if any did. */
  ghost predicate WritesInTurn(h: Handle, lba: nat, count: nat, spb: nat, st: Status, n: nat, cs: seq<Request>,
                               tail: seq<Request>)
    requires 0 < spb && 0 < count
  {
    && cs == SweepCalls(h, lba, count, spb, n) + tail
    && if st == HTL_OK then n == BlocksOf(lba, count, spb) && tail == []
       else
         && n < BlocksOf(lba, count, spb)
         && FailedCalls(h, lba / spb + n, Partial(lba, count, spb, lba / spb + n), st, tail)
  }

  ghost predicate WriteSweep(h: Handle, lba: nat, count: nat, spb: nat, st: Status, cs: seq<Request>)
    requires 0 < spb && 0 < count
  {
    exists n, tail :: WritesInTurn(h, lba, count, spb, st, n, cs, tail)
  }

  ghost predicate WriteSectorsAsks(s: State, d: nat, lba: nat, count: nat, hasBuf: bool, st: Status, cs: seq<Request>)
    requires Inv(s)
  {
    if SectorRefusal(s, d, lba, count, hasBuf, true) != HTL_OK then cs == []
    else
      var spb := s.devices[d].blockSize / SECTOR_SIZE;
      0 < spb && WriteSweep(s.devices[d].handle, lba, count, spb, st, cs)
  }

  // ---- flush -----------------------------------------------------------------------------------

  /** One write for every pending entry, in order; it succeeded exactly for the entries that are
      clean afterwards. */
  ghost predicate FlushWrites(es: seq<Entry>, d: nat, h: Handle, es': seq<Entry>, ws: seq<Request>)
    decreases |es|
  {
    && |es'| == |es|
    && if es == [] then ws == []
       else
         var k := |es| - 1;
         if !Pending(es[k], d) then
           !Pending(es'[k], d) && FlushWrites(es[..k], d, h, es'[..k], ws)
         else
           && ws != []
           && var c := ws[|ws| - 1];
              && c == WriteOf(h, es[k].blockNum, c.st)
              && (c.st == HTL_OK <==> !Pending(es'[k], d))
              && FlushWrites(es[..k], d, h, es'[..k], ws[..|ws| - 1])
  }

  /** The calls of one iteration of the flush loop. */
  predicate FlushOneAsks(e: Entry, d: nat, h: Handle, st: Status, cs: seq<Request>) {
    if Pending(e, d) then cs == [WriteOf(h, e.blockNum, st)] else cs == []
  }

  /** The pending entries' writes, then the driver's own flush if it has one. */
  ghost predicate FlushAsks(s: State, d: nat, st: Status, s': State, cs: seq<Request>)
    requires Inv(s)
  {
    if d >= s.deviceCount then cs == []
    else
      var dev, n := s.devices[d], CountPending(s.entries, d);
      && |cs| == n + (if dev.canFlush then 1 else 0)
      && FlushWrites(s.entries, d, dev.handle, s'.entries, cs[..n])
      && (dev.canFlush ==> cs[n] == FlushOf(dev.handle, cs[n].st))
      && st == LastError(cs) && FlushCounted(s, d, st, s', Failures(cs[n..]))
  }

  lemma {:induction false} FlushWritesCount(es: seq<Entry>, d: nat, h: Handle, es': seq<Entry>, ws: seq<Request>)
    requires FlushWrites(es, d, h, es', ws)
    ensures |ws| == CountPending(es, d) && Failures(ws) == CountPending(es', d)
    decreases |es|
  {
    if es == [] {
    } else {
      var k := |es| - 1;
      FlushWritesCount(es[..k], d, h, es'[..k], if Pending(es[k], d) then ws[..|ws| - 1] else ws);
    }
  }

  lemma FlushWritesNext(es: seq<Entry>, i: nat, d: nat, h: Handle, es': seq<Entry>, ws: seq<Request>, e': Entry,
                        cs: seq<Request>)
    requires i < |es| == |es'| && FlushWrites(es[..i], d, h, es'[..i], ws)
    requires if Pending(es[i], d) then |cs| == 1 && cs[0] == WriteOf(h, es[i].blockNum, cs[0].st)
                                       && (cs[0].st == HTL_OK <==> !Pending(e', d))
             else cs == [] && !Pending(e', d)
    ensures FlushWrites(es[..i + 1], d, h, es'[i := e'][..i + 1], ws + cs)
  {
    assert es[..i + 1][..i] == es[..i] && es'[i := e'][..i + 1][..i] == es'[..i];
    if Pending(es[i], d) {
      assert (ws + cs)[..|ws + cs| - 1] == ws;
    } else {
      assert ws + cs == ws;
    }
  }
}

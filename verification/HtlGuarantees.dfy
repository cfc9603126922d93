/** What a user of the translation layer can rely on across a run: reads see the last write,
    dirty data is never lost silently, and exactly when raw writes become visible. */
module HtlGuarantees {
  import opened HtlTypes
  import opened HtlSteps
  import opened HtlCoherence
  import opened HtlCalls
  import opened HtlRuns
  import opened HtlRawIO

  // ---- reads see the last write --------------------------------------------------------

  predicate AtHandle(s: State, d: int, h: Handle) {
    0 <= d < s.deviceCount && d < |s.devices| && s.devices[d].handle == h
  }

  /** Call `e` in state `s` is a cached write to block `b` of store `h`, or drops what is cached for it. */
  predicate Rewrites(s: State, e: Event, h: Handle, b: nat) {
    match e
    case WriteCached(d, b', _, _, st) => st == HTL_OK && AtHandle(s, d, h) && b' == b
    case Invalidate(d, st) => st == HTL_OK && AtHandle(s, d, h)
    case Unregister(d, st) => st == HTL_OK && AtHandle(s, d, h)
    case _ => false
  }

  /** Raw write `e` changed block `b` of store `h` as the device's user sees it: no cached copy hid it. */
  ghost predicate Uncovers(s: State, e: Event, s': State, h: Handle, b: nat) {
    && IsRawWrite(e) && AtHandle(s, e.d, h) && (forall i :: !Hit(s, i, e.d, b))
    && h in s.disks && h in s'.disks && b < |s.disks[h]| && b < |s'.disks[h]| && s'.disks[h][b] != s.disks[h][b]
  }

  /** Call `e` may change the content of block `b` on store `h`. */
  ghost predicate Replaces(s: State, e: Event, s': State, h: Handle, b: nat) {
    Rewrites(s, e, h, b) || Uncovers(s, e, s', h, b)
  }

  /** Some registered device on store `h` has content `x` in block `b`. */
  ghost predicate Shows(s: State, h: Handle, b: nat, x: Block)
    requires Inv(s)
  {
    exists d :: AtHandle(s, d, h) && b < s.devices[d].totalBlocks && Logical(s, d, b) == x
  }

  lemma PlainShows(s: State, d: nat, h: Handle, b: nat, x: Block)
    requires Inv(s) && d < |Plain(s)| && Plain(s)[d].dev.handle == h
    requires b < |Plain(s)[d].blocks| && Plain(s)[d].blocks[b] == x
    ensures Shows(s, h, b, x)
  {
    assert AtHandle(s, d, h) && Logical(s, d, b) == x;
  }

  /** Call `e` may change block `b` of the plain device at index `d`. */
  predicate ReplacesAt(e: Event, d: nat, b: nat) {
    match e
    case WriteCached(d', b', _, _, st) => st == HTL_OK && d' == d && b' == b
    case Invalidate(d', st) => st == HTL_OK && d' == d
    case Unregister(d', st) => st == HTL_OK && d' == d
    case _ => false
  }

  lemma PlainStays(ps: seq<PlainDevice>, e: Event, ps': seq<PlainDevice>, disks: map<Handle, seq<Block>>, d: nat,
                   b: nat)
    returns (d': nat)
    requires PlainStep(ps, e, ps', disks) && !IsRawWrite(e)
    requires d < |ps| && b < |ps[d].blocks| && !ReplacesAt(e, d, b)
    ensures d' < |ps'| && ps'[d'].dev == ps[d].dev && b < |ps'[d'].blocks| && ps'[d'].blocks[b] == ps[d].blocks[b]
  {
    d' := if e.Unregister? && e.st == HTL_OK && e.d < d then d - 1 else d;
  }

  /** A call that does not replace the block leaves it showing the same content, even when the
      device is renumbered. */
  lemma ContentStays(s: State, e: Event, s': State, h: Handle, b: nat, x: Block)
    requires Inv(s) && Coherent(s) && Step(s, e, s') && Quiet(s, e, s')
    requires Shows(s, h, b, x) && !Replaces(s, e, s', h, b)
    ensures Inv(s') && Coherent(s') && Shows(s', h, b, x)
  {
    StepIsPlain(s, e, s');
    var d: nat :| AtHandle(s, d, h) && b < s.devices[d].totalBlocks && Logical(s, d, b) == x;
    if IsRawWrite(e) {
      RawWriteLogical(s, e, s', d, b);
      assert AtHandle(s', d, h) && Logical(s', d, b) == x;
    } else {
      PlainBlock(s, d, b);
      var d' := PlainStays(Plain(s), e, Plain(s'), s'.disks, d, b);
      PlainShows(s', d', h, b, x);
    }
  }

  lemma {:induction false} ContentStaysInRun(ss: seq<State>, es: seq<Event>, lo: nat, hi: nat, h: Handle, b: nat,
                                             x: Block)
    requires IsRun(ss, es) && lo <= hi < |ss|
    requires forall j :: lo <= j < hi ==> Quiet(ss[j], es[j], ss[j + 1])
    requires Inv(ss[lo]) && Coherent(ss[lo]) && Shows(ss[lo], h, b, x)
    requires forall j :: lo <= j < hi ==> !Replaces(ss[j], es[j], ss[j + 1], h, b)
    ensures Inv(ss[hi]) && Coherent(ss[hi]) && Shows(ss[hi], h, b, x)
    decreases hi
  {
    if lo == hi {
    } else {
      ContentStaysInRun(ss, es, lo, hi - 1, h, b, x);
      ContentStays(ss[hi - 1], es[hi - 1], ss[hi], h, b, x);
    }
  }

  /** In every run whose raw writes spare the blocks with clean copies, a cached read returns the
      data of the last accepted write to that block of that store: whatever was evicted, flushed
      with or without success, or renumbered in between. */
  lemma ReadSeesLastWrite(ss: seq<State>, es: seq<Event>, w: nat, r: nat)
    requires IsRun(ss, es) && w < r < |es|
    requires forall j :: 0 <= j < r ==> Quiet(ss[j], es[j], ss[j + 1])
    requires es[w].WriteCached? && es[w].st == HTL_OK && es[r].ReadCached? && es[r].st == HTL_OK
    requires es[r].b == es[w].b && es[w].d < |ss[w].devices| && AtHandle(ss[r], es[r].d, ss[w].devices[es[w].d].handle)
    requires forall j :: w < j < r ==> !Replaces(ss[j], es[j], ss[j + 1], ss[w].devices[es[w].d].handle, es[w].b)
    ensures var bs := ss[w].devices[es[w].d].blockSize;
            && bs <= |es[w].data| && bs == ss[r].devices[es[r].d].blockSize <= |es[r].data|
            && es[r].data[..bs] == es[w].data[..bs]
  {
    var h, bs := ss[w].devices[es[w].d].handle, ss[w].devices[es[w].d].blockSize;
    RunRefinesPlain(ss, es, w);
    WriteShows(ss[w], es[w], ss[w + 1]);
    ContentStaysInRun(ss, es, w + 1, r, h, es[w].b, es[w].data[..bs]);
    ReadShown(ss[r], es[r], ss[r + 1], h, es[w].data[..bs]);
  }

  lemma WriteShows(s: State, e: Event, s': State)
    requires Inv(s) && Coherent(s) && e.WriteCached? && e.st == HTL_OK && Step(s, e, s')
    ensures Inv(s') && Coherent(s') && e.d < s.deviceCount && s.devices[e.d].blockSize <= |e.data|
    ensures Shows(s', s.devices[e.d].handle, e.b, e.data[..s.devices[e.d].blockSize])
  {
    WriteCachedIsPlain(s, e.d, e.b, e.hasBuf, e.data, e.st, s');
    var x := e.data[..s.devices[e.d].blockSize];
    assert Plain(s')[e.d].blocks[e.b] == x && Plain(s')[e.d].dev == s.devices[e.d];
    PlainShows(s', e.d, s.devices[e.d].handle, e.b, x);
  }

  lemma ReadShown(t: State, e: Event, t': State, h: Handle, x: Block)
    requires Inv(t) && Coherent(t) && e.ReadCached? && e.st == HTL_OK && Step(t, e, t')
    requires AtHandle(t, e.d, h) && Shows(t, h, e.b, x)
    ensures |x| == t.devices[e.d].blockSize <= |e.data| && e.data[..|x|] == x
  {
    ReadCachedIsPlain(t, e.d, e.b, e.hasBuf, e.st, e.data, t');
    var d :| AtHandle(t, d, h) && e.b < t.devices[d].totalBlocks && Logical(t, d, e.b) == x;
    assert d == e.d;
    if i :| Hit(t, i, d, e.b) {
      LogicalHit(t, i);
    }
  }

  /** By its arguments raw write `e` may change uncached block `b` of store `h`: carried out, it
      reaches a byte of it; failed, its range holds it. */
  ghost predicate Touches(s: State, e: Event, h: Handle, b: nat)
    requires Inv(s)
  {
    && IsRawWrite(e) && AtHandle(s, e.d, h) && (forall i :: !Hit(s, i, e.d, b)) && Accepted(s, e)
    && if e.st == HTL_OK then exists a :: 0 <= a < s.devices[e.d].blockSize && Reaches(s, e, b, a) else Spans(s, e, b)
  }

  lemma UncoversTouches(s: State, e: Event, s': State, h: Handle, b: nat)
    requires Inv(s) && Step(s, e, s') && Uncovers(s, e, s', h, b)
    ensures Touches(s, e, h, b)
  {
    RawWriteFrame(s, e, s');
    var dev := s.devices[e.d];
    assert Backed(dev, s.disks) && Backed(dev, s'.disks);
    if e.st == HTL_OK {
      var x, y := OnDisk(s, e.d, b), OnDisk(s', e.d, b);
      assert exists a :: 0 <= a < dev.blockSize && x[a] != y[a];
      var a: nat :| a < dev.blockSize && x[a] != y[a];
      RawWriteLands(s, e, s', b, a);
    } else if Accepted(s, e) && !Spans(s, e, b) {
      FailedLeaves(s, e, s', b);
    }
  }

  /** The same with every condition on the arguments of the calls and the states before them. */
  lemma ReadSeesLastWriteOfRun(ss: seq<State>, es: seq<Event>, w: nat, r: nat)
    requires IsRun(ss, es) && w < r < |es|
    requires forall j :: 0 <= j < r ==> Inv(ss[j]) ==> Spares(ss[j], es[j])
    requires es[w].WriteCached? && es[w].st == HTL_OK && es[r].ReadCached? && es[r].st == HTL_OK
    requires es[r].b == es[w].b && es[w].d < |ss[w].devices| && AtHandle(ss[r], es[r].d, ss[w].devices[es[w].d].handle)
    requires forall j :: w < j < r ==>
               var h, b := ss[w].devices[es[w].d].handle, es[w].b;
               !Rewrites(ss[j], es[j], h, b) && (Inv(ss[j]) ==> !Touches(ss[j], es[j], h, b))
    ensures var bs := ss[w].devices[es[w].d].blockSize;
            && bs <= |es[w].data| && bs == ss[r].devices[es[r].d].blockSize <= |es[r].data|
            && es[r].data[..bs] == es[w].data[..bs]
  {
    SparingRun(ss, es, r);
    var h, b := ss[w].devices[es[w].d].handle, es[w].b;
    forall j | w < j < r ensures !Replaces(ss[j], es[j], ss[j + 1], h, b) {
      RunKeepsInv(ss, es, j);
      if Uncovers(ss[j], es[j], ss[j + 1], h, b) { UncoversTouches(ss[j], es[j], ss[j + 1], h, b); }
    }
    ReadSeesLastWrite(ss, es, w, r);
  }

  // ---- dirty data --------------------------------------------------------------------------

  /** Store `h` has block `b` held dirty in the cache with buffer `data`. */
  ghost predicate Unsaved(s: State, h: Handle, b: nat, data: Block) {
    exists d, i :: AtHandle(s, d, h) && Hit(s, i, d, b) && s.entries[i].dirty && s.entries[i].data == data
  }

  /** The calls that may end an entry's unsaved state. */
  predicate Releases(s: State, e: Event, h: Handle, b: nat) {
    Rewrites(s, e, h, b) || (e.Flush? && AtHandle(s, e.d, h))
  }

  /** An unsaved block stays valid, dirty and equal to the last write through any call but a
      flush, an invalidation or an unregistration of its device or another write to it: no
      insertion evicts it and no raw I/O touches it. */
  lemma UnsavedStays(s: State, e: Event, s': State, h: Handle, b: nat, data: Block)
    requires Inv(s) && Step(s, e, s') && Unsaved(s, h, b, data) && !Releases(s, e, h, b)
    ensures Unsaved(s', h, b, data)
  {
    var d: nat, i: nat :| AtHandle(s, d, h) && Hit(s, i, d, b) && s.entries[i].dirty && s.entries[i].data == data;
    DirtyEntryStays(s, e, s', h, i);
    assert AtHandle(s', s'.entries[i].device, h) && Hit(s', i, s'.entries[i].device, b);
  }

  lemma DirtyEntryStays(s: State, e: Event, s': State, h: Handle, i: nat)
    requires Inv(s) && Step(s, e, s') && i < |s.entries| && s.entries[i].dirty
    requires AtHandle(s, s.entries[i].device, h) && !Releases(s, e, h, s.entries[i].blockNum)
    ensures SameDirty(s, i, s')
  {
    match e
    case Unregister(d0, st) => UnregisterKeepsDirty(s, d0, st, s', i);
    case ReadCached(d0, b0, hasBuf, st, x) => ReadKeepsDirty(s, d0, b0, hasBuf, st, x, s', i);
    case WriteCached(d0, b0, hasBuf, x, st) => WriteKeepsDirty(s, d0, b0, hasBuf, x, st, s', i);
    case Flush(d0, st) => FlushKeepsDirty(s, d0, st, s', i);
    case _ => OtherKeepsDirty(s, e, s', i);
  }

  /** Entry `i` still holds the same dirty data of the same block of the same store. */
  ghost predicate SameDirty(s: State, i: nat, s': State) {
    && i < |s.entries| && i < |s'.entries|
    && s'.entries[i] == s.entries[i].(device := s'.entries[i].device)
    && s.entries[i].device < |s.devices| && s'.entries[i].device < |s'.devices|
    && s'.entries[i].device < s'.deviceCount
    && s'.devices[s'.entries[i].device].handle == s.devices[s.entries[i].device].handle
  }

  lemma OtherKeepsDirty(s: State, e: Event, s': State, i: nat)
    requires Inv(s) && Step(s, e, s') && i < |s.entries| && s.entries[i].dirty
    requires e.Register? || e.Invalidate? || e.ReadSectors? || e.WriteSectors? || e.ZeroBlock?
    requires e.Invalidate? && e.st == HTL_OK ==> e.d != s.entries[i].device
    ensures SameDirty(s, i, s')
  {
    assert EntryOk(s, i);
  }

  lemma UnregisterKeepsDirty(s: State, d: nat, st: Status, s': State, i: nat)
    requires Inv(s) && UnregisterStep(s, d, st, s') && i < |s.entries| && s.entries[i].dirty
    requires st == HTL_OK ==> d != s.entries[i].device
    ensures SameDirty(s, i, s')
  {
    assert EntryOk(s, i);
    UnregisterKeepsInv(s, d, st, s');
  }

  lemma FlushKeepsDirty(s: State, d: nat, st: Status, s': State, i: nat)
    requires Inv(s) && FlushStep(s, d, st, s') && i < |s.entries| && s.entries[i].dirty
    requires d < s.deviceCount ==> d != s.entries[i].device
    ensures SameDirty(s, i, s')
  {
    assert EntryOk(s, i);
    if d < s.deviceCount {
      assert FlushedEntry(s.entries[i], d, s.devices[d].blockSize, s'.disks[s.devices[d].handle], s'.entries[i]);
    }
  }

  lemma ReadKeepsDirty(s: State, d: nat, b: nat, hasBuf: bool, st: Status, x: Block, s': State, i: nat)
    requires Inv(s) && ReadCachedStep(s, d, b, hasBuf, st, x, s') && i < |s.entries| && s.entries[i].dirty
    ensures SameDirty(s, i, s')
  {
    assert EntryOk(s, i);
  }

  lemma WriteKeepsDirty(s: State, d: nat, b: nat, hasBuf: bool, x: Block, st: Status, s': State, i: nat)
    requires Inv(s) && WriteCachedStep(s, d, b, hasBuf, x, st, s') && i < |s.entries| && s.entries[i].dirty
    requires st == HTL_OK ==> !Caches(s.entries[i], d, b)
    ensures SameDirty(s, i, s')
  {
    assert EntryOk(s, i);
  }

  /** Over any stretch of any run, raw I/O included. */
  lemma {:induction false} UnsavedStaysInRun(ss: seq<State>, es: seq<Event>, lo: nat, hi: nat, h: Handle, b: nat,
                                             data: Block)
    requires IsRun(ss, es) && lo <= hi < |ss| && Unsaved(ss[lo], h, b, data)
    requires forall j :: lo <= j < hi ==> !Releases(ss[j], es[j], h, b)
    ensures Unsaved(ss[hi], h, b, data)
    decreases hi
  {
    if lo == hi {
    } else {
      UnsavedStaysInRun(ss, es, lo, hi - 1, h, b, data);
      RunKeepsInv(ss, es, hi - 1);
      UnsavedStays(ss[hi - 1], es[hi - 1], ss[hi], h, b, data);
    }
  }

  /** A flush either saves an unsaved block or leaves it unsaved; it never drops it. */
  lemma FlushSavesOrKeeps(s: State, d: nat, st: Status, s': State, b: nat, data: Block)
    requires Inv(s) && FlushStep(s, d, st, s') && d < s.deviceCount && b < s.devices[d].totalBlocks
    requires Unsaved(s, s.devices[d].handle, b, data)
    ensures Unsaved(s', s.devices[d].handle, b, data)
            || s'.disks[s.devices[d].handle][b] == data[..s.devices[d].blockSize]
    ensures st == HTL_OK ==> s'.disks[s.devices[d].handle][b] == data[..s.devices[d].blockSize]
  {
    var h := s.devices[d].handle;
    var d', i :| AtHandle(s, d', h) && Hit(s, i, d', b) && s.entries[i].dirty && s.entries[i].data == data;
    assert EntryOk(s, i) && d' == d;
    assert FlushedEntry(s.entries[i], d, s.devices[d].blockSize, s'.disks[h], s'.entries[i]);
    if s'.entries[i] == s.entries[i] {
      assert AtHandle(s', d, h) && Hit(s', i, d, b);
      assert Pending(s'.entries[i], d);
    }
  }

  // ---- raw writes ----------------------------------------------------------------------------

  /** A cached read after a raw write to the same device returns what the store now holds exactly
      when the block is not cached, or its copy already equals the new content: for a write that
      was carried out, byte by byte what the write put over the block. */
  lemma CachedReadAfterRawWrite(s: State, e: Event, s': State, d: nat, b: nat, data: Block, s'': State)
    requires Inv(s) && Inv(s') && IsRawWrite(e) && e.d == d && Step(s, e, s')
    requires d < s.deviceCount && b < s.devices[d].totalBlocks
    requires ReadCachedStep(s', d, b, true, HTL_OK, data, s'')
    ensures s.devices[d].blockSize <= |data|
    ensures data[..s.devices[d].blockSize] == OnDisk(s', d, b)
       <==> forall i :: Hit(s, i, d, b) ==> Cached(s, i) == OnDisk(s', d, b)
    ensures e.st == HTL_OK ==>
              (data[..s.devices[d].blockSize] == OnDisk(s', d, b)
               <==> forall i, a :: Hit(s, i, d, b) && 0 <= a < s.devices[d].blockSize ==>
                      s.entries[i].data[a] == After(s, e, b, a))
  {
    ReadReturns(s, e, s', d, b, data, s'');
    if e.st == HTL_OK {
      forall i | Hit(s, i, d, b)
        ensures Cached(s, i) == OnDisk(s', d, b)
           <==> forall a :: 0 <= a < s.devices[d].blockSize ==> s.entries[i].data[a] == After(s, e, b, a)
      {
        CopyIsAfter(s, e, s', i);
      }
    }
  }

  lemma CopyIsAfter(s: State, e: Event, s': State, i: nat)
    requires Inv(s) && Inv(s') && IsRawWrite(e) && e.st == HTL_OK && Step(s, e, s')
    requires i < |s.entries| && s.entries[i].valid && s.entries[i].device == e.d
    ensures s'.devices == s.devices && s'.deviceCount == s.deviceCount
    ensures Cached(s, i) == OnDisk(s', e.d, s.entries[i].blockNum)
       <==> forall a :: 0 <= a < s.devices[e.d].blockSize ==>
              s.entries[i].data[a] == After(s, e, s.entries[i].blockNum, a)
  {
    RawWriteFrame(s, e, s');
    assert EntryOk(s, i) && Backed(s.devices[e.d], s'.disks);
    var x, y := Cached(s, i), OnDisk(s', e.d, s.entries[i].blockNum);
    forall a | 0 <= a < s.devices[e.d].blockSize
      ensures x[a] == s.entries[i].data[a] && y[a] == After(s, e, s.entries[i].blockNum, a)
    {
      RawWriteLands(s, e, s', s.entries[i].blockNum, a);
    }
  }

  lemma ReadReturns(s: State, e: Event, s': State, d: nat, b: nat, data: Block, s'': State)
    requires Inv(s) && Inv(s') && IsRawWrite(e) && e.d == d && Step(s, e, s')
    requires d < s.deviceCount && b < s.devices[d].totalBlocks
    requires ReadCachedStep(s', d, b, true, HTL_OK, data, s'')
    ensures s'.devices == s.devices && s'.deviceCount == s.deviceCount && s.devices[d].blockSize <= |data|
    ensures data[..s.devices[d].blockSize] == OnDisk(s', d, b)
       <==> forall i :: Hit(s, i, d, b) ==> Cached(s, i) == OnDisk(s', d, b)
  {
    RawWriteFrame(s, e, s');
    if i :| Hit(s', i, d, b) && data == s'.entries[i].data {
      assert EntryOk(s, i) && Hit(s, i, d, b);
      forall j | Hit(s, j, d, b) ensures j == i {
        UniqueHit(s, d, b, i, j);
      }
    } else {
      assert forall i :: Hit(s, i, d, b) ==> Hit(s', i, d, b);
    }
  }
}

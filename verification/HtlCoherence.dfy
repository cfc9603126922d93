/** Every call of the Hardware Translation Layer keeps the table invariant, and every cached
    call behaves as if there were no cache at all. */
module HtlCoherence {
  import opened Bytes
  import opened HtlTypes
  import opened HtlSteps

  // ---- reading the logical content ---------------------------------------------

  lemma UniqueHit(s: State, d: nat, b: nat, i: int, j: int)
    requires Inv(s) && Hit(s, i, d, b) && Hit(s, j, d, b)
    ensures i == j
  {
    assert KeysUnique(s.entries);
  }

  lemma LogicalHit(s: State, i: nat)
    requires Inv(s) && i < |s.entries| && s.entries[i].valid
    ensures Logical(s, s.entries[i].device, s.entries[i].blockNum) == Cached(s, i)
  {
    var d, b := s.entries[i].device, s.entries[i].blockNum;
    assert Hit(s, i, d, b);
    forall j | Hit(s, j, d, b) ensures j == i {
      UniqueHit(s, d, b, i, j);
    }
  }

  /** The plain view changes in one block only. */
  ghost predicate PlainUpdate(s: State, d: nat, b: nat, x: Block, s': State)
    requires Inv(s) && Inv(s') && d < s.deviceCount && b < s.devices[d].totalBlocks
  {
    Plain(s') == Plain(s)[d := PlainDevice(s.devices[d], Contents(s, d)[b := x])]
  }

  lemma PlainFromLogical(s: State, s': State)
    requires Inv(s) && Inv(s')
    requires s'.devices == s.devices && s'.deviceCount == s.deviceCount
    requires forall d, b :: 0 <= d < s.deviceCount && 0 <= b < s.devices[d].totalBlocks ==>
               Logical(s', d, b) == Logical(s, d, b)
    ensures Plain(s') == Plain(s)
  {
    forall d | 0 <= d < s.deviceCount ensures Plain(s')[d] == Plain(s)[d] {
      assert Contents(s', d) == Contents(s, d);
    }
  }

  lemma PlainUpdateFromLogical(s: State, d: nat, b: nat, x: Block, s': State)
    requires Inv(s) && Inv(s') && d < s.deviceCount && b < s.devices[d].totalBlocks
    requires s'.devices == s.devices && s'.deviceCount == s.deviceCount
    requires Logical(s', d, b) == x
    requires forall d', b' :: 0 <= d' < s.deviceCount && 0 <= b' < s.devices[d'].totalBlocks && (d' != d || b' != b) ==>
               Logical(s', d', b') == Logical(s, d', b')
    ensures PlainUpdate(s, d, b, x, s')
  {
    var target := Plain(s)[d := PlainDevice(s.devices[d], Contents(s, d)[b := x])];
    forall d' | 0 <= d' < s.deviceCount ensures Plain(s')[d'] == target[d'] {
      if d' == d {
        assert Contents(s', d) == Contents(s, d)[b := x];
      } else {
        assert Contents(s', d') == Contents(s, d');
      }
    }
  }

  // ---- putting an entry into a slot -----------------------------------------------

  /** Slot `i` may be given to block `b` of device `d`: no other slot has that block, and
      whatever is dropped is either clean or an older copy of the same block. */
  ghost predicate MayPut(s: State, i: nat, e: Entry)
    requires Inv(s)
  {
    && i < |s.entries|
    && e.valid && |e.data| == CACHE_DATA_SIZE && e.order < U32
    && e.device < s.deviceCount
    && e.blockNum < s.devices[e.device].totalBlocks
    && s.devices[e.device].blockSize <= CACHE_DATA_SIZE
    && (forall j :: 0 <= j < |s.entries| && j != i ==> !Caches(s.entries[j], e.device, e.blockNum))
    && (s.entries[i].dirty ==> Caches(s.entries[i], e.device, e.blockNum))
    && (s.entries[i].valid || i <= s.count)
  }

  lemma SlotMayPut(s: State, i: nat, e: Entry)
    requires Inv(s) && IsSlot(s.entries, i)
    requires e.valid && |e.data| == CACHE_DATA_SIZE && e.order < U32
    requires e.device < s.deviceCount && e.blockNum < s.devices[e.device].totalBlocks
    requires s.devices[e.device].blockSize <= CACHE_DATA_SIZE
    requires forall j :: !Hit(s, j, e.device, e.blockNum)
    ensures MayPut(s, i, e)
  {
    forall j | 0 <= j < |s.entries| ensures !Caches(s.entries[j], e.device, e.blockNum) {
      assert !Hit(s, j, e.device, e.blockNum);
    }
    assert s.count < |s.entries| ==> !s.entries[s.count].valid;
  }

  lemma PutKeepsInv(s: State, i: nat, e: Entry)
    requires Inv(s) && MayPut(s, i, e)
    ensures Inv(Place(s, i, e))
  {
    var s' := Place(s, i, e);
    assert KeysUnique(s.entries);
    forall j | 0 <= j < |s'.entries| ensures EntryOk(s', j) {
      assert j != i ==> s'.entries[j] == s.entries[j];
    }
  }

  /** Keys stay unique when valid entries are only dropped or renamed apart. */
  lemma KeysStayUnique(es: seq<Entry>, es': seq<Entry>)
    requires KeysUnique(es) && |es'| == |es|
    requires forall i :: 0 <= i < |es| && es'[i].valid ==> es[i].valid
    requires forall i, j :: 0 <= i < j < |es| && es'[i].valid && es'[j].valid
                                    && es'[i].device == es'[j].device && es'[i].blockNum == es'[j].blockNum ==>
               es[i].device == es[j].device && es[i].blockNum == es[j].blockNum
    ensures KeysUnique(es')
  {
  }

  /** The counters play no part in the invariant's other clauses or in the plain view. */
  ghost predicate SameButCounters(s: State, s': State) {
    && s'.devices == s.devices && s'.deviceCount == s.deviceCount && s'.entries == s.entries && s'.count == s.count
    && s'.disks == s.disks
    && |s'.stats| == |s.stats|
    && (forall d :: 0 <= d < |s.stats| ==> StatsInRange(s'.stats[d]))
    && (forall d :: s.deviceCount <= d < |s.stats| ==> s'.stats[d] == s.stats[d])
    && s'.hits < U64 && s'.misses < U64 && s'.accessCounter < U32
  }

  lemma CountersKeepInv(s: State, s': State)
    requires Inv(s) && SameButCounters(s, s')
    ensures Inv(s')
  {
    forall i | 0 <= i < |s.entries| ensures EntryOk(s', i) {
      assert EntryOk(s, i);
    }
  }

  lemma CountersIrrelevant(s: State, s': State)
    requires Inv(s) && SameButCounters(s, s')
    ensures Inv(s') && Plain(s') == Plain(s) && (Coherent(s) <==> Coherent(s'))
  {
    CountersKeepInv(s, s');
    forall d, b | 0 <= d < s.deviceCount && 0 <= b < s.devices[d].totalBlocks
      ensures Logical(s', d, b) == Logical(s, d, b)
    {
      SameLogical(s, s', d, b);
    }
    PlainFromLogical(s, s');
    assert forall i :: 0 <= i < |s.entries| && s.entries[i].valid ==> Cached(s', i) == Cached(s, i);
  }

  lemma SameLogical(s: State, s': State, d: nat, b: nat)
    requires Inv(s) && Inv(s') && s'.entries == s.entries && s'.devices == s.devices && s'.disks == s.disks
    requires s'.deviceCount == s.deviceCount
    requires d < s.deviceCount && b < s.devices[d].totalBlocks
    ensures Logical(s', d, b) == Logical(s, d, b)
  {
    if i :| Hit(s, i, d, b) {
      LogicalHit(s, i);
      LogicalHit(s', i);
      assert Hit(s', i, d, b);
    } else {
      assert forall i :: Hit(s', i, d, b) ==> Hit(s, i, d, b);
    }
  }

  /** The one change the cache ever makes to a table in use: putting an entry. */
  lemma PutLogical(s: State, i: nat, e: Entry)
    requires Inv(s) && Coherent(s) && MayPut(s, i, e)
    requires e.dirty || e.data[..s.devices[e.device].blockSize] == OnDisk(s, e.device, e.blockNum)
    ensures var s' := Place(s, i, e);
            && Inv(s') && Coherent(s')
            && PlainUpdate(s, e.device, e.blockNum, e.data[..s.devices[e.device].blockSize], s')
  {
    var s' := Place(s, i, e);
    PutKeepsInv(s, i, e);
    forall j | 0 <= j < |s'.entries| && s'.entries[j].valid && !s'.entries[j].dirty
      ensures Cached(s', j) == OnDisk(s', s'.entries[j].device, s'.entries[j].blockNum)
    {
      if j != i { assert Cached(s', j) == Cached(s, j); }
    }
    LogicalHit(s', i);
    forall d, b | 0 <= d < s.deviceCount && 0 <= b < s.devices[d].totalBlocks && (d != e.device || b != e.blockNum)
      ensures Logical(s', d, b) == Logical(s, d, b)
    {
      PutElsewhere(s, i, e, d, b);
    }
    PlainUpdateFromLogical(s, e.device, e.blockNum, e.data[..s.devices[e.device].blockSize], s');
  }

  lemma PutElsewhere(s: State, i: nat, e: Entry, d: nat, b: nat)
    requires Inv(s) && Coherent(s) && MayPut(s, i, e)
    requires d < s.deviceCount && b < s.devices[d].totalBlocks && (d != e.device || b != e.blockNum)
    ensures Inv(Place(s, i, e)) && Logical(Place(s, i, e), d, b) == Logical(s, d, b)
  {
    var s' := Place(s, i, e);
    PutKeepsInv(s, i, e);
    if j :| Hit(s, j, d, b) {
      LogicalHit(s, j);
      if j == i {
        // The dropped entry was clean, so the store already had its content.
        forall k ensures !Hit(s', k, d, b) {
          if Hit(s, k, d, b) { UniqueHit(s, d, b, i, k); }
        }
      } else {
        assert Hit(s', j, d, b);
        LogicalHit(s', j);
      }
    } else {
      assert forall k :: Hit(s', k, d, b) ==> Hit(s, k, d, b);
    }
  }
}

/** The loops of htl_read_sectors and htl_write_sectors over one driver. */
module HtlSectorIO {
  import opened Bytes
  import opened HtlTypes
  import opened HtlFlat
  import opened HtlSteps
  import opened HtlSectors
  import opened HtlHardware
  import opened HtlRequests

  /** The byte copy loop between two buffers. */
  method CopyBytes(src: array<byte>, from: nat, dst: array<byte>, to: nat, n: nat)
    requires src != dst && from + n <= src.Length && to + n <= dst.Length
    modifies dst
    ensures dst[..] == Splice(old(dst[..]), to, src[from..from + n])
  {
    var i := 0;
    while i < n
      invariant 0 <= i <= n
      invariant dst[..] == Splice(old(dst[..]), to, src[from..from + i])
    {
      dst[to + i] := src[from + i];
      i := i + 1;
    }
  }

  lemma SliceOfFront(s: seq<byte>, bs: nat, off: nat, n: nat)
    requires off + n <= bs <= |s|
    ensures s[0..bs][off..off + n] == s[off..off + n]
  {
  }

  /** Reads `n` bytes at offset `off` of block `b`, through a bounce buffer unless that is the
      whole block. */
  method ReadPart(hw: Hardware, h: Handle, bs: nat, b: nat, off: nat, n: nat, buf: array<byte>, out: nat)
    returns (st: Status)
    requires h in hw.disks && b < |hw.disks[h]| && |hw.disks[h][b]| == bs <= CACHE_DATA_SIZE
    requires off + n <= bs && out + n <= buf.Length
    modifies buf, hw`log
    ensures hw.log == old(hw.log) + [ReadOf(h, b, st)]
    ensures buf[..out] == old(buf[..out]) && buf[out + n..] == old(buf[out + n..])
    ensures st == HTL_OK ==> buf[out..out + n] == hw.disks[h][b][off..off + n]
  {
    if off != 0 || n < bs {
      var blockBuf := new byte[CACHE_DATA_SIZE](_ => 0);
      st := hw.ReadBlock(h, b, blockBuf, 0, bs);
      if st != HTL_OK { return; }
      SliceOfFront(blockBuf[..], bs, off, n);
      assert blockBuf[..][0..bs] == blockBuf[0..bs] && blockBuf[..][off..off + n] == blockBuf[off..off + n];
      CopyBytes(blockBuf, off, buf, out, n);
    } else {
      st := hw.ReadBlock(h, b, buf, out, bs);
    }
  }

  /** How many sectors one iteration moves. */
  function Chunk(remaining: nat, current: nat, spb: nat): (n: nat)
    requires 0 < remaining && 0 < spb
    ensures 0 < n <= remaining && current % spb + n <= spb
  {
    var left := spb - current % spb;
    if remaining > left then left else remaining
  }

  /** One iteration of the read loop, delivering `n` bytes at `out` from offset `off` of block `b`,
      which is byte `at` of the device. */
  method ReadChunk(hw: Hardware, h: Handle, bs: nat, b: nat, off: nat, n: nat, buf: array<byte>, out: nat,
                   ghost at: nat)
    returns (st: Status)
    requires h in hw.disks && Blocked(hw.disks[h], bs) && bs <= CACHE_DATA_SIZE
    requires b < |hw.disks[h]| && off + n <= bs && out + n <= buf.Length && at == b * bs + off
    modifies buf, hw`log
    ensures hw.log == old(hw.log) + [ReadOf(h, b, st)]
    ensures at + n <= |Flat(hw.disks[h])|
    ensures buf[..out] == old(buf[..out]) && buf[out + n..] == old(buf[out + n..])
    ensures st == HTL_OK ==> buf[out..out + n] == Flat(hw.disks[h])[at..at + n]
  {
    ReadInBlock(hw.disks[h], bs, b, off, n);
    st := ReadPart(hw, h, bs, b, off, n, buf, out);
  }

  /** The same with `n` sectors from sector `current` on. */
  method ReadAt(hw: Hardware, h: Handle, spb: nat, current: nat, n: nat, buf: array<byte>, out: nat)
    returns (st: Status, ghost one: Request)
    requires h in hw.disks && 0 < spb && spb * SECTOR_SIZE <= CACHE_DATA_SIZE
    requires Blocked(hw.disks[h], spb * SECTOR_SIZE) && current < |hw.disks[h]| * spb && current % spb + n <= spb
    requires out + n * SECTOR_SIZE <= buf.Length
    modifies buf, hw`log
    ensures hw.log == old(hw.log) + [one] && one == ReadOf(h, current / spb, st)
    ensures current * SECTOR_SIZE + n * SECTOR_SIZE <= |Flat(hw.disks[h])|
    ensures buf[..out] == old(buf[..out]) && buf[out + n * SECTOR_SIZE..] == old(buf[out + n * SECTOR_SIZE..])
    ensures st == HTL_OK ==>
              buf[out..out + n * SECTOR_SIZE]
              == Flat(hw.disks[h])[current * SECTOR_SIZE..current * SECTOR_SIZE + n * SECTOR_SIZE]
  {
    var b, off := Locate(current, spb, |hw.disks[h]|);
    st := ReadChunk(hw, h, spb * SECTOR_SIZE, b, off * SECTOR_SIZE, n * SECTOR_SIZE, buf, out, current * SECTOR_SIZE);
    one := ReadOf(h, b, st);
  }

  lemma ReadOn(before: seq<byte>, now: seq<byte>, flat: seq<byte>, start: nat, out: nat, next: nat, end: nat)
    requires out <= next <= end <= |before| == |now| && start + next <= |flat|
    requires now[..out] == before[..out] == flat[start..start + out] && now[next..] == before[next..]
    ensures now[end..] == before[end..]
    ensures now[out..next] == flat[start + out..start + next] ==> now[..next] == flat[start..start + next]
  {
    assert now[end..] == now[next..][end - next..] && before[end..] == before[next..][end - next..];
    assert now[..next] == now[..out] + now[out..next];
    assert flat[start..start + next] == flat[start..start + out] + flat[start + out..start + next];
  }

  /** One iteration, relative to what the whole call has delivered so far. */
  method ReadNext(hw: Hardware, h: Handle, spb: nat, lba: nat, done: nat, n: nat, buf: array<byte>, end: nat)
    returns (st: Status, ghost one: Request)
    requires h in hw.disks && 0 < spb && spb * SECTOR_SIZE <= CACHE_DATA_SIZE
    requires Blocked(hw.disks[h], spb * SECTOR_SIZE) && lba + done < |hw.disks[h]| * spb
             && (lba + done) % spb + n <= spb
    requires (done + n) * SECTOR_SIZE <= end <= buf.Length && (lba + done) * SECTOR_SIZE <= |Flat(hw.disks[h])|
    requires buf[..done * SECTOR_SIZE] == Flat(hw.disks[h])[lba * SECTOR_SIZE..(lba + done) * SECTOR_SIZE]
    modifies buf, hw`log
    ensures hw.log == old(hw.log) + [one] && one == ReadOf(h, (lba + done) / spb, st)
    ensures buf[..done * SECTOR_SIZE] == old(buf[..done * SECTOR_SIZE]) && buf[end..] == old(buf[end..])
    ensures st == HTL_OK ==>
              && (lba + done + n) * SECTOR_SIZE <= |Flat(hw.disks[h])|
              && buf[..(done + n) * SECTOR_SIZE] == Flat(hw.disks[h])[lba * SECTOR_SIZE..(lba + done + n) * SECTOR_SIZE]
  {
    ghost var out, next, before := done * SECTOR_SIZE, (done + n) * SECTOR_SIZE, buf[..];
    st, one := ReadAt(hw, h, spb, lba + done, n, buf, done * SECTOR_SIZE);
    ghost var now := buf[..];
    assert now[..out] == buf[..out] && now[next..] == buf[next..] && now[out..next] == buf[out..next];
    ReadOn(before, now, Flat(hw.disks[h]), lba * SECTOR_SIZE, out, next, end);
  }

  // ---- which block comes next --------------------------------------------------------------

  /** After `done` sectors the next iteration starts block `n` of the range, or the range is done. */
  predicate AtBlock(lba: nat, count: nat, spb: nat, done: nat, n: nat)
    requires 0 < spb
  {
    if done < count then (lba + done) / spb == lba / spb + n && (done == 0 || (lba + done) % spb == 0)
    else done == count && (if count == 0 then n == 0 else n == BlocksOf(lba, count, spb))
  }

  lemma SameBlock(x: nat, m: nat, spb: nat)
    requires 0 < spb && 0 < m && x % spb + m <= spb
    ensures (x + m - 1) / spb == x / spb
    ensures x % spb + m == spb ==> (x + m) / spb == x / spb + 1 && (x + m) % spb == 0
  {
    var q, r := x / spb, x % spb;
    assert x + m - 1 == q * spb + (r + m - 1);
    DivideBack(q, spb, r + m - 1);
    if r + m == spb {
      assert x + m == (q + 1) * spb + 0;
      DivideBack(q + 1, spb, 0);
    }
  }

  lemma DivideBack(q: nat, k: nat, r: nat)
    requires 0 < k && r < k
    ensures (q * k + r) / k == q && (q * k + r) % k == r
  {
    assert (q + 1) * k == q * k + k;
    QuotientIs(q * k + r, k, q);
  }

  lemma NextBlock(lba: nat, count: nat, spb: nat, done: nat, n: nat, m: nat)
    requires 0 < spb && done < count && AtBlock(lba, count, spb, done, n) && m == Chunk(count - done, lba + done, spb)
    ensures AtBlock(lba, count, spb, done + m, n + 1)
  {
    SameBlock(lba + done, m, spb);
  }

  lemma BlockInRange(lba: nat, count: nat, spb: nat, done: nat, n: nat)
    requires 0 < spb && done < count && AtBlock(lba, count, spb, done, n)
    ensures n < BlocksOf(lba, count, spb)
  {
    DivideGrows(lba + done, lba + count - 1, spb);
  }

  lemma DivideGrows(x: nat, y: nat, k: nat)
    requires 0 < k && x <= y
    ensures x / k <= y / k
  {
    if y / k < x / k {
      BlockOrder(y / k + 1, x / k, k);
    }
  }

  /** An iteration covers its block only in part exactly when the range does. */
  lemma PartIsPartial(lba: nat, count: nat, spb: nat, done: nat, n: nat, m: nat)
    requires 0 < spb && done < count && AtBlock(lba, count, spb, done, n) && m == Chunk(count - done, lba + done, spb)
    ensures (lba + done) % spb != 0 || m < spb <==> Partial(lba, count, spb, (lba + done) / spb)
  {
    var b := (lba + done) / spb;
    assert lba + done == b * spb + (lba + done) % spb && (b + 1) * spb == b * spb + spb;
  }

  /** The driver was asked for every block of the first `done` sectors. */
  ghost predicate ReadSoFar(h: Handle, lba: nat, count: nat, spb: nat, done: nat, cs: seq<Request>)
    requires 0 < spb
  {
    ReadsInTurn(h, lba / spb, cs, HTL_OK) && AtBlock(lba, count, spb, done, |cs|)
  }

  lemma NoneRead(h: Handle, lba: nat, count: nat, spb: nat)
    requires 0 < spb
    ensures ReadSoFar(h, lba, count, spb, 0, [])
  {
  }

  lemma ReadMore(h: Handle, lba: nat, count: nat, spb: nat, done: nat, cs: seq<Request>, m: nat, st: Status,
                 one: Request)
    requires 0 < spb && done < count && ReadSoFar(h, lba, count, spb, done, cs)
    requires m == Chunk(count - done, lba + done, spb)
    requires one == ReadOf(h, (lba + done) / spb, st)
    ensures if st == HTL_OK then ReadSoFar(h, lba, count, spb, done + m, cs + [one])
            else ReadSweep(h, lba, count, spb, st, cs + [one])
  {
    BlockInRange(lba, count, spb, done, |cs|);
    NextBlock(lba, count, spb, done, |cs|, m);
  }

  lemma ReadAll(h: Handle, lba: nat, count: nat, spb: nat, cs: seq<Request>)
    requires 0 < spb && 0 < count && ReadSoFar(h, lba, count, spb, count, cs)
    ensures ReadSweep(h, lba, count, spb, HTL_OK, cs)
  {
    DivideGrows(lba, lba + count - 1, spb);
  }

  ghost predicate WriteSoFar(h: Handle, lba: nat, count: nat, spb: nat, done: nat, n: nat, cs: seq<Request>)
    requires 0 < spb
  {
    cs == SweepCalls(h, lba, count, spb, n) && AtBlock(lba, count, spb, done, n)
  }

  lemma NoneWritten(h: Handle, lba: nat, count: nat, spb: nat)
    requires 0 < spb
    ensures WriteSoFar(h, lba, count, spb, 0, 0, [])
  {
  }

  lemma WriteMore(h: Handle, lba: nat, count: nat, spb: nat, done: nat, n: nat, cs: seq<Request>, m: nat, st: Status,
                  tried: seq<Request>)
    requires 0 < spb && done < count && WriteSoFar(h, lba, count, spb, done, n, cs)
    requires m == Chunk(count - done, lba + done, spb)
    requires TriedCalls(h, (lba + done) / spb, (lba + done) % spb != 0 || m < spb, st, tried)
    ensures if st == HTL_OK then WriteSoFar(h, lba, count, spb, done + m, n + 1, cs + tried)
            else WriteSweep(h, lba, count, spb, st, cs + tried)
  {
    PartIsPartial(lba, count, spb, done, n, m);
    if st == HTL_OK {
      NextBlock(lba, count, spb, done, n, m);
    } else {
      BlockInRange(lba, count, spb, done, n);
      assert WritesInTurn(h, lba, count, spb, st, n, cs + tried, tried);
    }
  }

  lemma WroteAll(h: Handle, lba: nat, count: nat, spb: nat, n: nat, cs: seq<Request>)
    requires 0 < spb && 0 < count && WriteSoFar(h, lba, count, spb, count, n, cs)
    ensures WriteSweep(h, lba, count, spb, HTL_OK, cs)
  {
    assert WritesInTurn(h, lba, count, spb, HTL_OK, n, cs, []);
  }

  /** One iteration of the read loop, with the driver calls of the whole call so far. */
  method ReadStep(hw: Hardware, h: Handle, spb: nat, lba: nat, count: nat, done: nat, buf: array<byte>,
                  ghost start: seq<Request>, ghost calls: seq<Request>)
    returns (st: Status, n: nat, ghost calls': seq<Request>)
    requires h in hw.disks && 0 < spb && spb * SECTOR_SIZE <= CACHE_DATA_SIZE
    requires Blocked(hw.disks[h], spb * SECTOR_SIZE) && lba + count <= |hw.disks[h]| * spb && done < count
    requires count * SECTOR_SIZE <= buf.Length && (lba + done) * SECTOR_SIZE <= |Flat(hw.disks[h])|
    requires buf[..done * SECTOR_SIZE] == Flat(hw.disks[h])[lba * SECTOR_SIZE..(lba + done) * SECTOR_SIZE]
    requires hw.log == start + calls && ReadSoFar(h, lba, count, spb, done, calls)
    modifies buf, hw`log
    ensures 0 < n <= count - done && buf[count * SECTOR_SIZE..] == old(buf[count * SECTOR_SIZE..])
    ensures buf[..done * SECTOR_SIZE] == old(buf[..done * SECTOR_SIZE])
    ensures st == HTL_OK ==>
              && (lba + done + n) * SECTOR_SIZE <= |Flat(hw.disks[h])|
              && buf[..(done + n) * SECTOR_SIZE] == Flat(hw.disks[h])[lba * SECTOR_SIZE..(lba + done + n) * SECTOR_SIZE]
    ensures hw.log == start + calls'
    ensures if st == HTL_OK then ReadSoFar(h, lba, count, spb, done + n, calls')
            else ReadSweep(h, lba, count, spb, st, calls')
  {
    n := Chunk(count - done, lba + done, spb);
    ghost var one;
    st, one := ReadNext(hw, h, spb, lba, done, n, buf, count * SECTOR_SIZE);
    ReadMore(h, lba, count, spb, done, calls, n, st, one);
    calls' := calls + [one];
    Reassociate(start, calls, [one]);
  }

  /** The read loop: `done` sectors were delivered, all of them unless the driver failed, which was
      asked for each block once. */
  method ReadRun(hw: Hardware, h: Handle, spb: nat, lba: nat, count: nat, buf: array<byte>)
    returns (st: Status, ghost done: nat, ghost calls: seq<Request>)
    requires h in hw.disks && 0 < spb && spb * SECTOR_SIZE <= CACHE_DATA_SIZE
    requires Blocked(hw.disks[h], spb * SECTOR_SIZE) && lba + count <= |hw.disks[h]| * spb
    requires count * SECTOR_SIZE <= buf.Length
    modifies buf, hw`log
    ensures done <= count && (st == HTL_OK <==> done == count)
    ensures (lba + done) * SECTOR_SIZE <= |Flat(hw.disks[h])|
    ensures buf[..done * SECTOR_SIZE] == Flat(hw.disks[h])[lba * SECTOR_SIZE..(lba + done) * SECTOR_SIZE]
    ensures buf[count * SECTOR_SIZE..] == old(buf[count * SECTOR_SIZE..])
    ensures hw.log == old(hw.log) + calls && (count > 0 ==> ReadSweep(h, lba, count, spb, st, calls))
  {
    var read: nat := 0;
    ghost var start := hw.log;
    calls := [];
    NoneRead(h, lba, count, spb);
    FlatLength(hw.disks[h], spb * SECTOR_SIZE);
    ScaleUp(|hw.disks[h]|, spb);
    while read < count
      invariant read <= count && (lba + read) * SECTOR_SIZE <= |Flat(hw.disks[h])|
      invariant buf[..read * SECTOR_SIZE] == Flat(hw.disks[h])[lba * SECTOR_SIZE..(lba + read) * SECTOR_SIZE]
      invariant buf[count * SECTOR_SIZE..] == old(buf[count * SECTOR_SIZE..])
      invariant hw.log == start + calls && ReadSoFar(h, lba, count, spb, read, calls)
    {
      var n;
      st, n, calls := ReadStep(hw, h, spb, lba, count, read, buf, start, calls);
      if st != HTL_OK {
        done := read;
        return;
      }
      read := read + n;
    }
    if count > 0 { ReadAll(h, lba, count, spb, calls); }
    done := count;
    st := HTL_OK;
  }

  /** Overwrites part of block `b` with `x`, by read-modify-write unless that is the whole block.
      A driver error, in the read or in the write, touches no other block. */
  method WritePart(hw: Hardware, h: Handle, bs: nat, b: nat, off: nat, src: array<byte>, from: nat, n: nat)
    returns (st: Status, ghost calls: seq<Request>)
    requires h in hw.disks && b < |hw.disks[h]| && |hw.disks[h][b]| == bs <= CACHE_DATA_SIZE
    requires off + n <= bs && from + n <= src.Length
    modifies hw
    ensures hw.log == old(hw.log) + calls && TriedCalls(h, b, off != 0 || n < bs, st, calls)
    ensures h in hw.disks && b < |hw.disks[h]| && |hw.disks[h][b]| == bs
    ensures hw.disks == old(hw.disks)[h := old(hw.disks)[h][b := hw.disks[h][b]]]
    ensures st == HTL_OK ==> hw.disks[h][b] == Splice(old(hw.disks)[h][b], off, src[from..from + n])
  {
    if off != 0 || n < bs {
      var blockBuf := new byte[CACHE_DATA_SIZE](_ => 0);
      st := hw.ReadBlock(h, b, blockBuf, 0, bs);
      calls := [ReadOf(h, b, st)];
      if st != HTL_OK {
        assert hw.disks[h][b := hw.disks[h][b]] == hw.disks[h];
        return;
      }
      ghost var before := blockBuf[..];
      CopyBytes(src, from, blockBuf, off, n);
      SpliceFront(before, off, src[from..from + n], bs);
      st := hw.WriteBlock(h, b, blockBuf[..bs]);
      calls := calls + [WriteOf(h, b, st)];
    } else {
      st := hw.WriteBlock(h, b, src[from..from + bs]);
      calls := [WriteOf(h, b, st)];
    }
  }

  /** One iteration of the write loop, at sector `off` of block `b`, which is sector `current`. */
  method WriteChunk(hw: Hardware, h: Handle, spb: nat, b: nat, off: nat, src: array<byte>, from: nat, n: nat,
                    ghost current: nat)
    returns (st: Status, ghost calls: seq<Request>)
    requires h in hw.disks && Blocked(hw.disks[h], spb * SECTOR_SIZE) && spb * SECTOR_SIZE <= CACHE_DATA_SIZE
    requires b < |hw.disks[h]| && off + n <= spb && from + n * SECTOR_SIZE <= src.Length
    requires current * SECTOR_SIZE == b * (spb * SECTOR_SIZE) + off * SECTOR_SIZE
    modifies hw
    ensures hw.log == old(hw.log) + calls
    ensures TriedCalls(h, b, off != 0 || n < spb, st, calls)
    ensures h in hw.disks && hw.disks == old(hw.disks)[h := hw.disks[h]]
    ensures |hw.disks[h]| == |old(hw.disks)[h]| && Blocked(hw.disks[h], spb * SECTOR_SIZE)
    ensures current * SECTOR_SIZE + n * SECTOR_SIZE <= |Flat(old(hw.disks)[h])|
    ensures forall i :: 0 <= i < |hw.disks[h]| && i != b ==> hw.disks[h][i] == old(hw.disks)[h][i]
    ensures st == HTL_OK ==>
              Flat(hw.disks[h])
              == Splice(Flat(old(hw.disks)[h]), current * SECTOR_SIZE, src[from..from + n * SECTOR_SIZE])
  {
    ghost var disk := hw.disks[h];
    st, calls := WritePart(hw, h, spb * SECTOR_SIZE, b, off * SECTOR_SIZE, src, from, n * SECTOR_SIZE);
    BlockWritten(disk, spb * SECTOR_SIZE, b, off * SECTOR_SIZE, src[from..from + n * SECTOR_SIZE], hw.disks[h]);
  }

  /** The block of a sector and the place in it. */
  method Locate(current: nat, spb: nat, ghost blocks: nat) returns (b: nat, off: nat)
    requires 0 < spb && current < blocks * spb
    ensures b == current / spb < blocks && off == current % spb
    ensures current * SECTOR_SIZE == b * (spb * SECTOR_SIZE) + off * SECTOR_SIZE
  {
    Address(current, spb, blocks);
    b, off := current / spb, current % spb;
  }

  /** The same at sector `current`. */
  method WriteAt(hw: Hardware, h: Handle, spb: nat, current: nat, src: array<byte>, from: nat, n: nat)
    returns (st: Status, ghost calls: seq<Request>)
    requires h in hw.disks && 0 < spb && spb * SECTOR_SIZE <= CACHE_DATA_SIZE
    requires Blocked(hw.disks[h], spb * SECTOR_SIZE) && current < |hw.disks[h]| * spb && current % spb + n <= spb
    requires from + n * SECTOR_SIZE <= src.Length
    modifies hw
    ensures hw.log == old(hw.log) + calls
    ensures TriedCalls(h, current / spb, current % spb != 0 || n < spb, st, calls)
    ensures h in hw.disks && hw.disks == old(hw.disks)[h := hw.disks[h]]
    ensures |hw.disks[h]| == |old(hw.disks)[h]| && Blocked(hw.disks[h], spb * SECTOR_SIZE)
    ensures current * SECTOR_SIZE + n * SECTOR_SIZE <= |Flat(old(hw.disks)[h])|
    ensures forall i :: 0 <= i < |hw.disks[h]| && i != current / spb ==> hw.disks[h][i] == old(hw.disks)[h][i]
    ensures st == HTL_OK ==>
              Flat(hw.disks[h])
              == Splice(Flat(old(hw.disks)[h]), current * SECTOR_SIZE, src[from..from + n * SECTOR_SIZE])
  {
    var b, off := Locate(current, spb, |hw.disks[h]|);
    st, calls := WriteChunk(hw, h, spb, b, off, src, from, n, current);
  }

  lemma BlockWritten(disk: seq<Block>, bs: nat, b: nat, off: nat, x: seq<byte>, disk': seq<Block>)
    requires Blocked(disk, bs) && b < |disk| == |disk'| && off + |x| <= bs
    requires disk' == disk[b := disk'[b]] && |disk'[b]| == bs
    ensures Blocked(disk', bs) && b * bs + off + |x| <= |Flat(disk)|
    ensures disk'[b] == Splice(disk[b], off, x) ==> Flat(disk') == Splice(Flat(disk), b * bs + off, x)
  {
    WriteInBlock(disk, bs, b, off, x);
  }

  lemma Advance(flat: seq<byte>, a: nat, data: seq<byte>, from: nat, next: nat)
    requires from <= next <= |data| && a + next <= |flat|
    ensures Splice(Splice(flat, a, data[..from]), a + from, data[from..next]) == Splice(flat, a, data[..next])
  {
    SpliceTwice(flat, a, data[..from], data[from..next]);
    assert data[..next] == data[..from] + data[from..next];
  }

  lemma StoppedAt(disk: seq<Block>, spb: nat, lba: nat, data: seq<byte>, done: nat, end: nat, mid: seq<Block>,
                  disk': seq<Block>)
    requires 0 < spb && |mid| == |disk| == |disk'| && Blocked(mid, spb * SECTOR_SIZE)
    requires done * SECTOR_SIZE <= end <= |data| && lba * SECTOR_SIZE + done * SECTOR_SIZE <= |Flat(disk)|
    requires Flat(mid) == Splice(Flat(disk), lba * SECTOR_SIZE, data[..done * SECTOR_SIZE])
    requires forall b :: 0 <= b < |disk| && b != (lba + done) / spb ==> disk'[b] == mid[b]
    ensures WrittenUpTo(disk, spb, lba, data[..end], done, disk')
  {
    assert data[..end][..done * SECTOR_SIZE] == data[..done * SECTOR_SIZE];
  }

  /** The store after the first `done` sectors of `data` were written. */
  ghost predicate WrittenSoFar(disk: seq<Block>, spb: nat, lba: nat, data: seq<byte>, done: nat, disk': seq<Block>) {
    && |disk'| == |disk| && Blocked(disk', spb * SECTOR_SIZE)
    && done * SECTOR_SIZE <= |data| && lba * SECTOR_SIZE + done * SECTOR_SIZE <= |Flat(disk)|
    && Flat(disk') == Splice(Flat(disk), lba * SECTOR_SIZE, data[..done * SECTOR_SIZE])
  }

  lemma NoneStored(disk: seq<Block>, spb: nat, lba: nat, data: seq<byte>)
    requires Blocked(disk, spb * SECTOR_SIZE) && lba * SECTOR_SIZE <= |Flat(disk)|
    ensures WrittenSoFar(disk, spb, lba, data, 0, disk)
  {
    SpliceNothing(Flat(disk), lba * SECTOR_SIZE, data[..0]);
  }

  /** One iteration, relative to the disk the whole call started from. */
  method WriteNext(hw: Hardware, h: Handle, spb: nat, lba: nat, count: nat, src: array<byte>, done: nat, n: nat,
                   ghost disk: seq<Block>, ghost b: nat, ghost off: nat)
    returns (st: Status, ghost calls: seq<Request>)
    requires h in hw.disks && 0 < spb && spb * SECTOR_SIZE <= CACHE_DATA_SIZE
    requires WrittenSoFar(disk, spb, lba, src[..], done, hw.disks[h]) && lba + done < |disk| * spb
    requires b == (lba + done) / spb && off == (lba + done) % spb && off + n <= spb
    requires done + n <= count && count * SECTOR_SIZE <= src.Length
    requires (lba + count) * SECTOR_SIZE <= |Flat(disk)|
    modifies hw
    ensures hw.log == old(hw.log) + calls
    ensures TriedCalls(h, b, off != 0 || n < spb, st, calls)
    ensures h in hw.disks && hw.disks == old(hw.disks)[h := hw.disks[h]]
    ensures |hw.disks[h]| == |disk| && Blocked(hw.disks[h], spb * SECTOR_SIZE)
    ensures if st == HTL_OK then WrittenSoFar(disk, spb, lba, src[..], done + n, hw.disks[h])
            else WrittenUpTo(disk, spb, lba, src[..][..count * SECTOR_SIZE], done, hw.disks[h])
  {
    ghost var data, mid := src[..], hw.disks[h];
    ghost var from, next := done * SECTOR_SIZE, (done + n) * SECTOR_SIZE;
    assert src[from..next] == data[from..next];
    st, calls := WriteAt(hw, h, spb, lba + done, src, done * SECTOR_SIZE, n);
    WroteNext(disk, spb, lba, data, done, n, count * SECTOR_SIZE, mid, st == HTL_OK, hw.disks[h]);
  }

  lemma WroteNext(disk: seq<Block>, spb: nat, lba: nat, data: seq<byte>, done: nat, n: nat, end: nat, mid: seq<Block>,
                  ok: bool, disk': seq<Block>)
    requires 0 < spb && |disk'| == |disk| && Blocked(disk', spb * SECTOR_SIZE)
    requires WrittenSoFar(disk, spb, lba, data, done, mid)
    requires (done + n) * SECTOR_SIZE <= end <= |data| && lba * SECTOR_SIZE + end <= |Flat(disk)|
    requires forall b :: 0 <= b < |disk| && b != (lba + done) / spb ==> disk'[b] == mid[b]
    requires ok ==> Flat(disk') == Splice(Flat(mid), (lba + done) * SECTOR_SIZE,
                                          data[done * SECTOR_SIZE..(done + n) * SECTOR_SIZE])
    ensures ok ==> WrittenSoFar(disk, spb, lba, data, done + n, disk')
    ensures !ok ==> WrittenUpTo(disk, spb, lba, data[..end], done, disk')
  {
    if ok {
      Advance(Flat(disk), lba * SECTOR_SIZE, data, done * SECTOR_SIZE, (done + n) * SECTOR_SIZE);
    } else {
      StoppedAt(disk, spb, lba, data, done, end, mid, disk');
    }
  }

  /** Only store `h` differs. */
  ghost predicate OnlyStore(disks: map<Handle, seq<Block>>, h: Handle, disks': map<Handle, seq<Block>>) {
    h in disks && h in disks' && disks' == disks[h := disks'[h]]
  }

  /** What one iteration moves, and where it lies. */
  method NextChunk(lba: nat, count: nat, spb: nat, done: nat, ghost blocks: nat)
    returns (n: nat, ghost b: nat, ghost off: nat)
    requires 0 < spb && done < count && lba + count <= blocks * spb
    ensures n == Chunk(count - done, lba + done, spb) && 0 < n <= count - done
    ensures b == (lba + done) / spb && off == (lba + done) % spb && off + n <= spb && lba + done < blocks * spb
  {
    n := Chunk(count - done, lba + done, spb);
    b, off := (lba + done) / spb, (lba + done) % spb;
  }

  /** One iteration of the write loop, with the driver calls of the whole call so far. */
  method WriteStep(hw: Hardware, h: Handle, spb: nat, lba: nat, count: nat, src: array<byte>, done: nat,
                   ghost disks: map<Handle, seq<Block>>, ghost start: seq<Request>, ghost calls: seq<Request>,
                   ghost blocks: nat)
    returns (st: Status, n: nat, ghost calls': seq<Request>)
    requires OnlyStore(disks, h, hw.disks) && 0 < spb && spb * SECTOR_SIZE <= CACHE_DATA_SIZE
    requires WrittenSoFar(disks[h], spb, lba, src[..], done, hw.disks[h]) && lba + count <= |disks[h]| * spb
    requires done < count && count * SECTOR_SIZE <= src.Length && (lba + count) * SECTOR_SIZE <= |Flat(disks[h])|
    requires hw.log == start + calls && WriteSoFar(h, lba, count, spb, done, blocks, calls)
    modifies hw
    ensures OnlyStore(disks, h, hw.disks)
    ensures |hw.disks[h]| == |disks[h]| && Blocked(hw.disks[h], spb * SECTOR_SIZE) && 0 < n <= count - done
    ensures if st == HTL_OK then WrittenSoFar(disks[h], spb, lba, src[..], done + n, hw.disks[h])
            else WrittenUpTo(disks[h], spb, lba, src[..][..count * SECTOR_SIZE], done, hw.disks[h])
    ensures hw.log == start + calls'
    ensures if st == HTL_OK then WriteSoFar(h, lba, count, spb, done + n, blocks + 1, calls')
            else WriteSweep(h, lba, count, spb, st, calls')
  {
    ghost var b, off, tried;
    n, b, off := NextChunk(lba, count, spb, done, |hw.disks[h]|);
    st, tried := WriteNext(hw, h, spb, lba, count, src, done, n, disks[h], b, off);
    WriteMore(h, lba, count, spb, done, blocks, calls, n, st, tried);
    calls' := calls + tried;
    Reassociate(start, calls, tried);
  }

  /** The write loop. On success exactly the requested bytes changed; after a driver error the
      first `done` sectors are in place and only the block being written may be disturbed. */
  method WriteRun(hw: Hardware, h: Handle, spb: nat, lba: nat, count: nat, src: array<byte>)
    returns (st: Status, ghost done: nat, ghost calls: seq<Request>)
    requires h in hw.disks && 0 < spb && spb * SECTOR_SIZE <= CACHE_DATA_SIZE
    requires Blocked(hw.disks[h], spb * SECTOR_SIZE) && lba + count <= |hw.disks[h]| * spb
    requires count * SECTOR_SIZE <= src.Length
    modifies hw
    ensures h in hw.disks && hw.disks == old(hw.disks)[h := hw.disks[h]]
    ensures |hw.disks[h]| == |old(hw.disks)[h]| && Blocked(hw.disks[h], spb * SECTOR_SIZE)
    ensures done <= count && (st == HTL_OK <==> done == count)
    ensures lba * SECTOR_SIZE + count * SECTOR_SIZE <= |Flat(old(hw.disks)[h])|
    ensures st == HTL_OK ==>
              Flat(hw.disks[h]) == Splice(Flat(old(hw.disks)[h]), lba * SECTOR_SIZE, src[..count * SECTOR_SIZE])
    ensures st != HTL_OK ==>
              WrittenUpTo(old(hw.disks)[h], spb, lba, src[..count * SECTOR_SIZE], done, hw.disks[h])
    ensures hw.log == old(hw.log) + calls && (count > 0 ==> WriteSweep(h, lba, count, spb, st, calls))
  {
    ghost var disks, disk, data := hw.disks, hw.disks[h], src[..];
    assert data[..count * SECTOR_SIZE] == src[..count * SECTOR_SIZE];
    var written: nat := 0;
    ghost var blocks: nat, start := 0, hw.log;
    calls := [];
    NoneWritten(h, lba, count, spb);
    FlatLength(disk, spb * SECTOR_SIZE);
    ScaleUp(|disk|, spb);
    NoneStored(disk, spb, lba, data);
    while written < count
      invariant written <= count
      invariant OnlyStore(disks, h, hw.disks)
      invariant src[..] == data && WrittenSoFar(disk, spb, lba, data, written, hw.disks[h])
      invariant hw.log == start + calls && WriteSoFar(h, lba, count, spb, written, blocks, calls)
    {
      var n;
      st, n, calls := WriteStep(hw, h, spb, lba, count, src, written, disks, start, calls, blocks);
      if st != HTL_OK {
        done := written;
        return;
      }
      written, blocks := written + n, blocks + 1;
    }
    if count > 0 { WroteAll(h, lba, count, spb, blocks, calls); }
    done := count;
    st := HTL_OK;
  }
}

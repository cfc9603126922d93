/** The drivers behind the translation layer. Any call may fail; a failed read may leave
    anything in the block-sized part of the buffer it was given, a failed write anything in
    the one block it addressed. Every call is logged with its status. */
module HtlHardware {
  import opened Bytes
  import opened HtlTypes

  class Hardware {
    var disks: map<Handle, seq<Block>>
    ghost var log: seq<Request>

    constructor (initial: map<Handle, seq<Block>>)
      ensures disks == initial && log == []
    {
      disks := initial;
      log := [];
    }

    /** Reads block `n` into `buf[off..]`. */
    method ReadBlock(h: Handle, n: nat, buf: array<byte>, off: nat, bs: nat) returns (st: Status)
      requires h in disks && n < |disks[h]| && |disks[h][n]| == bs
      requires off + bs <= buf.Length
      modifies buf, `log
      ensures log == old(log) + [ReadOf(h, n, st)]
      ensures buf[..off] == old(buf[..off]) && buf[off + bs..] == old(buf[off + bs..])
      ensures st == HTL_OK ==> buf[off..off + bs] == disks[h][n]
    {
      st := *;
      var garbage: seq<byte> := *;
      var data := if st == HTL_OK || |garbage| != bs then disks[h][n] else garbage;
      forall i | 0 <= i < bs {
        buf[off + i] := data[i];
      }
      log := log + [ReadOf(h, n, st)];
    }

    /** Writes one block of data to block `n`. */
    method WriteBlock(h: Handle, n: nat, data: seq<byte>) returns (st: Status)
      requires h in disks && n < |disks[h]| && |disks[h][n]| == |data|
      modifies this
      ensures log == old(log) + [WriteOf(h, n, st)]
      ensures h in disks && n < |disks[h]| && |disks[h][n]| == |data|
      ensures disks == old(disks)[h := old(disks)[h][n := disks[h][n]]]
      ensures st == HTL_OK ==> disks[h][n] == data
    {
      st := *;
      var garbage: seq<byte> := *;
      var left := if st == HTL_OK || |garbage| != |data| then data else garbage;
      disks := disks[h := disks[h][n := left]];
      log := log + [WriteOf(h, n, st)];
    }

    /** The driver's own flush; it stores nothing new. */
    method FlushCache(h: Handle) returns (st: Status)
      modifies `log
      ensures log == old(log) + [FlushOf(h, st)]
    {
      st := *;
      log := log + [FlushOf(h, st)];
    }
  }
}

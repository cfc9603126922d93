/** A device's blocks as one flat byte array, the view the sector calls promise. */
module HtlFlat {
  import opened Bytes

  function Flat(disk: seq<seq<byte>>): seq<byte> {
    if disk == [] then [] else disk[0] + Flat(disk[1..])
  }

  ghost predicate Blocked(disk: seq<seq<byte>>, bs: nat) {
    forall b :: 0 <= b < |disk| ==> |disk[b]| == bs
  }

  lemma {:induction false} FlatConcat(x: seq<seq<byte>>, y: seq<seq<byte>>)
    ensures Flat(x + y) == Flat(x) + Flat(y)
    decreases |x|
  {
    if x == [] {
      assert x + y == y;
    } else {
      var z := x + y;
      assert z[0] == x[0] && z[1..] == x[1..] + y;
      FlatConcat(x[1..], y);
    }
  }

  lemma {:induction false} FlatLength(disk: seq<seq<byte>>, bs: nat)
    requires Blocked(disk, bs)
    ensures |Flat(disk)| == |disk| * bs
  {
    if disk == [] {
    } else {
      FlatLength(disk[1..], bs);
      assert |disk| * bs == bs + (|disk| - 1) * bs;
    }
  }

  /** Block `b` occupies bytes [b*bs, (b+1)*bs). */
  lemma FlatBlock(disk: seq<seq<byte>>, bs: nat, b: nat)
    requires Blocked(disk, bs) && b < |disk|
    ensures |Flat(disk)| == |disk| * bs && b * bs + bs <= |disk| * bs
    ensures Flat(disk)[b * bs..b * bs + bs] == disk[b]
    ensures Flat(disk) == Flat(disk[..b]) + disk[b] + Flat(disk[b + 1..])
    ensures |Flat(disk[..b])| == b * bs
  {
    FlatLength(disk, bs);
    FlatLength(disk[..b], bs);
    FlatSplit(disk, b);
    MiddlePart(Flat(disk[..b]), disk[b], Flat(disk[b + 1..]));
    assert |Flat(disk)| == |Flat(disk[..b])| + bs + |Flat(disk[b + 1..])|;
  }

  lemma FlatSplit(disk: seq<seq<byte>>, b: nat)
    requires b < |disk|
    ensures Flat(disk) == Flat(disk[..b]) + disk[b] + Flat(disk[b + 1..])
  {
    var tail := disk[b..];
    assert disk == disk[..b] + tail;
    FlatConcat(disk[..b], tail);
    assert tail[0] == disk[b] && tail[1..] == disk[b + 1..];
    assert Flat(disk[..b]) + (disk[b] + Flat(disk[b + 1..])) == Flat(disk[..b]) + disk[b] + Flat(disk[b + 1..]);
  }

  lemma MiddlePart(x: seq<byte>, y: seq<byte>, z: seq<byte>)
    ensures (x + y + z)[|x|..|x| + |y|] == y
  {
  }

  /** Byte `a` of block `b` is byte `b * bs + a` of all. */
  lemma FlatAt(disk: seq<seq<byte>>, bs: nat, b: nat, a: nat, x: nat)
    requires Blocked(disk, bs) && b < |disk| && a < bs && x == b * bs + a
    ensures x < |Flat(disk)| && Flat(disk)[x] == disk[b][a]
  {
    FlatBlock(disk, bs, b);
    SliceIndex(Flat(disk), b * bs, b * bs + bs, x);
  }

  /** Every byte lies in a block. */
  lemma Located(disk: seq<seq<byte>>, bs: nat, x: nat) returns (b: nat, a: nat)
    requires Blocked(disk, bs) && x < |Flat(disk)|
    ensures b < |disk| && a < bs && x == b * bs + a
  {
    FlatLength(disk, bs);
    b, a := Quotient(x, |disk|, bs);
  }

  lemma {:induction false} Quotient(x: nat, n: nat, bs: nat) returns (b: nat, a: nat)
    requires x < n * bs
    ensures b < n && a < bs && x == b * bs + a
    decreases n
  {
    if x < bs {
      b, a := 0, x;
    } else {
      b, a := Quotient(x - bs, n - 1, bs);
      b := b + 1;
    }
  }

  /** The blocks of two disks agree in all bytes from `lo` to `hi`. */
  ghost predicate AgreeWithin(x: seq<seq<byte>>, y: seq<seq<byte>>, bs: nat, lo: nat, hi: nat)
    requires Blocked(x, bs) && Blocked(y, bs) && |x| == |y|
  {
    forall b, a :: 0 <= b < |x| && 0 <= a < bs && lo <= b * bs + a < hi ==> x[b][a] == y[b][a]
  }

  lemma SlicesAgreeIff(x: seq<seq<byte>>, y: seq<seq<byte>>, bs: nat, lo: nat, hi: nat)
    requires Blocked(x, bs) && Blocked(y, bs) && |x| == |y| && lo <= hi <= |Flat(x)|
    ensures hi <= |Flat(y)|
    ensures Flat(x)[lo..hi] == Flat(y)[lo..hi] <==> AgreeWithin(x, y, bs, lo, hi)
  {
    FlatLength(x, bs);
    FlatLength(y, bs);
    if Flat(x)[lo..hi] == Flat(y)[lo..hi] {
      forall b, a | 0 <= b < |x| && 0 <= a < bs && lo <= b * bs + a < hi ensures x[b][a] == y[b][a] {
        SliceByte(x, y, bs, lo, hi, b, a, b * bs + a);
      }
    }
    if AgreeWithin(x, y, bs, lo, hi) {
      forall i | lo <= i < hi ensures Flat(x)[i] == Flat(y)[i] {
        AgreeAt(x, y, bs, lo, hi, i);
      }
    }
  }

  lemma AgreeAt(x: seq<seq<byte>>, y: seq<seq<byte>>, bs: nat, lo: nat, hi: nat, i: nat)
    requires Blocked(x, bs) && Blocked(y, bs) && |x| == |y| && lo <= i < hi && i < |Flat(x)| == |Flat(y)|
    requires AgreeWithin(x, y, bs, lo, hi)
    ensures Flat(x)[i] == Flat(y)[i]
  {
    var b, a := Located(x, bs, i);
    FlatAt(x, bs, b, a, i);
    FlatAt(y, bs, b, a, i);
    assert lo <= b * bs + a < hi;
  }

  lemma SliceByte(x: seq<seq<byte>>, y: seq<seq<byte>>, bs: nat, lo: nat, hi: nat, b: nat, a: nat, i: nat)
    requires Blocked(x, bs) && Blocked(y, bs) && |x| == |y| && lo <= hi <= |Flat(x)| && hi <= |Flat(y)|
    requires Flat(x)[lo..hi] == Flat(y)[lo..hi] && b < |x| && a < bs && lo <= i < hi && i == b * bs + a
    ensures x[b][a] == y[b][a]
  {
    FlatAt(x, bs, b, a, i);
    FlatAt(y, bs, b, a, i);
    SliceIndex(Flat(x), lo, hi, i);
    SliceIndex(Flat(y), lo, hi, i);
  }

  lemma SliceIndex(s: seq<byte>, lo: nat, hi: nat, i: nat)
    requires lo <= i < hi <= |s|
    ensures s[lo..hi][i - lo] == s[i]
  {
  }

  /** Any bytes of the right number are those of some blocks. */
  lemma {:induction false} Reblocked(flat: seq<byte>, n: nat, bs: nat) returns (disk: seq<seq<byte>>)
    requires |flat| == n * bs
    ensures |disk| == n && Blocked(disk, bs) && Flat(disk) == flat
    decreases n
  {
    if n == 0 {
      disk := [];
    } else {
      assert n * bs == bs + (n - 1) * bs;
      var rest := Reblocked(flat[bs..], n - 1, bs);
      disk := [flat[..bs]] + rest;
      assert disk[1..] == rest && flat == flat[..bs] + flat[bs..];
    }
  }

  /** Replacing one block replaces exactly its bytes. */
  lemma FlatUpdate(disk: seq<seq<byte>>, bs: nat, b: nat, x: seq<byte>)
    requires Blocked(disk, bs) && b < |disk| && |x| == bs
    ensures Blocked(disk[b := x], bs)
    ensures |Flat(disk)| == |disk| * bs && b * bs + bs <= |disk| * bs
    ensures Flat(disk[b := x]) == Splice(Flat(disk), b * bs, x)
  {
    var disk' := disk[b := x];
    FlatBlock(disk, bs, b);
    FlatBlock(disk', bs, b);
    assert disk'[..b] == disk[..b] && disk'[b + 1..] == disk[b + 1..];
  }

  /** Two disks of the same geometry with the same bytes have the same blocks. */
  lemma FlatInjective(x: seq<seq<byte>>, y: seq<seq<byte>>, bs: nat)
    requires Blocked(x, bs) && Blocked(y, bs) && |x| == |y|
    requires Flat(x) == Flat(y)
    ensures x == y
  {
    forall b | 0 <= b < |x| ensures x[b] == y[b] {
      FlatBlock(x, bs, b);
      FlatBlock(y, bs, b);
    }
  }
}

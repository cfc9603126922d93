/** A 32-bit framebuffer in flat memory, rows `pitch` bytes apart (DLL/bootvid/bootvid.c). */
module ScreenMemory {
  import opened Bytes

  datatype Geometry = Geometry(width: nat, height: nat, pitch: nat)

  /** The offset of row `y`. */
  function RowAt(g: Geometry, y: nat): nat
    decreases y
  {
    if y == 0 then 0 else RowAt(g, y - 1) + g.pitch
  }

  lemma {:induction false} RowAtProduct(g: Geometry, y: nat)
    ensures RowAt(g, y) == y * g.pitch
    decreases y
  {
    if y == 0 {
    } else {
      RowAtProduct(g, y - 1);
      assert y * g.pitch == (y - 1) * g.pitch + g.pitch;
    }
  }

  /** Rows do not overlap, fit in the memory, and offsets stay below 2^32. */
  predicate GeometryOk(g: Geometry, size: nat) {
    && g.width < U32 && g.height < U32
    && 4 * g.width <= g.pitch
    && RowAt(g, g.height) <= size
    && RowAt(g, g.height) < U32
  }

  /** The pixels, row by row. */
  type Grid = seq<seq<nat>>

  function WithPixel(row: seq<nat>, x: nat, v: nat): seq<nat>
    requires x < |row|
  {
    row[x := v]
  }

  /** Pixel `v` stored at `at`, least significant byte first. */
  predicate Stored(mem: seq<byte>, at: nat, v: nat) {
    && at + 4 <= |mem| && v < U32
    && mem[at] == v % 0x100 && mem[at + 1] == v / 0x100 % 0x100
    && mem[at + 2] == v / 0x1_0000 % 0x100 && mem[at + 3] == v / 0x100_0000
  }

  ghost predicate RowHolds(mem: seq<byte>, base: nat, row: seq<nat>) {
    forall x :: 0 <= x < |row| ==> Stored(mem, base + 4 * x, row[x])
  }

  /** The memory holds the grid. */
  ghost predicate Holds(g: Geometry, mem: seq<byte>, grid: Grid) {
    && GeometryOk(g, |mem|)
    && |grid| == g.height
    && (forall y :: 0 <= y < g.height ==> |grid[y]| == g.width && RowHolds(mem, RowAt(g, y), grid[y]))
  }

  ghost predicate InRow(g: Geometry, y: nat, i: int) {
    RowAt(g, y) <= i < RowAt(g, y) + 4 * g.width
  }

  /** Byte `i` belongs to no pixel. */
  ghost predicate IsPadding(g: Geometry, i: int) {
    forall y :: 0 <= y < g.height ==> !InRow(g, y, i)
  }

  ghost predicate PaddingKept(g: Geometry, mem: seq<byte>, mem': seq<byte>) {
    |mem'| == |mem| && forall i :: 0 <= i < |mem| && IsPadding(g, i) ==> mem'[i] == mem[i]
  }

  ghost predicate OnlyRow(g: Geometry, mem: seq<byte>, y: nat, mem': seq<byte>) {
    |mem'| == |mem| && forall i :: 0 <= i < |mem| && !InRow(g, y, i) ==> mem'[i] == mem[i]
  }

  lemma {:induction false} RowStart(g: Geometry, y: nat, y': nat)
    requires y < y'
    ensures RowAt(g, y) + g.pitch <= RowAt(g, y')
    decreases y'
  {
    if y + 1 == y' {
    } else {
      RowStart(g, y, y' - 1);
    }
  }

  lemma RowInside(g: Geometry, size: nat, y: nat)
    requires GeometryOk(g, size) && y < g.height
    ensures RowAt(g, y) + 4 * g.width <= size
  {
    RowStart(g, y, g.height);
  }

  /** A screen with any row is less than 2^30 pixels wide. */
  lemma WidthIsSmall(g: Geometry, size: nat)
    requires GeometryOk(g, size) && g.height > 0
    ensures g.width < 0x4000_0000
  {
    RowStart(g, 0, g.height);
  }

  lemma PixelInside(g: Geometry, size: nat, y: nat, x: nat)
    requires GeometryOk(g, size) && y < g.height && x < g.width
    ensures RowAt(g, y) + x * 4 + 4 <= size && (RowAt(g, y) + x * 4) % U32 == RowAt(g, y) + 4 * x
    ensures forall i :: RowAt(g, y) + 4 * x <= i < RowAt(g, y) + 4 * x + 4 ==> InRow(g, y, i)
  {
    RowStart(g, y, g.height);
  }

  /** The pixels of two rows, as byte ranges. */
  lemma RowPair(g: Geometry, size: nat, y: nat, y': nat, a: nat, b: nat, n: nat)
    requires GeometryOk(g, size) && y < g.height && y' < g.height
    requires a == RowAt(g, y) && b == RowAt(g, y') && n == 4 * g.width
    ensures a + n <= size && b + n <= size && (a == b || a + n <= b || b + n <= a)
  {
    RowInside(g, size, y);
    RowInside(g, size, y');
    if y < y' { RowStart(g, y, y'); } else if y' < y { RowStart(g, y', y); }
  }

  lemma RowsApart(g: Geometry, size: nat, y: nat, y': nat, i: int)
    requires GeometryOk(g, size) && y != y' && InRow(g, y, i)
    ensures !InRow(g, y', i)
  {
    if y < y' { RowStart(g, y, y'); } else { RowStart(g, y', y); }
  }

  /** Bytes unchanged, pixels unchanged. */
  lemma RowKept(mem: seq<byte>, mem': seq<byte>, base: nat, row: seq<nat>)
    requires RowHolds(mem, base, row) && |mem'| == |mem|
    requires forall i :: base <= i < base + 4 * |row| && i < |mem| ==> mem'[i] == mem[i]
    ensures RowHolds(mem', base, row)
  {
    forall x | 0 <= x < |row| ensures Stored(mem', base + 4 * x, row[x]) {
      assert Stored(mem, base + 4 * x, row[x]);
    }
  }

  /** Bytes copied from another row, pixels copied. */
  lemma RowCopied(mem: seq<byte>, mem': seq<byte>, src: nat, dst: nat, row: seq<nat>)
    requires RowHolds(mem, src, row) && |mem'| == |mem| && dst + 4 * |row| <= |mem| && src + 4 * |row| <= |mem|
    requires mem'[dst..dst + 4 * |row|] == mem[src..src + 4 * |row|]
    ensures RowHolds(mem', dst, row)
  {
    var bytes := mem[src..src + 4 * |row|];
    forall x | 0 <= x < |row| ensures Stored(mem', dst + 4 * x, row[x]) {
      assert Stored(mem, src + 4 * x, row[x]);
      assert Stored(bytes, 4 * x, row[x]);
      var i := 4 * x;
      assert mem'[dst + i] == bytes[i] && mem'[dst + i + 1] == bytes[i + 1];
      assert mem'[dst + i + 2] == bytes[i + 2] && mem'[dst + i + 3] == bytes[i + 3];
    }
  }

  /** Four bytes stored, one pixel changed. */
  lemma PixelStored(mem: seq<byte>, mem': seq<byte>, base: nat, row: seq<nat>, x: nat, v: nat)
    requires RowHolds(mem, base, row) && x < |row| && |mem'| == |mem| && Stored(mem', base + 4 * x, v)
    requires forall i :: 0 <= i < |mem| && !(base + 4 * x <= i < base + 4 * x + 4) ==> mem'[i] == mem[i]
    ensures RowHolds(mem', base, WithPixel(row, x, v))
  {
    forall j | 0 <= j < |row| ensures Stored(mem', base + 4 * j, WithPixel(row, x, v)[j]) {
      assert Stored(mem, base + 4 * j, row[j]);
    }
  }

  /** When only one row's bytes change, only that row of pixels does, and no padding. */
  lemma OneRowChanged(g: Geometry, mem: seq<byte>, mem': seq<byte>, grid: Grid, y: nat, row: seq<nat>)
    requires Holds(g, mem, grid) && y < g.height && OnlyRow(g, mem, y, mem')
    requires |row| == g.width && RowHolds(mem', RowAt(g, y), row)
    ensures Holds(g, mem', grid[y := row]) && PaddingKept(g, mem, mem')
  {
    forall j | 0 <= j < g.height && j != y ensures RowHolds(mem', RowAt(g, j), grid[j]) {
      forall i | RowAt(g, j) <= i < RowAt(g, j) + 4 * g.width && i < |mem| ensures mem'[i] == mem[i] {
        assert InRow(g, j, i);
        RowsApart(g, |mem|, j, y, i);
      }
      RowKept(mem, mem', RowAt(g, j), grid[j]);
    }
  }

  /** Four bytes changed to hold one pixel. */
  ghost predicate Written(mem: seq<byte>, at: nat, v: nat, mem': seq<byte>) {
    && |mem'| == |mem| && Stored(mem', at, v)
    && (forall i :: 0 <= i < |mem| && !(at <= i < at + 4) ==> mem'[i] == mem[i])
  }

  lemma PixelWritten(g: Geometry, mem: seq<byte>, mem': seq<byte>, grid: Grid, y: nat, x: nat, v: nat, base: nat)
    requires Holds(g, mem, grid) && y < g.height && x < g.width && base == RowAt(g, y)
    requires Written(mem, base + 4 * x, v, mem')
    ensures Holds(g, mem', grid[y := WithPixel(grid[y], x, v)]) && PaddingKept(g, mem, mem')
  {
    PixelStored(mem, mem', base, grid[y], x, v);
    WrittenInRow(g, mem, y, x, v, mem', base);
    OneRowChanged(g, mem, mem', grid, y, WithPixel(grid[y], x, v));
  }

  lemma WrittenInRow(g: Geometry, mem: seq<byte>, y: nat, x: nat, v: nat, mem': seq<byte>, base: nat)
    requires x < g.width && base == RowAt(g, y) && Written(mem, base + 4 * x, v, mem')
    ensures OnlyRow(g, mem, y, mem')
  {
    forall i | 0 <= i < |mem| && !InRow(g, y, i) ensures mem'[i] == mem[i] {
      assert !(base + 4 * x <= i < base + 4 * x + 4);
    }
  }

  /** `n` bytes copied from `src` to `dst`. */
  ghost predicate Moved(mem: seq<byte>, dst: nat, src: nat, n: nat, mem': seq<byte>) {
    dst + n <= |mem| && src + n <= |mem| && mem' == Splice(mem, dst, mem[src..src + n])
  }

  /** One row's bytes copied from another row. */
  lemma RowMoved(g: Geometry, mem: seq<byte>, mem': seq<byte>, grid: Grid, y: nat, src: nat, a: nat, b: nat)
    requires Holds(g, mem, grid) && y < g.height && src < g.height
    requires a == RowAt(g, y) && b == RowAt(g, src) && Moved(mem, a, b, 4 * g.width, mem')
    ensures Holds(g, mem', grid[y := grid[src]]) && PaddingKept(g, mem, mem')
  {
    RowCopied(mem, mem', b, a, grid[src]);
    MovedInRow(g, mem, y, a, b, mem');
    OneRowChanged(g, mem, mem', grid, y, grid[src]);
  }

  lemma MovedInRow(g: Geometry, mem: seq<byte>, y: nat, a: nat, b: nat, mem': seq<byte>)
    requires a == RowAt(g, y) && Moved(mem, a, b, 4 * g.width, mem')
    ensures OnlyRow(g, mem, y, mem')
  {
    var n := 4 * g.width;
    forall i | 0 <= i < |mem| && !(a <= i < a + n) ensures mem'[i] == mem[i] { SpliceAt(mem, a, mem[b..b + n], i); }
  }

  lemma PaddingKeptTwice(g: Geometry, a: seq<byte>, b: seq<byte>, c: seq<byte>)
    requires PaddingKept(g, a, b) && PaddingKept(g, b, c)
    ensures PaddingKept(g, a, c)
  {
  }
}

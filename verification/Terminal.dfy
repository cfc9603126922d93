/** Text cells, their pixels, and the abstract terminal the boot console shows. */
module Terminal {
  import opened Bytes
  import opened ScreenMemory

  const FONT_W: nat := 8
  const FONT_H: nat := 16
  const NEWLINE: nat := 10
  const RETURN: nat := 13
  const SPACE: nat := 0x20

  /** Glyphs for 0x20 to 0x7E, sixteen rows of eight pixels each; the first one is blank. */
  type Font = seq<seq<byte>>

  ghost predicate FontOk(font: Font) {
    && |font| == 95
    && (forall i :: 0 <= i < 95 ==> |font[i]| == FONT_H)
    && (forall y :: 0 <= y < FONT_H ==> font[0][y] == 0)
  }

  datatype Cell = Cell(cp: nat, fg: nat, bg: nat)

  /** Codepoints without a glyph show the blank one. */
  function GlyphIndex(cp: nat): (i: nat)
    ensures i < 95
  {
    if 0x20 <= cp <= 0x7E then cp - 0x20 else 0
  }

  /** A glyph row after `x` left shifts of its byte. */
  function Shifted(bits: byte, x: nat): byte
    decreases x, bits
  {
    if x == 0 then bits else Shifted(bits, x - 1) * 2 % 0x100
  }

  /** Pixel `dx` of a glyph row, as the drawing loop tests it. */
  predicate Lit(bits: byte, dx: nat) {
    Shifted(bits, dx) >= 0x80
  }

  /** The colour of one pixel of a cell. */
  function Ink(font: Font, cell: Cell, dy: nat, dx: nat): nat
    requires FontOk(font) && dy < FONT_H && dx < FONT_W
  {
    if Lit(font[GlyphIndex(cell.cp)][dy], dx) then cell.fg else cell.bg
  }

  predicate PixelIs(grid: Grid, y: nat, x: nat, v: nat) {
    y < |grid| && x < |grid[y]| && grid[y][x] == v
  }

  /** The pixels of one cell. */
  ghost predicate CellShows(font: Font, grid: Grid, r: nat, c: nat, cell: Cell)
    requires FontOk(font)
  {
    forall dy, dx :: 0 <= dy < FONT_H && 0 <= dx < FONT_W ==>
      PixelIs(grid, FONT_H * r + dy, FONT_W * c + dx, Ink(font, cell, dy, dx))
  }

  type Cells = seq<seq<Cell>>

  ghost predicate CellsOk(cells: Cells, rows: nat, cols: nat) {
    |cells| == rows && forall r :: 0 <= r < rows ==> |cells[r]| == cols
  }

  /** Every cell shows its glyph in its colours. */
  ghost predicate Shows(font: Font, grid: Grid, cells: Cells, rows: nat, cols: nat)
    requires FontOk(font) && CellsOk(cells, rows, cols)
  {
    forall r, c :: 0 <= r < rows && 0 <= c < cols ==> CellShows(font, grid, r, c, cells[r][c])
  }

  // ---- glyph bits ---------------------------------------------------------------------------

  lemma DoubledNibble(c: bool, r: seq<bool>)
    requires |r| == 4
    ensures 2 * NibbleOf(r) == NibbleOf([c, r[0], r[1], r[2]]) + (if r[3] then 16 else 0) - (if c then 1 else 0)
  {
  }

  lemma DoubledByte(r: seq<bool>)
    requires |r| == 8
    ensures ByteOf(r) * 2 % 0x100 == ByteOf([false] + r[..7])
  {
    var up, lo, hi := [false] + r[..7], r[..4], r[4..];
    DoubledNibble(false, lo);
    DoubledNibble(lo[3], hi);
    assert up[..4] == [false, lo[0], lo[1], lo[2]] && up[4..] == [lo[3], hi[0], hi[1], hi[2]];
    var out := if hi[3] then 1 else 0;
    assert ByteOf(r) * 2 == ByteOf(up) + 0x100 * out;
  }

  /** Doubling a byte moves its bits up one place. */
  lemma DoubledBits(b: byte)
    ensures Bits(b * 2 % 0x100) == [false] + Bits(b)[..7]
  {
    var r := Bits(b);
    ByteOfBits(b);
    DoubledByte(r);
    BitsOfByte([false] + r[..7]);
  }

  /** Bits moved up `x` places. */
  function Raised(r: seq<bool>, x: nat): (s: seq<bool>)
    requires |r| == 8
    ensures |s| == 8
  {
    if x == 0 then r else [false] + Raised(r, x - 1)[..7]
  }

  lemma {:induction false} RaisedAt(r: seq<bool>, x: nat, i: nat)
    requires |r| == 8 && x <= i < 8
    ensures Raised(r, x)[i] == r[i - x]
    decreases x
  {
    if x == 0 {
    } else {
      RaisedAt(r, x - 1, i - 1);
    }
  }

  lemma {:induction false} ShiftedBits(b: byte, x: nat, r: seq<bool>)
    requires r == Bits(b)
    ensures Bits(Shifted(b, x)) == Raised(r, x)
    decreases x
  {
    if x == 0 {
    } else {
      ShiftedBits(b, x - 1, r);
      DoubledBits(Shifted(b, x - 1));
    }
  }

  /** The drawing loop puts the most significant bit leftmost. */
  lemma LitIsBit(b: byte, dx: nat)
    requires dx < FONT_W
    ensures Lit(b, dx) <==> Bits(b)[7 - dx]
  {
    ShiftedBits(b, dx, Bits(b));
    RaisedAt(Bits(b), dx, 7);
    HighBit(Shifted(b, dx));
  }

  lemma HighBit(b: byte)
    ensures b >= 0x80 <==> Bits(b)[7]
  {
    assert Bits(b)[7] == NibbleBits(b / 16)[3];
  }

  lemma {:induction false} ZeroShifted(x: nat)
    ensures Shifted(0, x) == 0
  {
    if x == 0 {
    } else {
      ZeroShifted(x - 1);
    }
  }

  /** Codepoints without a glyph, and the space, are all background. */
  lemma NoGlyphIsBlank(font: Font, cell: Cell, dy: nat, dx: nat)
    requires FontOk(font) && dy < FONT_H && dx < FONT_W && !(0x21 <= cell.cp <= 0x7E)
    ensures Ink(font, cell, dy, dx) == cell.bg
  {
    ZeroShifted(dx);
  }

  /** Every pixel of a shown cell with a glyph: bit `7 - dx` of row `dy` of the glyph decides between
      foreground and background. */
  lemma GlyphPixel(font: Font, grid: Grid, r: nat, c: nat, cell: Cell, dy: nat, dx: nat)
    requires FontOk(font) && CellShows(font, grid, r, c, cell) && 0x20 <= cell.cp <= 0x7E && dy < 16 && dx < 8
    ensures PixelIs(grid, 16 * r + dy, 8 * c + dx,
                    if Bits(font[cell.cp - 0x20][dy])[7 - dx] then cell.fg else cell.bg)
  {
    LitIsBit(font[cell.cp - 0x20][dy], dx);
    assert PixelIs(grid, FONT_H * r + dy, FONT_W * c + dx, Ink(font, cell, dy, dx));
  }

  // ---- the abstract terminal ---------------------------------------------------------------

  datatype Term = Term(cells: Cells, row: nat, col: nat, fg: nat, bg: nat)

  function BlankRow(cols: nat, bg: nat): (row: seq<Cell>)
    ensures |row| == cols
    ensures forall c :: 0 <= c < cols ==> row[c] == Cell(SPACE, bg, bg)
  {
    if cols == 0 then [] else [Cell(SPACE, bg, bg)] + BlankRow(cols - 1, bg)
  }

  function BlankCells(rows: nat, cols: nat, bg: nat): (cells: Cells)
    ensures CellsOk(cells, rows, cols) && forall r :: 0 <= r < rows ==> cells[r] == BlankRow(cols, bg)
  {
    if rows == 0 then [] else [BlankRow(cols, bg)] + BlankCells(rows - 1, cols, bg)
  }

  /** All rows move up one; the last becomes blank and takes the cursor. */
  function Scroll(t: Term, cols: nat): Term
    requires t.cells != []
  {
    t.(cells := t.cells[1..] + [BlankRow(cols, t.bg)], row := |t.cells| - 1)
  }

  /** Newlines past the last row are only remembered; the next character scrolls once. */
  function Settle(t: Term, cols: nat): (t': Term)
    requires t.cells != []
    ensures t'.row < |t'.cells| == |t.cells|
  {
    if t.row >= |t.cells| then Scroll(t, cols) else t
  }

  ghost predicate TermOk(t: Term, rows: nat, cols: nat) {
    CellsOk(t.cells, rows, cols) && 0 < rows < U32 && t.row < U32 && t.col < cols < U32 && t.fg < U32 && t.bg < U32
  }

  /** One character. */
  function Put(t: Term, ch: nat, cols: nat): Term
    requires t.cells != [] && forall r :: 0 <= r < |t.cells| ==> |t.cells[r]| == cols
    requires t.col < cols
  {
    if ch == NEWLINE then t.(col := 0, row := (t.row + 1) % U32)
    else if ch == RETURN then t.(col := 0)
    else
      var u := Settle(t, cols);
      var drawn := u.(cells := u.cells[u.row := u.cells[u.row][u.col := Cell(ch, u.fg, u.bg)]]);
      if u.col + 1 < cols then drawn.(col := u.col + 1)
      else Settle(drawn.(col := 0, row := u.row + 1), cols)
  }

  lemma PutKeepsOk(t: Term, ch: nat, rows: nat, cols: nat)
    requires TermOk(t, rows, cols)
    ensures TermOk(Put(t, ch, cols), rows, cols)
  {
  }

  /** Text, character by character. */
  function Type(t: Term, text: seq<nat>, rows: nat, cols: nat): (t': Term)
    requires TermOk(t, rows, cols)
    ensures TermOk(t', rows, cols)
    decreases |text|
  {
    if text == [] then t
    else
      PutKeepsOk(t, text[0], rows, cols);
      Type(Put(t, text[0], cols), text[1..], rows, cols)
  }

  lemma {:induction false} TypeConcat(t: Term, a: seq<nat>, b: seq<nat>, rows: nat, cols: nat)
    requires TermOk(t, rows, cols)
    ensures Type(t, a + b, rows, cols) == Type(Type(t, a, rows, cols), b, rows, cols)
    decreases |a|
  {
    if a == [] {
      assert a + b == b;
    } else {
      PutKeepsOk(t, a[0], rows, cols);
      assert (a + b)[0] == a[0] && (a + b)[1..] == a[1..] + b;
      TypeConcat(Put(t, a[0], cols), a[1..], b, rows, cols);
    }
  }

  // ---- what pixels follow ------------------------------------------------------------------

  /** A grid in which the pixels of one cell were redrawn and nothing else changed. */
  ghost predicate Painted(font: Font, grid: Grid, top: nat, left: nat, cell: Cell, grid': Grid)
    requires FontOk(font)
  {
    && |grid'| == |grid|
    && (forall y :: 0 <= y < |grid| ==> |grid'[y]| == |grid[y]|)
    && (forall y, x :: 0 <= y < |grid| && 0 <= x < |grid[y]| ==>
          grid'[y][x] == if top <= y < top + FONT_H && left <= x < left + FONT_W
                         then Ink(font, cell, y - top, x - left) else grid[y][x])
  }

  /** How far position `y` lies after `top`, positions being 32-bit ones. */
  function After(y: nat, top: nat): nat
    requires top < U32
  {
    if top <= y then y - top else y + U32 - top
  }

  lemma AfterIs(y: nat, top: nat, n: nat)
    requires y < U32 && top < U32 && n < U32
    ensures After(y, top) == n <==> y == (top + n) % U32
  {
  }

  /** The first `n` pixels of row `dy` of a glyph drawn in grid row `y`, which may be off the grid. */
  ghost predicate RowPainted(font: Font, grid: Grid, y: nat, left: nat, cell: Cell, dy: nat, n: nat, grid': Grid)
    requires FontOk(font) && left < U32 && dy < FONT_H && n <= FONT_W
  {
    && |grid'| == |grid|
    && (if y >= |grid| then grid' == grid
        else
          && grid' == grid[y := grid'[y]] && |grid'[y]| == |grid[y]|
          && (forall x :: 0 <= x < |grid[y]| ==>
                grid'[y][x] == if After(x, left) < n then Ink(font, cell, dy, After(x, left)) else grid[y][x]))
  }

  lemma RowPaintedNext(
    font: Font, grid: Grid, y: nat, left: nat, cell: Cell, dy: nat, n: nat, grid': Grid, grid'': Grid)
    requires FontOk(font) && left < U32 && dy < FONT_H && n < FONT_W
    requires RowPainted(font, grid, y, left, cell, dy, n, grid') && (y < |grid| ==> |grid[y]| < U32)
    requires var x := (left + n) % U32;
             grid'' == if y < |grid| && x < |grid[y]| then grid'[y := WithPixel(grid'[y], x, Ink(font, cell, dy, n))]
                       else grid'
    ensures RowPainted(font, grid, y, left, cell, dy, n + 1, grid'')
  {
    if y < |grid| {
      forall x | 0 <= x < |grid[y]|
        ensures grid''[y][x] == if After(x, left) < n + 1 then Ink(font, cell, dy, After(x, left)) else grid[y][x]
      {
        AfterIs(x, left, n);
      }
    }
  }

  /** Pixel (`y`, `x`) after the first `n` rows of a glyph are drawn, with positions that wrap at 2^32. */
  ghost predicate PaintedAt(
    font: Font, grid: Grid, top: nat, left: nat, cell: Cell, n: nat, grid': Grid, y: nat, x: nat)
    requires FontOk(font) && top < U32 && left < U32 && n <= FONT_H
    requires y < |grid| && x < |grid[y]|
  {
    PixelIs(grid', y, x, if After(y, top) < n && After(x, left) < FONT_W
                         then Ink(font, cell, After(y, top), After(x, left)) else grid[y][x])
  }

  ghost predicate PaintedRows(font: Font, grid: Grid, top: nat, left: nat, cell: Cell, n: nat, grid': Grid)
    requires FontOk(font) && top < U32 && left < U32 && n <= FONT_H
  {
    && |grid'| == |grid|
    && (forall y :: 0 <= y < |grid| ==> |grid'[y]| == |grid[y]|)
    && (forall y, x :: 0 <= y < |grid| && 0 <= x < |grid[y]| ==>
          PaintedAt(font, grid, top, left, cell, n, grid', y, x))
  }

  lemma PaintedRowsNext(font: Font, grid: Grid, top: nat, left: nat, cell: Cell, n: nat, grid': Grid, grid'': Grid)
    requires FontOk(font) && top < U32 && left < U32 && n < FONT_H && |grid| < U32
    requires PaintedRows(font, grid, top, left, cell, n, grid')
    requires RowPainted(font, grid', (top + n) % U32, left, cell, n, FONT_W, grid'')
    ensures PaintedRows(font, grid, top, left, cell, n + 1, grid'')
  {
    var row, m := (top + n) % U32, n + 1;
    forall y, x | 0 <= y < |grid| && 0 <= x < |grid[y]|
      ensures PaintedAt(font, grid, top, left, cell, m, grid'', y, x)
    {
      AfterIs(y, top, n);
      assert PaintedAt(font, grid, top, left, cell, n, grid', y, x);
      if y == row {
        assert grid''[y][x] == if After(x, left) < FONT_W then Ink(font, cell, n, After(x, left)) else grid'[y][x];
      } else {
        assert grid''[y] == grid'[y];
      }
    }
  }

  /** A whole glyph. */
  ghost predicate PaintedWrapped(font: Font, grid: Grid, top: nat, left: nat, cell: Cell, grid': Grid)
    requires FontOk(font) && top < U32 && left < U32
  {
    PaintedRows(font, grid, top, left, cell, FONT_H, grid')
  }

  /** Nothing wraps within a glyph that ends before 2^32. */
  lemma WrappedIsPainted(font: Font, grid: Grid, top: nat, left: nat, cell: Cell, grid': Grid)
    requires FontOk(font) && top + FONT_H <= U32 && left + FONT_W <= U32 && |grid| < U32
    requires PaintedWrapped(font, grid, top, left, cell, grid')
    requires forall y :: 0 <= y < |grid| ==> |grid[y]| < U32
    ensures Painted(font, grid, top, left, cell, grid')
  {
    forall y, x | 0 <= y < |grid| && 0 <= x < |grid[y]|
      ensures grid'[y][x] == if top <= y < top + FONT_H && left <= x < left + FONT_W
                             then Ink(font, cell, y - top, x - left) else grid[y][x]
    {
      assert PaintedAt(font, grid, top, left, cell, FONT_H, grid', y, x);
      AfterSmall(y, top, FONT_H);
      AfterSmall(x, left, FONT_W);
    }
  }

  lemma AfterSmall(y: nat, top: nat, n: nat)
    requires y < U32 && top + n <= U32 && top < U32
    ensures After(y, top) < n <==> top <= y < top + n
    ensures top <= y ==> After(y, top) == y - top
  {
  }

  lemma PaintedShows(font: Font, grid: Grid, r: nat, c: nat, cell: Cell, grid': Grid, cells: Cells, rows: nat,
                     cols: nat)
    requires FontOk(font) && CellsOk(cells, rows, cols) && Shows(font, grid, cells, rows, cols)
    requires r < rows && c < cols && Painted(font, grid, FONT_H * r, FONT_W * c, cell, grid')
    ensures Shows(font, grid', cells[r := cells[r][c := cell]], rows, cols)
  {
    var cells' := cells[r := cells[r][c := cell]];
    forall i, j | 0 <= i < rows && 0 <= j < cols ensures CellShows(font, grid', i, j, cells'[i][j]) {
      assert CellShows(font, grid, i, j, cells[i][j]);
      PaintedCell(font, grid, r, c, cell, grid', i, j, cells[i][j]);
    }
  }

  /** Drawing in a text row leaves the pixel rows below the last one alone. */
  lemma PaintedLeftover(font: Font, grid: Grid, r: nat, c: nat, cell: Cell, grid': Grid, rows: nat, cols: nat)
    requires FontOk(font) && r < rows && Painted(font, grid, FONT_H * r, FONT_W * c, cell, grid')
    ensures forall bg :: Leftover(grid, rows, cols, bg) ==> Leftover(grid', rows, cols, bg)
  {
    forall bg | Leftover(grid, rows, cols, bg) ensures Leftover(grid', rows, cols, bg) {
      forall y, x | FONT_H * rows <= y < |grid'| && 0 <= x < FONT_W * cols ensures PixelIs(grid', y, x, bg) {
        assert PixelIs(grid, y, x, bg);
      }
    }
  }

  /** Drawing right of the last text column changes no cell. */
  lemma PaintedOff(font: Font, grid: Grid, r: nat, c: nat, cell: Cell, grid': Grid, cells: Cells, rows: nat, cols: nat)
    requires FontOk(font) && CellsOk(cells, rows, cols) && Shows(font, grid, cells, rows, cols)
    requires c >= cols && r < rows && Painted(font, grid, FONT_H * r, FONT_W * c, cell, grid')
    ensures Shows(font, grid', cells, rows, cols)
  {
    forall i, j | 0 <= i < rows && 0 <= j < cols ensures CellShows(font, grid', i, j, cells[i][j]) {
      assert CellShows(font, grid, i, j, cells[i][j]);
      PaintedCell(font, grid, r, c, cell, grid', i, j, cells[i][j]);
    }
  }

  lemma PaintedCell(font: Font, grid: Grid, r: nat, c: nat, cell: Cell, grid': Grid, i: nat, j: nat, was: Cell)
    requires FontOk(font) && Painted(font, grid, FONT_H * r, FONT_W * c, cell, grid')
             && CellShows(font, grid, i, j, was)
    ensures CellShows(font, grid', i, j, if i == r && j == c then cell else was)
  {
    var now := if i == r && j == c then cell else was;
    forall dy, dx | 0 <= dy < FONT_H && 0 <= dx < FONT_W
      ensures PixelIs(grid', FONT_H * i + dy, FONT_W * j + dx, Ink(font, now, dy, dx))
    {
      var ink := Ink(font, was, dy, dx);
      assert PixelIs(grid, FONT_H * i + dy, FONT_W * j + dx, ink);
      PaintedPixel(font, grid, r, c, cell, grid', i, j, dy, dx);
    }
  }

  lemma PaintedPixel(font: Font, grid: Grid, r: nat, c: nat, cell: Cell, grid': Grid, i: nat, j: nat, dy: nat, dx: nat)
    requires FontOk(font) && Painted(font, grid, FONT_H * r, FONT_W * c, cell, grid') && dy < FONT_H && dx < FONT_W
    requires FONT_H * i + dy < |grid| && FONT_W * j + dx < |grid[FONT_H * i + dy]|
    ensures PixelIs(grid', FONT_H * i + dy, FONT_W * j + dx,
                    if i == r && j == c then Ink(font, cell, dy, dx) else grid[FONT_H * i + dy][FONT_W * j + dx])
  {
    var y, x := FONT_H * i + dy, FONT_W * j + dx;
    assert FONT_H * r <= y < FONT_H * r + FONT_H <==> i == r;
    assert FONT_W * c <= x < FONT_W * c + FONT_W <==> j == c;
  }

  /** A row of one colour. */
  ghost predicate Plain(row: seq<nat>, width: nat, color: nat) {
    |row| == width && forall x :: 0 <= x < width ==> row[x] == color
  }

  /** The grid moved up by `lines` pixel rows, filled from below. */
  ghost predicate Scrolled(grid: Grid, lines: nat, width: nat, color: nat, grid': Grid) {
    && |grid'| == |grid|
    && (forall y :: 0 <= y < |grid| ==>
          if y + lines < |grid| then grid'[y] == grid[y + lines] else Plain(grid'[y], width, color))
  }

  /** The pixel rows below the last text row, if the height is no multiple of the font's, are
      in the background colour. */
  ghost predicate Leftover(grid: Grid, rows: nat, cols: nat, bg: nat) {
    forall y, x :: FONT_H * rows <= y < |grid| && 0 <= x < FONT_W * cols ==> PixelIs(grid, y, x, bg)
  }

  lemma NoLeftover(grid: Grid, rows: nat, cols: nat, bg: nat)
    requires |grid| == FONT_H * rows
    ensures Leftover(grid, rows, cols, bg)
  {
  }

  /** A scroll shows the scrolled terminal exactly when the pixel rows it pulls into the last
      text row are in the background colour. */
  lemma ScrolledShowsIff(font: Font, grid: Grid, width: nat, t: Term, rows: nat, cols: nat, grid': Grid)
    requires FontOk(font) && TermOk(t, rows, cols) && Shows(font, grid, t.cells, rows, cols)
    requires FONT_H * rows <= |grid| < FONT_H * rows + FONT_H && cols * FONT_W <= width
    requires forall y :: 0 <= y < |grid| ==> |grid[y]| == width
    requires Scrolled(grid, FONT_H, width, t.bg, grid')
    ensures CellsOk(Scroll(t, cols).cells, rows, cols)
    ensures Shows(font, grid', Scroll(t, cols).cells, rows, cols) <==> Leftover(grid, rows, cols, t.bg)
    ensures Leftover(grid', rows, cols, t.bg)
  {
    var cells' := Scroll(t, cols).cells;
    if Leftover(grid, rows, cols, t.bg) {
      forall r, c | 0 <= r < rows && 0 <= c < cols ensures CellShows(font, grid', r, c, cells'[r][c]) {
        if r + 1 < rows {
          assert CellShows(font, grid, r + 1, c, t.cells[r + 1][c]);
          MovedCell(font, grid, width, t.bg, grid', r, c, t.cells[r + 1][c]);
        } else {
          LastCell(font, grid, width, t.bg, rows, cols, grid', c);
        }
      }
    }
    if Shows(font, grid', cells', rows, cols) {
      forall y, x | FONT_H * rows <= y < |grid| && 0 <= x < FONT_W * cols ensures PixelIs(grid, y, x, t.bg) {
        assert CellShows(font, grid', rows - 1, x / FONT_W, cells'[rows - 1][x / FONT_W]);
        PulledPixel(font, grid, width, t.bg, rows, grid', y, x);
      }
    }
  }

  /** A pixel the scroll pulled into the last text row. */
  lemma PulledPixel(font: Font, grid: Grid, width: nat, bg: nat, rows: nat, grid': Grid, y: nat, x: nat)
    requires FontOk(font) && 0 < rows && Scrolled(grid, FONT_H, width, bg, grid')
    requires FONT_H * rows <= y < |grid| < FONT_H * rows + FONT_H
    requires CellShows(font, grid', rows - 1, x / FONT_W, Cell(SPACE, bg, bg))
    ensures PixelIs(grid, y, x, bg)
  {
    var dy, dx, cell := y - FONT_H * rows, x % FONT_W, Cell(SPACE, bg, bg);
    var ink := Ink(font, cell, dy, dx);
    assert PixelIs(grid', FONT_H * (rows - 1) + dy, FONT_W * (x / FONT_W) + dx, ink);
    assert grid'[y - FONT_H] == grid[y - FONT_H + FONT_H];
  }

  lemma LastCell(font: Font, grid: Grid, width: nat, bg: nat, rows: nat, cols: nat, grid': Grid, c: nat)
    requires FontOk(font) && 0 < rows && c < cols && cols * FONT_W <= width && Scrolled(grid, FONT_H, width, bg, grid')
    requires FONT_H * rows <= |grid| && Leftover(grid, rows, cols, bg)
    ensures CellShows(font, grid', rows - 1, c, Cell(SPACE, bg, bg))
  {
    var cell := Cell(SPACE, bg, bg);
    forall dy, dx | 0 <= dy < FONT_H && 0 <= dx < FONT_W
      ensures PixelIs(grid', FONT_H * (rows - 1) + dy, FONT_W * c + dx, Ink(font, cell, dy, dx))
    {
      var y, x := FONT_H * (rows - 1) + dy, FONT_W * c + dx;
      if y + FONT_H < |grid| {
        assert PixelIs(grid, y + FONT_H, x, bg);
      } else {
        assert Plain(grid'[y], width, bg);
      }
    }
  }

  lemma MovedCell(font: Font, grid: Grid, width: nat, bg: nat, grid': Grid, r: nat, c: nat, cell: Cell)
    requires FontOk(font) && Scrolled(grid, FONT_H, width, bg, grid') && CellShows(font, grid, r + 1, c, cell)
    ensures CellShows(font, grid', r, c, cell)
  {
    forall dy, dx | 0 <= dy < FONT_H && 0 <= dx < FONT_W
      ensures PixelIs(grid', FONT_H * r + dy, FONT_W * c + dx, Ink(font, cell, dy, dx))
    {
      var ink := Ink(font, cell, dy, dx);
      assert PixelIs(grid, FONT_H * (r + 1) + dy, FONT_W * c + dx, ink);
      var y := FONT_H * r + dy;
      assert y + FONT_H < |grid| && grid'[y] == grid[y + FONT_H];
    }
  }

  /** Pixels of one colour are a blank cell. */
  lemma BlankCell(font: Font, grid: Grid, r: nat, c: nat, width: nat, bg: nat)
    requires FontOk(font) && FONT_H * r + FONT_H <= |grid| && FONT_W * c + FONT_W <= width
    requires forall y :: FONT_H * r <= y < FONT_H * r + FONT_H ==> Plain(grid[y], width, bg)
    ensures CellShows(font, grid, r, c, Cell(SPACE, bg, bg))
  {
    var cell := Cell(SPACE, bg, bg);
    forall dy, dx | 0 <= dy < FONT_H && 0 <= dx < FONT_W
      ensures PixelIs(grid, FONT_H * r + dy, FONT_W * c + dx, Ink(font, cell, dy, dx))
    {
      assert Plain(grid[FONT_H * r + dy], width, bg);
    }
  }

  lemma ClearedShows(font: Font, grid: Grid, width: nat, cells: Cells, rows: nat, cols: nat, bg: nat)
    requires FontOk(font) && CellsOk(cells, rows, cols) && |grid| >= FONT_H * rows && cols * FONT_W <= width
    requires forall y :: 0 <= y < |grid| ==> Plain(grid[y], width, bg)
    requires forall r :: 0 <= r < rows ==> cells[r] == BlankRow(cols, bg)
    ensures Shows(font, grid, cells, rows, cols) && Leftover(grid, rows, cols, bg)
  {
    forall y, x | FONT_H * rows <= y < |grid| && 0 <= x < FONT_W * cols ensures PixelIs(grid, y, x, bg) {
      assert Plain(grid[y], width, bg);
    }
    forall r, c | 0 <= r < rows && 0 <= c < cols ensures CellShows(font, grid, r, c, cells[r][c]) {
      BlankCell(font, grid, r, c, width, bg);
    }
  }
}

/** The boot text console of DLL/bootvid/bootvid.c. */
module BootVid {
  import opened Bytes
  import opened ScreenMemory
  import opened Terminal
  import opened TextLayout
  import opened Sutf8
  import opened Sutf8Walk

  const WHITE: nat := 0xFFFF_FFFF
  const BLACK: nat := 0xFF00_0000

  lemma ReadPixel(mem: seq<byte>, at: nat) returns (v: nat)
    requires at + 4 <= |mem|
    ensures Stored(mem, at, v)
  {
    var a: nat, b: nat, c: nat, d: nat := mem[at], mem[at + 1], mem[at + 2], mem[at + 3];
    var w := c + 0x100 * d;
    var u := b + 0x100 * w;
    v := a + 0x100 * u;
    assert v / 0x100 == u && v % 0x100 == a;
    assert u / 0x100 == w && u % 0x100 == b && v / 0x1_0000 == w;
    assert w / 0x100 == d && w % 0x100 == c && v / 0x100_0000 == d;
  }

  /** Some grid is always held. */
  lemma ReadRow(mem: seq<byte>, base: nat, n: nat) returns (row: seq<nat>)
    requires base + 4 * n <= |mem|
    ensures |row| == n && RowHolds(mem, base, row)
  {
    row := [];
    while |row| < n
      invariant |row| <= n && RowHolds(mem, base, row)
    {
      var at := base + 4 * |row|;
      var v := ReadPixel(mem, at);
      row := row + [v];
    }
  }

  lemma ReadGrid(g: Geometry, mem: seq<byte>) returns (grid: Grid)
    requires GeometryOk(g, |mem|)
    ensures Holds(g, mem, grid)
  {
    grid := [];
    while |grid| < g.height
      invariant |grid| <= g.height
      invariant forall y :: 0 <= y < |grid| ==> |grid[y]| == g.width && RowHolds(mem, RowAt(g, y), grid[y])
    {
      RowInside(g, |mem|, |grid|);
      var row := ReadRow(mem, RowAt(g, |grid|), g.width);
      grid := grid + [row];
    }
  }

  /** The pixel position of a text cell: rows are in range, columns wrap. */
  lemma GlyphPosition(r: nat, c: nat, height: nat)
    requires FONT_H * r + FONT_H <= height < U32
    ensures r * FONT_H % U32 == FONT_H * r && c * FONT_W % U32 == FONT_W * Column(c)
    ensures FONT_W * Column(c) + FONT_W <= U32
  {
    var n := c / 0x2000_0000;
    assert c == n * 0x2000_0000 + Column(c);
    assert c * FONT_W == n * U32 + FONT_W * Column(c);
  }

  lemma PaintedDrawn(font: Font, grid: Grid, r: nat, c: nat, cell: Cell, grid': Grid, cells: Cells, rows: nat,
                     cols: nat)
    requires FontOk(font) && CellsOk(cells, rows, cols) && Shows(font, grid, cells, rows, cols)
    requires r < rows && Painted(font, grid, FONT_H * r, FONT_W * Column(c), cell, grid')
    ensures Shows(font, grid', Drawn(cells, r, c, cell), rows, cols)
  {
    if Column(c) < cols {
      PaintedShows(font, grid, r, Column(c), cell, grid', cells, rows, cols);
    } else {
      PaintedOff(font, grid, r, Column(c), cell, grid', cells, rows, cols);
    }
  }

  class Console {
    const fb: array<byte>
    const g: Geometry
    const font: Font
    const rows: nat
    const cols: nat
    var row: nat
    var col: nat
    var fg: nat
    var bg: nat
    ghost var grid: Grid     // the pixels the memory holds
    ghost var cells: Cells   // the text cells last drawn

    ghost predicate Ready()
      reads this, fb
    {
      && Holds(g, fb[..], grid)
      && FontOk(font)
      && rows == g.height / FONT_H && cols == g.width / FONT_W
      && row < U32 && col < U32 && fg < U32 && bg < U32
    }

    ghost function T(): Term
      reads this
    {
      Term(cells, row, col, fg, bg)
    }

    /** Memory and text cells have their sizes. */
    ghost predicate Screen()
      reads this, fb
    {
      Ready() && CellsOk(cells, rows, cols)
    }

    /** The cursor and the cells form a terminal, whether or not the screen shows it yet. */
    ghost predicate Running()
      reads this, fb
    {
      Screen() && TermOk(T(), rows, cols)
    }

    /** Every text cell shows its glyph in its colours. */
    ghost predicate Shown()
      reads this, fb
    {
      Screen() && Shows(font, grid, cells, rows, cols)
    }

    /** The screen shows the abstract terminal, and the pixel rows below the last text row, if
        any, the background. */
    ghost predicate Displays()
      reads this, fb
    {
      Running() && Shown() && Leftover(grid, rows, cols, bg)
    }

    /** bootvid_init. */
    constructor (framebuffer: array<byte>, width: nat, height: nat, pitch: nat, font: Font)
      requires GeometryOk(Geometry(width, height, pitch), framebuffer.Length) && FontOk(font)
      ensures fb == framebuffer && g == Geometry(width, height, pitch) && this.font == font
      ensures Screen() && row == col == 0 && fg == WHITE && bg == BLACK
      ensures 0 < rows && 0 < cols ==> Running()
    {
      fb := framebuffer;
      g := Geometry(width, height, pitch);
      this.font := font;
      rows := height / FONT_H;
      cols := width / FONT_W;
      row, col := 0, 0;
      fg, bg := WHITE, BLACK;
      var start := ReadGrid(Geometry(width, height, pitch), framebuffer[..]);
      grid := start;
      cells := BlankCells(height / FONT_H, width / FONT_W, BLACK);
    }

    // ---- pixels -----------------------------------------------------------------------------

    /** bootvid_put_pixel. */
    method PutPixel(y: nat, x: nat, color: nat)
      requires Ready() && color < U32
      modifies this`grid, fb
      ensures Ready() && PaddingKept(g, old(fb[..]), fb[..])
      ensures grid == if y < g.height && x < g.width
                      then old(grid)[y := WithPixel(old(grid)[y], x, color)] else old(grid)
    {
      if y >= g.height || x >= g.width { return; }
      ghost var mem := fb[..];
      StorePixelAt(y, x, color);
      PixelWritten(g, mem, fb[..], grid, y, x, color, RowAt(g, y));
      grid := grid[y := WithPixel(grid[y], x, color)];
    }

    method StorePixelAt(y: nat, x: nat, color: nat)
      requires GeometryOk(g, fb.Length) && y < g.height && x < g.width && color < U32
      modifies fb
      ensures Written(old(fb[..]), RowAt(g, y) + 4 * x, color, fb[..])
    {
      var at := RowOffset(y);
      PixelInside(g, fb.Length, y, x);
      StorePixel((at + x * 4) % U32, color);
    }

    /** A 32-bit store. */
    method StorePixel(at: nat, color: nat)
      requires at + 4 <= fb.Length && color < U32
      modifies fb
      ensures Stored(fb[..], at, color)
      ensures forall i :: 0 <= i < fb.Length && !(at <= i < at + 4) ==> fb[i] == old(fb[i])
    {
      fb[at] := color % 0x100;
      fb[at + 1] := color / 0x100 % 0x100;
      fb[at + 2] := color / 0x1_0000 % 0x100;
      fb[at + 3] := color / 0x100_0000;
    }

    /** A whole row in one colour. */
    method FillRow(y: nat, color: nat)
      requires Ready() && color < U32 && y < g.height
      modifies this`grid, fb
      ensures Ready() && PaddingKept(g, old(fb[..]), fb[..])
      ensures |grid| == g.height && grid == old(grid)[y := grid[y]] && Plain(grid[y], g.width, color)
    {
      var x := 0;
      while x < g.width
        invariant 0 <= x <= g.width
        invariant Ready() && PaddingKept(g, old(fb[..]), fb[..])
        invariant |grid| == g.height && grid == old(grid)[y := grid[y]] && |grid[y]| == g.width
        invariant forall i :: 0 <= i < x ==> grid[y][i] == color
      {
        ghost var mem := fb[..];
        PutPixel(y, x, color);
        PaddingKeptTwice(g, old(fb[..]), mem, fb[..]);
        x := x + 1;
      }
    }

    /** All rows from `top` on in one colour. */
    method FillFrom(top: nat, color: nat)
      requires Ready() && color < U32 && top <= g.height
      modifies this`grid, fb
      ensures Ready() && PaddingKept(g, old(fb[..]), fb[..])
      ensures |grid| == g.height && grid[..top] == old(grid[..top])
      ensures forall y :: top <= y < g.height ==> Plain(grid[y], g.width, color)
    {
      var y := top;
      while y < g.height
        invariant top <= y <= g.height
        invariant Ready() && PaddingKept(g, old(fb[..]), fb[..])
        invariant |grid| == g.height && grid[..top] == old(grid[..top])
        invariant forall j :: top <= j < y ==> Plain(grid[j], g.width, color)
      {
        ghost var mem := fb[..];
        FillRow(y, color);
        PaddingKeptTwice(g, old(fb[..]), mem, fb[..]);
        y := y + 1;
      }
    }

    /** bootvid_clear. The cursor stays where it is. */
    method Clear(color: nat)
      requires Ready() && color < U32
      modifies this`grid, this`cells, fb
      ensures Shown() && PaddingKept(g, old(fb[..]), fb[..]) && Leftover(grid, rows, cols, color)
      ensures |grid| == g.height && forall y :: 0 <= y < g.height ==> Plain(grid[y], g.width, color)
      ensures forall r :: 0 <= r < rows ==> cells[r] == BlankRow(cols, color)
      ensures old(Running()) && (color == bg || g.height % FONT_H == 0) ==> Displays()
    {
      FillFrom(0, color);
      cells := BlankCells(rows, cols, color);
      ClearedShows(font, grid, g.width, cells, rows, cols, color);
      if g.height % FONT_H == 0 { NoLeftover(grid, rows, cols, bg); }
    }

    // ---- glyphs -----------------------------------------------------------------------------

    /** One pixel of a glyph, from its row's byte shifted left `dx` times. */
    method PutGlyphPixel(y: nat, left: nat, cell: Cell, dy: nat, dx: nat, bits: byte)
      requires Ready() && cell.fg < U32 && cell.bg < U32 && dy < FONT_H && dx < FONT_W && left < U32
      requires bits == Shifted(font[GlyphIndex(cell.cp)][dy], dx)
      modifies this`grid, fb
      ensures Ready() && PaddingKept(g, old(fb[..]), fb[..])
      ensures var x := (left + dx) % U32;
              grid == if y < g.height && x < g.width
                      then old(grid)[y := WithPixel(old(grid)[y], x, Ink(font, cell, dy, dx))] else old(grid)
    {
      PutPixel(y, (left + dx) % U32, if bits >= 0x80 then cell.fg else cell.bg);
    }

    /** One row of a glyph. */
    method PutGlyphRow(y: nat, left: nat, cell: Cell, dy: nat)
      requires Ready() && cell.fg < U32 && cell.bg < U32 && dy < FONT_H && left < U32
      modifies this`grid, fb
      ensures Ready() && PaddingKept(g, old(fb[..]), fb[..])
      ensures RowPainted(font, old(grid), y, left, cell, dy, FONT_W, grid)
    {
      var glyph := font[GlyphIndex(cell.cp)][dy];
      var bits, x := glyph, 0;
      while x < FONT_W
        invariant 0 <= x <= FONT_W && bits == Shifted(glyph, x)
        invariant Ready() && PaddingKept(g, old(fb[..]), fb[..])
        invariant RowPainted(font, old(grid), y, left, cell, dy, x, grid)
      {
        ghost var mem, before := fb[..], grid;
        PutGlyphPixel(y, left, cell, dy, x, bits);
        RowPaintedNext(font, old(grid), y, left, cell, dy, x, before, grid);
        PaddingKeptTwice(g, old(fb[..]), mem, fb[..]);
        bits := (bits as int) * 2 % 0x100;
        x := x + 1;
      }
    }

    /** bootvid_putchar_raw, clipped to the screen; positions are 32-bit sums. */
    method PutCharRaw(top: nat, left: nat, cell: Cell)
      requires Ready() && cell.fg < U32 && cell.bg < U32 && top < U32 && left < U32
      modifies this`grid, fb
      ensures Ready() && PaddingKept(g, old(fb[..]), fb[..])
      ensures PaintedWrapped(font, old(grid), top, left, cell, grid)
    {
      var dy := 0;
      while dy < FONT_H
        invariant 0 <= dy <= FONT_H
        invariant Ready() && PaddingKept(g, old(fb[..]), fb[..])
        invariant PaintedRows(font, old(grid), top, left, cell, dy, grid)
      {
        ghost var mem, before := fb[..], grid;
        PutGlyphRow((top + dy) % U32, left, cell, dy);
        PaintedRowsNext(font, old(grid), top, left, cell, dy, before, grid);
        PaddingKeptTwice(g, old(fb[..]), mem, fb[..]);
        dy := dy + 1;
      }
    }

    /** bootvid_putchar at a row of the screen: the position is a 32-bit product. */
    method PutChar(r: nat, c: nat, cell: Cell)
      requires Screen() && r < rows && c < U32 && cell.fg < U32 && cell.bg < U32
      modifies this`grid, this`cells, fb
      ensures Screen() && PaddingKept(g, old(fb[..]), fb[..])
      ensures cells == Drawn(old(cells), r, c, cell) && (old(Shown()) ==> Shown())
      ensures forall color :: old(Leftover(grid, rows, cols, color)) ==> Leftover(grid, rows, cols, color)
    {
      ghost var before, shown := grid, Shown();
      WidthIsSmall(g, fb.Length);
      PutCharRaw(r * FONT_H % U32, c * FONT_W % U32, cell);
      GlyphPosition(r, c, g.height);
      WrappedIsPainted(font, before, FONT_H * r, FONT_W * Column(c), cell, grid);
      PaintedLeftover(font, before, r, Column(c), cell, grid, rows, cols);
      if shown { PaintedDrawn(font, before, r, c, cell, grid, cells, rows, cols); }
      cells := Drawn(cells, r, c, cell);
    }

    // ---- scrolling --------------------------------------------------------------------------

    /** One row's pixels, byte by byte, from a lower row. */
    method CopyRow(y: nat, src: nat)
      requires Ready() && y < g.height && src < g.height
      modifies this`grid, fb
      ensures Ready() && PaddingKept(g, old(fb[..]), fb[..])
      ensures grid == old(grid)[y := old(grid)[src]]
    {
      ghost var mem := fb[..];
      CopyRowBytes(y, src);
      RowMoved(g, mem, fb[..], grid, y, src, RowAt(g, y), RowAt(g, src));
      grid := grid[y := grid[src]];
    }

    method RowOffset(y: nat) returns (at: nat)
      ensures at == RowAt(g, y)
    {
      RowAtProduct(g, y);
      at := y * g.pitch;
    }

    method CopyRowBytes(y: nat, src: nat)
      requires GeometryOk(g, fb.Length) && y < g.height && src < g.height
      modifies fb
      ensures Moved(old(fb[..]), RowAt(g, y), RowAt(g, src), 4 * g.width, fb[..])
    {
      var dstAt := RowOffset(y);
      var srcAt := RowOffset(src);
      var n := 4 * g.width;
      RowPair(g, fb.Length, y, src, dstAt, srcAt, n);
      MoveBytes(dstAt, srcAt, n);
    }

    method MoveBytes(dst: nat, src: nat, n: nat)
      requires dst + n <= fb.Length && src + n <= fb.Length && (dst == src || dst + n <= src || src + n <= dst)
      modifies fb
      ensures Moved(old(fb[..]), dst, src, n, fb[..])
    {
      var x := 0;
      while x < n
        invariant 0 <= x <= n
        invariant forall i :: dst <= i < dst + x ==> fb[i] == old(fb[i - dst + src])
        invariant forall i :: 0 <= i < fb.Length && !(dst <= i < dst + x) ==> fb[i] == old(fb[i])
      {
        fb[dst + x] := fb[src + x];
        x := x + 1;
      }
    }

    /** Copies every row that has one `lines` below it. */
    method MoveRowsUp(lines: nat)
      requires Ready() && lines < g.height
      modifies this`grid, fb
      ensures Ready() && PaddingKept(g, old(fb[..]), fb[..])
      ensures |grid| == g.height && forall j :: 0 <= j < g.height - lines ==> grid[j] == old(grid)[j + lines]
    {
      var y := 0;
      while y < g.height - lines
        invariant 0 <= y <= g.height - lines
        invariant Ready() && PaddingKept(g, old(fb[..]), fb[..])
        invariant |grid| == g.height
        invariant forall j :: 0 <= j < y ==> grid[j] == old(grid)[j + lines]
        invariant forall j :: y <= j < g.height ==> grid[j] == old(grid)[j]
      {
        ghost var mem := fb[..];
        CopyRow(y, y + lines);
        PaddingKeptTwice(g, old(fb[..]), mem, fb[..]);
        y := y + 1;
      }
    }

    /** bootvid_scroll_up; the line count is a 32-bit product. */
    method ScrollUp(lines: nat)
      requires Ready()
      modifies this`grid, fb
      ensures Ready() && PaddingKept(g, old(fb[..]), fb[..])
      ensures Scrolled(old(grid), lines * FONT_H % U32, g.width, bg, grid)
    {
      ScrollRows(lines * FONT_H % U32);
    }

    method ScrollRows(pixelLines: nat)
      requires Ready()
      modifies this`grid, fb
      ensures Ready() && PaddingKept(g, old(fb[..]), fb[..])
      ensures Scrolled(old(grid), pixelLines, g.width, bg, grid)
    {
      if pixelLines >= g.height {
        FillFrom(0, bg);
        return;
      }
      MoveRowsUp(pixelLines);
      ghost var mem, moved := fb[..], grid;
      var kept := g.height - pixelLines;
      FillFrom(kept, bg);
      PaddingKeptTwice(g, old(fb[..]), mem, fb[..]);
      assert forall j :: 0 <= j < kept ==> grid[j] == grid[..kept][j] == moved[..kept][j] == moved[j];
    }

    // ---- the terminal -----------------------------------------------------------------------

    method ScrollLine()
      requires Ready()
      modifies this`grid, fb
      ensures Ready() && PaddingKept(g, old(fb[..]), fb[..])
      ensures Scrolled(old(grid), FONT_H, g.width, bg, grid)
    {
      assert 1 * FONT_H % U32 == FONT_H;
      ScrollUp(1);
    }

    /** Scrolls one line when the cursor is past the last row. */
    method ScrollIfBelow()
      requires Running()
      modifies this`grid, this`cells, this`row, fb
      ensures Running() && PaddingKept(g, old(fb[..]), fb[..])
      ensures T() == Settle(old(T()), cols) && (old(Displays()) ==> Displays())
    {
      if row >= rows {
        ghost var shown := Displays();
        ScrollLine();
        if shown { ScrolledShowsIff(font, old(grid), g.width, old(T()), rows, cols, grid); }
        cells := Scroll(T(), cols).cells;
        row := rows - 1;
      }
    }

    /** bootvid_putc: the terminal takes the character, and a screen that shows it goes on to. */
    method PutC(ch: byte)
      requires Running()
      modifies this`grid, this`cells, this`row, this`col, fb
      ensures Running() && PaddingKept(g, old(fb[..]), fb[..])
      ensures T() == Put(old(T()), ch, cols) && (old(Displays()) ==> Displays())
    {
      PutCodepoint(ch);
    }

    /** bootvid_putc_sucs: codepoints outside SUCS are refused. */
    method PutCSucs(cp: nat) returns (ok: bool)
      requires Running()
      modifies this`grid, this`cells, this`row, this`col, fb
      ensures Running() && PaddingKept(g, old(fb[..]), fb[..])
      ensures ok <==> IsValid(cp)
      ensures T() == (if ok then Put(old(T()), cp, cols) else old(T())) && (old(Displays()) ==> Displays())
    {
      if !IsValid(cp) { return false; }
      PutCodepoint(cp);
      ok := true;
    }

    /** The common part of both. */
    method PutCodepoint(cp: nat)
      requires Running()
      modifies this`grid, this`cells, this`row, this`col, fb
      ensures Running() && PaddingKept(g, old(fb[..]), fb[..])
      ensures T() == Put(old(T()), cp, cols) && (old(Displays()) ==> Displays())
    {
      if cp == NEWLINE {
        col := 0;
        row := (row + 1) % U32;
      } else if cp == RETURN {
        col := 0;
      } else {
        ScrollIfBelow();
        Draw(cp);
        Advance();
      }
    }

    /** bootvid_putchar at the cursor. */
    method Draw(cp: nat)
      requires Running() && row < rows
      modifies this`grid, this`cells, fb
      ensures Running() && PaddingKept(g, old(fb[..]), fb[..]) && (old(Displays()) ==> Displays())
      ensures T() == old(T()).(cells := old(cells)[row := old(cells)[row][col := Cell(cp, fg, bg)]])
    {
      WidthIsSmall(g, fb.Length);
      assert Column(col) == col;
      PutChar(row, col, Cell(cp, fg, bg));
    }

    /** The cursor moves on after a character. */
    method Advance()
      requires Running() && row < rows
      modifies this`grid, this`cells, this`row, this`col, fb
      ensures Running() && PaddingKept(g, old(fb[..]), fb[..]) && (old(Displays()) ==> Displays())
      ensures T() == if old(col) + 1 < cols then old(T()).(col := old(col) + 1)
                     else Settle(old(T()).(col := 0, row := old(row) + 1), cols)
    {
      col := col + 1;
      if col >= cols {
        col := 0;
        row := row + 1;
        ScrollIfBelow();
      }
    }

    /** The loop of bootvid_puts_at. */
    method TypeText(text: seq<byte>)
      requires Running()
      modifies this`grid, this`cells, this`row, this`col, fb
      ensures Running() && PaddingKept(g, old(fb[..]), fb[..])
      ensures T() == Type(old(T()), text, rows, cols) && (old(Displays()) ==> Displays())
    {
      ghost var start := T();
      var i := 0;
      assert text[..0] == [];
      while i < |text|
        invariant 0 <= i <= |text|
        invariant Running() && PaddingKept(g, old(fb[..]), fb[..])
        invariant T() == Type(start, text[..i], rows, cols) && (old(Displays()) ==> Displays())
      {
        ghost var mem := fb[..];
        PutC(text[i]);
        PaddingKeptTwice(g, old(fb[..]), mem, fb[..]);
        assert text[..i + 1] == text[..i] + [text[i]];
        TypeConcat(start, text[..i], [text[i]], rows, cols);
        i := i + 1;
      }
      assert text[..i] == text;
    }

    /** bootvid_puts_at: the text in the given colours, which are then put back. The screen goes on
        showing the terminal unless another background meets pixel rows below the last text row. */
    method PutsAt(text: seq<byte>, fg': nat, bg': nat)
      requires Running() && fg' < U32 && bg' < U32
      modifies this, fb
      ensures Running() && PaddingKept(g, old(fb[..]), fb[..])
      ensures T() == Type(old(T()).(fg := fg', bg := bg'), text, rows, cols).(fg := old(fg), bg := old(bg))
      ensures old(Displays()) && (bg' == old(bg) || g.height % FONT_H == 0) ==> Displays()
    {
      var oldFg, oldBg := fg, bg;
      fg, bg := fg', bg';
      if g.height % FONT_H == 0 { NoLeftover(grid, rows, cols, bg'); }
      TypeText(text);
      fg, bg := oldFg, oldBg;
      if g.height % FONT_H == 0 { NoLeftover(grid, rows, cols, oldBg); }
    }

    // ---- text at a position -------------------------------------------------------------------

    /** One codepoint of bootvid_puts_sucs other than a line feed, and the next position. */
    method LayOne(r: nat, c: nat, col0: nat, cp: nat, fg': nat, bg': nat) returns (r': nat, c': nat)
      requires Screen() && r < rows && c < U32 && fg' < U32 && bg' < U32 && cp != NEWLINE
      modifies this`grid, this`cells, fb
      ensures Screen() && PaddingKept(g, old(fb[..]), fb[..])
      ensures cells == if IsValid(cp) then Drawn(old(cells), r, c, Cell(cp, fg', bg')) else old(cells)
      ensures old(Shown()) ==> Shown()
      ensures forall color :: old(Leftover(grid, rows, cols, color)) ==> Leftover(grid, rows, cols, color)
      ensures (r', c') == NextPlace(r, c, col0, cols)
    {
      if IsValid(cp) { PutChar(r, c, Cell(cp, fg', bg')); }
      r', c' := r, (c + 1) % U32;
      if c' >= cols {
        c' := col0;
        r' := (r' + 1) % U32;
      }
    }

    /** bootvid_puts_sucs over NUL-terminated SUTF-8, malformed or not: its codepoints are laid out
        from the given position, the cursor stays, and a screen that shows its cells goes on to. */
    method PutsSucs(row0: nat, col0: nat, text: array<byte>, fg': nat, bg': nat)
      requires Screen() && row0 < U32 && col0 < U32 && fg' < U32 && bg' < U32
      requires text != fb && 0 < text.Length && text[text.Length - 1] == 0
      modifies this`grid, this`cells, fb
      ensures Screen() && PaddingKept(g, old(fb[..]), fb[..]) && (old(Shown()) ==> Shown())
      ensures cells == Lay(old(cells), row0, col0, col0, Codepoints(text[..]), fg', bg', cols)
      ensures forall color :: old(Leftover(grid, rows, cols, color)) ==> Leftover(grid, rows, cols, color)
    {
      var r: nat, c: nat, p: nat := row0, col0, 0;
      ghost var todo := Codepoints(text[..]);
      ghost var goal := Lay(cells, row0, col0, col0, todo, fg', bg', cols);
      assert text[0..] == text[..];
      while text[p] != 0
        invariant p < text.Length && c < U32
        invariant Screen() && PaddingKept(g, old(fb[..]), fb[..]) && (old(Shown()) ==> Shown())
        invariant forall color :: old(Leftover(grid, rows, cols, color)) ==> Leftover(grid, rows, cols, color)
        invariant todo == Codepoints(text[p..])
        invariant goal == Lay(cells, r, c, col0, todo, fg', bg', cols)
        decreases text.Length - p
      {
        var cp;
        p, cp, todo := WalkNext(text, p, todo);
        LayStep(cells, r, c, col0, cp, todo, fg', bg', cols);
        if cp == NEWLINE {
          r, c := (r + 1) % U32, col0;
          continue;
        }
        if r >= rows { return; }
        ghost var mem := fb[..];
        r, c := LayOne(r, c, col0, cp, fg', bg');
        PaddingKeptTwice(g, old(fb[..]), mem, fb[..]);
      }
    }
  }
}

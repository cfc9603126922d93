/** Where text goes: typed at the cursor, with its scrolls, or laid out from a position. */
module TextLayout {
  import opened Bytes
  import opened PrefixCode
  import opened Sutf8
  import opened Sutf8Walk
  import opened Terminal

  // ---- places -----------------------------------------------------------------------------------

  /** Cells counted row by row. */
  function Place(row: nat, col: nat, cols: nat): nat
    decreases row
  {
    if row == 0 then col else cols + Place(row - 1, col, cols)
  }

  lemma {:induction false} PlaceProduct(row: nat, col: nat, cols: nat)
    ensures Place(row, col, cols) == row * cols + col
    decreases row
  {
    if row == 0 {
    } else {
      PlaceProduct(row - 1, col, cols);
      assert row * cols == (row - 1) * cols + cols;
    }
  }

  lemma {:induction false} PlaceShift(row: nat, col: nat, n: nat, cols: nat)
    ensures Place(row, col + n, cols) == Place(row, col, cols) + n
    decreases row
  {
    if row == 0 {
    } else {
      PlaceShift(row - 1, col, n, cols);
    }
  }

  lemma {:induction false} PlacesDiffer(r: nat, c: nat, r': nat, c': nat, cols: nat)
    requires c < cols && c' < cols && r < r'
    ensures Place(r, c, cols) < Place(r', c', cols)
    decreases r'
  {
    if r == 0 {
    } else {
      PlacesDiffer(r - 1, c, r' - 1, c', cols);
    }
  }

  lemma PlacesUnique(r: nat, c: nat, r': nat, c': nat, cols: nat)
    requires c < cols && c' < cols
    ensures Place(r, c, cols) == Place(r', c', cols) <==> r == r' && c == c'
  {
    if r < r' { PlacesDiffer(r, c, r', c', cols); }
    if r' < r { PlacesDiffer(r', c', r, c, cols); }
  }

  lemma PlaceOf(p: nat, cols: nat)
    requires cols > 0
    ensures Place(p / cols, p % cols, cols) == p
  {
    PlaceProduct(p / cols, p % cols, cols);
  }

  lemma PlaceIs(row: nat, col: nat, cols: nat)
    requires col < cols
    ensures Place(row, col, cols) / cols == row && Place(row, col, cols) % cols == col
  {
    var p := Place(row, col, cols);
    PlaceOf(p, cols);
    PlacesUnique(p / cols, p % cols, row, col, cols);
  }

  /** The row of place `p`. */
  function RowOf(p: nat, cols: nat): nat
    requires cols > 0
  {
    if p < cols then 0 else 1 + RowOf(p - cols, cols)
  }

  lemma {:induction false} RowOfPlace(row: nat, col: nat, cols: nat)
    requires col < cols
    ensures RowOf(Place(row, col, cols), cols) == row
    decreases row
  {
    if row == 0 {
    } else {
      RowOfPlace(row - 1, col, cols);
    }
  }

  // ---- typed at the cursor ------------------------------------------------------------------------

  predicate IsControl(ch: nat) {
    ch == NEWLINE || ch == RETURN
  }

  /** How many scrolls bring row `row` of an endless screen back into `rows` rows. */
  function Scrolls(row: nat, rows: nat): nat {
    if row < rows then 0 else row - rows + 1
  }

  /** Text written without a break from row `row`, column `col` of an endless screen on. */
  datatype Stroke = Stroke(row: nat, col: nat, text: seq<nat>)

  function Start(s: Stroke, cols: nat): nat {
    Place(s.row, s.col, cols)
  }

  function End(s: Stroke, cols: nat): nat {
    Start(s, cols) + |s.text|
  }

  /** Cell (`row`, `c`) of the endless screen that begins as `t`, is blank below it, and has the
      strokes drawn on it, later ones over earlier ones: character `k` of a stroke stands `k` places
      after its start. */
  function Endless(t: Term, strokes: seq<Stroke>, row: nat, c: nat, cols: nat): Cell
    requires forall r :: 0 <= r < |t.cells| ==> |t.cells[r]| == cols
    requires c < cols
    decreases |strokes|
  {
    if strokes == [] then
      if row < |t.cells| then t.cells[row][c] else Cell(SPACE, t.bg, t.bg)
    else
      var last := |strokes| - 1;
      var k := Place(row, c, cols) - Start(strokes[last], cols);
      if 0 <= k < |strokes[last].text| then Cell(strokes[last].text[k], t.fg, t.bg)
      else Endless(t, strokes[..last], row, c, cols)
  }

  /** No stroke reaches below row `q`. */
  ghost predicate EndBy(strokes: seq<Stroke>, q: nat, cols: nat) {
    forall i :: 0 <= i < |strokes| ==> End(strokes[i], cols) <= Place(q + 1, 0, cols)
  }

  /** `u` is the last screenful of that endless screen, with the cursor at its row `q`, column `m`. */
  ghost predicate IsWindow(t: Term, strokes: seq<Stroke>, rows: nat, cols: nat, q: nat, m: nat, u: Term)
    requires TermOk(t, rows, cols) && TermOk(u, rows, cols)
  {
    && u.row == q - Scrolls(q, rows) && u.row < rows && u.col == m && u.fg == t.fg && u.bg == t.bg
    && (forall r, c :: 0 <= r < rows && 0 <= c < cols ==>
          u.cells[r][c] == Endless(t, strokes, r + Scrolls(q, rows), c, cols))
  }

  lemma {:induction false} BlankBelow(t: Term, strokes: seq<Stroke>, rows: nat, cols: nat, q: nat, row: nat, c: nat)
    requires TermOk(t, rows, cols) && EndBy(strokes, q, cols) && q < row && rows <= row && c < cols
    ensures Endless(t, strokes, row, c, cols) == Cell(SPACE, t.bg, t.bg)
    decreases |strokes|
  {
    if strokes == [] {
    } else {
      PlaceShift(row, 0, c, cols);
      if q + 1 < row { PlacesDiffer(q + 1, 0, row, 0, cols); }
      BlankBelow(t, strokes[..|strokes| - 1], rows, cols, q, row, c);
    }
  }

  /** The strokes with one more character on the last one. */
  function Longer(strokes: seq<Stroke>, ch: nat): seq<Stroke>
    requires strokes != []
  {
    var last := |strokes| - 1;
    strokes[..last] + [strokes[last].(text := strokes[last].text + [ch])]
  }

  /** Writing one more character changes one cell of the endless screen. */
  lemma DrawnIs(t: Term, strokes: seq<Stroke>, ch: nat, cols: nat, row: nat, col: nat, r: nat, c: nat)
    requires forall i :: 0 <= i < |t.cells| ==> |t.cells[i]| == cols
    requires strokes != [] && col < cols && c < cols && Place(row, col, cols) == End(strokes[|strokes| - 1], cols)
    ensures Endless(t, Longer(strokes, ch), r, c, cols) ==
              if r == row && c == col then Cell(ch, t.fg, t.bg) else Endless(t, strokes, r, c, cols)
  {
    var last := |strokes| - 1;
    assert Longer(strokes, ch)[..last] == strokes[..last];
    PlacesUnique(row, col, r, c, cols);
  }

  /** The window with one more character drawn, before the cursor moves. */
  lemma WindowDrawn(
    t: Term, strokes: seq<Stroke>, ch: nat, rows: nat, cols: nat, q: nat, m: nat, u: Term, drawn: Cells)
    requires TermOk(t, rows, cols) && TermOk(u, rows, cols) && m < cols && strokes != []
    requires Place(q, m, cols) == End(strokes[|strokes| - 1], cols) && IsWindow(t, strokes, rows, cols, q, m, u)
    requires drawn == u.cells[u.row := u.cells[u.row][u.col := Cell(ch, u.fg, u.bg)]]
    ensures forall r, c :: 0 <= r < rows && 0 <= c < cols ==>
              drawn[r][c] == Endless(t, Longer(strokes, ch), r + Scrolls(q, rows), c, cols)
  {
    var up := Scrolls(q, rows);
    forall r, c | 0 <= r < rows && 0 <= c < cols
      ensures drawn[r][c] == Endless(t, Longer(strokes, ch), r + up, c, cols)
    {
      assert u.cells[r][c] == Endless(t, strokes, r + up, c, cols);
      DrawnIs(t, strokes, ch, cols, q, m, r + up, c);
    }
  }

  /** The cursor after row `q`, column `m`. */
  function NextRow(q: nat, m: nat, cols: nat): nat {
    if m + 1 < cols then q else q + 1
  }

  function NextCol(m: nat, cols: nat): nat {
    if m + 1 < cols then m + 1 else 0
  }

  lemma {:induction false} PlaceNext(q: nat, m: nat, cols: nat)
    requires m < cols
    ensures Place(NextRow(q, m, cols), NextCol(m, cols), cols) == Place(q, m, cols) + 1
  {
    PlaceShift(q, m, 1, cols);
    PlaceShift(q, 0, m, cols);
  }

  lemma LongerEndsBy(strokes: seq<Stroke>, ch: nat, cols: nat, q: nat, m: nat)
    requires strokes != [] && m < cols && EndBy(strokes, q, cols)
    requires Place(q, m, cols) == End(strokes[|strokes| - 1], cols)
    ensures EndBy(Longer(strokes, ch), q, cols)
  {
    PlaceShift(q, 0, m, cols);
    var longer := Longer(strokes, ch);
    forall i | 0 <= i < |longer| ensures End(longer[i], cols) <= Place(q + 1, 0, cols) {
      if i < |strokes| - 1 { assert longer[i] == strokes[i]; }
    }
    assert Place(q + 1, 0, cols) == cols + Place(q, 0, cols);
  }

  /** One more character. */
  lemma WindowNext(t: Term, strokes: seq<Stroke>, ch: nat, rows: nat, cols: nat, q: nat, m: nat, u: Term)
    requires TermOk(t, rows, cols) && TermOk(u, rows, cols) && !IsControl(ch) && m < cols && strokes != []
    requires Place(q, m, cols) == End(strokes[|strokes| - 1], cols) && EndBy(strokes, q, cols)
    requires IsWindow(t, strokes, rows, cols, q, m, u)
    ensures TermOk(Put(u, ch, cols), rows, cols)
    ensures IsWindow(t, Longer(strokes, ch), rows, cols, NextRow(q, m, cols), NextCol(m, cols), Put(u, ch, cols))
    ensures EndBy(Longer(strokes, ch), NextRow(q, m, cols), cols)
  {
    PutKeepsOk(u, ch, rows, cols);
    LongerEndsBy(strokes, ch, cols, q, m);
    EndByMore(Longer(strokes, ch), q, NextRow(q, m, cols), cols);
    var drawn := u.(cells := u.cells[u.row := u.cells[u.row][u.col := Cell(ch, u.fg, u.bg)]]);
    WindowDrawn(t, strokes, ch, rows, cols, q, m, u, drawn.cells);
    PutIs(u, ch, rows, cols, drawn);
    WindowMoves(t, Longer(strokes, ch), rows, cols, q, m, drawn, Put(u, ch, cols));
  }

  /** A character on the screen is drawn and the cursor moves on. */
  lemma PutIs(u: Term, ch: nat, rows: nat, cols: nat, drawn: Term)
    requires TermOk(u, rows, cols) && !IsControl(ch) && u.row < rows
    requires drawn == u.(cells := u.cells[u.row := u.cells[u.row][u.col := Cell(ch, u.fg, u.bg)]])
    ensures TermOk(drawn, rows, cols) && Put(u, ch, cols) == MovedOn(drawn, cols)
  {
  }

  function MovedOn(u: Term, cols: nat): Term
    requires u.row < |u.cells|
  {
    if u.col + 1 < cols then u.(col := u.col + 1)
    else if u.row + 1 < |u.cells| then u.(col := 0, row := u.row + 1)
    else u.(col := 0, cells := u.cells[1..] + [BlankRow(cols, u.bg)])
  }

  lemma WindowMoves(t: Term, strokes: seq<Stroke>, rows: nat, cols: nat, q: nat, m: nat, u: Term, u': Term)
    requires TermOk(t, rows, cols) && TermOk(u, rows, cols) && TermOk(u', rows, cols) && EndBy(strokes, q, cols)
    requires IsWindow(t, strokes, rows, cols, q, m, u) && u' == MovedOn(u, cols)
    ensures IsWindow(t, strokes, rows, cols, NextRow(q, m, cols), NextCol(m, cols), u')
  {
    if m + 1 >= cols && u.row + 1 >= rows { WindowScrolls(t, strokes, rows, cols, q, u, u'); }
  }

  lemma EndByMore(strokes: seq<Stroke>, q: nat, q': nat, cols: nat)
    requires EndBy(strokes, q, cols) && q <= q' && 0 < cols
    ensures EndBy(strokes, q', cols)
  {
    if q < q' { PlacesDiffer(q + 1, 0, q' + 1, 0, cols); }
  }

  /** A scroll: the row below the window comes into it, blank. */
  lemma WindowScrolls(t: Term, strokes: seq<Stroke>, rows: nat, cols: nat, q: nat, u: Term, u': Term)
    requires TermOk(t, rows, cols) && TermOk(u, rows, cols) && TermOk(u', rows, cols) && rows <= q + 1
    requires EndBy(strokes, q, cols)
    requires forall r, c :: 0 <= r < rows && 0 <= c < cols ==>
               u.cells[r][c] == Endless(t, strokes, r + Scrolls(q, rows), c, cols)
    requires u'.cells == u.cells[1..] + [BlankRow(cols, t.bg)]
    ensures forall r, c :: 0 <= r < rows && 0 <= c < cols ==>
              u'.cells[r][c] == Endless(t, strokes, r + Scrolls(q + 1, rows), c, cols)
  {
    assert Scrolls(q + 1, rows) == Scrolls(q, rows) + 1;
    forall r, c | 0 <= r < rows && 0 <= c < cols
      ensures u'.cells[r][c] == Endless(t, strokes, r + Scrolls(q + 1, rows), c, cols)
    {
      if r + 1 < rows {
        CellMovesUp(u.cells, u'.cells, rows, cols, t.bg, r, c);
        assert u.cells[r + 1][c] == Endless(t, strokes, r + 1 + Scrolls(q, rows), c, cols);
      } else {
        CellMovesUp(u.cells, u'.cells, rows, cols, t.bg, r, c);
        BlankBelow(t, strokes, rows, cols, q, r + Scrolls(q + 1, rows), c);
      }
    }
  }

  lemma CellMovesUp(cells: Cells, cells': Cells, rows: nat, cols: nat, bg: nat, r: nat, c: nat)
    requires CellsOk(cells, rows, cols) && r < rows && c < cols && cells' == cells[1..] + [BlankRow(cols, bg)]
    ensures |cells'| == rows && |cells'[r]| == cols
    ensures cells'[r][c] == if r + 1 < rows then cells[r + 1][c] else Cell(SPACE, bg, bg)
  {
  }

  lemma LongerTwice(strokes: seq<Stroke>, s: Stroke, ch: nat)
    ensures Longer(strokes + [s], ch) == strokes + [s.(text := s.text + [ch])]
  {
    assert (strokes + [s])[..|strokes|] == strokes;
  }

  /** A stroke from the cursor on. */
  lemma {:induction false} StrokeWindow(
    t: Term, strokes: seq<Stroke>, text: seq<nat>, rows: nat, cols: nat, row: nat, col: nat, u: Term)
    returns (q: nat, m: nat)
    requires TermOk(t, rows, cols) && TermOk(u, rows, cols) && col < cols && EndBy(strokes, row, cols)
    requires IsWindow(t, strokes, rows, cols, row, col, u)
    requires forall i :: 0 <= i < |text| ==> !IsControl(text[i])
    ensures var all := strokes + [Stroke(row, col, text)];
            && m < cols && Place(q, m, cols) == Place(row, col, cols) + |text| && EndBy(all, q, cols)
            && IsWindow(t, all, rows, cols, q, m, Type(u, text, rows, cols))
    decreases |text|
  {
    if text == [] {
      q, m := row, col;
      EmptyStroke(t, strokes, rows, cols, row, col, u);
    } else {
      var front, ch := text[..|text| - 1], text[|text| - 1];
      assert text == front + [ch];
      q, m := StrokeWindow(t, strokes, front, rows, cols, row, col, u);
      var mid := Type(u, front, rows, cols);
      WindowNext(t, strokes + [Stroke(row, col, front)], ch, rows, cols, q, m, mid);
      LongerTwice(strokes, Stroke(row, col, front), ch);
      TypeConcat(u, front, [ch], rows, cols);
      TypeOne(mid, ch, rows, cols);
      PlaceNext(q, m, cols);
      q, m := NextRow(q, m, cols), NextCol(m, cols);
    }
  }

  lemma EmptyStroke(t: Term, strokes: seq<Stroke>, rows: nat, cols: nat, row: nat, col: nat, u: Term)
    requires TermOk(t, rows, cols) && TermOk(u, rows, cols) && col < cols && EndBy(strokes, row, cols)
    requires IsWindow(t, strokes, rows, cols, row, col, u)
    ensures EndBy(strokes + [Stroke(row, col, [])], row, cols)
    ensures IsWindow(t, strokes + [Stroke(row, col, [])], rows, cols, row, col, u)
  {
    var all := strokes + [Stroke(row, col, [])];
    assert all[..|strokes|] == strokes;
    PlaceShift(row, 0, col, cols);
    assert Place(row + 1, 0, cols) == cols + Place(row, 0, cols);
  }

  /** Text without control characters, of any length: the screen shows the last screenful of an
      endless screen on which character `k` stands `k` places after the cursor. */
  lemma TextInPlace(t: Term, text: seq<nat>, rows: nat, cols: nat, p: nat, q: nat, m: nat)
    requires TermOk(t, rows, cols) && t.row < rows && p == Place(t.row, t.col, cols) + |text|
    requires q == p / cols && m == p % cols && forall i :: 0 <= i < |text| ==> !IsControl(text[i])
    ensures IsWindow(t, [Stroke(t.row, t.col, text)], rows, cols, q, m, Type(t, text, rows, cols))
  {
    var q', m' := StrokeWindow(t, [], text, rows, cols, t.row, t.col, t);
    assert [] + [Stroke(t.row, t.col, text)] == [Stroke(t.row, t.col, text)];
    PlaceIs(q', m', cols);
  }

  // ---- line feeds and carriage returns ------------------------------------------------------------

  /** Control characters and the text after them. */
  datatype Segment = Segment(controls: seq<nat>, text: seq<nat>)

  ghost predicate SegmentOk(g: Segment) {
    && g.controls != [] && (forall i :: 0 <= i < |g.controls| ==> IsControl(g.controls[i]))
    && g.text != [] && (forall i :: 0 <= i < |g.text| ==> !IsControl(g.text[i]))
  }

  function Feeds(controls: seq<nat>): (n: nat)
    ensures n <= |controls|
  {
    if controls == [] then 0 else (if controls[0] == NEWLINE then 1 else 0) + Feeds(controls[1..])
  }

  /** The row of the endless screen in which text after `feeds` line feeds begins: that many rows
      down, but never more than one below the window. */
  function RowAfter(q: nat, feeds: nat, rows: nat): nat {
    if q - Scrolls(q, rows) + feeds < rows then q + feeds else Scrolls(q, rows) + rows
  }

  /** Without a line feed that is the same row, after one the next. */
  lemma RowAfterIs(q: nat, rows: nat)
    requires 0 < rows
    ensures RowAfter(q, 0, rows) == q && RowAfter(q, 1, rows) == q + 1
  {
  }

  /** The segments as strokes: each begins in column 0, of the row its line feeds lead to from the row
      in which the stroke before it ended. */
  function StrokesOf(q: nat, gs: seq<Segment>, rows: nat, cols: nat): seq<Stroke>
    requires cols > 0
    decreases |gs|
  {
    if gs == [] then []
    else
      var s := Stroke(RowAfter(q, Feeds(gs[0].controls), rows), 0, gs[0].text);
      [s] + StrokesOf(RowOf(End(s, cols), cols), gs[1..], rows, cols)
  }

  function TextOf(gs: seq<Segment>): seq<nat> {
    if gs == [] then [] else gs[0].controls + gs[0].text + TextOf(gs[1..])
  }

  /** Control characters only move the cursor. */
  lemma {:induction false} ControlsMove(u: Term, controls: seq<nat>, rows: nat, cols: nat)
    requires TermOk(u, rows, cols) && controls != [] && u.row + Feeds(controls) < U32
    requires forall i :: 0 <= i < |controls| ==> IsControl(controls[i])
    ensures Type(u, controls, rows, cols) == u.(row := u.row + Feeds(controls), col := 0)
    decreases |controls|
  {
    var v := Put(u, controls[0], cols);
    PutKeepsOk(u, controls[0], rows, cols);
    if |controls| == 1 {
      assert controls[1..] == [];
    } else {
      ControlsMove(v, controls[1..], rows, cols);
    }
  }

  /** The cursor after them, once the screen has scrolled for it. */
  lemma WindowFeeds(t: Term, strokes: seq<Stroke>, rows: nat, cols: nat, q: nat, m: nat, u: Term, feeds: nat, v: Term)
    requires TermOk(t, rows, cols) && TermOk(u, rows, cols) && TermOk(v, rows, cols) && EndBy(strokes, q, cols)
    requires IsWindow(t, strokes, rows, cols, q, m, u) && v == u.(row := u.row + feeds, col := 0)
    ensures TermOk(Settle(v, cols), rows, cols)
    ensures EndBy(strokes, RowAfter(q, feeds, rows), cols)
    ensures IsWindow(t, strokes, rows, cols, RowAfter(q, feeds, rows), 0, Settle(v, cols))
  {
    EndByMore(strokes, q, RowAfter(q, feeds, rows), cols);
    if u.row + feeds >= rows {
      var w := Settle(v, cols);
      if q + 1 >= rows {
        WindowScrolls(t, strokes, rows, cols, q, u, w);
      } else {
        EndByMore(strokes, q, rows - 1, cols);
        WindowScrolls(t, strokes, rows, cols, rows - 1, u, w);
      }
    }
  }

  /** One segment. */
  lemma SegmentWindow(t: Term, strokes: seq<Stroke>, g: Segment, rows: nat, cols: nat, q: nat, m: nat, u: Term)
    returns (q': nat, m': nat)
    requires TermOk(t, rows, cols) && TermOk(u, rows, cols) && SegmentOk(g) && |g.controls| + rows < U32
    requires EndBy(strokes, q, cols) && IsWindow(t, strokes, rows, cols, q, m, u)
    ensures var s := Stroke(RowAfter(q, Feeds(g.controls), rows), 0, g.text);
            && m' < cols && Place(q', m', cols) == End(s, cols) && EndBy(strokes + [s], q', cols)
            && IsWindow(t, strokes + [s], rows, cols, q', m', Type(u, g.controls + g.text, rows, cols))
  {
    ControlsMove(u, g.controls, rows, cols);
    TypeConcat(u, g.controls, g.text, rows, cols);
    var v := Type(u, g.controls, rows, cols);
    WindowFeeds(t, strokes, rows, cols, q, m, u, Feeds(g.controls), v);
    PendingScroll(v, g.text, rows, cols);
    q', m' := StrokeWindow(t, strokes, g.text, rows, cols, RowAfter(q, Feeds(g.controls), rows), 0, Settle(v, cols));
  }

  lemma {:induction false} SegmentsWindow(
    t: Term, strokes: seq<Stroke>, gs: seq<Segment>, rows: nat, cols: nat, q: nat, m: nat, u: Term)
    returns (q': nat, m': nat)
    requires TermOk(t, rows, cols) && TermOk(u, rows, cols) && m < cols
    requires forall i :: 0 <= i < |gs| ==> SegmentOk(gs[i]) && |gs[i].controls| + rows < U32
    requires EndBy(strokes, q, cols) && IsWindow(t, strokes, rows, cols, q, m, u)
    ensures var all := strokes + StrokesOf(q, gs, rows, cols);
            && m' < cols && (gs == [] ==> q' == q && m' == m)
            && (gs != [] ==> Place(q', m', cols) == End(all[|all| - 1], cols))
            && IsWindow(t, all, rows, cols, q', m', Type(u, TextOf(gs), rows, cols))
    decreases |gs|
  {
    if gs == [] {
      q', m' := q, m;
      assert strokes + StrokesOf(q, gs, rows, cols) == strokes;
    } else {
      var s := Stroke(RowAfter(q, Feeds(gs[0].controls), rows), 0, gs[0].text);
      var head, tail := gs[0].controls + gs[0].text, TextOf(gs[1..]);
      var q1, m1 := SegmentWindow(t, strokes, gs[0], rows, cols, q, m, u);
      RowOfPlace(q1, m1, cols);
      TypeConcat(u, head, tail, rows, cols);
      q', m' := SegmentsWindow(t, strokes + [s], gs[1..], rows, cols, q1, m1, Type(u, head, rows, cols));
      assert strokes + [s] + StrokesOf(q1, gs[1..], rows, cols) == strokes + StrokesOf(q, gs, rows, cols);
    }
  }

  /** Any text: control-free text at the cursor, then any number of segments. The screen shows the
      last screenful of the endless screen with one stroke for each. */
  lemma TypedInPlace(t: Term, first: seq<nat>, gs: seq<Segment>, rows: nat, cols: nat) returns (q: nat, m: nat)
    requires TermOk(t, rows, cols) && t.row < rows && forall i :: 0 <= i < |first| ==> !IsControl(first[i])
    requires forall i :: 0 <= i < |gs| ==> SegmentOk(gs[i]) && |gs[i].controls| + rows < U32
    ensures var s := Stroke(t.row, t.col, first);
            var all := [s] + StrokesOf(RowOf(End(s, cols), cols), gs, rows, cols);
            && m < cols && Place(q, m, cols) == End(all[|all| - 1], cols)
            && IsWindow(t, all, rows, cols, q, m, Type(t, first + TextOf(gs), rows, cols))
  {
    var s := Stroke(t.row, t.col, first);
    var q1, m1 := StrokeWindow(t, [], first, rows, cols, t.row, t.col, t);
    assert [] + [s] == [s];
    RowOfPlace(q1, m1, cols);
    TypeConcat(t, first, TextOf(gs), rows, cols);
    q, m := SegmentsWindow(t, [s], gs, rows, cols, q1, m1, Type(t, first, rows, cols));
  }

  lemma TypeOne(t: Term, ch: nat, rows: nat, cols: nat)
    requires TermOk(t, rows, cols)
    ensures Type(t, [ch], rows, cols) == Put(t, ch, cols)
  {
    PutKeepsOk(t, ch, rows, cols);
    assert [ch][1..] == [];
  }

  /** With newlines pending past the last row, the screen first scrolls once. */
  lemma PendingScroll(t: Term, text: seq<nat>, rows: nat, cols: nat)
    requires TermOk(t, rows, cols) && text != [] && !IsControl(text[0])
    ensures TermOk(Settle(t, cols), rows, cols)
    ensures Type(t, text, rows, cols) == Type(Settle(t, cols), text, rows, cols)
  {
    PutKeepsOk(t, text[0], rows, cols);
    assert Put(t, text[0], cols) == Put(Settle(t, cols), text[0], cols);
  }

  // ---- laid out from a position -------------------------------------------------------------------

  /** The column drawn for column argument `c`: its pixel position is a 32-bit product. */
  function Column(c: nat): nat {
    c % 0x2000_0000
  }

  /** One cell replaced; columns off the screen are clipped away. */
  function Drawn(cells: Cells, row: nat, c: nat, cell: Cell): Cells
    requires row < |cells|
  {
    if Column(c) < |cells[row]| then cells[row := cells[row][Column(c) := cell]] else cells
  }

  /** Where the next codepoint goes; the counters are 32-bit ones. */
  function NextPlace(row: nat, c: nat, col: nat, cols: nat): (nat, nat) {
    if (c + 1) % U32 >= cols then ((row + 1) % U32, col) else (row, (c + 1) % U32)
  }

  /** What bootvid_puts_sucs does to the cells, codepoint by codepoint, from row `row`, column `c`. */
  function Lay(cells: Cells, row: nat, c: nat, col: nat, cps: seq<nat>, fg: nat, bg: nat, cols: nat): (cells': Cells)
    decreases |cps|
  {
    if cps == [] then cells
    else if cps[0] == NEWLINE then Lay(cells, (row + 1) % U32, col, col, cps[1..], fg, bg, cols)
    else if row >= |cells| then cells
    else
      var drawn := if IsValid(cps[0]) then Drawn(cells, row, c, Cell(cps[0], fg, bg)) else cells;
      var next := NextPlace(row, c, col, cols);
      Lay(drawn, next.0, next.1, col, cps[1..], fg, bg, cols)
  }

  lemma LayStep(cells: Cells, row: nat, c: nat, col: nat, cp: nat, rest: seq<nat>, fg: nat, bg: nat, cols: nat)
    ensures Lay(cells, row, c, col, [cp] + rest, fg, bg, cols) ==
              if cp == NEWLINE then Lay(cells, (row + 1) % U32, col, col, rest, fg, bg, cols)
              else if row >= |cells| then cells
              else
                var drawn := if IsValid(cp) then Drawn(cells, row, c, Cell(cp, fg, bg)) else cells;
                var next := NextPlace(row, c, col, cols);
                Lay(drawn, next.0, next.1, col, rest, fg, bg, cols)
  {
    assert ([cp] + rest)[1..] == rest;
  }

  ghost predicate IsLine(cps: seq<nat>) {
    forall k :: 0 <= k < |cps| ==> cps[k] != NEWLINE
  }

  /** Cell (`r`, `x`) after `cps` are laid out in the columns from `col` on, beginning at row `row`
      and `skip` places into it. */
  function Laid(cells: Cells, row: nat, skip: nat, col: nat, cps: seq<nat>, fg: nat, bg: nat, cols: nat, r: nat,
                x: nat): Cell
    requires r < |cells| && x < |cells[r]| && col < cols
  {
    if r < row || x < col then cells[r][x]
    else
      var k := Place(r - row, x - col, cols - col) - skip;
      if 0 <= k < |cps| && IsValid(cps[k]) then Cell(cps[k], fg, bg) else cells[r][x]
  }

  /** Codepoints without line feeds fill the columns from `col` on, row by row: codepoint `k` stands
      `k` places on, if it is valid and its row exists, and every other cell is as before. */
  lemma {:induction false} LineInPlace(
    cells: Cells, row: nat, c: nat, col: nat, cps: seq<nat>, fg: nat, bg: nat, rows: nat, cols: nat, r: nat, x: nat)
    requires CellsOk(cells, rows, cols) && rows < U32 && cols < 0x2000_0000 && row < U32 && col <= c < cols
    requires IsLine(cps) && r < rows && x < cols
    ensures var cells' := Lay(cells, row, c, col, cps, fg, bg, cols);
            CellsOk(cells', rows, cols) && cells'[r][x] == Laid(cells, row, c - col, col, cps, fg, bg, cols, r, x)
    decreases |cps|
  {
    if cps == [] {
    } else if row >= rows {
    } else {
      NextIs(row, c, col, cols);
      var drawn := if IsValid(cps[0]) then Drawn(cells, row, c, Cell(cps[0], fg, bg)) else cells;
      var next := NextPlace(row, c, col, cols);
      LineInPlace(drawn, next.0, next.1, col, cps[1..], fg, bg, rows, cols, r, x);
      LaidNext(cells, row, c, col, cps, fg, bg, rows, cols, r, x, next.0, next.1);
    }
  }

  /** No counter wraps on the screen. */
  lemma NextIs(row: nat, c: nat, col: nat, cols: nat)
    requires row + 1 < U32 && c < cols < 0x2000_0000
    ensures Column(c) == c
    ensures NextPlace(row, c, col, cols) == if c + 1 < cols then (row, c + 1) else (row + 1, col)
  {
  }

  lemma LaidNext(cells: Cells, row: nat, c: nat, col: nat, cps: seq<nat>, fg: nat, bg: nat,
                 rows: nat, cols: nat, r: nat, x: nat, row': nat, c': nat)
    requires CellsOk(cells, rows, cols) && row < rows && col <= c < cols && cps != [] && r < rows && x < cols
    requires (row', c') == if c + 1 < cols then (row, c + 1) else (row + 1, col)
    ensures var drawn := if IsValid(cps[0]) then cells[row := cells[row][c := Cell(cps[0], fg, bg)]] else cells;
            && CellsOk(drawn, rows, cols)
            && Laid(drawn, row', c' - col, col, cps[1..], fg, bg, cols, r, x)
               == Laid(cells, row, c - col, col, cps, fg, bg, cols, r, x)
  {
    var w := cols - col;
    if row <= r && col <= x {
      PlacesUnique(r - row, x - col, 0, c - col, w);
      if r == row {
        assert Place(r - row, x - col, w) == x - col;
      } else {
        assert Place(r - row, x - col, w) == w + Place(r - row - 1, x - col, w);
      }
    }
  }

  /** Codepoint `k` of a line stands at column `col + k % w` of row `row + k / w`, where `w` is the
      number of columns from `col` on. */
  lemma CodepointInPlace(
    cells: Cells, row: nat, col: nat, cps: seq<nat>, fg: nat, bg: nat, rows: nat, cols: nat, k: nat, q: nat, m: nat)
    requires CellsOk(cells, rows, cols) && rows < U32 && cols < 0x2000_0000 && col < cols && IsLine(cps)
    requires k < |cps| && IsValid(cps[k]) && row + q < rows
    requires q == k / (cols - col) && m == k % (cols - col) && m < cols - col
    ensures CellsOk(Lay(cells, row, col, col, cps, fg, bg, cols), rows, cols)
    ensures Lay(cells, row, col, col, cps, fg, bg, cols)[row + q][col + m] == Cell(cps[k], fg, bg)
  {
    PlaceOf(k, cols - col);
    LandsAt(cells, row, col, cps, fg, bg, rows, cols, q, m);
  }

  lemma LandsAt(cells: Cells, row: nat, col: nat, cps: seq<nat>, fg: nat, bg: nat, rows: nat, cols: nat, q: nat, m: nat)
    requires CellsOk(cells, rows, cols) && rows < U32 && cols < 0x2000_0000 && col < cols && IsLine(cps)
    requires m < cols - col && row + q < rows
    requires Place(q, m, cols - col) < |cps| && IsValid(cps[Place(q, m, cols - col)])
    ensures CellsOk(Lay(cells, row, col, col, cps, fg, bg, cols), rows, cols)
    ensures Lay(cells, row, col, col, cps, fg, bg, cols)[row + q][col + m] == Cell(cps[Place(q, m, cols - col)], fg, bg)
  {
    LineInPlace(cells, row, col, col, cps, fg, bg, rows, cols, row + q, col + m);
  }

  /** From a column right of the screen, but not so far that its pixel position wraps, nothing is
      drawn, whatever the text. */
  lemma {:induction false} OffScreen(cells: Cells, row: nat, col: nat, cps: seq<nat>, fg: nat, bg: nat, rows: nat,
                                     cols: nat)
    requires CellsOk(cells, rows, cols) && cols <= col < 0x2000_0000
    ensures Lay(cells, row, col, col, cps, fg, bg, cols) == cells
    decreases |cps|
  {
    if cps == [] {
    } else {
      OffScreen(cells, (row + 1) % U32, col, cps[1..], fg, bg, rows, cols);
    }
  }

  /** A line feed after a line that fits ends it: what follows is laid out from the row after the
      one, `row + q`, in which the line ends. */
  lemma {:induction false} LineThenMore(
    cells: Cells, row: nat, c: nat, col: nat, line: seq<nat>, more: seq<nat>, fg: nat, bg: nat, rows: nat, cols: nat,
    q: nat, m: nat)
    requires CellsOk(cells, rows, cols) && rows < U32 && cols < 0x2000_0000 && row < U32 && col <= c < cols
    requires IsLine(line) && m < cols - col && Place(q, m, cols - col) == c - col + |line|
    requires line == [] || row + q < rows || (row + q == rows && m == 0)
    ensures Lay(cells, row, c, col, line + [NEWLINE] + more, fg, bg, cols)
         == Lay(Lay(cells, row, c, col, line, fg, bg, cols), (row + q + 1) % U32, col, col, more, fg, bg, cols)
    decreases |line|
  {
    if line == [] {
      assert line + [NEWLINE] + more == [NEWLINE] + more;
      LayStep(cells, row, c, col, NEWLINE, more, fg, bg, cols);
      PlacesUnique(q, m, 0, c - col, cols - col);
    } else {
      var rest := line[1..];
      assert line + [NEWLINE] + more == [line[0]] + (rest + [NEWLINE] + more) && line == [line[0]] + rest;
      FirstRow(q, m, c - col, |line|, cols - col);
      NextIs(row, c, col, cols);
      LayStep(cells, row, c, col, line[0], rest + [NEWLINE] + more, fg, bg, cols);
      LayStep(cells, row, c, col, line[0], rest, fg, bg, cols);
      var drawn := if IsValid(line[0]) then Drawn(cells, row, c, Cell(line[0], fg, bg)) else cells;
      var next := NextPlace(row, c, col, cols);
      LineThenMore(drawn, next.0, next.1, col, rest, more, fg, bg, rows, cols, if c + 1 < cols then q else q - 1, m);
    }
  }

  /** A line that starts `skip` places into its first row and fills it ends in a later row. */
  lemma FirstRow(q: nat, m: nat, skip: nat, n: nat, w: nat)
    requires m < w && skip < w && n > 0 && Place(q, m, w) == skip + n
    ensures q == 0 ==> m > 0
    ensures skip + 1 == w ==> q > 0 && Place(q - 1, m, w) == n - 1
  {
    if q == 0 {
      assert Place(q, m, w) == m;
    } else {
      assert Place(q, m, w) == Place(q - 1, m, w) + w;
    }
  }

  /** Encoded text, whatever follows its NUL: codepoint `k` is drawn at its place. */
  lemma EncodedInPlace(cells: Cells, row: nat, col: nat, cps: seq<nat>, tail: seq<byte>, fg: nat, bg: nat,
                       rows: nat, cols: nat, r: nat, x: nat)
    requires CellsOk(cells, rows, cols) && rows < U32 && cols < 0x2000_0000 && row < U32 && col < cols
    requires r < rows && x < cols
    requires forall k :: 0 <= k < |cps| ==> IsValid(cps[k]) && cps[k] != 0 && cps[k] != NEWLINE
    ensures var cells' := Lay(cells, row, col, col, Codepoints(EncodeAll(Enc, cps) + [0] + tail), fg, bg, cols);
            CellsOk(cells', rows, cols) && cells'[r][x] == Laid(cells, row, 0, col, cps, fg, bg, cols, r, x)
  {
    WalkEncoded(cps, tail);
    LineInPlace(cells, row, col, col, cps, fg, bg, rows, cols, r, x);
  }
}

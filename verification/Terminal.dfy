/** The text terminal a protected-mode client hosts a DOS program in: character and
    attribute buffers, a cursor, and a copy of both in VGA text memory. */
module Terminal {
  import opened Numbers

  const BS: Byte := 8
  const TAB: Byte := 9
  const LF: Byte := 10
  const CR: Byte := 13

  datatype Cell = Cell(ch: Byte, attr: Byte)

  const BLANK := Cell(0x20, 0x07)

  // ------------------------------------------------------------------
  // Arithmetic
  // ------------------------------------------------------------------

  /** First cell of row y. */
  function Row(y: nat, cols: nat): nat {
    if y == 0 then 0 else Row(y - 1, cols) + cols
  }

  lemma {:induction false} RowIs(y: nat, cols: nat)
    ensures Row(y, cols) == y * cols
  {
    if y > 0 {
      RowIs(y - 1, cols);
    }
  }

  lemma {:induction false} RowsGrow(y: nat, rows: nat, cols: nat)
    requires y <= rows
    ensures Row(y, cols) <= Row(rows, cols)
    decreases rows
  {
    if y < rows {
      RowsGrow(y, rows - 1, cols);
    }
  }

  lemma CellInside(x: nat, y: nat, cols: nat, rows: nat)
    requires x < cols && y < rows
    ensures Row(y, cols) + x < Row(rows, cols) && Row(y, cols) + cols <= Row(rows, cols)
  {
  }

  // ------------------------------------------------------------------
  // Specification
  // ------------------------------------------------------------------

  /** Cells in row order, and the cursor. */
  datatype Screen = Screen(cells: seq<Cell>, x: nat, y: nat)

  ghost predicate Fits(s: Screen, cols: nat, rows: nat) {
    cols > 0 && rows > 0 && |s.cells| == Row(rows, cols) && s.x < cols && s.y < rows
  }

  function Blanks(n: nat): seq<Cell> { seq(n, _ => BLANK) }

  /** One row up, a blank one at the bottom. */
  function ScrollUp(cells: seq<Cell>, cols: nat): seq<Cell>
    requires cols <= |cells|
  {
    cells[cols..] + Blanks(cols)
  }

  /** Bring a cursor that ran off a row or off the screen back onto it. */
  function Settle(s: Screen, cols: nat, rows: nat): Screen
    requires rows > 0 && cols <= |s.cells|
  {
    var t := if s.x >= cols then s.(x := 0, y := s.y + 1) else s;
    if t.y >= rows then Screen(ScrollUp(t.cells, cols), t.x, rows - 1) else t
  }

  /** cells with [i, j) overwritten. */
  function Over(cells: seq<Cell>, i: nat, j: nat, c: Cell): seq<Cell>
    requires i <= j <= |cells|
  {
    cells[..i] + seq(j - i, _ => c) + cells[j..]
  }

  lemma OverMore(cells: seq<Cell>, i: nat, j: nat, c: Cell)
    requires i <= j < |cells|
    ensures Over(cells, i, j, c)[j := c] == Over(cells, i, j + 1, c)
  {
  }

  function TabStop(x: nat, cols: nat): nat {
    if (x + 8) / 8 * 8 > cols then cols else (x + 8) / 8 * 8
  }

  lemma TabStopAhead(x: nat, cols: nat)
    requires x < cols
    ensures x < TabStop(x, cols) <= cols
  {
  }

  /** Spaces up to the next tab stop. */
  function Tabbed(s: Screen, cols: nat, rows: nat, attr: Byte): (t: Screen)
    requires Fits(s, cols, rows)
    ensures t.y == s.y && s.x < t.x <= cols && |t.cells| == |s.cells|
  {
    TabStopAhead(s.x, cols);
    CellInside(TabStop(s.x, cols) - 1, s.y, cols, rows);
    var row := Row(s.y, cols);
    Screen(Over(s.cells, row + s.x, row + TabStop(s.x, cols), Cell(0x20, attr)), TabStop(s.x, cols), s.y)
  }

  function Put(s: Screen, cols: nat, rows: nat, ch: Byte, attr: Byte): Screen
    requires Fits(s, cols, rows)
  {
    CellInside(s.x, s.y, cols, rows);
    var i := Row(s.y, cols) + s.x;
    if ch == CR then s.(x := 0)
    else if ch == LF then Settle(s.(x := 0, y := s.y + 1), cols, rows)
    else if ch == BS then
      var t := if s.x > 0 then s.(x := s.x - 1) else if s.y > 0 then s.(x := cols - 1, y := s.y - 1) else s;
      CellInside(t.x, t.y, cols, rows);
      t.(cells := t.cells[Row(t.y, cols) + t.x := Cell(0x20, attr)])
    else if ch == TAB then Settle(Tabbed(s, cols, rows, attr), cols, rows)
    else Settle(s.(cells := s.cells[i := Cell(ch, attr)], x := s.x + 1), cols, rows)
  }

  /** The cursor stays on the screen, whatever is written. */
  lemma PutFits(s: Screen, cols: nat, rows: nat, ch: Byte, attr: Byte)
    requires Fits(s, cols, rows)
    ensures Fits(Put(s, cols, rows, ch, attr), cols, rows)
  {
    CellInside(s.x, s.y, cols, rows);
    TabStopAhead(s.x, cols);
  }

  /** Every row moved up by one, and the last is blank. */
  predicate Lifted(before: seq<Cell>, after: seq<Cell>, cols: nat) {
    && |after| == |before|
    && forall k {:trigger after[k]} | 0 <= k < |after| ::
         after[k] == if k + cols < |before| then before[k + cols] else Cell(0x20, 0x07)
  }

  /** The cursor is on cell p of these cells; behind the last cell that is the start of
      the last row of the lifted ones. */
  predicate Arrives(cells: seq<Cell>, t: Screen, p: nat, cols: nat, rows: nat) {
    && t.x < cols && t.y < rows
    && if p < |cells| then t.cells == cells && t.y * cols + t.x == p
       else Lifted(cells, t.cells, cols) && t.y * cols + t.x + cols == p
  }

  /** Cells [p, p + n) are spaces, the others as before. */
  predicate Spaced(before: seq<Cell>, after: seq<Cell>, p: nat, n: nat, attr: Byte) {
    && |after| == |before|
    && forall k {:trigger after[k]} | 0 <= k < |after| ::
         after[k] == if p <= k < p + n then Cell(0x20, attr) else before[k]
  }

  // What the kinds of bytes do, by the number of the cursor's cell.

  /** A return (13) goes to the start of the row, a line feed (10) to that of the next. */
  lemma ReturnAndFeed(s: Screen, cols: nat, rows: nat, attr: Byte)
    requires Fits(s, cols, rows)
    ensures Put(s, cols, rows, 13, attr) == Screen(s.cells, 0, s.y)
    ensures var t := Put(s, cols, rows, 10, attr);
            t.x == 0 && Arrives(s.cells, t, s.y * cols + cols, cols, rows)
  {
    CellInside(s.x, s.y, cols, rows);
    assert (s.y + 1) * cols == s.y * cols + cols;
    SettleArrives(s.(x := 0, y := s.y + 1), cols, rows);
  }

  /** A backspace (8) blanks the cell before, if there is one, and goes there. */
  lemma BackMeans(s: Screen, cols: nat, rows: nat, attr: Byte)
    requires Fits(s, cols, rows)
    ensures var t, p := Put(s, cols, rows, 8, attr), s.y * cols + s.x;
            var q := if p > 0 then p - 1 else 0;
            Spaced(s.cells, t.cells, q, 1, attr) && t.y * cols + t.x == q
  {
    CellInside(s.x, s.y, cols, rows);
    BackOne(s, cols, rows);
  }

  /** A tab (9) writes spaces up to the next multiple of eight or the end of the row. */
  lemma TabMeans(s: Screen, cols: nat, rows: nat, attr: Byte) returns (w: seq<Cell>)
    requires Fits(s, cols, rows)
    ensures var n := if 8 - s.x % 8 < cols - s.x then 8 - s.x % 8 else cols - s.x;
            && Spaced(s.cells, w, s.y * cols + s.x, n, attr)
            && Arrives(w, Put(s, cols, rows, 9, attr), s.y * cols + s.x + n, cols, rows)
  {
    CellInside(s.x, s.y, cols, rows);
    TabStopAhead(s.x, cols);
    RowIs(s.y, cols);
    var u := Tabbed(s, cols, rows, attr);
    w := u.cells;
    SettleArrives(u, cols, rows);
  }

  /** Any other byte is shown, and the cursor moves on. */
  lemma ShowMeans(s: Screen, cols: nat, rows: nat, ch: Byte, attr: Byte)
    requires Fits(s, cols, rows) && ch !in {8, 9, 10, 13}
    ensures var p := s.y * cols + s.x;
            p < |s.cells| && Arrives(s.cells[p := Cell(ch, attr)], Put(s, cols, rows, ch, attr), p + 1, cols, rows)
  {
    CellInside(s.x, s.y, cols, rows);
    RowIs(s.y, cols);
    var u := s.(cells := s.cells[s.y * cols + s.x := Cell(ch, attr)], x := s.x + 1);
    assert Put(s, cols, rows, ch, attr) == Settle(u, cols, rows);
    SettleArrives(u, cols, rows);
  }

  lemma SettleArrives(s: Screen, cols: nat, rows: nat)
    requires cols > 0 && rows > 0 && |s.cells| == Row(rows, cols) && cols <= |s.cells|
    requires s.x <= cols && s.y <= rows && (s.y == rows ==> s.x == 0)
    ensures Arrives(s.cells, Settle(s, cols, rows), s.y * cols + s.x, cols, rows)
  {
    var t := Settle(s, cols, rows);
    SettleRows(s, cols, rows);
    RowIs(s.y, cols);
    RowIs(t.y, cols);
  }

  lemma SettleRows(s: Screen, cols: nat, rows: nat)
    requires cols > 0 && rows > 0 && |s.cells| == Row(rows, cols) && cols <= |s.cells|
    requires s.x <= cols && s.y <= rows && (s.y == rows ==> s.x == 0)
    ensures var t, p := Settle(s, cols, rows), Row(s.y, cols) + s.x;
            && t.x < cols && t.y < rows
            && if p < |s.cells| then t.cells == s.cells && Row(t.y, cols) + t.x == p
               else t.cells == ScrollUp(s.cells, cols) && Row(t.y, cols) + t.x + cols == p
  {
    if s.y + 1 < rows {
      RowsGrow(s.y + 2, rows, cols);
    } else if s.y < rows {
      RowsGrow(s.y + 1, rows, cols);
    }
  }

  lemma BackOne(s: Screen, cols: nat, rows: nat)
    requires Fits(s, cols, rows)
    ensures var t := if s.x > 0 then s.(x := s.x - 1) else if s.y > 0 then s.(x := cols - 1, y := s.y - 1) else s;
            var p := s.y * cols + s.x;
            && t.x < cols && t.y < rows && t.cells == s.cells
            && Row(t.y, cols) + t.x == t.y * cols + t.x == if p > 0 then p - 1 else 0
  {
    RowIs(s.y, cols);
    if s.y > 0 {
      RowIs(s.y - 1, cols);
      assert s.y * cols == (s.y - 1) * cols + cols;
    }
  }

  function Cleared(cols: nat, rows: nat): Screen { Screen(Blanks(Row(rows, cols)), 0, 0) }

  predicate Printable(ch: Byte) { ch != BS && ch != TAB && ch != LF && ch != CR }

  /** A text written to a cleared screen. */
  function Written(cols: nat, rows: nat, text: seq<Cell>): (s: Screen)
    requires cols > 0 && rows > 0
    ensures Fits(s, cols, rows)
  {
    if text == [] then Cleared(cols, rows)
    else
      var last := text[|text| - 1];
      var s := Written(cols, rows, text[..|text| - 1]);
      PutFits(s, cols, rows, last.ch, last.attr);
      Put(s, cols, rows, last.ch, last.attr)
  }

  /** How many of q full rows no longer fit once the cursor is on the next. */
  function Scrolled(q: nat, rows: nat): nat { if q < rows then 0 else q - rows + 1 }

  /** The screen shows the text from character `off` on, then blanks. */
  predicate ShowsFrom(cells: seq<Cell>, text: seq<Cell>, off: nat) {
    forall k {:trigger cells[k]} | 0 <= k < |cells| :: cells[k] == if off + k < |text| then text[off + k] else BLANK
  }

  /** Printable text leaves exactly its last rows, wrapped at the width of the
      screen, and blanks behind them; the cursor is where the text ends. */
  lemma WrittenShowsLastRows(cols: nat, rows: nat, text: seq<Cell>)
    requires cols > 0 && rows > 0 && forall c | c in text :: Printable(c.ch)
    ensures var s, n := Written(cols, rows, text), |text|;
            && ShowsFrom(s.cells, text, Scrolled(n / cols, rows) * cols)
            && s.x == n % cols && s.y == n / cols - Scrolled(n / cols, rows)
  {
    var q := RowsShown(cols, rows, text);
    RowIs(q, cols);
    DivModUnique(|text|, cols, q, Written(cols, rows, text).x);
    RowIs(Scrolled(q, rows), cols);
  }

  lemma {:induction false} RowsShown(cols: nat, rows: nat, text: seq<Cell>) returns (q: nat)
    requires cols > 0 && rows > 0 && forall c | c in text :: Printable(c.ch)
    ensures Shows(Written(cols, rows, text), cols, rows, text, q)
  {
    if text == [] {
      q := 0;
    } else {
      var n := |text| - 1;
      var before, s := text[..n], Written(cols, rows, text[..n]);
      var q' := RowsShown(cols, rows, before);
      OneMore(cols, rows, s, before, text[n], q');
      assert before + [text[n]] == text;
      q := if s.x + 1 < cols then q' else q' + 1;
    }
  }

  /** The text has q full rows; the screen shows what did not scroll away. */
  ghost predicate Shows(s: Screen, cols: nat, rows: nat, text: seq<Cell>, q: nat) {
    && |text| == Row(q, cols) + s.x && s.x < cols && s.y == q - Scrolled(q, rows)
    && ShowsFrom(s.cells, text, Row(Scrolled(q, rows), cols))
  }

  lemma {:induction false} RowsAdd(a: nat, b: nat, cols: nat)
    ensures Row(a + b, cols) == Row(a, cols) + Row(b, cols)
    decreases b
  {
    if b > 0 {
      RowsAdd(a, b - 1, cols);
    }
  }

  lemma OneMore(cols: nat, rows: nat, s: Screen, text: seq<Cell>, c: Cell, q: nat)
    requires Fits(s, cols, rows) && Printable(c.ch) && Shows(s, cols, rows, text, q)
    ensures Shows(Put(s, cols, rows, c.ch, c.attr), cols, rows, text + [c], if s.x + 1 < cols then q else q + 1)
  {
    var text', off := text + [c], Row(Scrolled(q, rows), cols);
    RowsAdd(s.y, Scrolled(q, rows), cols);
    CellInside(s.x, s.y, cols, rows);
    var i := Row(s.y, cols) + s.x;
    assert |text| == off + i;
    var put := s.cells[i := c];
    assert ShowsFrom(put, text', off);
    if s.x + 1 == cols && s.y + 1 == rows {
      assert Scrolled(q + 1, rows) == Scrolled(q, rows) + 1;
      ScrollShows(put, text', off, cols);
    }
  }

  lemma ScrollShows(cells: seq<Cell>, text: seq<Cell>, off: nat, cols: nat)
    requires ShowsFrom(cells, text, off) && cols <= |cells| && |text| <= off + |cells|
    ensures ShowsFrom(ScrollUp(cells, cols), text, off + cols)
  {
  }

  // ------------------------------------------------------------------
  // The terminal
  // ------------------------------------------------------------------

  class Vt {
    const cols: nat
    const rows: nat
    const chars: array<Byte>
    const attrs: array<Byte>
    const vga: array<Byte>
    var x: nat
    var y: nat
    var dirty: nat
    ghost var cells: seq<Cell>

    /** The buffers and VGA memory show the same cells. */
    ghost predicate Mirrored()
      reads this, chars, attrs, vga
    {
      && chars.Length == attrs.Length == |cells| && vga.Length == 2 * |cells|
      && chars != attrs && chars != vga && attrs != vga
      && forall i {:trigger cells[i]} | 0 <= i < |cells| ::
           chars[i] == cells[i].ch && attrs[i] == cells[i].attr && vga[2 * i] == cells[i].ch
               && vga[2 * i + 1] == cells[i].attr
    }

    ghost predicate Valid()
      reads this, chars, attrs, vga
    {
      Mirrored() && Fits(Now(), cols, rows)
    }

    ghost function Now(): Screen
      reads this
    {
      Screen(cells, x, y)
    }

    /** A terminal is created cleared. */
    constructor (c: nat, r: nat)
      requires c > 0 && r > 0
      ensures Valid() && fresh(chars) && fresh(attrs) && fresh(vga)
      ensures cols == c && rows == r && Now() == Cleared(c, r)
    {
      cols, rows, x, y, dirty := c, r, 0, 0, 0;
      var n := r * c;
      RowIs(r, c);
      chars := new Byte[n](_ => 0x20);
      attrs := new Byte[n](_ => 0x07);
      vga := new Byte[2 * n](i => if i % 2 == 0 then 0x20 else 0x07);
      cells := Blanks(n);
      new;
      forall i | 0 <= i < n ensures vga[2 * i] == 0x20 && vga[2 * i + 1] == 0x07 {
        assert 2 * i % 2 == 0;
      }
    }

    /** Write one cell, in the buffers and in VGA memory. */
    method SetCell(i: nat, ch: Byte, attr: Byte)
      requires Mirrored() && i < |cells|
      modifies chars, attrs, vga, `cells
      ensures Mirrored() && cells == old(cells)[i := Cell(ch, attr)]
    {
      chars[i] := ch;
      attrs[i] := attr;
      vga[2 * i], vga[2 * i + 1] := ch, attr;
      cells := cells[i := Cell(ch, attr)];
    }

    method Clear()
      requires Valid()
      modifies this, chars, attrs, vga
      ensures Valid() && Now() == Cleared(cols, rows) && dirty == (old(dirty) + 1) % 0x1_0000
    {
      var n := rows * cols;
      RowIs(rows, cols);
      Fill(chars, 0, n, 0x20);
      Fill(attrs, 0, n, 0x07);
      cells := Blanks(n);
      Mirror();
      x, y := 0, 0;
      dirty := (dirty + 1) % 0x1_0000;
    }

    /** Copy the buffers to VGA memory. */
    method Mirror()
      requires chars.Length == attrs.Length == |cells| && vga.Length == 2 * |cells|
      requires chars != attrs && chars != vga && attrs != vga
      requires forall i | 0 <= i < |cells| :: chars[i] == cells[i].ch && attrs[i] == cells[i].attr
      modifies vga
      ensures Mirrored()
    {
      var i := 0;
      while i < chars.Length
        invariant 0 <= i <= |cells|
        invariant forall j {:trigger cells[j]} | 0 <= j < i ::
                    vga[2 * j] == cells[j].ch && vga[2 * j + 1] == cells[j].attr
      {
        assert chars[i] == cells[i].ch && attrs[i] == cells[i].attr;
        vga[2 * i], vga[2 * i + 1] := chars[i], attrs[i];
        i := i + 1;
      }
    }

    method Scroll()
      requires Mirrored() && cols > 0 && rows > 0 && |cells| == Row(rows, cols)
      modifies chars, attrs, vga, `cells
      ensures Mirrored() && |cells| == |old(cells)|
      ensures cols <= |old(cells)| && cells == ScrollUp(old(cells), cols)
    {
      RowsGrow(1, rows, cols);
      ShiftBuffers();
      cells := ScrollUp(cells, cols);
      Mirror();
    }

    method ShiftBuffers()
      requires Mirrored() && cols > 0 && rows > 0 && cols <= |cells| == Row(rows, cols)
      modifies chars, attrs
      ensures var s := ScrollUp(cells, cols);
              |s| == |cells| && forall i | 0 <= i < |s| :: chars[i] == s[i].ch && attrs[i] == s[i].attr
    {
      RowIs(rows, cols);
      ShiftRows(chars, cols, rows, 0x20);
      ShiftRows(attrs, cols, rows, 0x07);
      ghost var s := ScrollUp(cells, cols);
      forall i | 0 <= i < |s| ensures chars[i] == s[i].ch && attrs[i] == s[i].attr {
        assert i < |cells| - cols ==> s[i] == cells[i + cols];
      }
    }

    /** Where the cursor's cell is. */
    method CursorCell() returns (i: nat)
      requires Fits(Now(), cols, rows)
      ensures i == Row(y, cols) + x < |cells|
    {
      CellInside(x, y, cols, rows);
      RowIs(y, cols);
      i := y * cols + x;
    }

    /** Teletype output of one byte. */
    method Putc(ch: Byte, attr: Byte)
      requires Valid()
      modifies this, chars, attrs, vga
      ensures Valid() && Now() == Put(old(Now()), cols, rows, ch, attr)
      ensures dirty == (old(dirty) + 1) % 0x1_0000
    {
      PutFits(Now(), cols, rows, ch, attr);
      if ch == CR {
        Return(attr);
      } else if ch == LF {
        Feed(attr);
      } else if ch == BS {
        Erase(attr);
      } else if ch == TAB {
        Advance(attr);
      } else {
        Print(ch, attr);
      }
    }

    method Return(ghost attr: Byte)
      requires Valid()
      modifies this
      ensures Mirrored() && Now() == Put(old(Now()), cols, rows, CR, attr)
      ensures dirty == (old(dirty) + 1) % 0x1_0000
    {
      x := 0;
      Touch();
    }

    method Feed(ghost attr: Byte)
      requires Valid()
      modifies this, chars, attrs, vga
      ensures Mirrored() && Now() == Put(old(Now()), cols, rows, LF, attr)
      ensures dirty == (old(dirty) + 1) % 0x1_0000
    {
      x, y := 0, y + 1;
      Wrap();
    }

    method Advance(attr: Byte)
      requires Valid()
      modifies this, chars, attrs, vga
      ensures Mirrored() && Now() == Put(old(Now()), cols, rows, TAB, attr)
      ensures dirty == (old(dirty) + 1) % 0x1_0000
    {
      Tab(attr);
      Wrap();
    }

    method Print(ch: Byte, attr: Byte)
      requires Valid() && Printable(ch)
      modifies this, chars, attrs, vga
      ensures Mirrored() && Now() == Put(old(Now()), cols, rows, ch, attr)
      ensures dirty == (old(dirty) + 1) % 0x1_0000
    {
      var i := CursorCell();
      SetCell(i, ch, attr);
      x := x + 1;
      Wrap();
    }

    method Erase(attr: Byte)
      requires Valid()
      modifies this, chars, attrs, vga
      ensures Mirrored() && Now() == Put(old(Now()), cols, rows, BS, attr)
      ensures dirty == (old(dirty) + 1) % 0x1_0000
    {
      if x > 0 {
        x := x - 1;
      } else if y > 0 {
        y, x := y - 1, cols - 1;
      }
      var i := CursorCell();
      SetCell(i, 0x20, attr);
      Touch();
    }

    method Touch()
      modifies `dirty
      ensures dirty == (old(dirty) + 1) % 0x1_0000
    {
      dirty := (dirty + 1) % 0x1_0000;
    }

    /** The end of a row leads to the next one, the end of the screen to a scroll. */
    method Wrap()
      requires Mirrored() && cols > 0 && rows > 0 && |cells| == Row(rows, cols) && x <= cols && y <= rows
      modifies this, chars, attrs, vga
      ensures Mirrored() && |cells| == |old(cells)| && cols <= |old(cells)| && Now() == Settle(old(Now()), cols, rows)
      ensures dirty == (old(dirty) + 1) % 0x1_0000
    {
      RowsGrow(1, rows, cols);
      if x >= cols {
        x, y := 0, y + 1;
      }
      if y >= rows {
        Scroll();
        y := rows - 1;
      }
      Touch();
    }

    method Tab(attr: Byte)
      requires Valid()
      modifies `x, chars, attrs, vga, `cells
      ensures Mirrored() && Now() == Tabbed(old(Now()), cols, rows, attr)
    {
      TabStopAhead(x, cols);
      var nx := (x + 8) / 8 * 8;
      if nx > cols {
        nx := cols;
      }
      SpaceTo(nx, attr);
    }

    method SpaceTo(nx: nat, attr: Byte)
      requires Valid() && x <= nx <= cols
      modifies `x, chars, attrs, vga, `cells
      ensures Mirrored() && x == nx && Row(y, cols) + nx <= |old(cells)|
      ensures cells == Over(old(cells), Row(y, cols) + old(x), Row(y, cols) + nx, Cell(0x20, attr))
    {
      CellInside(x, y, cols, rows);
      ghost var row, was := Row(y, cols), cells;
      assert was == Over(was, row + x, row + x, Cell(0x20, attr));
      while x < nx
        invariant Mirrored() && old(x) <= x <= nx && |cells| == |was|
        invariant cells == Over(was, row + old(x), row + x, Cell(0x20, attr))
      {
        OverMore(was, row + old(x), row + x, Cell(0x20, attr));
        var at := CursorCell();
        SetCell(at, 0x20, attr);
        x := x + 1;
      }
    }
  }

  /** a[lo..hi) := v. */
  method Fill(a: array<Byte>, lo: nat, hi: nat, v: Byte)
    requires lo <= hi <= a.Length
    modifies a
    ensures forall k | 0 <= k < a.Length :: a[k] == if lo <= k < hi then v else old(a[k])
  {
    for k := lo to hi
      invariant forall j | 0 <= j < a.Length :: a[j] == if lo <= j < k then v else old(a[j])
    {
      a[k] := v;
    }
  }

  /** Copy n bytes of a to a lower place. */
  method CopyDown(a: array<Byte>, dst: nat, src: nat, n: nat)
    requires dst + n <= src && src + n <= a.Length
    modifies a
    ensures forall k | 0 <= k < a.Length :: a[k] == if dst <= k < dst + n then old(a[k - dst + src]) else old(a[k])
  {
    for j := 0 to n
      invariant forall k | 0 <= k < a.Length :: a[k] == if dst <= k < dst + j then old(a[k - dst + src]) else old(a[k])
    {
      a[dst + j] := a[src + j];
    }
  }

  /** Every row of a moves up by one; the last is filled with v. */
  method ShiftRows(a: array<Byte>, cols: nat, rows: nat, v: Byte)
    requires cols > 0 && rows > 0 && a.Length == rows * cols && cols <= a.Length
    modifies a
    ensures forall k | 0 <= k < a.Length :: a[k] == if k < a.Length - cols then old(a[k + cols]) else v
  {
    var r := 0;
    while r < rows - 1
      invariant 0 <= r <= rows - 1 && r * cols <= a.Length - cols
      invariant forall k | 0 <= k < a.Length :: a[k] == if k < r * cols then old(a[k + cols]) else old(a[k])
    {
      assert (r + 1) * cols == r * cols + cols;
      MulMonotone(r + 2, rows, cols);
      assert (r + 2) * cols == r * cols + cols + cols;
      CopyDown(a, r * cols, (r + 1) * cols, cols);
      r := r + 1;
    }
    assert (rows - 1) * cols == a.Length - cols;
    Fill(a, (rows - 1) * cols, a.Length, v);
  }
}

/** screen.asm: an 80x25 text screen in video memory, driven as a terminal that
    scrolls an unbounded log of lines. */
module Screen {
  import opened Bytes

  const COLUMNS := 80
  const ROWS := 25
  const CELLS := 2000
  const ROW_BYTES := 160
  const NEWLINE := 10
  const TAB := 9

  datatype Cell = Cell(ch: Byte, attr: Byte)
  type Line = seq<Cell>

  const BLANK := Cell(0x20, 0x07)

  // -------------------------------------------------------- abstract terminal

  /** One character. The one that arrives with the cursor past column 79 only
      starts a new line: it is not drawn. */
  function Feed(log: seq<Line>, c: Byte, color: Byte): (r: seq<Line>)
    requires |log| > 0
    ensures |r| > 0
  {
    var last := log[|log| - 1];
    if c == NEWLINE || |last| == COLUMNS then log + [[]]
    else log[|log| - 1 := last + [Cell(c, color)]]
  }

  function FeedAll(log: seq<Line>, s: seq<Byte>, color: Byte): (r: seq<Line>)
    requires |log| > 0
    ensures |r| > 0
    decreases |s|
  {
    if s == [] then log else FeedAll(Feed(log, s[0], color), s[1..], color)
  }

  /** What cell `k` of the screen shows: the last 25 lines, blank elsewhere. */
  function CellOf(log: seq<Line>, k: nat): Cell {
    var top := if |log| > ROWS then |log| - ROWS else 0;
    var row, col := top + k / COLUMNS, k % COLUMNS;
    if row < |log| && col < |log[row]| then log[row][col] else BLANK
  }

  function CursorRow(log: seq<Line>): nat
    requires |log| > 0
  {
    if |log| > ROWS then ROWS - 1 else |log| - 1
  }

  /** Lines never get longer than a row. */
  ghost predicate Wrapped(log: seq<Line>) {
    |log| > 0 && forall i :: 0 <= i < |log| ==> |log[i]| <= COLUMNS
  }

  /** The character and attribute stored for cell `k`. */
  function CellIn(v: seq<Byte>, k: nat): Cell
    requires 2 * k + 1 < |v|
  {
    Cell(v[2 * k], v[2 * k + 1])
  }

  /** The log with `n` finished empty lines and `x` blanks typed: what a cleared
      screen stands for when the cursor was left at column `x` of row `n`. */
  function BlankLog(n: nat, x: nat): seq<Line> {
    seq(n, _ => []) + [seq(x, _ => BLANK)]
  }

  // --------------------------------------------------------------- the screen

  class Console {
    const vram: array<Byte>
    var x: Byte
    var y: Byte
    var textColor: Byte
    ghost var log: seq<Line>

    /** Video memory, a row beyond the screen included: scrolling writes there. */
    ghost predicate Shows()
      reads this, vram
    {
      && vram.Length == 2 * CELLS + ROW_BYTES
      && (forall k :: 0 <= k < CELLS ==> CellIn(vram[..], k) == CellOf(log, k))
    }

    ghost predicate Valid()
      reads this, vram
    {
      && Wrapped(log) && Shows()
      && x == |log[|log| - 1]| && y == CursorRow(log)
    }

    /** rep stosw: 2000 blank cells from the start of video memory. */
    method FillCells(from: nat, cells: nat)
      requires from + cells <= CELLS + COLUMNS && vram.Length == 2 * CELLS + ROW_BYTES
      modifies vram
      ensures forall k :: 0 <= k < CELLS + COLUMNS ==>
        CellIn(vram[..], k) == if from <= k < from + cells then BLANK else CellIn(old(vram[..]), k)
    {
      for i := 0 to cells
        invariant forall b :: 0 <= b < vram.Length ==>
          vram[b] == if 2 * from <= b < 2 * (from + i) then (if b % 2 == 0 then 0x20 else 0x07) else old(vram[b])
      {
        vram[2 * (from + i)] := 0x20;
        vram[2 * (from + i) + 1] := 0x07;
      }
    }

    /** clearScreen leaves the cursor where it was. */
    method ClearScreen()
      requires vram.Length == 2 * CELLS + ROW_BYTES && x <= COLUMNS && y < ROWS
      modifies vram, this`log
      ensures Valid() && log == BlankLog(y, x)
    {
      FillCells(0, CELLS);
      log := BlankLog(y, x);
      BlankShows(y, x);
    }

    /** initScreen */
    method InitScreen()
      requires vram.Length == 2 * CELLS + ROW_BYTES
      modifies this, vram
      ensures Valid() && log == [[]] && textColor == 7
    {
      x, y, textColor := 0, 0, 7;
      ClearScreen();
      assert BlankLog(0, 0) == [[]];
    }

    /** Move rows 1..24 up by a forward overlapping byte copy, then store 80
        double words of blanks at row 24: that row and one beyond the screen. */
    method Scroll()
      requires vram.Length == 2 * CELLS + ROW_BYTES
      modifies vram
      ensures forall k :: 0 <= k < CELLS + COLUMNS ==>
        CellIn(vram[..], k) == if k < CELLS - COLUMNS then CellIn(old(vram[..]), k + COLUMNS) else BLANK
    {
      Kmemcpy(vram, 0, ROW_BYTES, 24 * ROW_BYTES);
      assert forall k :: 0 <= k < CELLS - COLUMNS ==> CellIn(vram[..], k) == CellIn(old(vram[..]), k + COLUMNS) by {
        forall k | 0 <= k < CELLS - COLUMNS ensures CellIn(vram[..], k) == CellIn(old(vram[..]), k + COLUMNS) {
          assert vram[0 + 2 * k] == old(vram[CopiedFrom(0, ROW_BYTES, 2 * k)]);
          assert vram[0 + (2 * k + 1)] == old(vram[CopiedFrom(0, ROW_BYTES, 2 * k + 1)]);
        }
      }
      FillCells(CELLS - COLUMNS, 2 * COLUMNS);
    }

    /** The .newLine branch: registers in, registers out. */
    method NewLine(edi: nat, ebx: nat) returns (edi': nat, ebx': nat)
      requires Wrapped(log) && Shows()
      requires ebx == |log[|log| - 1]| && y == CursorRow(log) && edi == 2 * (COLUMNS * y + ebx)
      modifies this`x, this`y, this`log, vram
      ensures Wrapped(log) && Shows() && log == old(log) + [[]]
      ensures ebx' == 0 && y == CursorRow(log) && edi' == 2 * (COLUMNS * y)
    {
      ghost var before := log;
      log := log + [[]];
      if y == 24 {
        Scroll();
        ScrolledShows(before);
        edi', y := 24 * ROW_BYTES, 24;
      } else {
        y := y + 1;
        edi' := edi + ROW_BYTES - 2 * ebx;
        NextLineShows(before);
      }
      ebx', x := 0, 0;
    }

    /** The .print branch: one cell. */
    method PrintCell(edi: nat, ch: Byte)
      requires Wrapped(log) && Shows() && y == CursorRow(log)
      requires |log[|log| - 1]| < COLUMNS && edi == 2 * (COLUMNS * y + |log[|log| - 1]|)
      modifies this`log, vram
      ensures Wrapped(log) && Shows()
      ensures log == old(log)[|old(log)| - 1 := old(log)[|old(log)| - 1] + [Cell(ch, textColor)]]
    {
      ghost var before := log;
      var last := |log| - 1;
      log := log[last := log[last] + [Cell(ch, textColor)]];
      vram[edi] := ch;
      vram[edi + 1] := textColor;
      forall k | 0 <= k < CELLS ensures CellIn(vram[..], k) == CellOf(log, k) {
        assert CellIn(old(vram[..]), k) == CellOf(before, k);
        PrintedCell(before, Cell(ch, textColor), k);
      }
    }

    /** puts, for a string without tabs ended by a zero byte at `n`. */
    method Puts(s: seq<Byte>, ghost n: nat)
      requires Valid() && n < |s| && s[n] == 0
      requires forall i :: 0 <= i < n ==> s[i] != 0 && s[i] != TAB
      modifies this`x, this`y, this`log, vram
      ensures Valid() && log == FeedAll(old(log), s[..n], textColor)
    {
      var edi: nat := 2 * (COLUMNS * y + x);
      var ebx: nat := x;
      var esi := 0;
      assert s[..0] == [] && FeedAll(log, [], textColor) == log;
      hide FeedAll, Feed, CellOf, CellIn;
      while s[esi] != 0
        invariant esi <= n && Wrapped(log) && Shows()
        invariant ebx == |log[|log| - 1]| && y == CursorRow(log) && edi == 2 * (COLUMNS * y + ebx)
        invariant log == FeedAll(old(log), s[..esi], textColor)
        decreases n - esi
      {
        var al := s[esi];
        esi := esi + 1;
        FeedSnoc(old(log), s[..esi - 1], al, textColor);
        assert s[..esi] == s[..esi - 1] + [al];
        edi, ebx := PutCharacter(edi, ebx, al);
      }
      assert esi == n;
      x := ebx;
    }

    /** One turn of the loop: a new line, or one cell. */
    method PutCharacter(edi: nat, ebx: nat, al: Byte) returns (edi': nat, ebx': nat)
      requires Wrapped(log) && Shows() && al != TAB
      requires ebx == |log[|log| - 1]| && y == CursorRow(log) && edi == 2 * (COLUMNS * y + ebx)
      modifies this`x, this`y, this`log, vram
      ensures Wrapped(log) && Shows() && log == Feed(old(log), al, textColor)
      ensures ebx' == |log[|log| - 1]| && y == CursorRow(log) && edi' == 2 * (COLUMNS * y + ebx')
    {
      AtRowStart(y, ebx);
      hide CellOf, CellIn;
      if al == NEWLINE || (ebx != 0 && edi % ROW_BYTES == 0) {
        edi', ebx' := NewLine(edi, ebx);
      } else {
        PrintCell(edi, al);
        edi', ebx' := edi + 2, ebx + 1;
      }
    }
  }

  /** The offset test finds the cursor past the last column and nothing else. */
  lemma AtRowStart(y: nat, x: nat)
    requires x <= COLUMNS
    ensures x != 0 && 2 * (COLUMNS * y + x) % ROW_BYTES == 0 <==> x == COLUMNS
  {
    assert 2 * (COLUMNS * y + x) == ROW_BYTES * y + 2 * x;
  }

  lemma {:induction false} FeedSnoc(log: seq<Line>, s: seq<Byte>, c: Byte, color: Byte)
    requires |log| > 0
    ensures FeedAll(log, s + [c], color) == Feed(FeedAll(log, s, color), c, color)
    decreases |s|
  {
    if s == [] {
      assert [c][1..] == [];
    } else {
      assert (s + [c])[1..] == s[1..] + [c];
      FeedSnoc(Feed(log, s[0], color), s[1..], c, color);
    }
  }

  /** Printing two strings in a row is printing their concatenation. */
  lemma {:induction false} FeedConcat(log: seq<Line>, s: seq<Byte>, t: seq<Byte>, color: Byte)
    requires |log| > 0
    ensures FeedAll(log, s + t, color) == FeedAll(FeedAll(log, s, color), t, color)
    decreases |s|
  {
    if s == [] {
      assert s + t == t;
    } else {
      assert (s + t)[0] == s[0] && (s + t)[1..] == s[1..] + t;
      FeedConcat(Feed(log, s[0], color), s[1..], t, color);
    }
  }

  lemma BlankShows(n: nat, x: nat)
    requires x <= COLUMNS && n < ROWS
    ensures Wrapped(BlankLog(n, x)) && (forall k: nat :: CellOf(BlankLog(n, x), k) == BLANK)
  {
  }

  /** A new line on a full screen: every row shows the one below, the last is blank. */
  lemma ScrolledShows(log: seq<Line>)
    requires Wrapped(log) && |log| >= ROWS
    ensures forall k: nat :: k < CELLS ==>
      CellOf(log + [[]], k) == if k < CELLS - COLUMNS then CellOf(log, k + COLUMNS) else BLANK
  {
    forall k: nat | k < CELLS
      ensures CellOf(log + [[]], k) == if k < CELLS - COLUMNS then CellOf(log, k + COLUMNS) else BLANK
    {
      assert (k + COLUMNS) / COLUMNS == k / COLUMNS + 1 && (k + COLUMNS) % COLUMNS == k % COLUMNS;
      assert k < CELLS - COLUMNS <==> k / COLUMNS < ROWS - 1;
    }
  }

  /** A new line with room below changes no cell. */
  lemma NextLineShows(log: seq<Line>)
    requires Wrapped(log) && |log| < ROWS
    ensures forall k: nat :: k < CELLS ==> CellOf(log + [[]], k) == CellOf(log, k)
  {
  }

  /** A printed character changes exactly the cell under the cursor. */
  lemma PrintedCell(log: seq<Line>, cell: Cell, k: nat)
    requires Wrapped(log) && |log[|log| - 1]| < COLUMNS && k < CELLS
    ensures var last := log[|log| - 1];
      CellOf(log[|log| - 1 := last + [cell]], k)
        == if k == COLUMNS * CursorRow(log) + |last| then cell else CellOf(log, k)
  {
    var last := log[|log| - 1];
    assert k == COLUMNS * (k / COLUMNS) + k % COLUMNS;
    assert k == COLUMNS * CursorRow(log) + |last| <==> k / COLUMNS == CursorRow(log) && k % COLUMNS == |last|;
  }

  /** What is in video memory for a row and a column: the last 25 lines of the log,
      blanks elsewhere. */
  lemma ScreenShowsLog(a: Console, row: nat, col: nat)
    requires a.Valid() && row < 25 && col < 80
    ensures var first := if |a.log| > 25 then |a.log| - 25 else 0;
      var at := 2 * (80 * row + col);
      && at + 1 < a.vram.Length && a.y == |a.log| - 1 - first && a.x == |a.log[|a.log| - 1]|
      && (if first + row < |a.log| && col < |a.log[first + row]|
          then a.vram[at] == a.log[first + row][col].ch && a.vram[at + 1] == a.log[first + row][col].attr
          else a.vram[at] == 0x20 && a.vram[at + 1] == 0x07)
  {
    var k := 80 * row + col;
    assert k / 80 == row && k % 80 == col;
    assert CellIn(a.vram[..], k) == CellOf(a.log, k);
  }

  /** Equal logs show equal screens, with the cursor at the same place. */
  lemma ScreenIsLog(a: Console, b: Console)
    requires a.Valid() && b.Valid() && a.log == b.log
    ensures a.x == b.x && a.y == b.y && a.vram[..2 * CELLS] == b.vram[..2 * CELLS]
  {
    forall i | 0 <= i < 2 * CELLS ensures a.vram[i] == b.vram[i] {
      var k := i / 2;
      assert CellIn(a.vram[..], k) == CellIn(b.vram[..], k);
      assert i == 2 * k || i == 2 * k + 1;
    }
  }

  // ---------------------------------------------------------- layout of text

  function Drawn(s: seq<Byte>, color: Byte): Line {
    seq(|s|, i requires 0 <= i < |s| => Cell(s[i], color))
  }

  /** Text without newlines: pieces of 80, the character after each full piece lost. */
  function WrapLines(s: seq<Byte>, color: Byte): seq<Line>
    decreases |s|
  {
    if |s| <= COLUMNS then [Drawn(s, color)]
    else [Drawn(s[..COLUMNS], color)] + WrapLines(s[COLUMNS + 1..], color)
  }

  /** The length of the text before the first newline. */
  function FirstLine(s: seq<Byte>): (n: nat)
    ensures n <= |s| && NEWLINE !in s[..n] && (n < |s| ==> s[n] == NEWLINE)
    decreases |s|
  {
    if s == [] || s[0] == NEWLINE then 0 else
    assert s[..1 + FirstLine(s[1..])] == [s[0]] + s[1..][..FirstLine(s[1..])];
    1 + FirstLine(s[1..])
  }

  /** Any text: split at newlines, each piece wrapped. */
  function Layout(s: seq<Byte>, color: Byte): seq<Line>
    decreases |s|
  {
    var n := FirstLine(s);
    if n == |s| then WrapLines(s, color) else WrapLines(s[..n], color) + Layout(s[n + 1..], color)
  }

  lemma {:induction false} FeedShort(log: seq<Line>, s: seq<Byte>, color: Byte)
    requires |log| > 0 && NEWLINE !in s && |log[|log| - 1]| + |s| <= COLUMNS
    ensures FeedAll(log, s, color) == log[|log| - 1 := log[|log| - 1] + Drawn(s, color)]
    decreases |s|
  {
    if s == [] {
      assert log[|log| - 1] + Drawn(s, color) == log[|log| - 1];
    } else {
      FeedShort(Feed(log, s[0], color), s[1..], color);
      assert Drawn(s, color) == [Cell(s[0], color)] + Drawn(s[1..], color);
      assert log[|log| - 1] + Drawn(s, color) == (log[|log| - 1] + [Cell(s[0], color)]) + Drawn(s[1..], color);
    }
  }

  lemma {:induction false} FeedWraps(log: seq<Line>, s: seq<Byte>, color: Byte)
    requires NEWLINE !in s
    ensures FeedAll(log + [[]], s, color) == log + WrapLines(s, color)
    decreases |s|
  {
    hide FeedAll;
    var start := log + [[]];
    assert start[|log|] + Drawn(s, color) == Drawn(s, color);
    if |s| <= COLUMNS {
      FeedShort(start, s, color);
      assert start[|start| - 1 := Drawn(s, color)] == log + [Drawn(s, color)];
    } else {
      var row, rest := s[..COLUMNS], s[COLUMNS + 1..];
      assert s == (row + [s[COLUMNS]]) + rest;
      FeedConcat(start, row + [s[COLUMNS]], rest, color);
      FeedSnoc(start, row, s[COLUMNS], color);
      FeedShort(start, row, color);
      assert start[|log|] + Drawn(row, color) == Drawn(row, color);
      assert start[|start| - 1 := Drawn(row, color)] == log + [Drawn(row, color)];
      FeedWraps(log + [Drawn(row, color)], rest, color);
      assert log + WrapLines(s, color) == (log + [Drawn(row, color)]) + WrapLines(rest, color);
    }
  }

  /** The log of a text on a fresh line is its layout: split at newlines, then
      wrapped at 80 with one character lost at each wrap. */
  lemma {:induction false} LogIsLayout(log: seq<Line>, s: seq<Byte>, color: Byte)
    ensures FeedAll(log + [[]], s, color) == log + Layout(s, color)
    decreases |s|
  {
    hide FeedAll, WrapLines, FirstLine;
    var n := FirstLine(s);
    if n == |s| {
      assert s[..n] == s;
      FeedWraps(log, s, color);
    } else {
      var row, rest := s[..n], s[n + 1..];
      assert s == (row + [NEWLINE]) + rest;
      FeedConcat(log + [[]], row + [NEWLINE], rest, color);
      FeedSnoc(log + [[]], row, NEWLINE, color);
      FeedWraps(log, row, color);
      LogIsLayout(log + WrapLines(row, color), rest, color);
      assert log + Layout(s, color) == (log + WrapLines(row, color)) + Layout(rest, color);
    }
  }

  /** After a full row of 80 the next character is lost: it only starts a new line. */
  lemma EightyFirstIsLost(log: seq<Line>, s: seq<Byte>, c: Byte, color: Byte)
    requires |s| == 80 && NEWLINE !in s && c != NEWLINE
    ensures FeedAll(log + [[]], s + [c], color) == log + [seq(80, i requires 0 <= i < 80 => Cell(s[i], color)), []]
  {
    hide FeedAll;
    FeedWraps(log, s + [c], color);
    assert (s + [c])[..80] == s && (s + [c])[81..] == [];
    assert Drawn([], color) == [];
    assert WrapLines([], color) == [[]];
    assert Drawn(s, color) == seq(80, i requires 0 <= i < 80 => Cell(s[i], color));
  }
}

/** The scrolling text terminal: a window of 25 rows that moves down through 32 KiB of video memory
    and is copied back to the top when it runs out. */
module Vga {
  import opened Alignment
  import opened Cpu
  import opened Sequences

  const WIDTH: nat := 80
  const HEIGHT: nat := 25
  const BASE_ROW_MAX: nat := 179
  /** The cells of a 32 KiB window. */
  const WINDOW: nat := 16384
  const VGA_BASE: nat := 0xB8000
  const DEFAULT_COLOR: nat := 15

  type Cell = x: nat | x < 0x1_0000
  type Color = x: nat | x < 0x100

  /** make_entry. */
  function MakeEntry(c: char, color: Color): Cell {
    (c as int % 0x100) + 0x100 * color
  }

  /** White on black. */
  function Blanks(n: nat): (r: seq<Cell>)
    ensures |r| == n && forall i | 0 <= i < n :: r[i] == 0x0F20
  {
    seq(n, _ => MakeEntry(' ', DEFAULT_COLOR))
  }

  // ---- the ideal terminal ----

  /** What is on the screen: 25 rows of 80 cells, the cursor, and the colour in force. */
  datatype Screen = Screen(cells: seq<Cell>, row: nat, column: nat, color: Color) {
    ghost predicate Valid() {
      |cells| == HEIGHT * WIDTH && row < HEIGHT && column < WIDTH
    }

    function Position(): nat { row * WIDTH + column }

    /** The top line is dropped and a blank one is appended. */
    function Scrolled(): Screen
      requires |cells| == HEIGHT * WIDTH
    {
      this.(cells := cells[WIDTH..] + Blanks(WIDTH))
    }

    /** The start of the next line, scrolling when there is none. */
    function NextLine(): Screen
      requires Valid()
    {
      if row + 1 < HEIGHT then this.(row := row + 1, column := 0) else Scrolled().(column := 0)
    }

    function Forward(): Screen
      requires Valid()
    {
      if column + 1 < WIDTH then this.(column := column + 1) else NextLine()
    }

    function Put(c: char): Screen
      requires Valid()
    {
      this.(cells := cells[Position() := MakeEntry(c, color)]).Forward()
    }

    /** One cell back, when there is one. */
    function Back(): Screen {
      if column > 0 then this.(column := column - 1)
      else if row > 0 then this.(row := row - 1, column := WIDTH - 1)
      else this
    }

    /** The last character taken off the screen. */
    function Rubout(): Screen
      requires Valid()
    {
      Back().(cells := cells[Back().Position() := MakeEntry(' ', color)])
    }

    /** put_char_no_sync. */
    function PutChar(c: char): (s: Screen)
      requires Valid()
      ensures s.Valid()
    {
      if c == '\r' then this.(column := 0) else if c == '\n' then NextLine() else Put(c)
    }

    function Render(text: string): (s: Screen)
      requires Valid()
      ensures s.Valid()
      decreases |text|
    {
      if text == [] then this else PutChar(text[0]).Render(text[1..])
    }
  }

  /** Rendering a text is rendering its parts one after the other. */
  lemma {:induction false} RenderAppend(s: Screen, a: string, b: string)
    requires s.Valid()
    ensures s.Render(a + b) == s.Render(a).Render(b)
    decreases |a|
  {
    if a == [] {
      assert a + b == b;
    } else {
      assert (a + b)[0] == a[0] && (a + b)[1..] == a[1..] + b;
      RenderAppend(s.PutChar(a[0]), a[1..], b);
    }
  }

  /** The line k places below the top moves up one place for every line feed. */
  lemma {:induction false} LinesMoveUp(s: Screen, n: nat, k: nat)
    requires s.Valid() && s.row == HEIGHT - 1 && n <= k < HEIGHT
    ensures var t := s.Render(seq(n, _ => '\n'));
            t.row == HEIGHT - 1 && t.cells[(k - n) * WIDTH..(k - n + 1) * WIDTH] == s.cells[k * WIDTH..(k + 1) * WIDTH]
    decreases n
  {
    var feed := seq(n, _ => '\n');
    if n > 0 {
      assert feed[1..] == seq(n - 1, _ => '\n');
      var u := s.PutChar('\n');
      assert u.cells[(k - 1) * WIDTH..k * WIDTH] == s.cells[k * WIDTH..(k + 1) * WIDTH];
      LinesMoveUp(u, n - 1, k - 1);
    }
  }

  // ---- what the terminal is, cell by cell ----

  /** From s to t a character has been put under the cursor, its code in the low byte of the cell and the
      colour in the high one, and the cursor has moved on; behind the last cell of the screen all rows
      have moved up and the last one is blank. */
  ghost predicate Placed(s: Screen, c: char, t: Screen)
    requires |s.cells| == |t.cells| == 2000
  {
    var p := s.row * 80 + s.column;
    var up := if p == 1999 then 80 else 0;
    && t.row < 25 && t.column < 80 && t.color == s.color
    && t.row * 80 + t.column == p + 1 - up
    && (forall i | 0 <= i < 2000 ::
          t.cells[i] == if i + up == p then c as int % 0x100 + 0x100 * s.color
                        else if i + up < 2000 then s.cells[i + up] else 0x0F20)
  }

  /** From s to t the cursor has moved to the start of the next line; from the last row the rows have
      moved up instead, and the last one is blank. */
  ghost predicate LineFed(s: Screen, t: Screen)
    requires |s.cells| == |t.cells| == 2000
  {
    var up := if s.row == 24 then 80 else 0;
    && t.column == 0 && t.row == (if s.row == 24 then 24 else s.row + 1) && t.color == s.color
    && forall i | 0 <= i < 2000 :: t.cells[i] == if i + up < 2000 then s.cells[i + up] else 0x0F20
  }

  /** From s to t the character before the cursor has been made a space of the colour in force, and the
      cursor stands on it. */
  ghost predicate Rubbed(s: Screen, t: Screen)
    requires |s.cells| == |t.cells| == 2000
  {
    var p := s.row * 80 + s.column;
    && t.row < 25 && t.column < 80 && t.color == s.color
    && t.row * 80 + t.column == p - 1
    && forall i | 0 <= i < 2000 :: t.cells[i] == if i == p - 1 then 0x20 + 0x100 * s.color else s.cells[i]
  }

  /** What a character does: carriage return, line feed, or any other. */
  ghost predicate Wrote(s: Screen, c: char, t: Screen)
    requires |s.cells| == |t.cells| == 2000
  {
    if c == '\r' then t == s.(column := 0) else if c == '\n' then LineFed(s, t) else Placed(s, c, t)
  }

  lemma PutPlaces(s: Screen, c: char)
    requires s.Valid()
    ensures s.Put(c).Valid() && Placed(s, c, s.Put(c))
  {
  }

  lemma PutCharWrites(s: Screen, c: char)
    requires s.Valid()
    ensures Wrote(s, c, s.PutChar(c))
  {
    PutPlaces(s, c);
  }

  lemma RuboutIs(s: Screen)
    requires s.Valid() && (s.row > 0 || s.column > 0)
    ensures s.Rubout().Valid() && Rubbed(s, s.Rubout())
  {
  }

  /** A text without line control on an endless tape: it overwrites what is behind the cursor, and
      beyond the screen the tape is blank. */
  function TapeCell(s: Screen, text: string, j: nat): nat
    requires |s.cells| == 2000
  {
    var p := s.row * 80 + s.column;
    if p <= j < p + |text| then text[j - p] as int % 0x100 + 0x100 * s.color
    else if j < 2000 then s.cells[j]
    else 0x0F20
  }

  /** How many cells have left the screen when the cursor has come to cell end of the tape: whole rows,
      as few as bring it back on the screen. */
  function Gone(end: nat): (up: nat)
    ensures up <= end && end - up < 2000 && up % 80 == 0 && (up > 0 ==> end - up >= 1920)
  {
    if end < 2000 then 0 else (end - 2000) / 80 * 80 + 80
  }

  lemma GoneNext(end: nat)
    ensures Gone(end + 1) == Gone(end) + if end - Gone(end) == 1999 then 80 else 0
  {
  }

  /** Rendering a text of any length without line control: the screen is a window on the tape, moved up
      by whole rows until the cursor is in it. */
  lemma {:induction false} RenderIsTape(s: Screen, text: string)
    requires s.Valid() && '\r' !in text && '\n' !in text
    ensures var t := s.Render(text);
            var end := s.row * 80 + s.column + |text|;
            && t.color == s.color && t.row * 80 + t.column == end - Gone(end)
            && forall i | 0 <= i < 2000 :: t.cells[i] == TapeCell(s, text, i + Gone(end))
    decreases |text|
  {
    if text != [] {
      var a, c := text[..|text| - 1], text[|text| - 1];
      assert text == a + [c];
      RenderIsTape(s, a);
      RenderAppend(s, a, [c]);
      var u := s.Render(a);
      assert [c][1..] == [];
      assert u.Render([c]) == u.PutChar(c).Render([]);
      TapeStep(s, a, c, u, u.PutChar(c));
    }
  }

  lemma TapeStep(s: Screen, a: string, c: char, u: Screen, t: Screen)
    requires |s.cells| == |u.cells| == |t.cells| == 2000 && c != '\r' && c != '\n'
    requires var end := s.row * 80 + s.column + |a|;
             && u.color == s.color && u.row * 80 + u.column == end - Gone(end)
             && forall i | 0 <= i < 2000 :: u.cells[i] == TapeCell(s, a, i + Gone(end))
    requires u.Valid() && t == u.PutChar(c)
    ensures var end := s.row * 80 + s.column + |a| + 1;
            && t.color == s.color && t.row * 80 + t.column == end - Gone(end)
            && forall i | 0 <= i < 2000 :: t.cells[i] == TapeCell(s, a + [c], i + Gone(end))
  {
    hide Gone;
    PutPlaces(u, c);
    hide Screen.PutChar, Screen.Put;
    assert Placed(u, c, t);
    var end := s.row * 80 + s.column + |a|;
    GoneNext(end);
  }

  /** The bytes one store of a fill or copy loop moves. */
  function StoreBytes(tier: CpuTier): nat {
    match tier
    case Gpr => 4
    case Sse2 => 16
    case Avx2 => 32
  }

  /** The cells with n of them copied from src to dst. */
  function Copied(s: seq<Cell>, src: nat, dst: nat, n: nat): (r: seq<Cell>)
    requires src + n <= |s|
    ensures |r| == |s|
  {
    seq(|s|, i requires 0 <= i < |s| => if dst <= i < dst + n then s[src + (i - dst)] else s[i])
  }

  lemma CopiedNone(s: seq<Cell>, src: nat, dst: nat)
    requires src <= |s|
    ensures Copied(s, src, dst, 0) == s
  {
  }

  lemma CopiedMore(s: seq<Cell>, src: nat, dst: nat, n: nat, m: nat)
    requires dst + n + m <= src && src + n + m <= |s|
    ensures Copied(Copied(s, src, dst, n), src + n, dst + n, m) == Copied(s, src, dst, n + m)
  {
  }

  /** The window after its last 24 rows have been copied to row 1 and a row of blanks added. */
  lemma CopiedBack(was: seq<Cell>)
    requires |was| == WINDOW
    ensures var src, n := (BASE_ROW_MAX + 1) * WIDTH, (HEIGHT - 1) * WIDTH;
            var now := Overwritten(Copied(was, src, WIDTH, n), WIDTH + n, WIDTH + n + WIDTH, MakeEntry(' ', DEFAULT_COLOR));
            now[WIDTH..WIDTH + HEIGHT * WIDTH] == was[src..src + n] + Blanks(WIDTH)
  {
  }

  /** A cell repeated in both halves of a 32-bit word. */
  function Twice(entry: Cell): nat {
    0x1_0000 * entry + entry
  }

  class VgaTextBuffer {
    const tier: CpuTier
    const mem: array<Cell>
    var baseRow: nat
    var row: nat
    var column: nat
    var activeColor: Color
    /** The display start register of the CRT controller: the cell shown at the top left. */
    var displayStart: nat

    constructor (tier: CpuTier, mem: array<Cell>)
      requires mem.Length == WINDOW
      ensures this.tier == tier && this.mem == mem && baseRow == row == column == 0
      ensures activeColor == DEFAULT_COLOR
    {
      this.tier, this.mem := tier, mem;
      baseRow, row, column, activeColor := 0, 0, 0, DEFAULT_COLOR;
      displayStart := 0;
    }

    /** Between operations the window and the display agree, and the window ends inside the memory. */
    ghost predicate Valid()
      reads this
    {
      && mem.Length == WINDOW
      && baseRow <= BASE_ROW_MAX && row < HEIGHT && column < WIDTH
      && displayStart == baseRow * WIDTH
    }

    /** What the hardware shows. */
    ghost function Shown(): Screen
      reads this, mem
      requires Valid()
    {
      Screen(mem[displayStart..displayStart + HEIGHT * WIDTH], row, column, activeColor)
    }

    function GetPosition(): nat
      reads this
    {
      (baseRow + row) * WIDTH + column
    }

    /** fallback_fill, use_sse_2 and use_avx_2: whole stores of the entry, two cells to 32 bits. */
    method FillCells(dst: nat, bytes: nat, entry32: nat, ghost entry: Cell)
      requires dst + bytes / 2 <= mem.Length && entry32 == Twice(entry)
      requires Aligned(VGA_BASE + 2 * dst, StoreBytes(tier)) && Aligned(VGA_BASE + 2 * dst + bytes, StoreBytes(tier))
      modifies mem
      ensures mem[..] == Overwritten(old(mem[..]), dst, dst + bytes / 2, entry)
    {
      hide Aligned, Overwritten, Twice, StoreBytes;
      var w := StoreBytes(tier);
      EvenStore(tier, VGA_BASE + 2 * dst, VGA_BASE + 2 * dst + bytes);
      OverwrittenNone(mem[..], dst, entry);
      var ptr, end := dst, dst + bytes / 2;
      while ptr < end
        invariant Aligned(VGA_BASE + 2 * ptr, w) && dst <= ptr <= end
        invariant mem[..] == Overwritten(old(mem[..]), dst, ptr, entry)
      {
        NextAligned(VGA_BASE + 2 * ptr, VGA_BASE + 2 * end, w);
        StoreEntry(ptr, w / 2, entry32, entry);
        OverwrittenTwice(old(mem[..]), dst, ptr, ptr + w / 2, entry);
        ptr := ptr + w / 2;
      }
    }

    /** One store of n cells, the halves of a 32-bit entry by turns. */
    method StoreEntry(k: nat, n: nat, entry32: nat, ghost entry: Cell)
      requires k + n <= mem.Length && entry32 == Twice(entry)
      modifies mem
      ensures mem[..] == Overwritten(old(mem[..]), k, k + n, entry)
    {
      var low: Cell, high: Cell := entry32 % 0x1_0000, entry32 / 0x1_0000;
      forall i | k <= i < k + n {
        mem[i] := if (i - k) % 2 == 0 then low else high;
      }
    }

    /** fallback_copy, use_sse_2_copy and use_avx_2_copy, with the destination reached. */
    method CopyCells(src: nat, dst: nat, bytes: nat) returns (reached: nat)
      requires dst + bytes / 2 <= src && src + bytes / 2 <= mem.Length
      requires Aligned(VGA_BASE + 2 * src, StoreBytes(tier)) && Aligned(VGA_BASE + 2 * dst, StoreBytes(tier))
      requires Aligned(VGA_BASE + 2 * src + bytes, StoreBytes(tier))
      modifies mem
      ensures reached == dst + bytes / 2
      ensures mem[..] == Copied(old(mem[..]), src, dst, bytes / 2)
    {
      hide Aligned, Copied, StoreBytes;
      var w := StoreBytes(tier);
      EvenStore(tier, VGA_BASE + 2 * src, VGA_BASE + 2 * src + bytes);
      CopiedNone(mem[..], src, dst);
      var source, end := src, src + bytes / 2;
      reached := dst;
      while source < end
        invariant Aligned(VGA_BASE + 2 * source, w) && src <= source <= end
        invariant reached == dst + (source - src)
        invariant mem[..] == Copied(old(mem[..]), src, dst, reached - dst)
      {
        NextAligned(VGA_BASE + 2 * source, VGA_BASE + 2 * end, w);
        StoreCells(source, reached, w / 2);
        CopiedMore(old(mem[..]), src, dst, reached - dst, w / 2);
        source := source + w / 2;
        reached := reached + w / 2;
      }
    }

    /** One load and store of n cells. */
    method StoreCells(src: nat, dst: nat, n: nat)
      requires dst + n <= src && src + n <= mem.Length
      modifies mem
      ensures mem[..] == Copied(old(mem[..]), src, dst, n)
    {
      forall i | 0 <= i < n {
        mem[dst + i] := mem[src + i];
      }
    }

    /** reset: the last 24 rows are copied to rows 1 to 24, and row 25 is made blank. */
    method Reset()
      requires mem.Length == WINDOW && baseRow == BASE_ROW_MAX + 1
      modifies this`baseRow, this`row, mem
      ensures baseRow == 1 && row == HEIGHT - 1
      ensures 2 * mem.Length == 0x8000 < 2 * 80 * (old(baseRow) + 25) && 2 * 80 * (old(baseRow) + 24) <= 0x8000
      ensures mem[WIDTH..WIDTH + HEIGHT * WIDTH]
              == old(mem[baseRow * WIDTH..baseRow * WIDTH + (HEIGHT - 1) * WIDTH]) + Blanks(WIDTH)
    {
      hide Aligned, Copied, Overwritten, StoreBytes, Blanks;
      ghost var was := mem[..];
      RowAligned(tier, baseRow);
      RowAligned(tier, baseRow + HEIGHT - 1);
      RowAligned(tier, 1);
      RowAligned(tier, HEIGHT);
      var destination := CopyCells(baseRow * WIDTH, WIDTH, (HEIGHT - 1) * WIDTH * 2);
      baseRow := 1;
      row := HEIGHT - 1;
      var entry := MakeEntry(' ', DEFAULT_COLOR);
      FillCells(destination, WIDTH * 2, Twice(entry), entry);
      CopiedBack(was);
    }

    /** clear_row: the row at the cursor, which stands in column 0. */
    method ClearRow()
      requires mem.Length == WINDOW && baseRow <= BASE_ROW_MAX && row < HEIGHT && column == 0
      modifies mem
      ensures mem[..] == old(mem[..(baseRow + row) * WIDTH]) + Blanks(WIDTH) + old(mem[(baseRow + row + 1) * WIDTH..])
    {
      RowAligned(tier, baseRow + row);
      var entry := MakeEntry(' ', DEFAULT_COLOR);
      FillCells(GetPosition(), WIDTH * 2, Twice(entry), entry);
    }

    /** clear. */
    method Clear()
      requires mem.Length == WINDOW
      modifies this`baseRow, this`row, this`column, this`displayStart, mem
      ensures Valid()
      ensures Shown() == Screen(Blanks(HEIGHT * WIDTH), 0, 0, activeColor)
      ensures row == column == 0 && forall i | 0 <= i < 2000 :: Shown().cells[i] == 0x0F20
    {
      RowAligned(tier, 0);
      RowAligned(tier, HEIGHT);
      var entry := MakeEntry(' ', DEFAULT_COLOR);
      FillCells(0, WIDTH * HEIGHT * 2, Twice(entry), entry);
      baseRow, column, row := 0, 0, 0;
      displayStart := 0;
    }

    /** The common end of move_forward and move_to_next_line. */
    method Scroll(overflowed: bool)
      requires mem.Length == WINDOW && row < HEIGHT && column < WIDTH
      requires overflowed ==> row == HEIGHT - 1 && column == 0 && 0 < baseRow <= BASE_ROW_MAX + 1
      requires if overflowed then displayStart == (baseRow - 1) * WIDTH else baseRow <= BASE_ROW_MAX && displayStart == baseRow * WIDTH
      modifies this`baseRow, this`row, this`displayStart, mem
      ensures Valid()
      ensures var was := Screen(old(mem[displayStart..displayStart + HEIGHT * WIDTH]), old(row), column, activeColor);
              Shown() == if overflowed then was.Scrolled() else was
    {
      if overflowed {
        if baseRow > BASE_ROW_MAX {
          Reset();
        } else {
          ClearRow();
        }
        displayStart := baseRow * WIDTH;
      }
    }

    /** move_forward. */
    method MoveForward()
      requires Valid()
      modifies this`baseRow, this`row, this`column, this`displayStart, mem
      ensures Valid() && Shown() == old(Shown()).Forward()
    {
      column := column + 1;
      var overflowed := column == WIDTH;
      column := column - Number(overflowed) * WIDTH;
      row := row + Number(overflowed);
      overflowed := row == HEIGHT;
      baseRow := baseRow + Number(overflowed);
      row := row - Number(overflowed);
      Scroll(overflowed);
    }

    /** move_to_next_line. */
    method MoveToNextLine()
      requires Valid()
      modifies this`baseRow, this`row, this`column, this`displayStart, mem
      ensures Valid() && Shown() == old(Shown()).NextLine()
    {
      column := 0;
      row := row + 1;
      var overflowed := row == HEIGHT;
      baseRow := baseRow + Number(overflowed);
      row := row - Number(overflowed);
      Scroll(overflowed);
    }

    /** put. */
    method Put(c: char)
      requires Valid()
      modifies this`baseRow, this`row, this`column, this`displayStart, mem
      ensures Valid() && Shown() == old(Shown()).Put(c)
      ensures Placed(old(Shown()), c, Shown())
    {
      ghost var was := Shown();
      PutPlaces(was, c);
      hide Placed;
      mem[GetPosition()] := MakeEntry(c, activeColor);
      assert Shown().cells == was.cells[was.Position() := MakeEntry(c, activeColor)];
      MoveForward();
    }

    /** move_backwards, in 8-bit arithmetic.  The cursor steps back by one cell iff it is not at the
        top left: there both the window and the row change, and the position is wrong. */
    method MoveBackwards()
      requires Valid()
      modifies this`baseRow, this`row, this`column
      ensures GetPosition() == old(GetPosition()) - 1 <==> old(row > 0 || column > 0)
      ensures old(row > 0 || column > 0) ==> Valid() && Shown() == old(Shown()).Back()
    {
      var columnAtEnd := column == 0;
      column := (column - 1 + Number(columnAtEnd) * WIDTH) % 0x100;
      var rowAtEnd := row == 0 && columnAtEnd;
      baseRow := (baseRow - Number(rowAtEnd)) % 0x100;
      row := (row - Number(columnAtEnd) + Number(rowAtEnd) * HEIGHT) % 0x100;
    }

    /** remove_last_char, away from the top left. */
    method RemoveLastChar()
      requires Valid() && (row > 0 || column > 0)
      modifies this`baseRow, this`row, this`column, mem
      ensures Valid() && Shown() == old(Shown()).Rubout()
      ensures Rubbed(old(Shown()), Shown())
    {
      ghost var was := Shown();
      RuboutIs(was);
      hide Rubbed;
      MoveBackwards();
      mem[GetPosition()] := MakeEntry(' ', activeColor);
      assert Shown().cells == was.cells[was.Back().Position() := MakeEntry(' ', activeColor)];
    }

    /** move_cursor_left_n and move_cursor_right_n: the position is exact iff the move stays in the row. */
    method MoveCursorN(count: int)
      requires Valid() && -0x100 < count < 0x100
      modifies this`baseRow, this`row, this`column
      ensures GetPosition() == old(GetPosition()) + count <==> 0 <= old(column) + count < WIDTH
      ensures 0 <= old(column) + count < WIDTH ==> Valid() && Shown() == old(Shown()).(column := old(column) + count)
    {
      hide TruncDiv;
      CursorMove(baseRow, row, column, count);
      var absPos := row * WIDTH + column + count;
      var newRow := TruncDiv(absPos, WIDTH) % 0x100;
      var newColumn := (absPos - newRow * WIDTH) % 0x100;
      baseRow := (baseRow - (row - newRow) % 0x100) % 0x100;
      row := newRow;
      column := newColumn;
    }

    /** put_char_no_sync. */
    method PutChar(c: char)
      requires Valid()
      modifies this`baseRow, this`row, this`column, this`displayStart, mem
      ensures Valid() && Shown() == old(Shown()).PutChar(c)
      ensures Wrote(old(Shown()), c, Shown())
    {
      PutCharWrites(Shown(), c);
      hide Wrote;
      if c == '\r' {
        column := 0;
      } else if c == '\n' {
        MoveToNextLine();
      } else {
        Put(c);
      }
    }

    /** write_string_no_sync: what is shown is what the ideal terminal shows. */
    method WriteString(text: string)
      requires Valid()
      modifies this`baseRow, this`row, this`column, this`displayStart, mem
      ensures Valid() && Shown() == old(Shown()).Render(text)
      ensures '\r' !in text && '\n' !in text
              ==> var end := old(row * 80 + column) + |text|;
                  && row * 80 + column == end - Gone(end)
                  && forall i | 0 <= i < 2000 :: Shown().cells[i] == TapeCell(old(Shown()), text, i + Gone(end))
    {
      if '\r' !in text && '\n' !in text {
        RenderIsTape(Shown(), text);
      }
      hide TapeCell, Gone;
      var i := 0;
      while i < |text|
        invariant 0 <= i <= |text| && Valid()
        invariant Shown().Render(text[i..]) == old(Shown()).Render(text)
      {
        PutChar(text[i]);
        assert text[i..][0] == text[i] && text[i..][1..] == text[i + 1..];
        i := i + 1;
      }
    }
  }

  /** Division as C does it, toward zero. */
  function TruncDiv(a: int, b: nat): int
    requires b > 0
  {
    if a >= 0 then a / b else -(-a / b)
  }

  function Number(b: bool): nat {
    if b then 1 else 0
  }

  /** Every store moves whole cells. */
  lemma EvenStore(tier: CpuTier, start: nat, end: nat)
    requires start <= end && Aligned(start, StoreBytes(tier)) && Aligned(end, StoreBytes(tier))
    ensures StoreBytes(tier) > 0 && StoreBytes(tier) % 2 == 0 && (end - start) % 2 == 0
  {
    CoarserAligned(start, StoreBytes(tier), 2);
    CoarserAligned(end, StoreBytes(tier), 2);
  }

  /** The row, column and window base after a cursor move, in 16-bit and 8-bit numbers. */
  function MovedTo(baseRow: nat, row: nat, absPos: int): (r: (nat, nat, nat)) {
    var newRow := TruncDiv(absPos, WIDTH) % 0x100;
    ((baseRow - (row - newRow) % 0x100) % 0x100, newRow, (absPos - newRow * WIDTH) % 0x100)
  }

  /** A move that stays in the row is exact. */
  lemma MoveInRow(baseRow: nat, row: nat, column: nat)
    requires baseRow <= BASE_ROW_MAX && row < HEIGHT && column < WIDTH
    ensures MovedTo(baseRow, row, row * WIDTH + column) == (baseRow, row, column)
  {
    assert (row * WIDTH + column) / WIDTH == row;
  }

  /** A move to another row that exists moves the window too. */
  lemma MoveToOtherRow(baseRow: nat, row: nat, newRow: nat, column: nat)
    requires baseRow <= BASE_ROW_MAX && row < HEIGHT && newRow < 40 && column < WIDTH && newRow != row
    ensures var (b, r, c) := MovedTo(baseRow, row, newRow * WIDTH + column);
            r == newRow && c == column && b != baseRow
  {
    assert (newRow * WIDTH + column) / WIDTH == newRow;
  }

  /** A move to before the first row is wrong as well. */
  lemma MoveBeforeStart(baseRow: nat, row: nat, absPos: int)
    requires baseRow <= BASE_ROW_MAX && row < HEIGHT && -0x100 < absPos < 0
    ensures var (b, r, c) := MovedTo(baseRow, row, absPos);
            (b + r) * WIDTH + c != baseRow * WIDTH + absPos
  {
    var q := -absPos / WIDTH;
    assert 0 <= q <= 3;
    if q == 0 {
    } else if q == 1 {
    } else if q == 2 {
    } else {
    }
  }

  /** A cursor move is exact iff it does not leave the row. */
  lemma CursorMove(baseRow: nat, row: nat, column: nat, count: int)
    requires baseRow <= BASE_ROW_MAX && row < HEIGHT && column < WIDTH && -0x100 < count < 0x100
    ensures var (b, r, c) := MovedTo(baseRow, row, row * WIDTH + column + count);
            if 0 <= column + count < WIDTH then (b, r, c) == (baseRow, row, column + count)
            else (b + r) * WIDTH + c != (baseRow + row) * WIDTH + column + count
  {
    hide MovedTo;
    var absPos := row * WIDTH + column + count;
    if 0 <= column + count < WIDTH {
      MoveInRow(baseRow, row, column + count);
    } else if absPos < 0 {
      MoveBeforeStart(baseRow, row, absPos);
    } else {
      var newRow, newColumn := absPos / WIDTH, absPos % WIDTH;
      assert absPos == newRow * WIDTH + newColumn;
      MoveToOtherRow(baseRow, row, newRow, newColumn);
    }
  }

  /** Rows are 160 bytes long and video memory starts at a multiple of 32, so every row does too. */
  lemma RowAligned(tier: CpuTier, row: nat)
    ensures Aligned(VGA_BASE + 2 * (row * WIDTH), StoreBytes(tier))
    ensures Aligned(VGA_BASE + 2 * (row * WIDTH) + 2 * WIDTH, StoreBytes(tier))
  {
  }
}

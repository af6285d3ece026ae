/** The line editor: a zero-terminated buffer edited in place, and the screen row that echoes it. */
module LineEditor {
  import opened Vga

  const CAPACITY: nat := 128
  const TAB_SPACES := "    "

  // ---- the ideal editor ----

  /** A character that a key produces: no terminator and no line control. */
  predicate Plain(c: char) {
    c != '\0' && c != '\r' && c != '\n'
  }

  predicate Printable(text: string) {
    forall i | 0 <= i < |text| :: Plain(text[i])
  }

  datatype Key = Text(c: char) | Escape | Backspace | Tab | Enter | Home | End | Left | Right | Other

  datatype Line = Line(text: string, cursor: nat) {
    ghost predicate Valid() {
      |text| <= CAPACITY && cursor <= |text| && Printable(text)
    }

    function Insert(s: string): Line
      requires cursor <= |text|
    {
      Line(text[..cursor] + s + text[cursor..], cursor + |s|)
    }

    function DeleteBack(): Line
      requires cursor <= |text|
    {
      if cursor == 0 then this else Line(text[..cursor - 1] + text[cursor..], cursor - 1)
    }

    /** A character is refused when the buffer is full; four spaces already when they would fill it. */
    function Edit(key: Key): (r: Line)
      requires cursor <= |text|
      ensures r.cursor <= |r.text|
    {
      match key
      case Text(c) => if |text| < CAPACITY then Insert([c]) else this
      case Tab => if |text| + |TAB_SPACES| < CAPACITY then Insert(TAB_SPACES) else this
      case Backspace => DeleteBack()
      case Escape => Line([], 0)
      case Home => this.(cursor := 0)
      case End => this.(cursor := |text|)
      case Left => if cursor > 0 then this.(cursor := cursor - 1) else this
      case Right => if cursor < |text| then this.(cursor := cursor + 1) else this
      case Enter => this
      case Other => this
    }
  }

  /** The keys up to the first enter. */
  function EditAll(line: Line, keys: seq<Key>): Line
    requires line.cursor <= |line.text|
    decreases |keys|
  {
    if keys == [] || keys[0] == Enter then line else EditAll(line.Edit(keys[0]), keys[1..])
  }

  /** Prompt and text fit in one row before and after every key up to the first enter. */
  predicate Fits(line: Line, keys: seq<Key>, prompt: nat)
    requires line.cursor <= |line.text|
    decreases |keys|
  {
    keys == [] || keys[0] == Enter
    || (prompt + |line.Edit(keys[0]).text| < WIDTH && Fits(line.Edit(keys[0]), keys[1..], prompt))
  }

  /** The text without the spaces at its end. */
  function TrimEnd(text: string): (r: string)
    ensures r <= text
    ensures r == [] || r[|r| - 1] != ' '
    ensures forall i | |r| <= i < |text| :: text[i] == ' '
  {
    if text != [] && text[|text| - 1] == ' ' then TrimEnd(text[..|text| - 1]) else text
  }

  /** As many backspaces as characters take back what was inserted, be it typed or a tab. */
  lemma {:induction false} BackspacesUndo(line: Line, s: string)
    requires line.Valid()
    ensures EditAll(line.Insert(s), seq(|s|, _ => Backspace)) == line
    decreases |s|
  {
    var keys := seq(|s|, _ => Backspace);
    if s == [] {
      assert line.text[..line.cursor] + [] + line.text[line.cursor..] == line.text;
    } else {
      var typed, rest := line.Insert(s), s[..|s| - 1];
      assert typed.text[..typed.cursor - 1] == line.text[..line.cursor] + rest;
      assert typed.text[typed.cursor..] == line.text[line.cursor..];
      assert typed.DeleteBack() == line.Insert(rest);
      assert keys[1..] == seq(|rest|, _ => Backspace);
      BackspacesUndo(line, rest);
    }
  }

  // ---- what the keys do ----

  /** The same key n times. */
  function Presses(key: Key, n: nat): seq<Key> {
    seq(n, _ => key)
  }

  lemma NoEnter(key: Key, n: nat)
    requires key != Enter
    ensures Enter !in Presses(key, n)
  {
  }

  lemma {:induction false} EditAppend(line: Line, a: seq<Key>, b: seq<Key>)
    requires line.cursor <= |line.text| && Enter !in a
    ensures EditAll(line, a).cursor <= |EditAll(line, a).text|
    ensures EditAll(line, a + b) == EditAll(EditAll(line, a), b)
    decreases |a|
  {
    if a == [] {
      assert a + b == b;
    } else {
      assert (a + b)[1..] == a[1..] + b;
      EditAppend(line.Edit(a[0]), a[1..], b);
    }
  }

  lemma EditOne(line: Line, key: Key)
    requires line.cursor <= |line.text|
    ensures EditAll(line, [key]) == if key == Enter then line else line.Edit(key)
  {
    assert [key][1..] == [];
    if key != Enter {
      assert EditAll(line.Edit(key), []) == line.Edit(key);
    }
  }

  /** The keys that change the text: escape drops it all; backspace takes the character before the cursor;
      tab inserts four spaces and a character itself, when the text then stays below 128 characters, or
      reaches at most 128.  Nothing happens after enter. */
  lemma KeysThatEdit(line: Line, c: char, more: seq<Key>)
    requires line.cursor <= |line.text|
    ensures EditAll(line, [Escape]) == Line("", 0)
    ensures EditAll(line, [Backspace])
            == if line.cursor == 0 then line else Line(line.text[..line.cursor - 1] + line.text[line.cursor..], line.cursor - 1)
    ensures EditAll(line, [Tab])
            == if |line.text| + 4 >= 128 then line
               else Line(line.text[..line.cursor] + "    " + line.text[line.cursor..], line.cursor + 4)
    ensures EditAll(line, [Text(c)])
            == if |line.text| >= 128 then line
               else Line(line.text[..line.cursor] + [c] + line.text[line.cursor..], line.cursor + 1)
    ensures EditAll(line, [Enter] + more) == line && EditAll(line, [Other]) == line
  {
    EditOne(line, Escape);
    EditOne(line, Backspace);
    EditOne(line, Tab);
    EditOne(line, Text(c));
    EditOne(line, Other);
  }

  /** Moving about keeps the text, and the cursor inside it. */
  lemma {:induction false} NavigationKeepsText(line: Line, keys: seq<Key>)
    requires line.cursor <= |line.text| && forall i | 0 <= i < |keys| :: keys[i] in {Home, End, Left, Right, Other}
    ensures EditAll(line, keys).text == line.text && EditAll(line, keys).cursor <= |line.text|
    decreases |keys|
  {
    if keys != [] {
      NavigationKeepsText(line.Edit(keys[0]), keys[1..]);
    }
  }

  /** The arrows move by as many places as they are pressed, and stop at the ends of the text. */
  lemma {:induction false} ArrowsMove(line: Line, n: nat)
    requires line.cursor <= |line.text|
    ensures EditAll(line, Presses(Left, n)) == Line(line.text, if n <= line.cursor then line.cursor - n else 0)
    ensures EditAll(line, Presses(Right, n))
            == Line(line.text, if line.cursor + n <= |line.text| then line.cursor + n else |line.text|)
    decreases n
  {
    if n > 0 {
      assert Presses(Left, n)[1..] == Presses(Left, n - 1);
      assert Presses(Right, n)[1..] == Presses(Right, n - 1);
      ArrowsMove(line.Edit(Left), n - 1);
      ArrowsMove(line.Edit(Right), n - 1);
    }
  }

  /** A character typed after home comes before the text, and after end behind it. */
  lemma TypedAtTheEnds(line: Line, c: char)
    requires line.cursor <= |line.text| < 128
    ensures EditAll(line, [Home, Text(c)]) == Line([c] + line.text, 1)
    ensures EditAll(line, [End, Text(c)]) == Line(line.text + [c], |line.text| + 1)
  {
    assert line.text[..0] + [c] + line.text[0..] == [c] + line.text;
    assert line.text[..|line.text|] + [c] + line.text[|line.text|..] == line.text + [c];
    EditOne(line, Home);
    EditOne(line, End);
    hide EditAll;
    TypedAt(line, [Home], Line(line.text, 0), c);
    TypedAt(line, [End], Line(line.text, |line.text|), c);
    assert [Home, Text(c)] == [Home] + [Text(c)] && [End, Text(c)] == [End] + [Text(c)];
  }

  /** A character typed after n times left from the end goes n places before the end, or before the text
      when it is shorter. */
  lemma TypedAfterLefts(line: Line, n: nat, c: char)
    requires line.cursor <= |line.text| < 128
    ensures var k := if n <= |line.text| then |line.text| - n else 0;
            EditAll(line, [End] + Presses(Left, n) + [Text(c)]) == Line(line.text[..k] + [c] + line.text[k..], k + 1)
  {
    EditOne(line, End);
    hide EditAll, Presses;
    TypedAfter(line, End, Line(line.text, |line.text|), Left, n, c);
  }

  /** A character typed after n times right from the start goes n places behind the start, or behind the
      text when it is shorter. */
  lemma TypedAfterRights(line: Line, n: nat, c: char)
    requires line.cursor <= |line.text| < 128
    ensures var k := if n <= |line.text| then n else |line.text|;
            EditAll(line, [Home] + Presses(Right, n) + [Text(c)]) == Line(line.text[..k] + [c] + line.text[k..], k + 1)
  {
    EditOne(line, Home);
    hide EditAll, Presses;
    TypedAfter(line, Home, Line(line.text, 0), Right, n, c);
  }

  lemma TypedAfter(line: Line, first: Key, start: Line, arrow: Key, n: nat, c: char)
    requires line.cursor <= |line.text| && first != Enter && arrow in {Left, Right} && EditAll(line, [first]) == start
    requires start.cursor <= |start.text| < 128
    ensures var there := EditAll(start, Presses(arrow, n));
            && there.text == start.text
            && there.cursor == (if arrow == Left then if n <= start.cursor then start.cursor - n else 0
                                else if start.cursor + n <= |start.text| then start.cursor + n else |start.text|)
            && EditAll(line, [first] + Presses(arrow, n) + [Text(c)])
               == Line(there.text[..there.cursor] + [c] + there.text[there.cursor..], there.cursor + 1)
  {
    NoEnter(arrow, n);
    hide EditAll, Presses;
    EditAppend(line, [first], Presses(arrow, n));
    ArrowsMove(start, n);
    TypedAt(line, [first] + Presses(arrow, n), EditAll(start, Presses(arrow, n)), c);
  }

  lemma TypedAt(line: Line, keys: seq<Key>, there: Line, c: char)
    requires line.cursor <= |line.text| && Enter !in keys && EditAll(line, keys) == there
    requires there.cursor <= |there.text| < 128
    ensures EditAll(line, keys + [Text(c)])
            == Line(there.text[..there.cursor] + [c] + there.text[there.cursor..], there.cursor + 1)
  {
    hide EditAll;
    EditAppend(line, keys, [Text(c)]);
    KeysThatEdit(there, c, []);
  }

  /** Left and right undo each other, except where the first of them could not move. */
  lemma ArrowsUndo(line: Line)
    requires line.cursor <= |line.text|
    ensures line.cursor > 0 ==> EditAll(line, [Left, Right]) == line
    ensures line.cursor < |line.text| ==> EditAll(line, [Right, Left]) == line
    ensures line.cursor == 0 ==> EditAll(line, [Left]) == line
    ensures line.cursor == |line.text| ==> EditAll(line, [Right]) == line
  {
    assert [Left, Right] == [Left] + [Right] && [Right, Left] == [Right] + [Left];
    EditAppend(line, [Left], [Right]);
    EditAppend(line, [Right], [Left]);
    EditOne(line, Left);
    EditOne(line, Right);
    EditOne(line.Edit(Left), Right);
    EditOne(line.Edit(Right), Left);
  }

  /** The keys that type a text. */
  function Typing(text: string): seq<Key> {
    seq(|text|, i requires 0 <= i < |text| => Text(text[i]))
  }

  lemma TypeOne(line: Line, c: char)
    requires line.cursor == |line.text| <= CAPACITY
    ensures line.Edit(Text(c)) == if |line.text| < CAPACITY then Line(line.text + [c], |line.text| + 1) else line
  {
    if |line.text| < CAPACITY {
      assert line.text[..line.cursor] + [c] + line.text[line.cursor..] == line.text + [c];
    }
  }

  /** What there is room for, without the first character. */
  lemma RoomLeft(before: string, text: string)
    requires text != [] && |before| <= CAPACITY
    ensures var room := CAPACITY - |before|;
            var kept, rest := if |text| <= room then text else text[..room], text[1..];
            if room == 0 then before + kept == before + [] && before + (if |rest| <= 0 then rest else rest[..0]) == before + []
            else before + kept == before + [text[0]] + if |rest| <= room - 1 then rest else rest[..room - 1]
  {
  }

  lemma TypingNext(text: string)
    requires text != []
    ensures Typing(text) != [] && Typing(text)[0] == Text(text[0]) && Typing(text)[1..] == Typing(text[1..])
  {
  }

  /** Typing a text of any length at the end of a line keeps as much of it as there is room for. */
  lemma {:induction false} TypedFills(line: Line, text: string)
    requires line.cursor == |line.text| <= CAPACITY
    ensures var room := CAPACITY - |line.text|;
            var all := line.text + if |text| <= room then text else text[..room];
            EditAll(line, Typing(text)) == Line(all, |all|)
    decreases |text|
  {
    if text == [] {
      assert line.text + [] == line.text;
    } else {
      hide Line.Edit, Typing;
      var next, rest := line.Edit(Text(text[0])), text[1..];
      TypeOne(line, text[0]);
      TypingNext(text);
      TypedFills(next, rest);
      RoomLeft(line.text, text);
    }
  }

  // ---- the screen row ----

  /** The row at the cursor shows, from column prompt on, the text and then spaces, and the cursor
      stands under the same character in both. */
  ghost predicate Shows(s: Screen, line: Line, prompt: nat) {
    && s.Valid() && line.cursor <= |line.text|
    && prompt + |line.text| < WIDTH
    && s.column == prompt + line.cursor
    && var start := s.row * WIDTH + prompt;
       && (forall i | start <= i < start + |line.text| :: s.cells[i] == line.text[i - start] as int % 0x100 + 0x100 * s.color)
       && (forall i | start + |line.text| <= i < (s.row + 1) * WIDTH :: s.cells[i] % 0x100 == ' ' as int)
  }

  /** Nothing but the rest of the row has changed. */
  ghost predicate OnlyRowChanged(before: Screen, after: Screen, prompt: nat)
    requires before.Valid() && after.Valid()
  {
    && after.row == before.row && after.color == before.color
    && forall i | 0 <= i < HEIGHT * WIDTH && !(before.row * WIDTH + prompt <= i < (before.row + 1) * WIDTH) ::
         after.cells[i] == before.cells[i]
  }

  /** Rendering printable text that does not reach the end of the row. */
  lemma {:induction false} RenderInRow(s: Screen, text: string)
    requires s.Valid() && Printable(text) && s.column + |text| < WIDTH
    ensures var t := s.Render(text);
            && t.Valid() && t.row == s.row && t.column == s.column + |text| && t.color == s.color
            && forall i | 0 <= i < HEIGHT * WIDTH ::
                 t.cells[i] == if s.Position() <= i < s.Position() + |text| then text[i - s.Position()] as int % 0x100 + 0x100 * s.color
                               else s.cells[i]
    decreases |text|
  {
    if text != [] {
      assert Plain(text[0]);
      RenderInRow(s.PutChar(text[0]), text[1..]);
    }
  }

  // ---- the buffer ----

  /** move_data_right on the characters: those above begin, up to end, come from step places below. */
  function ShiftedRight(b: string, end: nat, begin: int, step: nat): (r: string)
    requires 0 < step <= begin + 1 && end < |b|
    ensures |r| == |b|
  {
    seq(|b|, i requires 0 <= i < |b| => if begin < i <= end then b[i - step] else b[i])
  }

  /** move_data_left by one on the characters. */
  function ShiftedLeft(b: string, begin: nat, end: nat): (r: string)
    requires end < |b|
    ensures |r| == |b|
  {
    seq(|b|, i requires 0 <= i < |b| => if begin <= i < end then b[i + 1] else b[i])
  }

  /** The characters with some written over them from at on. */
  function WrittenAt(b: string, at: nat, s: string): (r: string)
    requires at + |s| <= |b|
    ensures |r| == |b|
  {
    b[..at] + s + b[at + |s|..]
  }

  /** The characters with the tail moved up by n. */
  ghost predicate Gap(was: string, now: string, cursor: nat, dataEnd: nat, n: nat)
    requires cursor <= dataEnd && dataEnd + n <= |was| == |now|
  {
    && (forall i | 0 <= i < cursor :: now[i] == was[i])
    && (forall i | cursor + n <= i < dataEnd + n :: now[i] == was[i - n])
  }

  /** Moving the tail makes the gap, whether or not the terminator above it moves along. */
  lemma ShiftIsGap(was: string, cursor: nat, dataEnd: nat, end: nat, n: nat)
    requires cursor < dataEnd && dataEnd + n - 1 <= end < |was| && n > 0 && dataEnd + n <= |was|
    ensures Gap(was, ShiftedRight(was, end, cursor + n - 1, n), cursor, dataEnd, n)
  {
  }

  lemma GapKept(was: string, now: string, cursor: nat, dataEnd: nat, n: nat, at: nat, c: char)
    requires cursor <= dataEnd && dataEnd + n <= at < |was| == |now|
    requires (cursor == dataEnd && now == was) || Gap(was, now, cursor, dataEnd, n)
    ensures Gap(was, now[at := c], cursor, dataEnd, n)
  {
  }

  lemma ShiftMakesGap(was: string, cursor: nat, dataEnd: nat, n: nat)
    requires cursor <= dataEnd && dataEnd + n < |was| && n > 0
    ensures var shifted := if cursor == dataEnd then was else ShiftedRight(was, dataEnd + n, cursor + n - 1, n);
            Gap(was, shifted[dataEnd + n := '\0'], cursor, dataEnd, n)
  {
    hide Gap, ShiftedRight;
    if cursor == dataEnd {
      GapKept(was, was, cursor, dataEnd, n, dataEnd + n, '\0');
    } else {
      ShiftIsGap(was, cursor, dataEnd, dataEnd + n, n);
      GapKept(was, ShiftedRight(was, dataEnd + n, cursor + n - 1, n), cursor, dataEnd, n, dataEnd + n, '\0');
    }
  }

  /** Filling the gap is inserting. */
  lemma Inserted(was: string, gap: string, cursor: nat, dataEnd: nat, s: string)
    requires cursor <= dataEnd && dataEnd + |s| < |was| == |gap|
    requires Gap(was, gap, cursor, dataEnd, |s|)
    ensures var now := WrittenAt(gap, cursor, s);
            && now[dataEnd + |s|] == gap[dataEnd + |s|]
            && Line(now[..dataEnd + |s|], cursor + |s|) == Line(was[..dataEnd], cursor).Insert(s)
  {
    var now := WrittenAt(gap, cursor, s);
    var text := was[..dataEnd];
    assert gap[..cursor] == text[..cursor];
    assert gap[cursor + |s|..dataEnd + |s|] == text[cursor..];
    assert now[..dataEnd + |s|] == gap[..cursor] + s + gap[cursor + |s|..dataEnd + |s|];
  }

  /** A single character: the tail is shifted up without the terminator. */
  lemma InsertedOne(was: string, cursor: nat, dataEnd: nat, c: char)
    requires cursor <= dataEnd && dataEnd + 1 < |was|
    ensures var shifted := if cursor == dataEnd then was else ShiftedRight(was, dataEnd, cursor, 1);
            var now := shifted[cursor := c][dataEnd + 1 := '\0'];
            Line(now[..dataEnd + 1], cursor + 1) == Line(was[..dataEnd], cursor).Insert([c])
  {
    hide Gap, ShiftedRight, Line.Insert;
    var shifted := if cursor == dataEnd then was else ShiftedRight(was, dataEnd, cursor, 1);
    var gap := shifted[dataEnd + 1 := '\0'];
    if cursor < dataEnd {
      ShiftIsGap(was, cursor, dataEnd, dataEnd, 1);
    }
    GapKept(was, shifted, cursor, dataEnd, 1, dataEnd + 1, '\0');
    Inserted(was, gap, cursor, dataEnd, [c]);
    assert shifted[cursor := c][dataEnd + 1 := '\0'] == WrittenAt(gap, cursor, [c]);
  }

  /** Shifting the tail down over a character is deleting it. */
  lemma Deleted(was: string, cursor: nat, dataEnd: nat)
    requires 0 < cursor <= dataEnd < |was|
    ensures Line(ShiftedLeft(was, cursor - 1, dataEnd)[..dataEnd - 1], cursor - 1) == Line(was[..dataEnd], cursor).DeleteBack()
  {
    assert ShiftedLeft(was, cursor - 1, dataEnd)[..dataEnd - 1] == was[..cursor - 1] + was[cursor..dataEnd];
    assert was[..dataEnd][..cursor - 1] == was[..cursor - 1] && was[..dataEnd][cursor..] == was[cursor..dataEnd];
  }

  lemma InsertPrintable(line: Line, s: string)
    requires line.cursor <= |line.text| && Printable(line.text) && Printable(s)
    ensures Printable(line.Insert(s).text)
  {
    PrintablePrefix(line.text, line.cursor);
    PrintableSuffix(line.text, line.cursor);
    PrintableAppend(line.text[..line.cursor], s);
    PrintableAppend(line.text[..line.cursor] + s, line.text[line.cursor..]);
  }

  lemma DeletePrintable(line: Line)
    requires line.cursor <= |line.text| && Printable(line.text)
    ensures Printable(line.DeleteBack().text)
  {
    if line.cursor > 0 {
      PrintablePrefix(line.text, line.cursor - 1);
      PrintableSuffix(line.text, line.cursor);
      PrintableAppend(line.text[..line.cursor - 1], line.text[line.cursor..]);
    }
  }

  lemma PrintableAppend(a: string, b: string)
    requires Printable(a) && Printable(b)
    ensures Printable(a + b)
  {
  }

  lemma PlainString(c: char)
    requires Plain(c)
    ensures Printable([c])
  {
  }

  lemma PrintableSuffix(text: string, n: nat)
    requires Printable(text) && n <= |text|
    ensures Printable(text[n..])
  {
  }

  lemma PrintablePrefix(text: string, n: nat)
    requires Printable(text) && n <= |text|
    ensures Printable(text[..n])
  {
  }

  class Input {
    const buffer: array<char>
    var cursor: nat
    var dataEnd: nat
    var ready: bool
    const output: VgaTextBuffer

    constructor (output: VgaTextBuffer)
      ensures Valid() && Abs() == Line([], 0) && !ready && this.output == output && fresh(buffer)
    {
      buffer := new char[CAPACITY + 1](_ => '\0');
      cursor, dataEnd, ready := 0, 0, false;
      this.output := output;
    }

    /** The text is printable, at most 128 long and zero-terminated. */
    ghost predicate Terminated()
      reads this, buffer
    {
      && buffer.Length == CAPACITY + 1 && dataEnd <= CAPACITY
      && Printable(buffer[..dataEnd]) && buffer[dataEnd] == '\0'
    }

    ghost predicate Valid()
      reads this, buffer
    {
      Terminated() && cursor <= dataEnd
    }

    ghost function Abs(): Line
      reads this, buffer
      requires Valid()
    {
      Line(buffer[..dataEnd], cursor)
    }

    /** move_data_right. */
    method MoveDataRight(end: nat, begin: int, step: nat)
      requires 0 < step <= begin + 1 && begin <= end < buffer.Length
      modifies buffer
      ensures buffer[..] == ShiftedRight(old(buffer[..]), end, begin, step)
    {
      var e: int := end;
      while e > begin
        invariant begin <= e <= end
        invariant forall i | 0 <= i < buffer.Length ::
                    buffer[i] == if e < i <= end then old(buffer[i - step]) else old(buffer[i])
        decreases e - begin
      {
        buffer[e] := buffer[e - step];
        e := e - 1;
      }
    }

    /** move_data_left by one. */
    method MoveDataLeft(begin: nat, end: nat)
      requires begin <= end < buffer.Length
      modifies buffer
      ensures buffer[..] == ShiftedLeft(old(buffer[..]), begin, end)
    {
      var b := begin;
      while b < end
        invariant begin <= b <= end
        invariant forall i | 0 <= i < buffer.Length ::
                    buffer[i] == if begin <= i < b then old(buffer[i + 1]) else old(buffer[i])
      {
        buffer[b] := buffer[b + 1];
        b := b + 1;
      }
    }

    /** The terminator is where the text ends and nowhere before. */
    lemma AtEnd()
      requires Valid()
      ensures buffer[cursor] == '\0' <==> cursor == dataEnd
    {
      if cursor < dataEnd {
        assert Plain(buffer[..dataEnd][cursor]);
      }
    }

    method AddCharacter(c: char) returns (added: bool)
      requires Valid() && Plain(c)
      modifies this`cursor, this`dataEnd, buffer
      ensures Valid() && added == (|old(Abs()).text| < CAPACITY)
      ensures Abs() == if added then old(Abs()).Insert([c]) else old(Abs())
    {
      if dataEnd == CAPACITY {
        return false;
      }
      hide Printable, Line.Insert, ShiftedRight;
      ghost var was, at, end := buffer[..], cursor, dataEnd;
      AtEnd();
      PlainString(c);
      InsertPrintable(Abs(), [c]);
      if buffer[cursor] != '\0' {
        // the terminator is not moved here; it is written again below
        MoveDataRight(dataEnd, cursor, 1);
      }
      InsertedOne(was, at, end, c);
      buffer[cursor] := c;
      cursor := cursor + 1;
      dataEnd := dataEnd + 1;
      buffer[dataEnd] := '\0';
      return true;
    }

    method DeleteCharacter() returns (deleted: bool)
      requires Valid()
      modifies this`cursor, this`dataEnd, buffer
      ensures Valid() && deleted == (old(Abs()).cursor > 0)
      ensures Abs() == old(Abs()).DeleteBack()
    {
      if cursor == 0 {
        return false;
      }
      hide Printable, Line.DeleteBack, ShiftedLeft;
      ghost var was := buffer[..];
      DeletePrintable(Abs());
      cursor := cursor - 1;
      MoveDataLeft(cursor, dataEnd);
      Deleted(was, cursor + 1, dataEnd);
      dataEnd := dataEnd - 1;
      buffer[dataEnd] := '\0';
      return true;
    }

    method AddString(s: string) returns (added: bool)
      requires Valid() && Printable(s) && 0 < |s| < 0x100
      modifies this`cursor, this`dataEnd, buffer
      ensures Valid() && added == (|old(Abs()).text| + |s| < CAPACITY)
      ensures Abs() == if added then old(Abs()).Insert(s) else old(Abs())
    {
      if dataEnd + |s| >= CAPACITY {
        return false;
      }
      hide Printable, Line.Insert, WrittenAt, Gap;
      ghost var was, at, end, line := buffer[..], cursor, dataEnd, Abs();
      assert line.text == was[..end];
      InsertPrintable(line, s);
      MakeGap(|s|);
      Inserted(was, buffer[..], at, end, s);
      WriteAtCursor(s);
      assert buffer[..dataEnd] == buffer[..][..dataEnd];
      return true;
    }

    /** The shifting part of add_string. */
    method MakeGap(n: nat)
      requires Valid() && 0 < n && dataEnd + n < CAPACITY
      modifies this`dataEnd, buffer
      ensures dataEnd == old(dataEnd) + n && buffer[dataEnd] == '\0'
      ensures Gap(old(buffer[..]), buffer[..], cursor, old(dataEnd), n)
    {
      hide Printable, ShiftedRight, Gap;
      AtEnd();
      ShiftMakesGap(buffer[..], cursor, dataEnd, n);
      dataEnd := dataEnd + n;
      if buffer[cursor] != '\0' {
        MoveDataRight(dataEnd, cursor + n - 1, n);
      }
      buffer[dataEnd] := '\0';
    }

    /** The copying loop of add_string. */
    method WriteAtCursor(s: string)
      requires cursor + |s| <= buffer.Length
      modifies this`cursor, buffer
      ensures cursor == old(cursor) + |s|
      ensures buffer[..] == WrittenAt(old(buffer[..]), old(cursor), s)
    {
      var i := 0;
      while i < |s|
        invariant 0 <= i <= |s| && cursor == old(cursor) + i
        invariant buffer[..] == WrittenAt(old(buffer[..]), old(cursor), s[..i])
      {
        buffer[cursor] := s[i];
        cursor := cursor + 1;
        i := i + 1;
      }
      assert s[..i] == s;
    }

    method ResetBuffer()
      requires buffer.Length == CAPACITY + 1
      modifies this`cursor, this`dataEnd, this`ready, buffer
      ensures Valid() && Abs() == Line([], 0) && !ready
    {
      cursor := 0;
      dataEnd := 0;
      buffer[cursor] := '\0';
      ready := false;
    }

    /** trim_end; the cursor may be left behind the end. */
    method TrimTail()
      requires Terminated()
      modifies this`dataEnd, buffer
      ensures Terminated() && buffer[..dataEnd] == TrimEnd(old(buffer[..dataEnd]))
    {
      if dataEnd == 0 {
        return;
      }
      while dataEnd > 0 && buffer[dataEnd - 1] == ' '
        invariant dataEnd <= old(dataEnd)
        invariant TrimEnd(buffer[..dataEnd]) == TrimEnd(old(buffer[..dataEnd]))
        invariant buffer[..] == old(buffer[..]) && Printable(buffer[..dataEnd])
        decreases dataEnd
      {
        PrintablePrefix(buffer[..dataEnd], dataEnd - 1);
        assert buffer[..dataEnd][..dataEnd - 1] == buffer[..dataEnd - 1];
        dataEnd := dataEnd - 1;
      }
      buffer[dataEnd] := '\0';
    }

    // ---- the buffer under any keys ----

    /** What the handler of a key does to the buffer, whatever the screen. */
    method ApplyKey(key: Key)
      requires Valid() && !ready && (key.Text? ==> Plain(key.c))
      modifies this`cursor, this`dataEnd, this`ready, buffer
      ensures ready <==> key == Enter
      ensures key != Enter ==> Valid() && Abs() == old(Abs()).Edit(key)
      ensures key == Enter ==> Terminated() && buffer[..dataEnd] == TrimEnd(old(Abs()).text)
    {
      hide Line.Insert, Line.DeleteBack, Printable;
      match key {
        case Text(c) => var _ := AddCharacter(c);
        case Tab =>
          TabPrintable();
          var _ := AddString(TAB_SPACES);
        case Backspace => var _ := DeleteCharacter();
        case Escape => ResetBuffer();
        case Enter =>
          if dataEnd > 0 {
            TrimTail();
          }
          ready := true;
        case Home => cursor := 0;
        case End => cursor := dataEnd;
        case Left =>
          if cursor > 0 {
            cursor := cursor - 1;
          }
        case Right =>
          if cursor < dataEnd {
            cursor := cursor + 1;
          }
        case Other =>
      }
    }

    /** The buffer side of start_data_receiving.  For every sequence of keys up to enter the buffer
        holds what the ideal editor holds, zero-terminated and at most 128 long; enter leaves the
        line without its trailing spaces. */
    method ApplyKeys(keys: seq<Key>) returns (handled: nat)
      requires Valid() && !ready
      requires forall i | 0 <= i < |keys| && keys[i].Text? :: Plain(keys[i].c)
      modifies this`cursor, this`dataEnd, this`ready, buffer
      ensures handled <= |keys| && (ready <==> Enter in keys)
      ensures Terminated()
      ensures !ready ==> Valid() && Abs() == EditAll(old(Abs()), keys)
      ensures ready ==> buffer[..dataEnd] == TrimEnd(EditAll(old(Abs()), keys).text)
    {
      hide Line.Edit, Printable;
      handled := 0;
      while !ready && handled < |keys|
        invariant handled <= |keys|
        invariant ready ==> Enter in keys && Terminated() && buffer[..dataEnd] == TrimEnd(EditAll(old(Abs()), keys).text)
        invariant !ready ==> Enter !in keys[..handled] && Valid() && EditAll(Abs(), keys[handled..]) == EditAll(old(Abs()), keys)
        decreases |keys| - handled
      {
        assert keys[handled..][0] == keys[handled] && keys[handled..][1..] == keys[handled + 1..];
        ApplyKey(keys[handled]);
        handled := handled + 1;
      }
    }

    // ---- the key handlers ----

    /** The buffer and the screen agree; the text begins in column prompt. */
    ghost predicate Echoed(prompt: nat)
      reads this, buffer, output, output.mem
    {
      Valid() && output.Valid() && Shows(output.Shown(), Abs(), prompt)
    }

    /** The text behind the cursor is printed again and the cursor moved back over it.  Printing stops
        at the terminator, which is where the text ends. */
    method EchoTail(extra: string)
      requires Valid() && output.Valid() && Printable(extra)
      requires output.column + (dataEnd - cursor) + |extra| < WIDTH
      modifies output, output.mem
      ensures output.Valid()
      ensures output.Shown() == if cursor == dataEnd then old(output.Shown())
                                else Echo(old(output.Shown()), Abs().text[cursor..] + extra)
    {
      if cursor != dataEnd {
        ghost var screen, tail := output.Shown(), buffer[cursor..dataEnd];
        TailPrintable(buffer[..dataEnd], cursor, extra);
        RenderAppend(screen, tail, extra);
        RenderInRow(screen, tail + extra);
        output.WriteString(buffer[cursor..dataEnd]);
        output.WriteString(extra);
        output.MoveCursorN(-((dataEnd - cursor) + |extra|));
      }
    }

    /** What start_data_receiving does with a translated character. */
    method HandleText(c: char, ghost prompt: nat)
      requires Valid() && output.Valid() && Plain(c)
      requires |Abs().text| < CAPACITY ==> Echoed(prompt) && prompt + |Abs().text| + 1 < WIDTH
      modifies this`cursor, this`dataEnd, buffer, output, output.mem
      ensures Valid() && output.Valid() && Abs() == old(Abs()).Edit(Text(c))
      ensures if |old(Abs()).text| < CAPACITY
              then Echoed(prompt) && OnlyRowChanged(old(output.Shown()), output.Shown(), prompt)
              else output.Shown() == old(output.Shown())
    {
      hide Shows, OnlyRowChanged, Line.Insert, Screen.PutChar, Echo;
      ghost var line, screen := Abs(), output.Shown();
      var added := AddCharacter(c);
      if added {
        ShowsPlace(screen, line, prompt);
        PlainString(c);
        RenderOne(screen, c);
        InsertPlace(line, [c]);
        EchoInsert(screen, line, [c], prompt);
        output.PutChar(c);
        EchoTail("");
      }
    }

    /** handle_tab. */
    method HandleTab(ghost prompt: nat)
      requires Valid() && output.Valid()
      requires |Abs().text| + |TAB_SPACES| < CAPACITY ==> Echoed(prompt) && prompt + |Abs().text| + |TAB_SPACES| < WIDTH
      modifies this`cursor, this`dataEnd, buffer, output, output.mem
      ensures Valid() && output.Valid() && Abs() == old(Abs()).Edit(Tab)
      ensures if |old(Abs()).text| + |TAB_SPACES| < CAPACITY
              then Echoed(prompt) && OnlyRowChanged(old(output.Shown()), output.Shown(), prompt)
              else output.Shown() == old(output.Shown())
    {
      hide Shows, OnlyRowChanged, Line.Insert, Screen.PutChar, Screen.Render, Echo;
      ghost var line, screen := Abs(), output.Shown();
      var added := AddString(TAB_SPACES);
      if added {
        ShowsPlace(screen, line, prompt);
        InsertPlace(line, TAB_SPACES);
        EchoInsert(screen, line, TAB_SPACES, prompt);
        output.WriteString(TAB_SPACES);
        EchoTail("");
      }
    }

    method HandleBackspace(ghost prompt: nat)
      requires Valid() && output.Valid() && (Abs().cursor > 0 ==> Echoed(prompt))
      modifies this`cursor, this`dataEnd, buffer, output, output.mem
      ensures Valid() && output.Valid() && Abs() == old(Abs()).Edit(Backspace)
      ensures if old(Abs()).cursor > 0
              then Echoed(prompt) && OnlyRowChanged(old(output.Shown()), output.Shown(), prompt)
              else output.Shown() == old(output.Shown())
    {
      hide Shows, OnlyRowChanged, Line.DeleteBack, Echo, Screen.Rubout;
      ghost var line, screen := Abs(), output.Shown();
      var deleted := DeleteCharacter();
      if deleted {
        ShowsPlace(screen, line, prompt);
        DeletePlace(line);
        EchoDelete(screen, line, prompt);
        output.RemoveLastChar();
        EchoTail(" ");
      } else {
        DeleteNone(line);
      }
    }

    method HandleEscape(ghost prompt: nat)
      requires Echoed(prompt)
      modifies this`cursor, this`dataEnd, this`ready, buffer, output, output.mem
      ensures Echoed(prompt) && Abs() == Line([], 0) && !ready
      ensures OnlyRowChanged(old(output.Shown()), output.Shown(), prompt)
    {
      hide Shows, OnlyRowChanged, Screen.Rubout;
      ghost var line, screen := Abs(), output.Shown();
      ShowsPlace(screen, line, prompt);
      ShowsMoved(screen, line, prompt, dataEnd);
      NothingChanged(screen, prompt);
      output.MoveCursorN(dataEnd - cursor);
      var steps := dataEnd;
      assert line.text[..steps] == line.text;
      while steps > 0
        invariant steps <= dataEnd && output.Valid()
        invariant Shows(output.Shown(), Line(line.text[..steps], steps), prompt)
        invariant OnlyRowChanged(screen, output.Shown(), prompt)
      {
        ShowsRubout(output.Shown(), line.text[..steps], prompt);
        OnlyRowTwice(screen, output.Shown(), output.Shown().Rubout(), prompt);
        assert line.text[..steps][..steps - 1] == line.text[..steps - 1];
        output.RemoveLastChar();
        steps := steps - 1;
      }
      ResetBuffer();
    }

    method HandleHome(ghost prompt: nat)
      requires Echoed(prompt)
      modifies this`cursor, output, output.mem
      ensures Echoed(prompt) && Abs() == old(Abs()).Edit(Home)
      ensures OnlyRowChanged(old(output.Shown()), output.Shown(), prompt)
    {
      hide Shows, OnlyRowChanged;
      ghost var line, screen := Abs(), output.Shown();
      ShowsPlace(screen, line, prompt);
      NothingChanged(screen, prompt);
      ShowsMoved(screen, line, prompt, line.Edit(Home).cursor);
      output.MoveCursorN(0 - (cursor as int));
      cursor := 0;
    }

    method HandleEnd(ghost prompt: nat)
      requires Echoed(prompt)
      modifies this`cursor, output, output.mem
      ensures Echoed(prompt) && Abs() == old(Abs()).Edit(End)
      ensures OnlyRowChanged(old(output.Shown()), output.Shown(), prompt)
    {
      hide Shows, OnlyRowChanged;
      ghost var line, screen := Abs(), output.Shown();
      ShowsPlace(screen, line, prompt);
      NothingChanged(screen, prompt);
      ShowsMoved(screen, line, prompt, line.Edit(End).cursor);
      output.MoveCursorN(dataEnd - cursor);
      cursor := dataEnd;
    }

    method HandleArrowLeft(ghost prompt: nat)
      requires Echoed(prompt)
      modifies this`cursor, output, output.mem
      ensures Echoed(prompt) && Abs() == old(Abs()).Edit(Left)
      ensures OnlyRowChanged(old(output.Shown()), output.Shown(), prompt)
    {
      hide Shows, OnlyRowChanged;
      ghost var line, screen := Abs(), output.Shown();
      ShowsPlace(screen, line, prompt);
      NothingChanged(screen, prompt);
      ShowsMoved(screen, line, prompt, line.Edit(Left).cursor);
      if cursor > 0 {
        cursor := cursor - 1;
        output.MoveBackwards();
      }
    }

    method HandleArrowRight(ghost prompt: nat)
      requires Echoed(prompt)
      modifies this`cursor, output, output.mem
      ensures Echoed(prompt) && Abs() == old(Abs()).Edit(Right)
      ensures OnlyRowChanged(old(output.Shown()), output.Shown(), prompt)
    {
      hide Shows, OnlyRowChanged;
      ghost var line, screen := Abs(), output.Shown();
      ShowsPlace(screen, line, prompt);
      NothingChanged(screen, prompt);
      ShowsMoved(screen, line, prompt, line.Edit(Right).cursor);
      if cursor < dataEnd {
        cursor := cursor + 1;
        output.MoveForward();
      }
    }

    /** navigation_key_dispatch; the remaining keys do nothing. */
    method NavigationKeyDispatch(key: Key, ghost prompt: nat)
      requires key in {Home, End, Left, Right, Other} && Echoed(prompt)
      modifies this`cursor, output, output.mem
      ensures Echoed(prompt) && Abs() == old(Abs()).Edit(key)
      ensures OnlyRowChanged(old(output.Shown()), output.Shown(), prompt)
    {
      hide Shows;
      NothingChanged(output.Shown(), prompt);
      match key {
        case Home => HandleHome(prompt);
        case End => HandleEnd(prompt);
        case Left => HandleArrowLeft(prompt);
        case Right => HandleArrowRight(prompt);
        case Other =>
      }
    }

    /** The dispatch of one key other than enter. */
    method HandleKey(key: Key, ghost prompt: nat)
      requires key != Enter && (key.Text? ==> Plain(key.c))
      requires Echoed(prompt) && prompt + |Abs().Edit(key).text| < WIDTH && !ready
      modifies this`cursor, this`dataEnd, this`ready, buffer, output, output.mem
      ensures Echoed(prompt) && Abs() == old(Abs()).Edit(key) && !ready
      ensures OnlyRowChanged(old(output.Shown()), output.Shown(), prompt)
    {
      hide Shows, OnlyRowChanged, Line.Insert, Line.DeleteBack;
      NothingChanged(output.Shown(), prompt);
      InsertPlace(Abs(), TAB_SPACES);
      DeleteNone(Abs());
      if key.Text? {
        InsertPlace(Abs(), [key.c]);
        HandleText(key.c, prompt);
      } else if key == Tab {
        HandleTab(prompt);
      } else if key == Backspace {
        HandleBackspace(prompt);
      } else if key == Escape {
        HandleEscape(prompt);
      } else {
        NavigationKeyDispatch(key, prompt);
      }
    }

    /** handle_enter. */
    method HandleEnter()
      requires Valid() && output.Valid()
      modifies this`dataEnd, this`ready, buffer, output, output.mem
      ensures Terminated() && ready && buffer[..dataEnd] == TrimEnd(old(Abs()).text)
      ensures output.Valid() && output.Shown() == old(output.Shown()).NextLine()
    {
      if dataEnd > 0 {
        TrimTail();
      }
      output.PutChar('\n');
      ready := true;
    }

    /** start_data_receiving: keys are handled until enter.  As long as the line fits in its row, the
        row shows it before every key, and enter leaves it in the buffer without its trailing spaces. */
    method StartDataReceiving(keys: seq<Key>, ghost prompt: nat) returns (handled: nat)
      requires Echoed(prompt) && !ready && Fits(Abs(), keys, prompt)
      requires forall i | 0 <= i < |keys| && keys[i].Text? :: Plain(keys[i].c)
      modifies this`cursor, this`dataEnd, this`ready, buffer, output, output.mem
      ensures handled <= |keys| && (ready <==> Enter in keys)
      ensures !ready ==> Echoed(prompt) && Abs() == EditAll(old(Abs()), keys)
      ensures ready ==> Terminated() && buffer[..dataEnd] == TrimEnd(EditAll(old(Abs()), keys).text)
    {
      hide Shows, OnlyRowChanged, Line.Edit;
      handled := 0;
      while !ready && handled < |keys|
        invariant handled <= |keys|
        invariant ready ==> Enter in keys && Terminated() && buffer[..dataEnd] == TrimEnd(EditAll(old(Abs()), keys).text)
        invariant !ready ==> Enter !in keys[..handled] && Echoed(prompt) && Fits(Abs(), keys[handled..], prompt)
        invariant !ready ==> EditAll(Abs(), keys[handled..]) == EditAll(old(Abs()), keys)
        decreases |keys| - handled
      {
        var key := keys[handled];
        assert keys[handled..][0] == key && keys[handled..][1..] == keys[handled + 1..];
        if key == Enter {
          HandleEnter();
        } else {
          HandleKey(key, prompt);
        }
        handled := handled + 1;
      }
    }
  }

  // ---- what the handlers draw ----

  /** Text printed at the cursor, and the cursor moved back over it. */
  function Echo(s: Screen, text: string): Screen
    requires s.Valid()
  {
    s.Render(text).(column := s.column)
  }

  lemma ShowsPlace(s: Screen, line: Line, prompt: nat)
    requires Shows(s, line, prompt)
    ensures s.Valid() && s.column == prompt + line.cursor && line.cursor <= |line.text| && prompt + |line.text| < WIDTH
  {
  }

  lemma NothingChanged(s: Screen, prompt: nat)
    requires s.Valid()
    ensures OnlyRowChanged(s, s, prompt)
  {
  }

  lemma OnlyRowTwice(a: Screen, b: Screen, c: Screen, prompt: nat)
    requires a.Valid() && b.Valid() && c.Valid()
    requires OnlyRowChanged(a, b, prompt) && OnlyRowChanged(b, c, prompt)
    ensures OnlyRowChanged(a, c, prompt)
  {
  }

  lemma ShowsMoved(s: Screen, line: Line, prompt: nat, k: nat)
    requires Shows(s, line, prompt) && k <= |line.text|
    ensures var t := s.(column := prompt + k);
            t.Valid() && Shows(t, line.(cursor := k), prompt) && OnlyRowChanged(s, t, prompt)
  {
  }

  lemma InsertPlace(line: Line, s: string)
    requires line.cursor <= |line.text|
    ensures var l := line.Insert(s);
            && l.cursor == line.cursor + |s| && |l.text| == |line.text| + |s|
            && l.text[l.cursor..] == line.text[line.cursor..]
  {
  }

  lemma DeleteNone(line: Line)
    requires line.cursor <= |line.text|
    ensures line.cursor == 0 ==> line.DeleteBack() == line
  {
  }

  lemma TabPrintable()
    ensures Printable(TAB_SPACES)
  {
  }

  lemma DeletePlace(line: Line)
    requires 0 < line.cursor <= |line.text|
    ensures var l := line.DeleteBack();
            && l.cursor == line.cursor - 1 && |l.text| == |line.text| - 1
            && l.text[l.cursor..] == line.text[line.cursor..]
  {
  }

  lemma TailPrintable(text: string, cursor: nat, extra: string)
    requires cursor <= |text| && Printable(text) && Printable(extra)
    ensures Printable(text[cursor..]) && Printable(text[cursor..] + extra)
  {
    forall i | 0 <= i < |text[cursor..]|
      ensures Plain(text[cursor..][i])
    {
      assert Plain(text[cursor + i]);
    }
  }

  lemma RenderOne(s: Screen, c: char)
    requires s.Valid()
    ensures s.Render([c]) == s.PutChar(c)
  {
    assert [c][1..] == [];
    assert s.PutChar(c).Render([]) == s.PutChar(c);
  }

  /** The part of the row from one column to another rewritten to show a new line. */
  lemma ShowsRewritten(s: Screen, line: Line, u: Screen, line': Line, prompt: nat, from: nat, to: nat)
    requires Shows(s, line, prompt) && line'.cursor <= |line'.text| <= to && |line.text| <= to && prompt + to < WIDTH
    requires from <= |line.text| && from <= |line'.text| && line'.text[..from] == line.text[..from]
    requires u == s.(cells := u.cells, column := prompt + line'.cursor) && |u.cells| == HEIGHT * WIDTH
    requires var start := s.row * WIDTH + prompt;
             forall i | 0 <= i < HEIGHT * WIDTH ::
               u.cells[i] == if start + from <= i < start + to
                             then (line'.text + seq(to - |line'.text|, _ => ' '))[i - start] as int % 0x100 + 0x100 * s.color
                             else s.cells[i]
    ensures u.Valid() && Shows(u, line', prompt) && OnlyRowChanged(s, u, prompt)
  {
    var start := s.row * WIDTH + prompt;
    forall i | start <= i < start + |line'.text|
      ensures u.cells[i] == line'.text[i - start] as int % 0x100 + 0x100 * s.color
    {
      if i < start + from {
        assert line'.text[i - start] == line'.text[..from][i - start] == line.text[..from][i - start];
      }
    }
  }

  /** Printing two texts and moving back over the second. */
  lemma EchoBoth(s: Screen, ins: string, tail: string)
    requires s.Valid() && Printable(ins) && Printable(tail) && s.column + |ins| + |tail| < WIDTH
    ensures var t := s.Render(ins);
            && t.Valid() && t.column == s.column + |ins|
            && var u := if tail == [] then t else Echo(t, tail + "");
               u == s.Render(ins + tail).(column := s.column + |ins|)
    ensures Printable(ins + tail)
  {
    RenderInRow(s, ins);
    RenderAppend(s, ins, tail);
    assert tail + "" == tail;
    if tail == [] {
      assert ins + tail == ins;
    }
  }

  lemma InsertText(line: Line, ins: string)
    requires line.cursor <= |line.text|
    ensures var line' := line.Insert(ins);
            && line'.cursor == line.cursor + |ins| && |line'.text| == |line.text| + |ins|
            && line'.text[..line.cursor] == line.text[..line.cursor]
            && line'.text == line.text[..line.cursor] + (ins + line.text[line.cursor..])
  {
  }

  /** Inserted text, followed by the tail printed again: the row shows the new line. */
  lemma EchoInsert(s: Screen, line: Line, ins: string, prompt: nat)
    requires Shows(s, line, prompt) && Printable(line.text) && Printable(ins)
    requires prompt + |line.text| + |ins| < WIDTH
    ensures var t, tail := s.Render(ins), line.text[line.cursor..];
            && t.Valid() && t.column == s.column + |ins|
            && var u := if tail == [] then t else Echo(t, tail + "");
               u.Valid() && Shows(u, line.Insert(ins), prompt) && OnlyRowChanged(s, u, prompt)
  {
    hide Shows, OnlyRowChanged, Screen.Render, Printable, Echo, Line.Insert;
    ShowsPlace(s, line, prompt);
    var tail, line' := line.text[line.cursor..], line.Insert(ins);
    InsertText(line, ins);
    PrintableSuffix(line.text, line.cursor);
    EchoBoth(s, ins, tail);
    RenderInRow(s, ins + tail);
    var u := s.Render(ins + tail).(column := s.column + |ins|);
    ShowsRewritten(s, line, u, line', prompt, line.cursor, |line'.text|);
  }

  /** A character rubbed out, followed by the tail and a space printed again. */
  lemma EchoDelete(s: Screen, line: Line, prompt: nat)
    requires Shows(s, line, prompt) && Printable(line.text) && line.cursor > 0
    ensures var t, tail := s.Rubout(), line.text[line.cursor..];
            && s.column > 0 && t.Valid() && t.column == s.column - 1
            && var u := if tail == [] then t else Echo(t, tail + " ");
               u.Valid() && Shows(u, line.DeleteBack(), prompt) && OnlyRowChanged(s, u, prompt)
  {
    hide Shows, OnlyRowChanged, Screen.Render, Printable;
    ShowsPlace(s, line, prompt);
    var t, tail, line' := s.Rubout(), line.text[line.cursor..], line.DeleteBack();
    PlainString(' ');
    TailPrintable(line.text, line.cursor, " ");
    RenderInRow(t, tail + " ");
    var u := if tail == [] then t else Echo(t, tail + " ");
    assert line'.text[..line'.cursor] == line.text[..line'.cursor];
    assert line'.text + seq(1, _ => ' ') == line.text[..line'.cursor] + (tail + " ");
    ShowsRewritten(s, line, u, line', prompt, line'.cursor, |line.text|);
  }

  lemma ShowsRubout(s: Screen, text: string, prompt: nat)
    requires text != [] && Shows(s, Line(text, |text|), prompt)
    ensures s.column > 0 && s.Rubout().Valid()
    ensures Shows(s.Rubout(), Line(text[..|text| - 1], |text| - 1), prompt) && OnlyRowChanged(s, s.Rubout(), prompt)
  {
  }
}

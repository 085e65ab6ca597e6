/** One text screen of 25 rows and 80 columns and what writing a character does to it. */
module TextScreens {
  newtype Byte = x: int | 0 <= x < 256

  const ATTRIB: Byte := 7
  const SPACE: Byte := 32
  const NEWLINE: Byte := 10
  const RETURN: Byte := 13

  datatype Cell = Cell(ch: Byte, attr: Byte)

  /** The 2000 cells in rows, and the cursor; column 80 means the row is full. */
  datatype TextScreen = TextScreen(cells: seq<Cell>, x: int, y: int)

  ghost predicate Valid(s: TextScreen) {
    |s.cells| == 2000 && 0 <= s.x <= 80 && 0 <= s.y < 25
  }

  /** Every row moves up by one; all attributes are reset and the last row is blank. */
  function Scrolled(cells: seq<Cell>): (r: seq<Cell>)
    requires |cells| == 2000
    ensures |r| == 2000
  {
    seq(2000, i requires 0 <= i < 2000 => if i < 1920 then Cell(cells[i + 80].ch, ATTRIB) else Cell(SPACE, ATTRIB))
  }

  /** The first k cells have been moved up or blanked in place, the others are as before. */
  ghost predicate ScrolledUpTo(before: seq<Cell>, now: seq<Cell>, k: int) {
    |before| == |now| == 2000 && forall i :: 0 <= i < 2000 ==> now[i] == if i < k then Scrolled(before)[i] else before[i]
  }

  lemma ScrollStep(before: seq<Cell>, now: seq<Cell>, k: int)
    requires ScrolledUpTo(before, now, k) && 0 <= k < 2000
    ensures ScrolledUpTo(before, now[k := if k < 1920 then Cell(now[k + 80].ch, ATTRIB) else Cell(SPACE, ATTRIB)], k + 1)
  {
  }

  /** Go to the start of the next row, scrolling at the bottom. */
  function NextRow(s: TextScreen): (r: TextScreen)
    requires Valid(s)
    ensures Valid(r) && r.x == 0
  {
    if (s.y + 1) * 80 >= 2000 then TextScreen(Scrolled(s.cells), 0, 24) else TextScreen(s.cells, 0, s.y + 1)
  }

  /** Write a character at the cursor. */
  function Typed(s: TextScreen, c: Byte): (r: seq<Cell>)
    requires Valid(s) && s.x < 80
    ensures |r| == 2000
  {
    s.cells[80 * s.y + s.x := Cell(c, ATTRIB)]
  }

  /** One character of terminal_puts. */
  function Emit(s: TextScreen, c: Byte): (r: TextScreen)
    requires Valid(s)
    ensures Valid(r)
  {
    if c == 0 then s
    else if s.x != 80 && (c == NEWLINE || c == RETURN) then NextRow(s)
    else if s.x == 80 && c == NEWLINE then NextRow(s)
    else if s.x == 80 then
      var t := NextRow(s);
      TextScreen(Typed(t, c), 1, t.y)
    else
      TextScreen(Typed(s, c), s.x + 1, if s.y == 24 then 24 else (s.y + (s.x + 1) / 80) % 25)
  }

  function EmitAll(s: TextScreen, text: seq<Byte>): (r: TextScreen)
    requires Valid(s)
    ensures Valid(r)
  {
    if text == [] then s else Emit(EmitAll(s, text[..|text| - 1]), text[|text| - 1])
  }

  /** Writing a text in pieces is writing it at once. */
  lemma {:induction false} EmitAppend(s: TextScreen, a: seq<Byte>, b: seq<Byte>)
    requires Valid(s)
    ensures EmitAll(s, a + b) == EmitAll(EmitAll(s, a), b)
  {
    if b == [] {
      assert a + b == a;
    } else {
      EmitAppend(s, a, b[..|b| - 1]);
      assert (a + b)[..|a + b| - 1] == a + b[..|b| - 1];
    }
  }

  /** A character reaches at most one cell besides scrolling: the rows above the cursor only move. */
  lemma EmitKeepsRowsAbove(s: TextScreen, c: Byte)
    requires Valid(s)
    ensures var r := Emit(s, c);
            if s.y == 24 && (c == NEWLINE || (s.x != 80 && c == RETURN) || (s.x == 80 && c != 0))
            then forall i :: 0 <= i < 1920 ==> r.cells[i].ch == s.cells[i + 80].ch
            else forall i :: 0 <= i < 80 * s.y ==> r.cells[i] == s.cells[i]
  {
  }

  /** Neither ignored nor a line break: what is drawn. */
  predicate Printable(c: Byte) {
    c != 0 && c != NEWLINE && c != RETURN
  }

  /** The cells of now are those of before one row higher, without colours, and the last row is blank. */
  ghost predicate MovedUp(before: seq<Cell>, now: seq<Cell>) {
    && |before| == |now| == 2000
    && (forall i :: 0 <= i < 1920 ==> now[i] == Cell(before[i + 80].ch, 7))
    && (forall i :: 1920 <= i < 2000 ==> now[i] == Cell(32, 7))
  }

  /** now is before with character c drawn at column x of row y. */
  ghost predicate Drawn(before: seq<Cell>, now: seq<Cell>, c: Byte, x: int, y: int) {
    && |before| == |now| == 2000 && 0 <= x < 80 && 0 <= y < 25
    && now[80 * y + x] == Cell(c, 7)
    && forall i :: 0 <= i < 2000 && i != 80 * y + x ==> now[i] == before[i]
  }

  /** A zero byte is skipped. */
  lemma ZeroIgnored(s: TextScreen)
    requires Valid(s)
    ensures Emit(s, 0) == s
  {
  }

  /** A character appears at the cursor while there is room in the row. The cursor goes on to the next
      column and, when the row is full then, to the next row without going back to its start. */
  lemma CharacterDrawn(s: TextScreen, c: Byte)
    requires Valid(s) && s.x < 80 && Printable(c)
    ensures var r := Emit(s, c);
      && Drawn(s.cells, r.cells, c, s.x, s.y)
      && r.x == s.x + 1 && r.y == if s.x == 79 && s.y < 24 then s.y + 1 else s.y
  {
    if s.x == 79 && s.y < 24 {
      assert (s.x + 1) / 80 == 1;
    } else if s.x < 79 {
      assert (s.x + 1) / 80 == 0;
    }
  }

  /** With the row full, a character, for once a carriage return too, starts the next row; the screen
      scrolls when there is none. */
  lemma CharacterWraps(s: TextScreen, c: Byte)
    requires Valid(s) && s.x == 80 && c != 0 && c != NEWLINE
    ensures var r := Emit(s, c);
      && r.x == 1 && r.y == (if s.y == 24 then 24 else s.y + 1)
      && (s.y < 24 ==> Drawn(s.cells, r.cells, c, 0, r.y))
      && (s.y == 24 ==> exists up :: MovedUp(s.cells, up) && Drawn(up, r.cells, c, 0, 24))
  {
    if s.y == 24 {
      assert MovedUp(s.cells, Scrolled(s.cells)) && Drawn(Scrolled(s.cells), Emit(s, c).cells, c, 0, 24);
    }
  }

  /** A line break draws nothing; the screen scrolls on the last row only. */
  lemma LineBroken(s: TextScreen, c: Byte)
    requires Valid(s) && (c == NEWLINE || (c == RETURN && s.x < 80))
    ensures var r := Emit(s, c);
      && r.x == 0 && r.y == (if s.y == 24 then 24 else s.y + 1)
      && if s.y == 24 then MovedUp(s.cells, r.cells) else r.cells == s.cells
  {
  }

  /** The character just drawn is the one before the new cursor, unless the cursor has skipped to the
      next row, where that cell may happen to look the same. */
  lemma BeforeTheCursorIff(s: TextScreen, c: Byte)
    requires Valid(s) && Printable(c)
    ensures var r := Emit(s, c);
      && 0 < r.x
      && (r.cells[80 * r.y + r.x - 1] == Cell(c, 7) <==>
          !(s.x == 79 && s.y < 24) || s.cells[80 * (s.y + 1) + 79] == Cell(c, 7))
  {
    if s.x < 80 {
      CharacterDrawn(s, c);
    } else {
      CharacterWraps(s, c);
    }
  }

  /** n characters of a text have been drawn from column x of row y on, and nothing else. */
  ghost predicate TextDrawn(before: seq<Cell>, now: seq<Cell>, text: seq<Byte>, n: nat, x: int, y: int) {
    && |before| == |now| == 2000 && 0 <= x && x + n <= 80 && 0 <= y < 25 && n <= |text|
    && (forall i :: 0 <= i < n ==> now[80 * y + x + i] == Cell(text[i], 7))
    && (forall k :: 0 <= k < 2000 && !(80 * y + x <= k < 80 * y + x + n) ==> now[k] == before[k])
  }

  ghost predicate OneLine(s: TextScreen, text: seq<Byte>) {
    s.x + |text| <= 80 && forall i :: 0 <= i < |text| ==> Printable(text[i])
  }

  /** r is s with the text in the cells from the cursor on, and the cursor behind it. */
  ghost predicate LineDrawn(s: TextScreen, r: TextScreen, text: seq<Byte>) {
    && TextDrawn(s.cells, r.cells, text, |text|, s.x, s.y)
    && r.x == s.x + |text| && r.y == if text != [] && r.x == 80 && s.y < 24 then s.y + 1 else s.y
  }

  /** A text that fits the rest of the row appears there character by character. */
  lemma {:induction false} LineAppears(s: TextScreen, text: seq<Byte>)
    requires Valid(s) && OneLine(s, text)
    ensures LineDrawn(s, EmitAll(s, text), text)
  {
    if text != [] {
      var n := |text| - 1;
      LineAppears(s, text[..n]);
      var t := EmitAll(s, text[..n]);
      CharacterDrawn(t, text[n]);
      LineExtended(s.cells, t.cells, EmitAll(s, text).cells, text, n, s.x, s.y);
    }
  }

  lemma LineExtended(a: seq<Cell>, b: seq<Cell>, c: seq<Cell>, text: seq<Byte>, n: nat, x: int, y: int)
    requires n < |text| && TextDrawn(a, b, text[..n], n, x, y) && Drawn(b, c, text[n], x + n, y)
    ensures TextDrawn(a, c, text, n + 1, x, y)
  {
    forall i | 0 <= i < n + 1 ensures c[80 * y + x + i] == Cell(text[i], 7) {
      if i < n {
        assert text[..n][i] == text[i] && b[80 * y + x + i] == Cell(text[i], 7);
      }
    }
  }

  function Blank(): (r: seq<Cell>)
    ensures |r| == 2000
  {
    seq(2000, i => Cell(SPACE, ATTRIB))
  }
}

/** Three virtual terminals behind one page-table entry (terminal.c). */
module Consoles {
  import opened TextScreens

  datatype Cursor = Cursor(x: int, y: int, index: int)

  /** Physical pages of 2048 cells: page 0 is the displayed video memory, page t + 1 the backing
      store of terminal t. entry is the page that the kernel's video address is mapped to. */
  class Console {
    const phys: array<Cell>
    const copyBuf: array<Cell>
    var entry: int
    var curr: int
    const cursors: array<Cursor>
    /** The cursor of the displayed terminal, kept a second time. */
    var shown: Cursor
    /** Characters on their way to the screen, a buffer for each terminal (keyboard_buf). */
    const staging: seq<array<Byte>>

    ghost predicate Shape()
      reads this`curr, cursors
    {
      && phys.Length == 8192 && copyBuf.Length == 2000 && phys != copyBuf && cursors.Length == 3
      && |staging| == 3 && (forall t :: 0 <= t < 3 ==> staging[t].Length == 128)
      && 0 <= curr < 3
      && forall t :: 0 <= t < 3 ==> 0 <= cursors[t].x <= 80 && 0 <= cursors[t].y < 25
    }

    /** The state between operations. */
    ghost predicate Valid()
      reads this, cursors
    {
      Shape() && entry == 0 && shown == cursors[curr]
    }

    /** The page that holds the screen of terminal t. */
    function Home(t: int): int
      reads this`curr
    {
      if t == curr then 0 else t + 1
    }

    ghost function Page(p: int): seq<Cell>
      reads phys
      requires phys.Length == 8192 && 0 <= p < 4
    {
      phys[p * 2048..p * 2048 + 2000]
    }

    /** The screen of terminal t, wherever it is kept. */
    ghost function Screen(t: int): TextScreen
      reads this`curr, phys, cursors
      requires Shape() && 0 <= t < 3
    {
      TextScreen(Page(Home(t)), cursors[t].x, cursors[t].y)
    }

    /** Every other page is untouched. */
    twostate predicate OtherPagesKept(p: int)
      reads phys
      requires phys.Length == 8192 && 0 <= p < 4
    {
      forall q :: 0 <= q < 4 && q != p ==> Page(q) == old(Page(q))
    }

    /** Write one cell of the mapped page. */
    method Poke(i: int, c: Cell)
      requires Shape() && 0 <= entry < 4 && 0 <= i < 2000
      modifies phys
      ensures Page(entry) == old(Page(entry))[i := c] && OtherPagesKept(entry)
    {
      phys[entry * 2048 + i] := c;
    }

    /** Move every row of the mapped page up and blank the last one. */
    method ScrollCells()
      requires Shape() && 0 <= entry < 4
      modifies phys
      ensures Page(entry) == Scrolled(old(Page(entry))) && OtherPagesKept(entry)
    {
      ghost var before := Page(entry);
      for y := 1 to 25
        invariant OtherPagesKept(entry) && ScrolledUpTo(before, Page(entry), (y - 1) * 80)
      {
        for x := 0 to 80
          invariant OtherPagesKept(entry) && ScrolledUpTo(before, Page(entry), (y - 1) * 80 + x)
        {
          ghost var now := Page(entry);
          ScrollStep(before, now, (y - 1) * 80 + x);
          var c := phys[entry * 2048 + 80 * y + x].ch;
          assert c == now[80 * y + x].ch;
          Poke(80 * (y - 1) + x, Cell(c, ATTRIB));
        }
      }
      for x := 0 to 80
        invariant OtherPagesKept(entry) && ScrolledUpTo(before, Page(entry), 1920 + x)
      {
        ScrollStep(before, Page(entry), 1920 + x);
        Poke(80 * 24 + x, Cell(SPACE, ATTRIB));
      }
    }

    /** The screen of terminal t through the mapped page. */
    ghost function Mapped(t: int): TextScreen
      reads this`curr, this`entry, phys, cursors
      requires Shape() && 0 <= t < 3 && 0 <= entry < 4
    {
      TextScreen(Page(entry), cursors[t].x, cursors[t].y)
    }

    /** Only the cursor of terminal t may have changed. */
    twostate predicate OtherCursorsKept(t: int)
      reads cursors
      requires cursors.Length == 3
    {
      forall u :: 0 <= u < 3 && u != t ==> cursors[u] == old(cursors[u])
    }

    /** Copy the cursor of the displayed terminal to the one shown. */
    method UpdateTerminal()
      requires Shape()
      modifies this`shown
      ensures shown == cursors[curr]
    {
      shown := cursors[curr];
    }

    method SetCursor(t: int, x: int, y: int)
      requires Shape() && 0 <= t < 3 && 0 <= x <= 80 && 0 <= y < 25
      modifies cursors
      ensures Shape() && cursors[t] == Cursor(x, y, y * 80 + x) && OtherCursorsKept(t)
    {
      cursors[t] := Cursor(x, y, y * 80 + x);
    }

    /** Scroll the screen of terminal t, which is mapped. */
    method ScrollUp(t: int)
      requires Shape() && 0 <= t < 3 && 0 <= entry < 4
      modifies phys, cursors, this`shown
      ensures Shape() && Mapped(t) == TextScreen(Scrolled(old(Page(entry))), 0, 24)
      ensures OtherPagesKept(entry) && OtherCursorsKept(t)
      ensures if t == curr then shown == cursors[curr] else shown == old(shown)
    {
      ScrollCells();
      SetCursor(t, 0, 24);
      if t == curr {
        UpdateTerminal();
      }
    }

    /** Go to the next row of terminal t. */
    method NewRow(t: int)
      requires Shape() && 0 <= t < 3 && 0 <= entry < 4
      modifies phys, cursors, this`shown
      ensures Shape() && Mapped(t) == NextRow(old(Mapped(t)))
      ensures OtherPagesKept(entry) && OtherCursorsKept(t)
      ensures t != curr ==> shown == old(shown)
    {
      var x, y := 0, cursors[t].y + 1;
      if y * 80 + x >= 2000 {
        ScrollUp(t);
      } else {
        SetCursor(t, x, y);
      }
    }

    /** Write a character at the cursor of terminal t and move the cursor to (x, y). */
    method TypeAt(t: int, c: Byte, x: int, y: int)
      requires Shape() && 0 <= t < 3 && 0 <= entry < 4 && cursors[t].x < 80
      requires 0 <= x <= 80 && 0 <= y < 25
      modifies phys, cursors
      ensures Shape() && Mapped(t) == TextScreen(Typed(old(Mapped(t)), c), x, y)
      ensures OtherPagesKept(entry) && OtherCursorsKept(t)
    {
      Poke(80 * cursors[t].y + cursors[t].x, Cell(c, ATTRIB));
      SetCursor(t, x, y);
    }

    /** A newline, or any character when the row is full. */
    method BreakRow(t: int, c: Byte)
      requires Shape() && 0 <= t < 3 && 0 <= entry < 4
      requires c != 0 && (c == NEWLINE || c == RETURN || cursors[t].x == 80)
      modifies phys, cursors, this`shown
      ensures Shape() && Mapped(t) == Emit(old(Mapped(t)), c)
      ensures OtherPagesKept(entry) && OtherCursorsKept(t)
      ensures t != curr ==> shown == old(shown)
    {
      var full := cursors[t].x == 80;
      NewRow(t);
      if full && c != NEWLINE {
        TypeAt(t, c, 1, cursors[t].y % 25);
      }
    }

    /** Write one character to the mapped screen of terminal t. */
    method PutChar(t: int, c: Byte)
      requires Shape() && 0 <= t < 3 && 0 <= entry < 4 && shown == cursors[curr]
      modifies phys, cursors, this`shown
      ensures Shape() && Mapped(t) == Emit(old(Mapped(t)), c)
      ensures OtherPagesKept(entry) && OtherCursorsKept(t) && shown == cursors[curr]
    {
      if c != 0 {
        if c == NEWLINE || c == RETURN || cursors[t].x == 80 {
          BreakRow(t, c);
        } else {
          var x := cursors[t].x + 1;
          TypeAt(t, c, x, if cursors[t].y == 24 then cursors[t].y else (cursors[t].y + x / 80) % 25);
        }
        if t == curr {
          UpdateTerminal();
        }
      }
    }

    /** Write the first n staged characters to the mapped screen of terminal t. */
    method Puts(t: int, n: nat)
      requires Shape() && 0 <= t < 3 && 0 <= entry < 4 && shown == cursors[curr] && n <= 128
      modifies phys, cursors, this`shown
      ensures Shape() && Mapped(t) == EmitAll(old(Mapped(t)), staging[t][..n])
      ensures OtherPagesKept(entry) && OtherCursorsKept(t) && shown == cursors[curr]
    {
      ghost var s, text := Mapped(t), staging[t][..n];
      for i := 0 to n
        invariant Shape() && Mapped(t) == EmitAll(s, text[..i]) && staging[t][..n] == text
        invariant OtherPagesKept(entry) && OtherCursorsKept(t) && shown == cursors[curr]
      {
        assert text[..i + 1][..i] == text[..i] && staging[t][i] == text[i];
        PutChar(t, staging[t][i]);
      }
      assert text[..n] == text;
    }

    /** Write a full buffer of text that begins at character k of a longer text. */
    method Flush(t: int, n: nat, ghost s: TextScreen, ghost done: seq<Byte>)
      requires Shape() && 0 <= t < 3 && 0 <= entry < 4 && shown == cursors[curr] && n <= 128
      requires TextScreens.Valid(s) && Mapped(t) == EmitAll(s, done)
      modifies phys, cursors, this`shown
      ensures Shape() && Mapped(t) == EmitAll(s, done + staging[t][..n])
      ensures OtherPagesKept(entry) && OtherCursorsKept(t) && shown == cursors[curr]
    {
      EmitAppend(s, done, staging[t][..n]);
      Puts(t, n);
    }

    /** Stage a text of any length in pieces of 128 characters and write each piece. */
    method WriteText(t: int, text: seq<Byte>)
      requires Shape() && 0 <= t < 3 && 0 <= entry < 4 && shown == cursors[curr]
      modifies phys, cursors, this`shown, staging[t]
      ensures Shape() && Mapped(t) == EmitAll(old(Mapped(t)), text)
      ensures OtherPagesKept(entry) && OtherCursorsKept(t) && shown == cursors[curr]
    {
      ghost var s := Mapped(t);
      ghost var done := [];
      var i, j, y := 0, 0, 0;
      while i < |text|
        invariant Shape() && 0 <= j <= 128 && 0 <= y && i == 128 * y + j <= |text|
        invariant done + staging[t][..j] == text[..i]
        invariant Mapped(t) == EmitAll(s, done)
        invariant OtherPagesKept(entry) && OtherCursorsKept(t) && shown == cursors[curr]
        decreases |text| - i, j
      {
        if j < 128 {
          staging[t][j] := text[i];
          j, i := j + 1, i + 1;
          assert text[..i] == text[..i - 1] + [text[i - 1]];
        } else {
          Flush(t, 128, s, done);
          done := done + staging[t][..128];
          j, y := 0, y + 1;
        }
      }
      assert text[..i] == text;
      Flush(t, |text| - y * 128, s, done);
    }

    /** Write a text to terminal t while its page is mapped. */
    method WriteHome(t: int, text: seq<Byte>)
      requires Shape() && 0 <= t < 3 && entry == Home(t) && shown == cursors[curr]
      modifies phys, cursors, this`shown, staging[t]
      ensures Shape() && shown == cursors[curr]
      ensures Screen(t) == EmitAll(old(Screen(t)), text)
      ensures OneLine(old(Screen(t)), text) ==> LineDrawn(old(Screen(t)), Screen(t), text)
      ensures forall u :: 0 <= u < 3 && u != t ==> Screen(u) == old(Screen(u))
    {
      ghost var s := Screen(t);
      WriteText(t, text);
      if OneLine(s, text) {
        LineAppears(s, text);
      }
      forall u | 0 <= u < 3 && u != t ensures Screen(u) == old(Screen(u)) {
        assert Home(u) != entry;
        assert Page(Home(u)) == old(Page(Home(u)));
      }
    }

    /** Write to terminal t, on the display or in its backing page. */
    method Write(t: int, fd: int, text: seq<Byte>) returns (r: int)
      requires Valid() && 0 <= t < 3
      modifies phys, cursors, this`shown, this`entry, staging[t]
      ensures Valid()
      ensures r == if fd == 1 then |text| else -1
      ensures Screen(t) == if fd == 1 then EmitAll(old(Screen(t)), text) else old(Screen(t))
      ensures fd == 1 && OneLine(old(Screen(t)), text) ==> LineDrawn(old(Screen(t)), Screen(t), text)
      ensures forall u :: 0 <= u < 3 && u != t ==> Screen(u) == old(Screen(u))
    {
      if fd != 1 {
        return -1;
      }
      if t != curr {
        entry := t + 1;
      }
      WriteHome(t, text);
      if t != curr {
        entry := 0;
      }
      r := |text|;
    }

    /** Copy the mapped page to the copy buffer. */
    method SavePage()
      requires Shape() && 0 <= entry < 4
      modifies copyBuf
      ensures copyBuf[..] == Page(entry)
    {
      for i := 0 to 2000
        invariant copyBuf[..i] == Page(entry)[..i]
      {
        copyBuf[i] := phys[entry * 2048 + i];
        assert Page(entry)[..i + 1] == Page(entry)[..i] + [Page(entry)[i]];
      }
    }

    /** Copy the copy buffer to the mapped page. */
    method LoadPage()
      requires Shape() && 0 <= entry < 4
      modifies phys
      ensures Page(entry) == copyBuf[..] && OtherPagesKept(entry)
    {
      for i := 0 to 2000
        invariant forall k :: 0 <= k < i ==> Page(entry)[k] == copyBuf[k]
        invariant OtherPagesKept(entry)
      {
        ghost var now := Page(entry);
        Poke(i, copyBuf[i]);
      }
    }

    /** Copy page a to page b, mapping one after the other. */
    method CopyPage(a: int, b: int)
      requires Shape() && 0 <= a < 4 && 0 <= b < 4
      modifies phys, copyBuf, this`entry
      ensures Shape() && entry == b
      ensures Page(b) == old(Page(a)) && OtherPagesKept(b)
    {
      entry := a;
      SavePage();
      entry := b;
      LoadPage();
    }

    /** Every terminal's screen is in its backing page. */
    ghost predicate Stored(cells: seq<seq<Cell>>)
      reads phys
      requires phys.Length == 8192 && |cells| == 3
    {
      Page(1) == cells[0] && Page(2) == cells[1] && Page(3) == cells[2]
    }

    /** Store the displayed screen in its backing page. */
    method StoreDisplayed(ghost cells: seq<seq<Cell>>)
      requires Valid() && |cells| == 3 && forall t :: 0 <= t < 3 ==> cells[t] == Page(Home(t))
      modifies phys, copyBuf, this`entry
      ensures Shape() && Stored(cells)
    {
      CopyPage(0, curr + 1);
      assert forall q :: 0 <= q < 4 && q != curr + 1 ==> Page(q) == old(Page(q));
    }

    /** Bring the screen of a terminal from its backing page to the display. */
    method ShowStored(dest: int, ghost cells: seq<seq<Cell>>)
      requires Shape() && 0 <= dest < 3 && |cells| == 3 && Stored(cells)
      modifies phys, copyBuf, this`entry
      ensures Shape() && entry == 0 && Stored(cells) && Page(0) == cells[dest]
    {
      CopyPage(dest + 1, 0);
    }

    /** Display terminal dest. */
    method SwitchTerminal(dest: int)
      requires Valid() && 0 <= dest < 3
      modifies phys, copyBuf, cursors, this`entry, this`curr, this`shown
      ensures Valid() && curr == dest
      ensures forall t :: 0 <= t < 3 ==> Screen(t) == old(Screen(t))
    {
      ghost var cells := [Page(Home(0)), Page(Home(1)), Page(Home(2))];
      StoreDisplayed(cells);
      cursors[curr] := shown;
      ShowStored(dest, cells);
      shown := cursors[dest];
      curr := dest;
      forall t | 0 <= t < 3 ensures Screen(t) == old(Screen(t)) {
        assert Page(Home(t)) == cells[t];
      }
    }

    /** Set up the three terminals: the first takes over what is on display, the others are blank. */
    method InitTerminals()
      requires phys.Length == 8192 && copyBuf.Length == 2000 && phys != copyBuf && cursors.Length == 3
      requires |staging| == 3 && forall t :: 0 <= t < 3 ==> staging[t].Length == 128
      requires 0 <= shown.x <= 80 && 0 <= shown.y < 25
      modifies phys, copyBuf, cursors, this`entry, this`curr
      ensures Valid() && curr == 0
      ensures Screen(0) == TextScreen(old(Page(0)), shown.x, shown.y)
      ensures forall t :: 1 <= t < 3 ==> Screen(t) == TextScreen(Blank(), 0, 0)
    {
      curr := 0;
      cursors[0] := shown;
      cursors[1], cursors[2] := Cursor(0, 0, 0), Cursor(0, 0, 0);
      CopyPage(0, 1);
      ClearPage(2);
      ClearPage(3);
      entry := 0;
    }

    /** Blank a page. */
    method ClearPage(p: int)
      requires Shape() && 0 <= p < 4
      modifies phys, this`entry
      ensures Shape() && entry == p && Page(p) == Blank() && OtherPagesKept(p)
    {
      entry := p;
      for i := 0 to 2000
        invariant entry == p && OtherPagesKept(p) && forall k :: 0 <= k < i ==> Page(p)[k] == Cell(SPACE, ATTRIB)
      {
        ghost var now := Page(p);
        Poke(i, Cell(SPACE, ATTRIB));
      }
    }

    /** One write or switch. */
    method Handle(e: Event)
      requires Valid() && 0 <= e.t < 3
      modifies phys, copyBuf, cursors, this`entry, this`curr, this`shown, staging[e.t]
      ensures Valid() && forall t :: 0 <= t < 3 ==> Screen(t) == After(old(Screen(t)), e, t)
      ensures curr == if e.Switch? then e.t else old(curr)
    {
      match e
      case Write(t, text) => var _ := Write(t, 1, text);
      case Switch(t) => SwitchTerminal(t);
    }

    /** Any run of writes and switches. Each terminal shows what was written to it and nothing else,
        whether it was on display at the time or not. */
    method Run(events: seq<Event>)
      requires Valid() && forall i :: 0 <= i < |events| ==> 0 <= events[i].t < 3
      modifies phys, copyBuf, cursors, this`entry, this`curr, this`shown, staging[0], staging[1], staging[2]
      ensures Valid()
      ensures forall t :: 0 <= t < 3 ==> Screen(t) == EmitAll(old(Screen(t)), WrittenTo(events, t))
      ensures curr == Displayed(events, old(curr))
    {
      for i := 0 to |events|
        invariant Valid()
        invariant forall t :: 0 <= t < 3 ==> Screen(t) == EmitAll(old(Screen(t)), WrittenTo(events[..i], t))
        invariant curr == Displayed(events[..i], old(curr))
      {
        forall t | 0 <= t < 3
          ensures EmitAll(old(Screen(t)), WrittenTo(events[..i + 1], t)) ==
                  After(EmitAll(old(Screen(t)), WrittenTo(events[..i], t)), events[i], t)
        {
          NextEvent(old(Screen(t)), events, i, t);
        }
        DisplayedNext(events, i, old(curr));
        Handle(events[i]);
      }
      assert events[..|events|] == events;
    }
  }

  datatype Event = Write(t: int, text: seq<Byte>) | Switch(t: int)

  /** The i-th event switches terminals and no later one does. */
  ghost predicate LastSwitch(events: seq<Event>, i: int)
    requires 0 <= i < |events|
  {
    events[i].Switch? && forall j :: i < j < |events| ==> !events[j].Switch?
  }

  /** The terminal on display after the events, when terminal c was before. */
  function Displayed(events: seq<Event>, c: int): int {
    if events == [] then c
    else
      var e := events[|events| - 1];
      if e.Switch? then e.t else Displayed(events[..|events| - 1], c)
  }

  lemma DisplayedNext(events: seq<Event>, i: nat, c: int)
    requires i < |events|
    ensures Displayed(events[..i + 1], c) == if events[i].Switch? then events[i].t else Displayed(events[..i], c)
  {
    assert events[..i + 1][..i] == events[..i];
  }

  /** The terminal last switched to is the one on display. */
  lemma {:induction false} LastSwitchDisplayed(events: seq<Event>, c: int)
    ensures (forall i :: 0 <= i < |events| ==> !events[i].Switch?) ==> Displayed(events, c) == c
    ensures forall i :: 0 <= i < |events| && LastSwitch(events, i) ==> Displayed(events, c) == events[i].t
  {
    if events != [] && !events[|events| - 1].Switch? {
      var front := events[..|events| - 1];
      LastSwitchDisplayed(front, c);
      forall i | 0 <= i < |events| && LastSwitch(events, i)
        ensures Displayed(events, c) == events[i].t
      {
        assert i < |front| && LastSwitch(front, i);
      }
    }
  }

  /** What an event does to the screen of terminal t. */
  function After(s: TextScreen, e: Event, t: int): TextScreen
    requires TextScreens.Valid(s)
  {
    if e.Write? && e.t == t then EmitAll(s, e.text) else s
  }

  /** Everything written to terminal t, in order. */
  function WrittenTo(events: seq<Event>, t: int): seq<Byte> {
    if events == [] then []
    else
      var e := events[|events| - 1];
      var before := WrittenTo(events[..|events| - 1], t);
      if e.Write? && e.t == t then before + e.text else before
  }

  lemma NextEvent(s: TextScreen, events: seq<Event>, i: nat, t: int)
    requires TextScreens.Valid(s) && i < |events|
    ensures EmitAll(s, WrittenTo(events[..i + 1], t)) == After(EmitAll(s, WrittenTo(events[..i], t)), events[i], t)
  {
    assert events[..i + 1][..i] == events[..i];
    if events[i].Write? && events[i].t == t {
      EmitAppend(s, WrittenTo(events[..i], t), events[i].text);
    }
  }
}

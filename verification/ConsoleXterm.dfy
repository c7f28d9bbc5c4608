/**
 * The console and the terminal as objects: the flat buffer is moved and written
 * in place, and every index used is shown to be inside it.
 */
module ConsoleXterm {
  import opened RingIndex
  import opened Terminal

  class Console {
    var width: nat
    var height: nat
    var buffer: array<Cell>
    var cursorX: int
    var cursorY: int

    ghost predicate Valid()
      reads this
    {
      width > 0 && height > 0 && buffer.Length == Off(height, width)
    }

    constructor ()
      ensures Valid() && fresh(buffer) && width == 80 && height == 24 && cursorX == 0 && cursorY == 0
      ensures forall i :: 0 <= i < buffer.Length ==> buffer[i] == BLANK
    {
      cursorX, cursorY, width, height := 0, 0, 80, 24;
      OffIsProduct(24, 80);
      buffer := new Cell[80 * 24](_ => BLANK);
    }

    /** Console::SetSize: a fresh, blank buffer. */
    method SetSize(w: nat, h: nat)
      requires w > 0 && h > 0
      modifies this
      ensures Valid() && fresh(buffer) && width == w && height == h
      ensures cursorX == old(cursorX) && cursorY == old(cursorY)
      ensures forall i :: 0 <= i < buffer.Length ==> buffer[i] == BLANK
    {
      OffIsProduct(h, w);
      width, height := w, h;
      buffer := new Cell[w * h](_ => BLANK);
    }

    method SetCursorPosition(x: int, y: int)
      modifies this`cursorX, this`cursorY
      ensures cursorX == x && cursorY == y
    {
      cursorX, cursorY := x, y;
    }

    /** memmove of `n` cells inside the buffer. */
    method MoveCells(to: nat, from: nat, n: nat)
      requires to + n <= buffer.Length && from + n <= buffer.Length
      modifies buffer
      ensures buffer[..] == Moved(old(buffer[..]), to, from, n)
    {
      forall i | to <= i < to + n {
        buffer[i] := buffer[from + (i - to)];
      }
      MoveIs(old(buffer[..]), buffer[..], to, from, n);
    }

    /** memset of `n` cells to zero. */
    method ClearCells(at: nat, n: nat)
      requires at + n <= buffer.Length
      modifies buffer
      ensures buffer[..] == Cleared(old(buffer[..]), at, n)
    {
      forall i | at <= i < at + n {
        buffer[i] := BLANK;
      }
    }

    /** Console::Scroll on the flat buffer. */
    method ScrollRows(start: int, end: int, down: bool, ghost t: Term)
      requires Valid() && Sized(t) && t.width == width && t.height == height && t.cells == buffer[..]
      modifies buffer
      ensures buffer[..] == Scroll(t, start, end, down).cells
    {
      hide Off, MovedDown, MovedUp;
      var s, e := start, end;
      if s < 0 { s := 0; }
      if s > height - 1 { s := height - 1; }
      if e < s { e := s; }
      if e < 0 { e := 0; }
      if e > height - 1 { e := height - 1; }
      RowsInside(s, e, height, width);
      if down { OneRowDown(Offset(s, width), Offset(e, width)); }
      else { OneRowUp(Offset(s, width), Offset(e, width)); }
    }

    method OneRowDown(a: nat, z: nat)
      requires a <= z && z + width <= buffer.Length
      modifies buffer
      ensures buffer[..] == MovedDown(old(buffer[..]), a, z, width)
    {
      hide Moved, Cleared, MovedDown, MovedUp;
      MoveCells(a + width, a, z - a);
      ClearCells(a, width);
      MovesAre(old(buffer[..]), a, z, width);
    }

    method OneRowUp(a: nat, z: nat)
      requires a <= z && z + width <= buffer.Length
      modifies buffer
      ensures buffer[..] == MovedUp(old(buffer[..]), a, z, width)
    {
      hide Moved, Cleared, MovedDown, MovedUp;
      MoveCells(a, a + width, z - a);
      ClearCells(z, width);
      MovesAre(old(buffer[..]), a, z, width);
    }
  }

  class Xterm {
    const console: Console
    var x: int
    var y: int
    var top: int
    var bottom: int
    var foreground: nat
    var background: nat
    var stage: nat
    var value1: nat
    var value2: nat

    /** The abstract terminal the two objects stand for. */
    ghost function Abs(): Term
      reads this, console, console.buffer
    {
      Term(console.width, console.height, console.buffer[..], console.cursorX, console.cursorY,
           x, y, top, bottom, foreground, background, stage, value1, value2)
    }

    ghost predicate Valid()
      reads this, console
    {
      console.Valid()
    }

    constructor (console: Console)
      requires console.Valid()
      modifies console
      ensures Valid() && this.console == console && console.buffer == old(console.buffer)
      ensures Good(Abs()) && AtRest(Abs()) && Abs().cells == old(console.buffer[..])
      ensures top == 0 && bottom == console.height - 1 && foreground == GRAY && background == BLACK
    {
      this.console := console;
      foreground, background := GRAY, BLACK;
      x, y, stage, value1, value2 := 0, 0, 0, 0, 0;
      top, bottom := 0, console.height - 1;
      new;
      console.SetCursorPosition(0, 0);
    }

    /** ConsoleXterm::ReclipCursor. */
    method ReclipCursor()
      requires Valid() && Sized(Abs())
      modifies this`x, this`y, console`cursorX, console`cursorY, console.buffer
      ensures Valid() && Abs() == Reclip(old(Abs()))
    {
      hide Off, RowOf, SlotOf, Scroll;
      var width := console.width;
      var z := x + Offset(y, width);
      if z < Offset(top, width) { z := Offset(top, width); }
      x, y := CMod(z, width), CDiv(z, width);
      if y > bottom {
        y := bottom;
        console.ScrollRows(top, bottom, false, Abs());
      }
      console.SetCursorPosition(x, y);
    }

    method Position(nx: int, ny: int)
      requires Valid()
      modifies this`x, this`y, console`cursorX, console`cursorY
      ensures Valid() && Abs() == SetPosition(old(Abs()), nx, ny)
    {
      x, y := nx, ny;
      console.SetCursorPosition(x, y);
    }

    /** The loop of ESC[nL and ESC[nM. */
    method ScrollLines(down: bool)
      requires Valid() && Sized(Abs())
      modifies console.buffer
      ensures Valid() && Abs() == ScrollTimes(old(Abs()), y, bottom, down, LineCount(old(Abs())))
    {
      hide Off, Scroll;
      var count: nat := value1;
      if count <= 0 { count := 1; }
      ghost var goal := ScrollTimes(Abs(), y, bottom, down, count);
      while count != 0
        invariant Valid() && Sized(Abs())
        invariant ScrollTimes(Abs(), y, bottom, down, count) == goal
      {
        console.ScrollRows(y, bottom, down, Abs());
        count := count - 1;
      }
    }

    /** The loop of ESC[nJ and ESC[nK. */
    method EraseCells(start: nat, end: nat)
      requires Valid() && start <= end <= console.buffer.Length
      modifies console.buffer
      ensures Valid() && Abs() == Erase(old(Abs()), start, end)
    {
      var z := start;
      var space := Cell(' ' as int, foreground, background);
      while z < end
        invariant start <= z <= end
        invariant forall i :: 0 <= i < console.buffer.Length ==>
          console.buffer[i] == if start <= i < z then space else old(console.buffer[i])
      {
        console.buffer[z] := space;
        z := z + 1;
      }
      assert console.buffer[..] == old(console.buffer[..start]) + seq(end - start, _ => space) + old(console.buffer[end..]);
    }

    /** ESC[nJ and ESC[nK after reclipping. */
    method EraseScreen(ch: int)
      requires Valid() && Good(Abs()) && (ch == 'J' as int || ch == 'K' as int)
      modifies console.buffer
      ensures Valid() && Abs() == Erase(old(Abs()), EraseRange(old(Abs()), ch).0, EraseRange(old(Abs()), ch).1)
    {
      hide Off, Erase;
      var width, height := console.width, console.height;
      var start, end := 0, 0;
      if ch == 'J' as int {
        if value1 == 0 { start, end := x + Offset(y, width), Offset(height, width); }
        else if value1 == 1 { start, end := 0, x + Offset(y, width) + 1; }
        else if value1 == 2 { start, end := 0, Offset(height, width); }
      } else {
        if value1 == 0 { start, end := x + Offset(y, width), Offset(y + 1, width); }
        else if value1 == 1 { start, end := Offset(y, width), x + Offset(y, width) + 1; }
        else if value1 == 2 { start, end := Offset(y, width), Offset(y + 1, width); }
      }
      RowsInside(y, y, height, width);
      OffZero(width);
      EraseCells(start, end);
    }

    method SetColours()
      requires Valid()
      modifies this`foreground, this`background
      ensures Valid() && Abs() == Colours(old(Abs()))
    {
      if value1 == 0 { foreground, background := GRAY, BLACK; }
      else if value1 == 1 { foreground, background := WHITE, BLACK; }
      else if value1 == 7 { foreground, background := BLACK, GRAY; }
      else { foreground, background := BLUE, BLACK; }
    }

    /** The stage-2 commands of ConsoleXterm::WriteEscapedChar. */
    method RunCommand1(ch: int)
      requires Valid() && Good(Abs()) && stage == 2
      modifies this, console`cursorX, console`cursorY, console.buffer
      ensures Valid() && Abs() == Command1(old(Abs()), ch)
    {
      hide Off, Reclip, ScrollTimes, Erase, EraseRange;
      if ch == 'A' as int { y := y - value1; ReclipCursor(); }
      else if ch == 'B' as int { y := y + value1; ReclipCursor(); }
      else if ch == 'C' as int { x := x + value1; ReclipCursor(); }
      else if ch == 'D' as int { x := x - value1; ReclipCursor(); }
      else if ch == 'L' as int { ReclipCursor(); ScrollLines(true); }
      else if ch == 'M' as int { ReclipCursor(); ScrollLines(false); }
      else if ch == 'm' as int { ReclipCursor(); SetColours(); }
      else if ch == 'J' as int || ch == 'K' as int {
        ReclipKeepsGood(Abs());
        ReclipCursor();
        EraseScreen(ch);
      } else if ch == 'H' as int { Position(0, 0); }
    }

    /** ConsoleXterm::WriteEscapedChar. */
    method WriteEscapedChar(ch: int)
      requires Valid() && Good(Abs()) && stage != 0
      modifies this, console`cursorX, console`cursorY, console.buffer
      ensures Valid() && Abs() == WriteEscaped(old(Abs()), ch)
    {
      hide Off, Reclip, Command1;
      if stage == 1 {
        if ch == '[' as int {
          stage := stage + 1;
          return;
        }
      } else if stage == 2 {
        if IsDigit(ch) {
          value1 := value1 * 10 + ch - '0' as int;
          return;
        } else if ch == ';' as int {
          stage := stage + 1;
          return;
        } else {
          RunCommand1(ch);
        }
      } else if stage == 3 {
        if IsDigit(ch) {
          value2 := value2 * 10 + ch - '0' as int;
          return;
        } else if ch == 'H' as int || ch == 'f' as int {
          Position(value2 - 1, value1 - 1);
          ReclipCursor();
        } else if ch == 'r' as int {
          top, bottom := value1 - 1, value2 - 1;
        }
      }
      stage, value1, value2 := 0, 0, 0;
    }

    /** ConsoleXterm::WriteChar: for every byte, given acceptable margins, all
        cell accesses are in bounds and the cursor stays on the screen. */
    method WriteChar(ch: int)
      requires Valid() && Good(Abs()) && (SetsMargins(Abs(), ch) ==> MarginsOk(Abs()))
      modifies this, console`cursorX, console`cursorY, console.buffer
      ensures Valid() && Abs() == WriteByte(old(Abs()), ch) && Good(Abs())
    {
      hide Off, Reclip, WriteEscaped;
      ByteKeepsGood(Abs(), ch);
      if stage != 0 {
        WriteEscapedChar(ch);
        return;
      }
      if ch == 10 {
        x := 0;
        y := y + 1;
        ReclipCursor();
      } else if ch == 8 {
        x := x - 1;
        ReclipCursor();
      } else if ch == 13 {
        x := 0;
        ReclipCursor();
      } else if ch == ESC {
        stage := stage + 1;
      } else if ch >= 32 {
        ReclipKeepsGood(Abs());
        ReclipCursor();
        RowsInside(y, y, console.height, console.width);
        console.buffer[x + Offset(y, console.width)] := Cell(ch, foreground, background);
        x := x + 1;
        ReclipCursor();
      }
    }

    /** ConsoleXterm::WriteString. */
    method WriteString(str: seq<int>)
      requires Valid() && Good(Abs()) && StreamOk(Abs(), str)
      modifies this, console`cursorX, console`cursorY, console.buffer
      ensures Valid() && Abs() == Write(old(Abs()), str) && Good(Abs())
    {
      hide WriteByte, Good;
      var i := 0;
      ghost var goal := Write(Abs(), str);
      assert str[0..] == str;
      GoodIsSized(Abs());
      while i < |str|
        invariant i <= |str| && Valid() && Sized(Abs()) && Good(Abs())
        invariant StreamOk(Abs(), str[i..]) && Write(Abs(), str[i..]) == goal
      {
        assert str[i..][1..] == str[i + 1..];
        WriteChar(str[i]);
        GoodIsSized(Abs());
        i := i + 1;
      }
    }
  }

  lemma GoodIsSized(t: Term)
    requires Good(t)
    ensures Sized(t)
  {
  }

  lemma ReclipKeepsGood(t: Term)
    requires Good(t)
    ensures Good(Reclip(t))
  {
    hide Reclip, Off;
    ReclipOnScreen(t);
    ReclipKeeps(t);
  }

  /** A row offset computed as the source does, by multiplying. */
  function Offset(y: int, w: nat): (p: int)
    ensures p == Off(y, w)
  {
    OffIsProduct(y, w);
    y * w
  }

  lemma MoveIs(c: seq<Cell>, d: seq<Cell>, to: nat, from: nat, n: nat)
    requires |d| == |c| && to + n <= |c| && from + n <= |c|
    requires forall i :: 0 <= i < |c| && (i < to || i >= to + n) ==> d[i] == c[i]
    requires forall i :: to <= i < to + n ==> d[i] == c[from + (i - to)]
    ensures d == Moved(c, to, from, n)
  {
    hide Moved;
    forall i | 0 <= i < |d|
      ensures d[i] == Moved(c, to, from, n)[i]
    {
      MovedAt(c, to, from, n, i);
      if to <= i < to + n { assert d[i] == c[from + (i - to)]; }
    }
  }

  lemma MovedAt(c: seq<Cell>, to: nat, from: nat, n: nat, i: nat)
    requires to + n <= |c| && from + n <= |c| && i < |c|
    ensures Moved(c, to, from, n)[i] == if to <= i < to + n then c[from + (i - to)] else c[i]
  {
    var head, mid, tail := c[..to], c[from..from + n], c[to + n..];
    if i < to {
      assert (head + mid + tail)[i] == head[i];
    } else if i < to + n {
      assert (head + mid + tail)[i] == mid[i - to];
    } else {
      assert (head + mid + tail)[i] == tail[i - to - n];
    }
  }

  function Moved(c: seq<Cell>, to: nat, from: nat, n: nat): (d: seq<Cell>)
    requires to + n <= |c| && from + n <= |c|
    ensures |d| == |c|
  {
    c[..to] + c[from..from + n] + c[to + n..]
  }

  function Cleared(c: seq<Cell>, at: nat, n: nat): (d: seq<Cell>)
    requires at + n <= |c|
    ensures |d| == |c|
  {
    c[..at] + Blanks(n) + c[at + n..]
  }

  /** A move and a clear make the scrolled buffer. */
  lemma MovesAre(c: seq<Cell>, a: nat, e: nat, w: nat)
    requires a <= e && e + w <= |c|
    ensures Cleared(Moved(c, a + w, a, e - a), a, w) == MovedDown(c, a, e, w)
    ensures Cleared(Moved(c, a, a + w, e - a), e, w) == MovedUp(c, a, e, w)
  {
    var d := Moved(c, a + w, a, e - a);
    assert d[..a] == c[..a] && d[a + w..] == c[a..e] + c[e + w..];
    var u := Moved(c, a, a + w, e - a);
    assert u[..e] == c[..a] + c[a + w..e + w] && u[e + w..] == c[e + w..];
  }
}

/**
 * What every byte does to the screen, by row and column: where the cursor goes,
 * when the region scrolls, and which cells change.
 */
module TerminalMoves {
  import opened RingIndex
  import opened Terminal

  // ---------------------------------------------------------------- vocabulary

  /** The terminal with its cursor elsewhere and nothing else changed. */
  function At(t: Term, c: int, r: int): Term
  {
    t.(x := c, y := r, cursorX := c, cursorY := r)
  }

  /** The terminal back at rest. */
  function Cleared(t: Term): Term { t.(stage := 0, value1 := 0, value2 := 0) }

  /** First and last row that scroll: the margins, or one row if they are inverted. */
  function FirstScrolled(t: Term): nat
    requires Sized(t) && Margins(t)
  {
    if t.top < t.height then t.top else t.height - 1
  }

  function LastScrolled(t: Term): nat
    requires Sized(t) && Margins(t)
  {
    if t.bottom < FirstScrolled(t) then FirstScrolled(t) else t.bottom
  }

  /** What row `r` shows after the region has moved up: the row below it, a blank
      row at the end, and outside the region what it showed before. */
  function MovedUpRow(t: Term, r: nat): seq<Cell>
    requires Sized(t) && Margins(t) && r < t.height
  {
    if FirstScrolled(t) <= r < LastScrolled(t) then Row(t, r + 1)
    else if r == LastScrolled(t) then Blanks(t.width)
    else Row(t, r)
  }

  /** The rows of the region have moved up by one. */
  ghost predicate RegionMovedUp(t: Term, u: Term)
    requires Sized(t) && Margins(t)
  {
    && Sized(u) && u.width == t.width && u.height == t.height
    && forall r: nat :: r < t.height ==> Row(u, r) == MovedUpRow(t, r)
  }

  /** `u` is `t` with the cursor sent to column `c` of row `r`: above the region it
      goes to the region's first cell, below it the region moves up by one row. */
  ghost predicate Lands(t: Term, u: Term, c: int, r: int)
    requires Sized(t) && Margins(t)
  {
    var c1, r1 := if r < t.top then 0 else c, if r < t.top then t.top else r;
    if r1 <= t.bottom then u == At(t, c1, r1)
    else u == At(t, c1, t.bottom).(cells := u.cells) && RegionMovedUp(t, u)
  }

  // ------------------------------------------------------------------- reclipping

  lemma RegionScrolls(t: Term)
    requires Sized(t) && Margins(t)
    ensures Scroll(t, t.top, t.bottom, false) == Scroll(t, FirstScrolled(t), LastScrolled(t), false)
    ensures RegionMovedUp(t, Scroll(t, t.top, t.bottom, false))
  {
    hide Off, MovedUp, MovedDown, Row;
    var u := Scroll(t, t.top, t.bottom, false);
    forall r: nat | r < t.height
      ensures Row(u, r) == MovedUpRow(t, r)
    {
      ScrollRow(t, FirstScrolled(t), LastScrolled(t), false, r);
    }
  }

  /** Rows do not depend on the cursor. */
  lemma SameRows(t: Term, v: Term, u: Term, w: Term)
    requires Sized(t) && Margins(t) && RegionMovedUp(t, u)
    requires v == t.(x := v.x, y := v.y, cursorX := v.cursorX, cursorY := v.cursorY)
    requires w == u.(x := w.x, y := w.y, cursorX := w.cursorX, cursorY := w.cursorY)
    ensures RegionMovedUp(v, w)
  {
    hide Off;
    forall r: nat | r < t.height
      ensures Row(w, r) == MovedUpRow(v, r)
    {
      assert Row(u, r) == MovedUpRow(t, r);
      SameRow(u, w, r);
      SameRow(t, v, r);
      if r < LastScrolled(t) { SameRow(t, v, r + 1); }
    }
  }

  lemma SameRow(a: Term, b: Term, r: nat)
    requires Sized(a) && Sized(b) && r < a.height && b.height == a.height && b.width == a.width && b.cells == a.cells
    ensures Row(b, r) == Row(a, r)
  {
    hide Off;
  }

  /** Reclipping a cursor whose flat position is column `c` of row `r`. */
  lemma ReclipLands(t: Term, p: Term, c: nat, r: int)
    requires Sized(t) && Margins(t) && c < t.width && p == t.(x := p.x, y := p.y)
    requires p.x + Off(p.y, t.width) == Off(r, t.width) + c
    ensures Lands(t, Reclip(p), c, r)
  {
    hide Off, RowOf, Scroll, RegionMovedUp;
    var c1: nat, r1: nat := if r < t.top then 0 else c, if r < t.top then t.top else r;
    FlatOrder(t.top, r, c, t.width);
    RowColUnique(r1, c1, t.width);
    if r1 > t.bottom {
      var v := p.(x := c1, y := t.bottom);
      RegionScrolls(v);
      SameRows(v, t, Scroll(v, t.top, t.bottom, false), Reclip(p));
    }
  }

  lemma FlatOrder(top: nat, r: int, c: nat, w: nat)
    requires c < w
    ensures Off(r, w) + c < Off(top, w) <==> r < top
    ensures Off(top, w) >= 0
  {
    hide Off;
    if r < top { OffMonotone(r, top, w); } else { OffMonotone(top, r, w); }
    RowColUnique(top, 0, w);
  }

  // ----------------------------------------------------------------- ground bytes

  /** Newline: the first column of the next row. */
  lemma NewlineByte(t: Term)
    requires Good(t) && t.stage == 0
    ensures Lands(t, WriteByte(t, 10), 0, t.y + 1)
  {
    hide Lands, Reclip, Off;
    ReclipLands(t, t.(x := 0, y := t.y + 1), 0, t.y + 1);
  }

  /** On the bottom row of the region, newline moves the region up by one row. */
  lemma NewlineAtBottom(t: Term)
    requires Good(t) && t.stage == 0 && t.top <= t.y == t.bottom
    ensures var u := WriteByte(t, 10);
      && u.x == 0 && u.y == t.bottom && u.cursorX == 0 && u.cursorY == t.bottom
      && Sized(u) && u.width == t.width && u.height == t.height
      && Row(u, t.bottom) == Blanks(t.width)
      && (forall r: nat :: t.top <= r < t.bottom ==> Row(u, r) == Row(t, r + 1))
      && (forall r: nat :: r < t.top || t.bottom < r < t.height ==> Row(u, r) == Row(t, r))
  {
    hide Off, WriteByte;
    NewlineByte(t);
    var u, b: nat := WriteByte(t, 10), t.bottom;
    assert Row(u, b) == MovedUpRow(t, b);
    forall r: nat | r < t.height ensures Row(u, r) == MovedUpRow(t, r) {}
  }

  /** Backspace: one column back, or the last column of the row before. */
  lemma BackspaceByte(t: Term)
    requires Good(t) && t.stage == 0
    ensures Lands(t, WriteByte(t, 8), if t.x > 0 then t.x - 1 else t.width - 1, if t.x > 0 then t.y else t.y - 1)
  {
    hide Lands, Reclip, Off;
    OffNext(t.y - 1, t.width);
    ReclipLands(t, t.(x := t.x - 1), if t.x > 0 then t.x - 1 else t.width - 1, if t.x > 0 then t.y else t.y - 1);
  }

  /** Carriage return: the first column of the same row. */
  lemma CarriageReturnByte(t: Term)
    requires Good(t) && t.stage == 0
    ensures Lands(t, WriteByte(t, 13), 0, t.y)
  {
    hide Lands, Reclip, Off;
    ReclipLands(t, t.(x := 0), 0, t.y);
  }

  /** What row `r` shows after writing `ch` at the cursor in the current colours. */
  function WrittenRow(t: Term, ch: int, r: nat): seq<Cell>
    requires Sized(t) && OnScreen(t) && r < t.height
  {
    RowCell(t, r, t.x);
    if r == t.y then Row(t, r)[t.x := Cell(ch, t.foreground, t.background)] else Row(t, r)
  }

  /** `u` is `t` with the character written at the cursor. */
  ghost predicate CellWritten(t: Term, u: Term, ch: int)
    requires Sized(t) && OnScreen(t)
  {
    && u == t.(cells := u.cells) && Sized(u)
    && forall r: nat :: r < t.height ==> Row(u, r) == WrittenRow(t, ch, r)
  }

  lemma PutWritesCell(t: Term, ch: int)
    requires Sized(t) && OnScreen(t)
    ensures CellWritten(t, Put(t, t.x + Off(t.y, t.width), ch), ch)
  {
    var u := Put(t, t.x + Off(t.y, t.width), ch);
    PutKeeps(t, t.x + Off(t.y, t.width), ch);
    forall r: nat | r < t.height
      ensures Row(u, r) == WrittenRow(t, ch, r)
    {
      PutWritesRow(t, ch, r);
    }
  }

  lemma PutWritesRow(t: Term, ch: int, r: nat)
    requires Sized(t) && OnScreen(t) && r < t.height
    ensures Row(Put(t, t.x + Off(t.y, t.width), ch), r) == WrittenRow(t, ch, r)
  {
    hide Off, Row;
    var z := t.x + Off(t.y, t.width);
    var u := Put(t, z, ch);
    PutKeeps(t, z, ch);
    RowCell(t, t.y, t.x);
    RowCell(t, r, t.x);
    RowCell(u, r, t.x);
    forall j: nat | j < t.width
      ensures Row(u, r)[j] == WrittenRow(t, ch, r)[j]
    {
      RowCell(t, r, j);
      RowCell(u, r, j);
      CellsApart(t.y, t.x, r, j, t.width);
    }
  }

  lemma CellsApart(y: nat, x: nat, r: nat, j: nat, w: nat)
    requires x < w && j < w
    ensures Off(y, w) + x == Off(r, w) + j ==> y == r && x == j
  {
    hide Off;
    RowColUnique(y, x, w);
    RowColUnique(r, j, w);
  }

  /**
   * A printable byte: the cursor is brought into the region, the character is
   * written there in the current colours, and the cursor goes one column on, at
   * the end of a row to the start of the next.
   */
  lemma PrintableByte(t: Term, ch: int) returns (v: Term, w: Term)
    requires Good(t) && t.stage == 0 && ch >= 32
    ensures Lands(t, v, t.x, t.y) && Sized(v) && OnScreen(v) && CellWritten(v, w, ch) && Margins(w)
    ensures Lands(w, WriteByte(t, ch), if v.x + 1 < t.width then v.x + 1 else 0, if v.x + 1 < t.width then v.y else v.y + 1)
  {
    hide Lands, Reclip, Off, CellWritten, Put;
    ReclipLands(t, t, t.x, t.y);
    ReclipOnScreen(t);
    ReclipKeeps(t);
    v := Reclip(t);
    w := Put(v, v.x + Off(v.y, v.width), ch);
    PutWritesCell(v, ch);
    PutKeeps(v, v.x + Off(v.y, v.width), ch);
    OffNext(v.y, v.width);
    if v.x + 1 < t.width {
      ReclipLands(w, w.(x := w.x + 1), v.x + 1, v.y);
    } else {
      ReclipLands(w, w.(x := w.x + 1), 0, v.y + 1);
    }
  }

  lemma PutKeeps(t: Term, z: int, ch: int)
    ensures Put(t, z, ch) == t.(cells := Put(t, z, ch).cells)
  {
  }

  /** Inside the region nothing moves before the character is written. */
  lemma PrintableInside(t: Term, ch: int)
    requires Good(t) && t.stage == 0 && ch >= 32 && t.top <= t.y <= t.bottom
    ensures var u := WriteByte(t, ch);
      && (t.x + 1 < t.width ==> CellWritten(t, At(u, t.x, t.y), ch) && u.x == t.x + 1 && u.y == t.y)
      && (t.x + 1 == t.width && t.y < t.bottom ==>
            CellWritten(t, At(u, t.x, t.y), ch) && u.x == 0 && u.y == t.y + 1)
      && (t.x + 1 == t.width && t.y == t.bottom ==> u.x == 0 && u.y == t.bottom)
  {
    hide CellWritten, WriteByte, Off, RegionMovedUp;
    var v, w := PrintableByte(t, ch);
    var u := WriteByte(t, ch);
    assert v == t;
    WrittenAt(t, w, u, ch);
  }

  lemma WrittenAt(t: Term, w: Term, u: Term, ch: int)
    requires Sized(t) && OnScreen(t) && CellWritten(t, w, ch)
    ensures w == t.(cells := w.cells)
    ensures t.cursorX == t.x && t.cursorY == t.y && u == At(w, u.x, u.y) ==> At(u, t.x, t.y) == w
  {
  }

  /** ESC begins an escape sequence; other control bytes and bytes above 127,
      which are negative, do nothing. */
  lemma OtherGroundByte(t: Term, ch: int)
    requires Sized(t) && t.stage == 0
    ensures ch == 27 ==> WriteByte(t, ch) == t.(stage := 1)
    ensures ch < 32 && ch != 27 && ch != 8 && ch != 10 && ch != 13 ==> WriteByte(t, ch) == t
  {
    hide Reclip;
  }

  // -------------------------------------------------------------- cursor commands

  lemma ClearedLands(t: Term, p: Term, c: nat, r: int)
    requires Sized(t) && Margins(t) && c < t.width && p == t.(x := p.x, y := p.y)
    requires p.x + Off(p.y, t.width) == Off(r, t.width) + c
    ensures Lands(Cleared(t), Cleared(Reclip(p)), c, r)
  {
    hide Lands, Reclip, Off;
    ReclipLands(Cleared(t), Cleared(p), c, r);
    ReclipIgnoresState(p);
  }

  lemma ReclipIgnoresState(p: Term)
    requires Sized(p)
    ensures Reclip(Cleared(p)) == Cleared(Reclip(p))
  {
    hide Off, RowOf, SlotOf, MovedUp, MovedDown;
  }

  /** ESC[nA and ESC[nB: n rows up or down in the same column. */
  lemma CursorUpDown(t: Term)
    requires Good(t) && t.stage == 2
    ensures Lands(Cleared(t), WriteByte(t, 'A' as int), t.x, t.y - t.value1)
    ensures Lands(Cleared(t), WriteByte(t, 'B' as int), t.x, t.y + t.value1)
  {
    hide Lands, Reclip, Off;
    ClearedLands(t, t.(y := t.y - t.value1), t.x, t.y - t.value1);
    ClearedLands(t, t.(y := t.y + t.value1), t.x, t.y + t.value1);
  }

  /** ESC[nC: n columns on, running over into the rows below.  Column `c`, `k` rows
      further down, is the cell n columns on. */
  lemma CursorForward(t: Term, c: nat, k: nat)
    requires Good(t) && t.stage == 2 && c < t.width && t.x + t.value1 == c + Off(k, t.width)
    ensures Lands(Cleared(t), WriteByte(t, 'C' as int), c, t.y + k)
  {
    hide Lands, Reclip, Off;
    OffSum(t.y, k, t.width);
    ClearedLands(t, t.(x := t.x + t.value1), c, t.y + k);
  }

  /** ESC[nD: n columns back, running over into the rows above. */
  lemma CursorBack(t: Term, c: nat, k: nat)
    requires Good(t) && t.stage == 2 && c < t.width && t.x - t.value1 == c - Off(k, t.width)
    ensures Lands(Cleared(t), WriteByte(t, 'D' as int), c, t.y - k)
  {
    hide Lands, Reclip, Off;
    OffSum(t.y - k, k, t.width);
    ClearedLands(t, t.(x := t.x - t.value1), c, t.y - k);
  }

  lemma {:induction false} OffSum(y: int, k: nat, w: nat)
    ensures Off(y + k, w) == Off(y, w) + Off(k, w)
    decreases k
  {
    if k > 0 {
      OffSum(y, k - 1, w);
      OffNext(y + k - 1, w);
    }
  }

  /** Every number of columns has such a `c` and `k`. */
  lemma {:induction false} WrapColumns(n: nat, w: nat) returns (c: nat, k: nat)
    requires w > 0
    ensures c < w && n == c + Off(k, w)
    decreases n
  {
    if n < w {
      c, k := n, 0;
    } else {
      var k0;
      c, k0 := WrapColumns(n - w, w);
      k := k0 + 1;
    }
  }

  /** Inside the region the four commands move the cursor and do nothing else. */
  lemma CursorInside(t: Term)
    requires Good(t) && t.stage == 2 && t.top <= t.y <= t.bottom
    ensures t.top <= t.y - t.value1 ==> WriteByte(t, 'A' as int) == At(Cleared(t), t.x, t.y - t.value1)
    ensures t.y + t.value1 <= t.bottom ==> WriteByte(t, 'B' as int) == At(Cleared(t), t.x, t.y + t.value1)
    ensures t.x + t.value1 < t.width ==> WriteByte(t, 'C' as int) == At(Cleared(t), t.x + t.value1, t.y)
    ensures t.x - t.value1 >= 0 ==> WriteByte(t, 'D' as int) == At(Cleared(t), t.x - t.value1, t.y)
  {
    hide WriteByte, RegionMovedUp;
    assert Off(0, t.width) == 0;
    CursorUpDown(t);
    if t.x + t.value1 < t.width { CursorForward(t, t.x + t.value1, 0); }
    if t.x - t.value1 >= 0 { CursorBack(t, t.x - t.value1, 0); }
  }

  /** At the region's edges the cursor up stops at the region's first cell, and the
      cursor down moves the region up by one row. */
  lemma CursorAtEdges(t: Term)
    requires Good(t) && t.stage == 2 && t.top <= t.y <= t.bottom
    ensures t.y - t.value1 < t.top ==> WriteByte(t, 'A' as int) == At(Cleared(t), 0, t.top)
    ensures t.y + t.value1 > t.bottom ==>
      var u := WriteByte(t, 'B' as int);
      u == At(Cleared(t), t.x, t.bottom).(cells := u.cells) && RegionMovedUp(Cleared(t), u)
  {
    hide WriteByte, RegionMovedUp;
    CursorUpDown(t);
  }

  /** ESC[H: the first cell of the screen, whatever the margins. */
  lemma CursorHome(t: Term)
    requires Sized(t) && t.stage == 2
    ensures WriteByte(t, 'H' as int) == At(Cleared(t), 0, 0)
  {
    hide Reclip;
  }

  /** ESC[v1;v2H and ESC[v1;v2f: column v2, row v1, counted from one; columns off
      the screen run over into other rows. */
  lemma CursorTo(t: Term, c: nat, k: int)
    requires Good(t) && t.stage == 3 && c < t.width && t.value2 - 1 == c + Off(k, t.width)
    ensures Lands(Cleared(t), WriteByte(t, 'H' as int), c, t.value1 - 1 + k)
    ensures Lands(Cleared(t), WriteByte(t, 'f' as int), c, t.value1 - 1 + k)
  {
    hide Lands, Reclip, Off;
    OffSumAny(t.value1 - 1, k, t.width);
    var p := t.(x := t.value2 - 1, y := t.value1 - 1);
    ClearedLands(t, p, c, t.value1 - 1 + k);
    ReclipIgnoresCursor(SetPosition(t, t.value2 - 1, t.value1 - 1), p);
  }

  lemma {:induction false} OffSumAny(y: int, k: int, w: nat)
    ensures Off(y + k, w) == Off(y, w) + Off(k, w)
    decreases if k < 0 then -k else k
  {
    if k > 0 {
      OffSumAny(y, k - 1, w);
      OffNext(y + k - 1, w);
    } else if k < 0 {
      OffSumAny(y, k + 1, w);
      OffNext(y + k, w);
    }
  }

  lemma ReclipIgnoresCursor(a: Term, b: Term)
    requires Sized(a) && b == a.(cursorX := b.cursorX, cursorY := b.cursorY)
    ensures Reclip(a) == Reclip(b)
  {
    hide Off, RowOf, SlotOf, MovedUp, MovedDown;
  }

  // -------------------------------------------------------- colours and the rest

  /** ESC[nm: the colours of later characters, after bringing the cursor into the
      region; 0 is gray on black, 1 white on black, 7 black on gray, and all else
      blue on black. */
  lemma ColourCommand(t: Term)
    requires Good(t) && t.stage == 2
    ensures var u := WriteByte(t, 'm' as int);
      && Lands(Cleared(t), u.(foreground := t.foreground, background := t.background), t.x, t.y)
      && u.foreground == (if t.value1 == 0 then GRAY else if t.value1 == 1 then WHITE
                          else if t.value1 == 7 then BLACK else BLUE)
      && u.background == if t.value1 == 7 then GRAY else BLACK
  {
    hide Lands, Reclip, Off;
    ClearedLands(t, t, t.x, t.y);
    ReclipKeeps(t);
  }

  /** Inside the region only the two colours change. */
  lemma ColourInside(t: Term)
    requires Good(t) && t.stage == 2 && t.top <= t.y <= t.bottom
    ensures var u := WriteByte(t, 'm' as int);
      u == Cleared(t).(foreground := u.foreground, background := u.background)
  {
    hide WriteByte, RegionMovedUp;
    ColourCommand(t);
  }

  /** How a sequence is read: the bracket, the digits of two values, the semicolon;
      anything unknown ends it without effect. */
  lemma EscapeBytes(t: Term, ch: int)
    requires Sized(t)
    ensures t.stage == 1 ==> WriteByte(t, ch) == if ch == '[' as int then t.(stage := 2) else Cleared(t)
    ensures t.stage == 2 && 48 <= ch <= 57 ==> WriteByte(t, ch) == t.(value1 := 10 * t.value1 + ch - 48)
    ensures t.stage == 3 && 48 <= ch <= 57 ==> WriteByte(t, ch) == t.(value2 := 10 * t.value2 + ch - 48)
    ensures t.stage == 2 && ch == ';' as int ==> WriteByte(t, ch) == t.(stage := 3)
    ensures t.stage == 2 && !(48 <= ch <= 57) && ch !in [59, 65, 66, 67, 68, 72, 74, 75, 76, 77, 109] ==>
      WriteByte(t, ch) == Cleared(t)
    ensures t.stage == 3 && !(48 <= ch <= 57) && ch !in [72, 102, 114] ==> WriteByte(t, ch) == Cleared(t)
  {
    hide Reclip;
  }
}

/**
 * The terminal emulator on values: a flat buffer of character cells, a cursor,
 * scroll margins and a byte-driven escape state machine.
 *
 * Row offsets are written by repeated addition so that row and column
 * arithmetic stays linear; `OffIsProduct` says it is the product.
 */
module Terminal {
  import opened RingIndex

  datatype Cell = Cell(ch: int, foreground: nat, background: nat)

  /** What memset to zero leaves in a cell. */
  const BLANK := Cell(0, 0, 0)

  const GRAY: nat := 0xFFC0C0C0
  const BLACK: nat := 0xFF000000
  const WHITE: nat := 0xFFFFFFFF
  const BLUE: nat := 0xFF0000FF

  const ESC: int := 27

  /** The console's buffer and cursor with the terminal's own fields. */
  datatype Term = Term(
    width: nat, height: nat, cells: seq<Cell>, cursorX: int, cursorY: int,
    x: int, y: int, top: int, bottom: int, foreground: nat, background: nat,
    stage: nat, value1: nat, value2: nat)

  // ------------------------------------------------------------- row arithmetic

  /** `y * w`. */
  function Off(y: int, w: nat): int
    decreases if y < 0 then -y else y
  {
    if y == 0 then 0 else if y > 0 then Off(y - 1, w) + w else Off(y + 1, w) - w
  }

  lemma {:induction false} OffIsProduct(y: int, w: nat)
    ensures Off(y, w) == y * w
    decreases if y < 0 then -y else y
  {
    if y > 0 { OffIsProduct(y - 1, w); } else if y < 0 { OffIsProduct(y + 1, w); }
  }

  lemma {:induction false} OffMonotone(a: int, b: int, w: nat)
    requires a <= b
    ensures Off(a, w) <= Off(b, w)
    ensures a < b ==> Off(a, w) + w <= Off(b, w)
    decreases b - a
  {
    if a < b {
      OffMonotone(a, b - 1, w);
      OffNext(b - 1, w);
    }
  }

  lemma OffNext(y: int, w: nat)
    ensures Off(y + 1, w) == Off(y, w) + w
  {
  }

  /** `z / w` for a non-negative `z`. */
  function RowOf(z: nat, w: nat): nat
    requires w > 0
  {
    if z < w then 0 else 1 + RowOf(z - w, w)
  }

  lemma {:induction false} RowColOf(z: nat, w: nat)
    requires w > 0
    ensures z == Off(RowOf(z, w), w) + SlotOf(z, w)
  {
    if z >= w { RowColOf(z - w, w); }
  }

  lemma {:induction false} RowColUnique(y: nat, x: nat, w: nat)
    requires x < w
    ensures Off(y, w) >= 0
    ensures RowOf(Off(y, w) + x, w) == y && SlotOf(Off(y, w) + x, w) == x
    decreases y
  {
    if y > 0 { RowColUnique(y - 1, x, w); }
  }

  /** C division and remainder round toward zero. */
  function CDiv(z: int, w: nat): int
    requires w > 0
  {
    if z >= 0 then RowOf(z, w) else -(RowOf(-z, w) as int)
  }

  function CMod(z: int, w: nat): int
    requires w > 0
  {
    if z >= 0 then SlotOf(z, w) else -(SlotOf(-z, w) as int)
  }

  // --------------------------------------------------------------------- scroll

  function Blanks(n: nat): (s: seq<Cell>)
    ensures |s| == n
  {
    seq(n, _ => BLANK)
  }

  function Clamp(v: int, lo: int, hi: int): int
  {
    if v < lo then lo else if v > hi then hi else v
  }

  /** The flat buffer with cells `a`..`e` moved up by `w` positions, the first
      `w` of them blank: one row further down. */
  function MovedDown(c: seq<Cell>, a: nat, e: nat, w: nat): (d: seq<Cell>)
    requires a <= e && e + w <= |c|
    ensures |d| == |c|
  {
    c[..a] + Blanks(w) + c[a..e] + c[e + w..]
  }

  /** The flat buffer with cells `a + w`..`e + w` moved down by `w` positions, the
      last `w` of them blank: one row further up. */
  function MovedUp(c: seq<Cell>, a: nat, e: nat, w: nat): (d: seq<Cell>)
    requires a <= e && e + w <= |c|
    ensures |d| == |c|
  {
    c[..a] + c[a + w..e + w] + Blanks(w) + c[e + w..]
  }

  lemma RowsInside(s: nat, e: nat, h: nat, w: nat)
    requires s <= e < h
    ensures 0 <= Off(s, w) <= Off(e, w)
    ensures Off(s + 1, w) == Off(s, w) + w <= Off(e + 1, w) == Off(e, w) + w <= Off(h, w)
  {
    OffMonotone(0, s, w);
    OffMonotone(s, e, w);
    OffMonotone(e + 1, h, w);
    OffNext(e, w);
    OffNext(s, w);
  }

  predicate Sized(t: Term)
  {
    t.width > 0 && t.height > 0 && |t.cells| == Off(t.height, t.width)
  }

  /** Console::Scroll. */
  function Scroll(t: Term, start: int, end: int, down: bool): (t': Term)
    requires Sized(t)
    ensures Sized(t') && t' == t.(cells := t'.cells)
  {
    var s: nat := Clamp(start, 0, t.height - 1);
    var e: nat := Clamp(if end < s then s else end, 0, t.height - 1);
    RowsInside(s, e, t.height, t.width);
    var a, z := Off(s, t.width), Off(e, t.width);
    t.(cells := if down then MovedDown(t.cells, a, z, t.width) else MovedUp(t.cells, a, z, t.width))
  }

  function ScrollTimes(t: Term, start: int, end: int, down: bool, count: nat): (t': Term)
    requires Sized(t)
    ensures Sized(t') && t' == t.(cells := t'.cells)
    decreases count
  {
    if count == 0 then t else ScrollTimes(Scroll(t, start, end, down), start, end, down, count - 1)
  }

  // ------------------------------------------------------------------ terminal

  /** ConsoleXterm::ReclipCursor. */
  function Reclip(t: Term): (t': Term)
    requires Sized(t)
    ensures Sized(t')
  {
    var z := t.x + Off(t.y, t.width);
    var c := if z < Off(t.top, t.width) then Off(t.top, t.width) else z;
    var u := t.(x := CMod(c, t.width), y := CDiv(c, t.width));
    var v := if u.y > u.bottom then Scroll(u.(y := u.bottom), u.top, u.bottom, false) else u;
    v.(cursorX := v.x, cursorY := v.y)
  }

  function SetPosition(t: Term, x: int, y: int): Term
  {
    t.(x := x, y := y, cursorX := x, cursorY := y)
  }

  /** Writing cell `z`; nothing is written outside the buffer here, and the
      in-place model proves that it never has to be. */
  function Put(t: Term, z: int, ch: int): (t': Term)
    ensures Sized(t) ==> Sized(t')
  {
    if 0 <= z < |t.cells| then t.(cells := t.cells[z := Cell(ch, t.foreground, t.background)]) else t
  }

  /** The cells from `from` up to `to` become spaces in the current colours. */
  function Erase(t: Term, from: int, to: int): (t': Term)
    ensures Sized(t) ==> Sized(t')
    ensures t' == t.(cells := t'.cells)
  {
    if 0 <= from <= to <= |t.cells| then
      t.(cells := t.cells[..from] + seq(to - from, _ => Cell(' ' as int, t.foreground, t.background)) + t.cells[to..])
    else t
  }

  /** The range ESC[nJ and ESC[nK erase; other values erase nothing. */
  function EraseRange(t: Term, ch: int): (int, int)
  {
    var here := t.x + Off(t.y, t.width);
    if ch == 'J' as int then
      if t.value1 == 0 then (here, Off(t.height, t.width))
      else if t.value1 == 1 then (0, here + 1)
      else if t.value1 == 2 then (0, Off(t.height, t.width))
      else (0, 0)
    else
      if t.value1 == 0 then (here, Off(t.y + 1, t.width))
      else if t.value1 == 1 then (Off(t.y, t.width), here + 1)
      else if t.value1 == 2 then (Off(t.y, t.width), Off(t.y + 1, t.width))
      else (0, 0)
  }

  function Colours(t: Term): Term
  {
    if t.value1 == 0 then t.(foreground := GRAY, background := BLACK)
    else if t.value1 == 1 then t.(foreground := WHITE, background := BLACK)
    else if t.value1 == 7 then t.(foreground := BLACK, background := GRAY)
    else t.(foreground := BLUE, background := BLACK)
  }

  function LineCount(t: Term): nat { if t.value1 == 0 then 1 else t.value1 }

  predicate IsDigit(ch: int) { '0' as int <= ch <= '9' as int }

  /** The commands of ESC[n<ch>. */
  function Command1(t: Term, ch: int): (t': Term)
    requires Sized(t)
    ensures Sized(t')
  {
    if ch == 'A' as int then Reclip(t.(y := t.y - t.value1))
    else if ch == 'B' as int then Reclip(t.(y := t.y + t.value1))
    else if ch == 'C' as int then Reclip(t.(x := t.x + t.value1))
    else if ch == 'D' as int then Reclip(t.(x := t.x - t.value1))
    else if ch == 'L' as int then var u := Reclip(t); ScrollTimes(u, u.y, u.bottom, true, LineCount(u))
    else if ch == 'M' as int then var u := Reclip(t); ScrollTimes(u, u.y, u.bottom, false, LineCount(u))
    else if ch == 'm' as int then Colours(Reclip(t))
    else if ch == 'J' as int || ch == 'K' as int then
      var u := Reclip(t);
      Erase(u, EraseRange(u, ch).0, EraseRange(u, ch).1)
    else if ch == 'H' as int then SetPosition(t, 0, 0)
    else t
  }

  /** The commands of ESC[n;m<ch>. */
  function Command2(t: Term, ch: int): (t': Term)
    requires Sized(t)
    ensures Sized(t')
  {
    if ch == 'H' as int || ch == 'f' as int then Reclip(SetPosition(t, t.value2 - 1, t.value1 - 1))
    else if ch == 'r' as int then t.(top := t.value1 - 1, bottom := t.value2 - 1)
    else t
  }

  function Ground(t: Term): Term { t.(stage := 0, value1 := 0, value2 := 0) }

  /** ConsoleXterm::WriteEscapedChar. */
  function WriteEscaped(t: Term, ch: int): (t': Term)
    requires Sized(t)
    ensures Sized(t')
  {
    if t.stage == 1 then
      if ch == '[' as int then t.(stage := 2) else Ground(t)
    else if t.stage == 2 then
      if IsDigit(ch) then t.(value1 := t.value1 * 10 + ch - '0' as int)
      else if ch == ';' as int then t.(stage := 3)
      else Ground(Command1(t, ch))
    else if t.stage == 3 then
      if IsDigit(ch) then t.(value2 := t.value2 * 10 + ch - '0' as int)
      else Ground(Command2(t, ch))
    else Ground(t)
  }

  /** ConsoleXterm::WriteChar on a signed char. */
  function WriteByte(t: Term, ch: int): (t': Term)
    requires Sized(t)
    ensures Sized(t')
  {
    if t.stage != 0 then WriteEscaped(t, ch)
    else if ch == 10 then Reclip(t.(x := 0, y := t.y + 1))
    else if ch == 8 then Reclip(t.(x := t.x - 1))
    else if ch == 13 then Reclip(t.(x := 0))
    else if ch == ESC then t.(stage := 1)
    else if ch < 32 then t
    else
      var u := Reclip(t);
      var v := Put(u, u.x + Off(u.y, u.width), ch);
      Reclip(v.(x := v.x + 1))
  }

  function Write(t: Term, bytes: seq<int>): (t': Term)
    requires Sized(t)
    ensures Sized(t')
    decreases |bytes|
  {
    if bytes == [] then t else Write(WriteByte(t, bytes[0]), bytes[1..])
  }

  lemma {:induction false} WriteConcat(t: Term, a: seq<int>, b: seq<int>)
    requires Sized(t)
    ensures Write(t, a + b) == Write(Write(t, a), b)
    decreases |a|
  {
    hide WriteByte;
    if a == [] {
      assert a + b == b;
    } else {
      assert (a + b)[0] == a[0] && (a + b)[1..] == a[1..] + b;
      WriteConcat(WriteByte(t, a[0]), a[1..], b);
    }
  }

  // ------------------------------------------------------------------ invariant

  predicate OnScreen(t: Term) { 0 <= t.x < t.width && 0 <= t.y < t.height }

  /** Margins that keep the cursor on the screen: the top may even be below the
      bottom. */
  predicate Margins(t: Term) { t.top >= 0 && 0 <= t.bottom < t.height }

  /** The escape state: values are zero until their digits can come. */
  predicate EscapeOk(t: Term)
  {
    && t.stage <= 3
    && (t.stage <= 1 ==> t.value1 == 0)
    && (t.stage <= 2 ==> t.value2 == 0)
  }

  predicate Good(t: Term)
  {
    && Sized(t) && OnScreen(t) && Margins(t) && EscapeOk(t)
    && t.cursorX == t.x && t.cursorY == t.y
  }

  /** Whether this byte completes a margin sequence. */
  predicate SetsMargins(t: Term, ch: int) { t.stage == 3 && ch == 'r' as int }

  /** The margins such a sequence asks for are acceptable. */
  predicate MarginsOk(t: Term) { 1 <= t.value1 && 1 <= t.value2 <= t.height }

  lemma ReclipOnScreen(t: Term)
    requires Sized(t) && Margins(t)
    ensures OnScreen(Reclip(t)) && Reclip(t).y <= t.bottom
    ensures Reclip(t).cursorX == Reclip(t).x && Reclip(t).cursorY == Reclip(t).y
  {
    OffMonotone(0, t.top, t.width);
  }

  /** Reclipping a cursor already inside the region changes nothing. */
  lemma ReclipInside(t: Term)
    requires Sized(t) && OnScreen(t) && 0 <= t.top <= t.y <= t.bottom
    requires t.cursorX == t.x && t.cursorY == t.y
    ensures Reclip(t) == t
  {
    RowColUnique(t.y, t.x, t.width);
    OffMonotone(t.top, t.y, t.width);
  }

  /** Every byte keeps the cursor on the screen and the escape state in order,
      provided any margin sequence it completes is acceptable. */
  lemma ByteKeepsGood(t: Term, ch: int)
    requires Good(t) && (SetsMargins(t, ch) ==> MarginsOk(t))
    ensures Good(WriteByte(t, ch))
  {
    hide Off, RowOf, SlotOf, Scroll, ScrollTimes, Reclip;
    if t.stage == 0 {
      GroundByteKeepsGood(t, ch);
    } else if t.stage == 2 && !IsDigit(ch) && ch != ';' as int {
      Command1KeepsGood(t, ch);
    } else if t.stage == 3 && (ch == 'H' as int || ch == 'f' as int) {
      ReclipOnScreen(SetPosition(t, t.value2 - 1, t.value1 - 1));
      ReclipKeeps(SetPosition(t, t.value2 - 1, t.value1 - 1));
    }
  }

  /** Reclipping leaves margins, sizes, colours and the escape state alone. */
  lemma ReclipKeeps(t: Term)
    requires Sized(t)
    ensures var u := Reclip(t);
      u == t.(x := u.x, y := u.y, cursorX := u.x, cursorY := u.y, cells := u.cells)
  {
    hide Off, RowOf, SlotOf;
  }

  lemma GroundByteKeepsGood(t: Term, ch: int)
    requires Good(t) && t.stage == 0
    ensures Good(WriteByte(t, ch))
  {
    hide Off, RowOf, SlotOf, Scroll, Reclip;
    if ch == 10 || ch == 8 || ch == 13 {
      var u := if ch == 10 then t.(x := 0, y := t.y + 1) else if ch == 8 then t.(x := t.x - 1) else t.(x := 0);
      ReclipOnScreen(u);
      ReclipKeeps(u);
    } else if ch != ESC && ch >= 32 {
      var u := Reclip(t);
      ReclipOnScreen(t);
      ReclipKeeps(t);
      var v := Put(u, u.x + Off(u.y, u.width), ch);
      ReclipOnScreen(v.(x := v.x + 1));
      ReclipKeeps(v.(x := v.x + 1));
    }
  }

  lemma Command1KeepsGood(t: Term, ch: int)
    requires Good(t) && t.stage == 2
    ensures Good(Ground(Command1(t, ch)))
  {
    hide Off, RowOf, SlotOf, Scroll, ScrollTimes, Reclip, Erase;
    var u :=
      if ch == 'A' as int then t.(y := t.y - t.value1)
      else if ch == 'B' as int then t.(y := t.y + t.value1)
      else if ch == 'C' as int then t.(x := t.x + t.value1)
      else if ch == 'D' as int then t.(x := t.x - t.value1)
      else t;
    ReclipOnScreen(u);
    ReclipKeeps(u);
  }

  /** Every byte of a stream that completes a margin sequence asks for
      acceptable margins. */
  predicate StreamOk(t: Term, bytes: seq<int>)
    requires Sized(t)
    decreases |bytes|
  {
    bytes != [] ==>
      (SetsMargins(t, bytes[0]) ==> MarginsOk(t)) && StreamOk(WriteByte(t, bytes[0]), bytes[1..])
  }

  /** For every such stream the cursor is on the screen after each byte. */
  lemma {:induction false} StreamKeepsGood(t: Term, bytes: seq<int>, k: nat)
    requires Good(t) && StreamOk(t, bytes) && k <= |bytes|
    ensures Good(Write(t, bytes[..k]))
    decreases |bytes|
  {
    hide WriteByte, Good, MarginsOk;
    if k > 0 {
      StreamKeepsStep(t, bytes);
      StreamKeepsGood(WriteByte(t, bytes[0]), bytes[1..], k - 1);
      assert bytes[..k][1..] == bytes[1..][..k - 1];
    }
  }

  lemma StreamKeepsStep(t: Term, bytes: seq<int>)
    requires Good(t) && bytes != [] && StreamOk(t, bytes)
    ensures Sized(t) && Good(WriteByte(t, bytes[0])) && StreamOk(WriteByte(t, bytes[0]), bytes[1..])
  {
    hide WriteByte;
    ByteKeepsGood(t, bytes[0]);
  }

  // -------------------------------------------------------------- the row view

  /** Row `r` of the screen. */
  function Row(t: Term, r: nat): seq<Cell>
    requires Sized(t) && r < t.height
  {
    RowsInside(r, r, t.height, t.width);
    t.cells[Off(r, t.width)..Off(r + 1, t.width)]
  }

  lemma MovedDownAt(c: seq<Cell>, a: nat, e: nat, w: nat, i: nat)
    requires a <= e && e + w <= |c| && i < |c|
    ensures MovedDown(c, a, e, w)[i] == if a <= i < a + w then BLANK else if a + w <= i < e + w then c[i - w] else c[i]
  {
    FourParts(c[..a], Blanks(w), c[a..e], c[e + w..], i);
  }

  lemma MovedUpAt(c: seq<Cell>, a: nat, e: nat, w: nat, i: nat)
    requires a <= e && e + w <= |c| && i < |c|
    ensures MovedUp(c, a, e, w)[i] == if a <= i < e then c[i + w] else if e <= i < e + w then BLANK else c[i]
  {
    FourParts(c[..a], c[a + w..e + w], Blanks(w), c[e + w..], i);
  }

  lemma FourParts(p: seq<Cell>, q: seq<Cell>, r: seq<Cell>, s: seq<Cell>, i: nat)
    requires i < |p| + |q| + |r| + |s|
    ensures (p + q + r + s)[i] ==
      if i < |p| then p[i]
      else if i < |p| + |q| then q[i - |p|]
      else if i < |p| + |q| + |r| then r[i - |p| - |q|]
      else s[i - |p| - |q| - |r|]
  {
  }

  lemma MovedDownSlice(c: seq<Cell>, a: nat, e: nat, w: nat, p: nat)
    requires a <= e && e + w <= |c| && p + w <= |c|
    ensures var d := MovedDown(c, a, e, w);
      && (p + w <= a || e + w <= p ==> d[p..p + w] == c[p..p + w])
      && (p == a ==> d[p..p + w] == Blanks(w))
      && (a + w <= p <= e ==> d[p..p + w] == c[p - w..p])
  {
    hide MovedDown;
    var d := MovedDown(c, a, e, w);
    if p + w <= a || e + w <= p {
      var f, g := d[p..p + w], c[p..p + w];
      forall k: nat | k < w ensures f[k] == g[k] { MovedDownAt(c, a, e, w, p + k); }
    }
    if p == a {
      var f, g := d[p..p + w], Blanks(w);
      forall k: nat | k < w ensures f[k] == g[k] { MovedDownAt(c, a, e, w, p + k); }
    }
    if a + w <= p <= e {
      var f, g := d[p..p + w], c[p - w..p];
      forall k: nat | k < w ensures f[k] == g[k] { MovedDownAt(c, a, e, w, p + k); }
    }
  }

  lemma MovedUpSlice(c: seq<Cell>, a: nat, e: nat, w: nat, p: nat)
    requires a <= e && e + w <= |c| && p + w <= |c|
    ensures var d := MovedUp(c, a, e, w);
      && (p + w <= a || e + w <= p ==> d[p..p + w] == c[p..p + w])
      && (p == e ==> d[p..p + w] == Blanks(w))
      && (a <= p && p + w <= e ==> d[p..p + w] == c[p + w..p + w + w])
  {
    hide MovedUp;
    var d := MovedUp(c, a, e, w);
    if p + w <= a || e + w <= p {
      var f, g := d[p..p + w], c[p..p + w];
      forall k: nat | k < w ensures f[k] == g[k] { MovedUpAt(c, a, e, w, p + k); }
    }
    if p == e {
      var f, g := d[p..p + w], Blanks(w);
      forall k: nat | k < w ensures f[k] == g[k] { MovedUpAt(c, a, e, w, p + k); }
    }
    if a <= p && p + w <= e {
      var f, g := d[p..p + w], c[p + w..p + w + w];
      forall k: nat | k < w ensures f[k] == g[k] { MovedUpAt(c, a, e, w, p + k); }
    }
  }

  /** What a scroll of rows `s`..`e` puts in row `r`. */
  function ScrolledRow(t: Term, s: nat, e: nat, down: bool, r: nat): seq<Cell>
    requires Sized(t) && s <= e < t.height && r < t.height
  {
    if r < s || r > e then Row(t, r)
    else if down then (if r == s then Blanks(t.width) else Row(t, r - 1))
    else (if r == e then Blanks(t.width) else Row(t, r + 1))
  }

  /** One scroll inside the screen, row by row. */
  lemma ScrollRow(t: Term, s: nat, e: nat, down: bool, r: nat)
    requires Sized(t) && s <= e < t.height && r < t.height
    ensures Row(Scroll(t, s, e, down), r) == ScrolledRow(t, s, e, down, r)
  {
    hide Off, ScrolledRow, Scroll;
    RowPlaces(s, e, r, t.height, t.width);
    if down { ScrollRowDown(t, s, e, r); } else { ScrollRowUp(t, s, e, r); }
  }

  /** One scroll with any rows: they are brought onto the screen, and a last row
      before the first counts as the first. */
  lemma ScrollAnyRow(t: Term, start: int, end: int, down: bool, r: nat)
    requires Sized(t) && r < t.height
    ensures var s := if start < 0 then 0 else if start >= t.height then t.height - 1 else start;
      var e := if end < s then s else if end >= t.height then t.height - 1 else end;
      Row(Scroll(t, start, end, down), r) == ScrolledRow(t, s, e, down, r)
  {
    hide Off, ScrolledRow, MovedUp, MovedDown;
    var s := if start < 0 then 0 else if start >= t.height then t.height - 1 else start;
    var e := if end < s then s else if end >= t.height then t.height - 1 else end;
    ScrollRow(t, s, e, down, r);
  }

  /** Where row `r` lies relative to rows `s`..`e` in the flat buffer. */
  ghost predicate Placed(s: nat, e: nat, r: nat, h: nat, w: nat)
  {
    var p := Off(r, w);
    && 0 <= p && Off(r + 1, w) == p + w <= Off(h, w) && 0 <= Off(s, w) <= Off(e, w) && Off(e, w) + w <= Off(h, w)
    && (r < s ==> p + w <= Off(s, w))
    && (r > e ==> Off(e, w) + w <= p)
    && (s < r <= e ==> Off(s, w) + w <= p <= Off(e, w))
    && (s <= r < e ==> Off(s, w) <= p && p + w <= Off(e, w))
    && (r > 0 ==> Off(r - 1, w) == p - w && p - w >= 0)
    && (r + 1 < h ==> Off(r + 2, w) == p + w + w)
  }

  lemma RowPlaces(s: nat, e: nat, r: nat, h: nat, w: nat)
    requires s <= e < h && r < h
    ensures Placed(s, e, r, h, w)
  {
    hide Off;
    RowsInside(s, e, h, w);
    RowsInside(r, r, h, w);
    OffNext(r + 1, w);
    if r < s { OffMonotone(r + 1, s, w); }
    if r > e { OffMonotone(e + 1, r, w); }
    if s < r <= e { OffMonotone(s + 1, r, w); OffMonotone(r, e, w); }
    if s <= r < e { OffMonotone(s, r, w); OffMonotone(r + 1, e, w); }
    if r > 0 { RowsInside(r - 1, r, h, w); }
  }

  lemma ScrollRowDown(t: Term, s: nat, e: nat, r: nat)
    requires Sized(t) && s <= e < t.height && r < t.height && Placed(s, e, r, t.height, t.width)
    ensures Row(Scroll(t, s, e, true), r) == ScrolledRow(t, s, e, true, r)
  {
    hide Off, MovedDown, MovedUp;
    MovedDownSlice(t.cells, Off(s, t.width), Off(e, t.width), t.width, Off(r, t.width));
  }

  lemma ScrollRowUp(t: Term, s: nat, e: nat, r: nat)
    requires Sized(t) && s <= e < t.height && r < t.height && Placed(s, e, r, t.height, t.width)
    ensures Row(Scroll(t, s, e, false), r) == ScrolledRow(t, s, e, false, r)
  {
    hide Off, MovedDown, MovedUp;
    MovedUpSlice(t.cells, Off(s, t.width), Off(e, t.width), t.width, Off(r, t.width));
  }

  /** Row `r` after inserting `n` blank rows at row `y`, within rows `y`..`b`. */
  function InsertedRow(t: Term, y: nat, b: nat, n: nat, r: nat): seq<Cell>
    requires Sized(t) && y <= b < t.height && r < t.height
  {
    if r < y || r > b then Row(t, r) else if r < y + n then Blanks(t.width) else Row(t, r - n)
  }

  /** Row `r` after deleting `n` rows at row `y`, within rows `y`..`b`. */
  function DeletedRow(t: Term, y: nat, b: nat, n: nat, r: nat): seq<Cell>
    requires Sized(t) && y <= b < t.height && r < t.height
  {
    if r < y || r > b then Row(t, r) else if r + n > b then Blanks(t.width) else Row(t, r + n)
  }

  lemma {:induction false} ScrollTimesDown(t: Term, y: nat, b: nat, n: nat, r: nat)
    requires Sized(t) && y <= b < t.height && r < t.height
    ensures Row(ScrollTimes(t, y, b, true, n), r) == InsertedRow(t, y, b, n, r)
    decreases n
  {
    hide Row, Scroll;
    if n > 0 {
      var u := Scroll(t, y, b, true);
      ScrollTimesDown(u, y, b, n - 1, r);
      ScrollRow(t, y, b, true, r);
      if y <= r <= b && r >= y + n - 1 { ScrollRow(t, y, b, true, r - (n - 1)); }
    }
  }

  lemma {:induction false} ScrollTimesUp(t: Term, y: nat, b: nat, n: nat, r: nat)
    requires Sized(t) && y <= b < t.height && r < t.height
    ensures Row(ScrollTimes(t, y, b, false, n), r) == DeletedRow(t, y, b, n, r)
    decreases n
  {
    hide Row, Scroll;
    if n > 0 {
      var u := Scroll(t, y, b, false);
      ScrollTimesUp(u, y, b, n - 1, r);
      ScrollRow(t, y, b, false, r);
      if y <= r <= b && r + n - 1 <= b { ScrollRow(t, y, b, false, r + (n - 1)); }
    }
  }

  /**
   * ESC[nL inserts max(n, 1) blank rows at the cursor's row and ESC[nM deletes
   * as many, within the rows down to the bottom margin; rows above the cursor
   * and below the margin stay as the reclipped screen had them.
   */
  lemma InsertDeleteLines(t: Term, r: nat)
    requires Good(t) && t.stage == 2 && r < t.height
    ensures var u := Reclip(t);
      && 0 <= u.y <= u.bottom < u.height && u.height == t.height
      && Row(WriteByte(t, 'L' as int), r) == InsertedRow(u, u.y, u.bottom, LineCount(t), r)
      && Row(WriteByte(t, 'M' as int), r) == DeletedRow(u, u.y, u.bottom, LineCount(t), r)
  {
    hide Row, Scroll, ScrollTimes, Reclip, Off, InsertedRow, DeletedRow;
    var u := Reclip(t);
    ReclipOnScreen(t);
    ReclipKeeps(t);
    ScrollTimesDown(u, u.y, u.bottom, LineCount(u), r);
    ScrollTimesUp(u, u.y, u.bottom, LineCount(u), r);
    GroundRow(ScrollTimes(u, u.y, u.bottom, true, LineCount(u)), r);
    GroundRow(ScrollTimes(u, u.y, u.bottom, false, LineCount(u)), r);
  }

  lemma GroundRow(t: Term, r: nat)
    requires Sized(t) && r < t.height
    ensures Row(Ground(t), r) == Row(t, r)
  {
  }

  /** A flat buffer after erasing cells `from`..`to`, cell by cell. */
  lemma EraseCell(t: Term, from: nat, to: nat, p: nat)
    requires from <= to <= |t.cells| && p < |t.cells|
    ensures |Erase(t, from, to).cells| == |t.cells|
    ensures Erase(t, from, to).cells[p] ==
      if from <= p < to then Cell(' ' as int, t.foreground, t.background) else t.cells[p]
  {
    hide Off;
  }

  lemma RowCell(t: Term, r: nat, j: nat)
    requires Sized(t) && r < t.height && j < t.width
    ensures 0 <= Off(r, t.width) + j < |t.cells|
    ensures |Row(t, r)| == t.width && Row(t, r)[j] == t.cells[Off(r, t.width) + j]
  {
    hide Off;
    RowsInside(r, r, t.height, t.width);
  }

  /** Row `r` after erasing cells `from`..`to` of the flat buffer: column `j`
      becomes a space exactly when it falls in the range. */
  lemma EraseRow(t: Term, from: nat, to: nat, r: nat, j: nat)
    requires Sized(t) && from <= to <= |t.cells| && r < t.height && j < t.width
    ensures |Row(t, r)| == |Row(Erase(t, from, to), r)| == t.width
    ensures Row(Erase(t, from, to), r)[j] ==
      if from <= Off(r, t.width) + j < to then Cell(' ' as int, t.foreground, t.background) else Row(t, r)[j]
  {
    hide Off, Erase, Row;
    RowCell(t, r, j);
    RowCell(Erase(t, from, to), r, j);
    EraseCell(t, from, to, Off(r, t.width) + j);
  }

  /**
   * ESC[nJ and ESC[nK on the screen: which cells become spaces, by row `r` and
   * column `j`, after reclipping to cursor (x, y).
   */
  lemma EraseCommands(t: Term, k: bool, r: nat, j: nat)
    requires Good(t) && t.stage == 2 && r < t.height && j < t.width
    ensures var u := Reclip(t);
      var v := WriteByte(t, (if k then 'K' else 'J') as int);
      var row := r == u.y;
      var erased :=
        if t.value1 == 0 then (row && j >= u.x) || (!k && r > u.y)
        else if t.value1 == 1 then (row && j <= u.x) || (!k && r < u.y)
        else if t.value1 == 2 then row || !k
        else false;
      && |Row(v, r)| == |Row(u, r)| == t.width
      && Row(v, r)[j] == if erased then Cell(' ' as int, u.foreground, u.background) else Row(u, r)[j]
  {
    hide Off, Reclip, Erase, Row;
    var u, w := Reclip(t), t.width;
    ReclipOnScreen(t);
    ReclipKeeps(t);
    var range := EraseRange(u, (if k then 'K' else 'J') as int);
    RowsInside(u.y, u.y, t.height, w);
    RowsInside(r, r, t.height, w);
    if r < u.y { OffMonotone(r + 1, u.y, w); }
    if r > u.y { OffMonotone(u.y + 1, r, w); }
    OffMonotone(0, r, w);
    OffMonotone(r + 1, t.height, w);
    OffZero(w);
    EraseRow(u, range.0, range.1, r, j);
    GroundRow(Erase(u, range.0, range.1), r);
  }

  lemma OffZero(w: nat)
    ensures Off(0, w) == 0
  {
  }

  // ------------------------------------------------- margins, the exact condition

  /** No byte of the stream completes a margin sequence. */
  predicate NoMargins(t: Term, bytes: seq<int>)
    requires Sized(t)
    decreases |bytes|
  {
    bytes != [] ==> !SetsMargins(t, bytes[0]) && NoMargins(WriteByte(t, bytes[0]), bytes[1..])
  }

  /** The stream sets no margins and ends with the cursor off the screen. */
  ghost predicate LeavesScreen(t: Term, bytes: seq<int>)
    requires Sized(t)
  {
    NoMargins(t, bytes) && !OnScreen(Write(t, bytes))
  }

  /** A terminal at rest with its cursor on the screen, whatever its margins. */
  predicate AtRest(t: Term)
  {
    && Sized(t) && OnScreen(t) && EscapeOk(t) && t.stage == 0
    && t.cursorX == t.x && t.cursorY == t.y
  }

  lemma OneByte(t: Term, ch: int)
    requires AtRest(t) && !OnScreen(WriteByte(t, ch))
    ensures LeavesScreen(t, [ch])
  {
    hide WriteByte;
    var u := WriteByte(t, ch);
    assert [ch][1..] == [];
    assert Write(u, []) == u && NoMargins(u, []);
  }

  lemma MoreBytes(t: Term, ch: int, bytes: seq<int>)
    requires AtRest(t) && LeavesScreen(WriteByte(t, ch), bytes)
    ensures LeavesScreen(t, [ch] + bytes)
  {
    hide WriteByte;
    assert ([ch] + bytes)[0] == ch && ([ch] + bytes)[1..] == bytes;
  }

  /** A bottom margin above the screen: a carriage return is enough. */
  lemma BottomAbove(t: Term) returns (bytes: seq<int>)
    requires AtRest(t) && t.bottom < 0
    ensures LeavesScreen(t, bytes)
  {
    RowColUnique(t.y, 0, t.width);
    bytes := [13];
    OneByte(t, 13);
  }

  /** A bottom margin below the screen: enough newlines. */
  lemma {:induction false} BottomBelow(t: Term) returns (bytes: seq<int>)
    requires AtRest(t) && t.bottom >= t.height
    ensures LeavesScreen(t, bytes)
    decreases t.height - t.y
  {
    hide WriteByte, Reclip;
    var u := WriteByte(t, 10);
    NewlineGoesDown(t);
    if OnScreen(u) {
      var rest := BottomBelow(u);
      MoreBytes(t, 10, rest);
      bytes := [10] + rest;
    } else {
      OneByte(t, 10);
      bytes := [10];
    }
  }

  lemma NewlineGoesDown(t: Term)
    requires AtRest(t) && t.bottom >= t.height
    ensures var u := WriteByte(t, 10);
      && u.y > t.y && u.bottom == t.bottom && u.height == t.height && u.width == t.width
      && (OnScreen(u) ==> AtRest(u))
  {
    hide Scroll, SlotOf;
    var v := t.(x := 0, y := t.y + 1);
    RowColUnique(t.y + 1, 0, t.width);
    ReclipKeeps(v);
    if Off(t.y + 1, t.width) < Off(t.top, t.width) {
      if t.top <= t.y + 1 { OffMonotone(t.top, t.y + 1, t.width); }
      RowColUnique(t.top, 0, t.width);
    }
  }

  /** A top margin above the screen: enough backspaces. */
  lemma {:induction false} TopAbove(t: Term) returns (bytes: seq<int>)
    requires AtRest(t) && t.top < 0
    ensures LeavesScreen(t, bytes)
    decreases t.x + Off(t.y, t.width)
  {
    hide WriteByte, Reclip;
    var u := WriteByte(t, 8);
    BackspaceGoesLeft(t);
    if OnScreen(u) {
      OffMonotone(0, u.y, u.width);
      var rest := TopAbove(u);
      MoreBytes(t, 8, rest);
      bytes := [8] + rest;
    } else {
      OneByte(t, 8);
      bytes := [8];
    }
  }

  lemma BackspaceGoesLeft(t: Term)
    requires AtRest(t) && t.top < 0
    ensures var u := WriteByte(t, 8);
      && u.top == t.top && u.width == t.width && t.x + Off(t.y, t.width) >= 0
      && (OnScreen(u) ==> AtRest(u) && u.x + Off(u.y, u.width) < t.x + Off(t.y, t.width))
  {
    hide Scroll;
    var v := t.(x := t.x - 1);
    var z := v.x + Off(v.y, t.width);
    ReclipKeeps(v);
    OffMonotone(0, t.y, t.width);
    OffMonotone(t.top, -1, t.width);
    assert Off(-1, t.width) == Off(0, t.width) - t.width;
    if z >= 0 {
      RowColOf(z, t.width);
      if RowOf(z, t.width) > t.bottom >= 0 { OffMonotone(t.bottom, RowOf(z, t.width), t.width); }
    } else {
      assert z == -1;
      assert t.width == 1 ==> RowOf(1, 1) == 1;
    }
  }

  /**
   * From a terminal at rest, every continuation that sets no margins keeps the
   * cursor on the screen if and only if the top margin is not above the screen
   * and the bottom margin is on it.
   */
  lemma MarginsExact(t: Term)
    requires AtRest(t)
    ensures Margins(t) <==> forall bytes :: !LeavesScreen(t, bytes)
  {
    hide WriteByte, Reclip, Off;
    if Margins(t) {
      forall bytes
        ensures !LeavesScreen(t, bytes)
      {
        if NoMargins(t, bytes) {
          NoMarginsIsOk(t, bytes);
          StreamKeepsGood(t, bytes, |bytes|);
          assert bytes[..|bytes|] == bytes;
        }
      }
    } else if t.bottom < 0 {
      var bytes := BottomAbove(t);
      assert LeavesScreen(t, bytes);
    } else if t.bottom >= t.height {
      var bytes := BottomBelow(t);
      assert LeavesScreen(t, bytes);
    } else {
      var bytes := TopAbove(t);
      assert LeavesScreen(t, bytes);
    }
  }

  lemma {:induction false} NoMarginsIsOk(t: Term, bytes: seq<int>)
    requires Sized(t) && NoMargins(t, bytes)
    ensures StreamOk(t, bytes)
    decreases |bytes|
  {
    hide WriteByte;
    if bytes != [] { NoMarginsIsOk(WriteByte(t, bytes[0]), bytes[1..]); }
  }
}

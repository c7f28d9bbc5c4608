/**
 * The termcap cursor-motion formatter, and that what it prints moves the
 * terminal's cursor where it was asked to.
 */
module Tgoto {
  import opened Wrappers
  import opened RingIndex
  import opened Terminal

  // ------------------------------------------------------------------- numbers

  /** Decimal digits of a natural number, as character codes. */
  function Digits(n: nat): (s: seq<int>)
    ensures |s| > 0 && forall i :: 0 <= i < |s| ==> IsDigit(s[i])
  {
    if n < 10 then ['0' as int + n] else Digits(n / 10) + ['0' as int + n % 10]
  }

  /** printf's %d and zero-padded %0kd. */
  function Decimal(v: int, pad: nat): seq<int>
  {
    var sign: seq<int> := if v < 0 then ['-' as int] else [];
    var digits := Digits(if v < 0 then -v else v);
    var zeros: nat := if |sign| + |digits| < pad then pad - |sign| - |digits| else 0;
    sign + seq(zeros, _ => '0' as int) + digits
  }

  /** printf's %c into a char buffer whose length is then taken with strlen. */
  function Character(v: int): seq<int>
  {
    var b := v % 256;
    if b == 0 then [] else if b < 128 then [b] else [b - 256]
  }

  // ----------------------------------------------------------------- formatter

  function Join(a: seq<int>, rest: Option<seq<int>>): Option<seq<int>>
  {
    match rest
    case None => None
    case Some(s) => Some(a + s)
  }

  /** tgoto's output for the rest of a format, with the two values and how many
      were used; nothing when the source would read a third value or past the
      format's end. */
  function Format(cap: seq<int>, v0: int, v1: int, position: nat): Option<seq<int>>
    decreases |cap|
  {
    if cap == [] then Some([])
    else if cap[0] != '%' as int then Join([cap[0]], Format(cap[1..], v0, v1, position))
    else if |cap| == 1 then None
    else
      var rest := cap[2..];
      var value := if position == 0 then v0 else v1;
      match Directive(cap[1])
      case Percent => Join(['%' as int], Format(rest, v0, v1, position))
      case Number(pad) =>
        if position >= 2 then None else Join(Decimal(value, pad), Format(rest, v0, v1, position + 1))
      case Char =>
        if position >= 2 then None else Join(Character(value), Format(rest, v0, v1, position + 1))
      case Swap => Format(rest, v1, v0, position)
      case Increment => Format(rest, v0 + 1, v1 + 1, position)
      case Ignored => Format(rest, v0, v1, position)
  }

  datatype Conversion = Percent | Number(pad: nat) | Char | Swap | Increment | Ignored

  function Directive(ch: int): Conversion
  {
    if ch == '%' as int then Percent
    else if ch == 'd' as int then Number(0)
    else if ch == '2' as int then Number(2)
    else if ch == '3' as int then Number(3)
    else if ch == '.' as int then Char
    else if ch == 'r' as int then Swap
    else if ch == 'i' as int then Increment
    else Ignored
  }

  /** With `dst` printed and `cap` still to come, the whole output is `goal`. */
  predicate Printing(dst: seq<int>, cap: seq<int>, v0: int, v1: int, position: nat, goal: seq<int>)
  {
    Format(cap, v0, v1, position).Some? && dst + Format(cap, v0, v1, position).value == goal
  }

  lemma Emits(dst: seq<int>, out: seq<int>, cap: seq<int>, v0: int, v1: int, position: nat,
              rest: seq<int>, position': nat, goal: seq<int>)
    requires Printing(dst, cap, v0, v1, position, goal)
    requires Format(cap, v0, v1, position) == Join(out, Format(rest, v0, v1, position'))
    ensures Printing(dst + out, rest, v0, v1, position', goal)
  {
    hide Format;
    var tail := Format(rest, v0, v1, position').value;
    assert dst + (out + tail) == (dst + out) + tail;
  }

  /** One conversion of a format that has an output. */
  lemma ConversionStep(cap: seq<int>, v0: int, v1: int, position: nat)
    requires cap != [] && cap[0] == '%' as int && Format(cap, v0, v1, position).Some?
    ensures |cap| >= 2
    ensures var value := if position == 0 then v0 else v1;
      Format(cap, v0, v1, position) ==
        match Directive(cap[1])
        case Percent => Join(['%' as int], Format(cap[2..], v0, v1, position))
        case Number(pad) => Join(Decimal(value, pad), Format(cap[2..], v0, v1, position + 1))
        case Char => Join(Character(value), Format(cap[2..], v0, v1, position + 1))
        case Swap => Format(cap[2..], v1, v0, position)
        case Increment => Format(cap[2..], v0 + 1, v1 + 1, position)
        case Ignored => Format(cap[2..], v0, v1, position)
  {
    hide Decimal, Character, Directive, Join;
  }

  /** tgoto, for formats that use at most two values and do not end in a lone %. */
  method Tgoto(cap: seq<int>, col: int, row: int) returns (dst: seq<int>)
    requires Format(cap, row, col, 0).Some?
    ensures Some(dst) == Format(cap, row, col, 0)
  {
    hide Decimal, Character, Directive, Format, Join, Printing;
    ghost var goal := Format(cap, row, col, 0).value;
    var values0, values1, position: nat := row, col, 0;
    var i := 0;
    dst := [];
    PrintingStarts(cap, row, col);
    while i < |cap|
      invariant i <= |cap| && Printing(dst, cap[i..], values0, values1, position, goal)
    {
      ghost var here := cap[i..];
      PrintingIsDefined(dst, here, values0, values1, position, goal);
      var ch := cap[i];
      if ch == '%' as int {
        ConversionStep(here, values0, values1, position);
        assert here[1] == cap[i + 1] && here[2..] == cap[i + 2..];
        var value := if position == 0 then values0 else values1;
        match Directive(cap[i + 1]) {
          case Percent =>
            Emits(dst, ['%' as int], here, values0, values1, position, here[2..], position, goal);
            dst := dst + ['%' as int];
          case Number(pad) =>
            Emits(dst, Decimal(value, pad), here, values0, values1, position, here[2..], position + 1, goal);
            dst := dst + Decimal(value, pad);
            position := position + 1;
          case Char =>
            Emits(dst, Character(value), here, values0, values1, position, here[2..], position + 1, goal);
            dst := dst + Character(value);
            position := position + 1;
          case Swap =>
            SameOutput(dst, here, values0, values1, position, here[2..], values1, values0, goal);
            values0, values1 := values1, values0;
          case Increment =>
            SameOutput(dst, here, values0, values1, position, here[2..], values0 + 1, values1 + 1, goal);
            values0, values1 := values0 + 1, values1 + 1;
          case Ignored =>
            SameOutput(dst, here, values0, values1, position, here[2..], values0, values1, goal);
        }
        i := i + 2;
      } else {
        FormatLiteral(here, values0, values1, position);
        Emits(dst, [ch], here, values0, values1, position, here[1..], position, goal);
        assert here[1..] == cap[i + 1..];
        dst := dst + [ch];
        i := i + 1;
      }
    }
    PrintingEnds(dst, cap[i..], values0, values1, position, goal);
  }

  lemma PrintingStarts(cap: seq<int>, row: int, col: int)
    requires Format(cap, row, col, 0).Some?
    ensures Printing([], cap[0..], row, col, 0, Format(cap, row, col, 0).value)
  {
    hide Format;
    assert cap[0..] == cap;
    var s := Format(cap, row, col, 0).value;
    assert [] + s == s;
  }

  lemma PrintingIsDefined(dst: seq<int>, cap: seq<int>, v0: int, v1: int, position: nat, goal: seq<int>)
    requires Printing(dst, cap, v0, v1, position, goal)
    ensures Format(cap, v0, v1, position).Some?
  {
  }

  lemma SameOutput(dst: seq<int>, cap: seq<int>, v0: int, v1: int, position: nat,
                   rest: seq<int>, w0: int, w1: int, goal: seq<int>)
    requires Printing(dst, cap, v0, v1, position, goal)
    requires Format(cap, v0, v1, position) == Format(rest, w0, w1, position)
    ensures Printing(dst, rest, w0, w1, position, goal)
  {
    hide Format;
  }

  lemma PrintingEnds(dst: seq<int>, cap: seq<int>, v0: int, v1: int, position: nat, goal: seq<int>)
    requires Printing(dst, cap, v0, v1, position, goal) && cap == []
    ensures dst == goal
  {
    assert dst + [] == dst;
  }

  // ----------------------------------------------------------------- conversions

  /** A format that starts with a percent sign and this character. */
  function WithPercent(ch: int, rest: seq<int>): seq<int> { ['%' as int, ch] + rest }

  /** %% prints a percent sign, %r exchanges the values still to be used, %i counts
      both from one; any other character but d, 2, 3 and the dot is skipped. */
  lemma SilentConversions(rest: seq<int>, v0: int, v1: int, position: nat, ch: int)
    ensures Format(WithPercent('%' as int, rest), v0, v1, position)
         == Join(['%' as int], Format(rest, v0, v1, position))
    ensures Format(WithPercent('r' as int, rest), v0, v1, position) == Format(rest, v1, v0, position)
    ensures Format(WithPercent('i' as int, rest), v0, v1, position) == Format(rest, v0 + 1, v1 + 1, position)
    ensures ch !in [37, 100, 50, 51, 46, 114, 105] ==>
      Format(WithPercent(ch, rest), v0, v1, position) == Format(rest, v0, v1, position)
  {
    forall c: int ensures WithPercent(c, rest)[2..] == rest {}
  }

  /** %d prints the value in decimal, %2 and %3 with at least so many digits, and the
      dot prints it as one character; each uses up the next of the two values. */
  lemma ValueConversions(rest: seq<int>, v0: int, v1: int, position: nat)
    requires position < 2
    ensures var value, tail := if position == 0 then v0 else v1, Format(rest, v0, v1, position + 1);
      && Format(WithPercent('d' as int, rest), v0, v1, position) == Join(Decimal(value, 0), tail)
      && Format(WithPercent('2' as int, rest), v0, v1, position) == Join(Decimal(value, 2), tail)
      && Format(WithPercent('3' as int, rest), v0, v1, position) == Join(Decimal(value, 3), tail)
      && (0 < value < 128 ==> Format(WithPercent('.' as int, rest), v0, v1, position) == Join([value], tail))
  {
    hide Decimal;
    forall c: int ensures WithPercent(c, rest)[2..] == rest {}
  }

  /** Padded decimals: two digits for values below 100, three for values below 1000,
      and no padding for values that are long enough. */
  lemma PaddedDecimal(n: nat)
    ensures n < 100 ==> Decimal(n, 2) == ['0' as int + n / 10, '0' as int + n % 10]
    ensures n < 1000 ==> Decimal(n, 3) == ['0' as int + n / 100, '0' as int + n / 10 % 10, '0' as int + n % 10]
    ensures n >= 10 ==> Decimal(n, 2) == Digits(n)
    ensures n >= 100 ==> Decimal(n, 3) == Digits(n)
  {
    LongEnough(n);
    if n < 10 {
      assert Digits(n) == ['0' as int + n];
    } else if n < 100 {
      assert Digits(n) == Digits(n / 10) + ['0' as int + n % 10];
    } else if n < 1000 {
      assert Digits(n / 10) == Digits(n / 100) + ['0' as int + n / 10 % 10] by { assert n / 10 / 10 == n / 100; }
      assert Digits(n) == Digits(n / 10) + ['0' as int + n % 10];
    }
  }

  lemma LongEnough(n: nat)
    ensures n >= 10 ==> |Digits(n)| >= 2
    ensures n >= 100 ==> |Digits(n)| >= 3
  {
    if n >= 100 { assert |Digits(n / 10)| >= 2; }
  }

  // ---------------------------------------------------------------- round trip

  /** ESC [ %i %d ; %d H */
  const CURSOR_MOTION: seq<int> :=
    [ESC, '[' as int, '%' as int, 'i' as int, '%' as int, 'd' as int, ';' as int, '%' as int, 'd' as int, 'H' as int]

  /** What tgoto prints for it. */
  function MotionBytes(col: nat, row: nat): seq<int> { TwoValues(row + 1, col + 1, 'H' as int) }

  lemma DecimalOfNat(n: nat)
    ensures Decimal(n, 0) == Digits(n)
  {
    var none: seq<int> := [];
    assert none + seq(0, _ => '0' as int) + Digits(n) == Digits(n);
  }

  lemma FormatLiteral(cap: seq<int>, v0: int, v1: int, position: nat)
    requires cap != [] && cap[0] != '%' as int
    ensures Format(cap, v0, v1, position) == Join([cap[0]], Format(cap[1..], v0, v1, position))
  {
  }

  lemma FormatNumber(cap: seq<int>, v0: int, v1: int, position: nat)
    requires |cap| >= 2 && cap[0] == '%' as int && cap[1] == 'd' as int && position < 2
    ensures Format(cap, v0, v1, position)
         == Join(Decimal(if position == 0 then v0 else v1, 0), Format(cap[2..], v0, v1, position + 1))
  {
  }

  lemma MotionFormat(col: nat, row: nat)
    ensures Format(CURSOR_MOTION, row, col, 0) == Some(MotionBytes(col, row))
  {
    hide Format, Decimal, Digits;
    var c := CURSOR_MOTION;
    FormatLiteral(c, row, col, 0);
    FormatLiteral(c[1..], row, col, 0);
    FormatIncrement(c[1..][1..], row, col, 0);
    var d := c[1..][1..][2..];
    FormatNumber(d, row + 1, col + 1, 0);
    DecimalOfNat(row + 1);
    FormatLiteral(d[2..], row + 1, col + 1, 1);
    FormatNumber(d[2..][1..], row + 1, col + 1, 1);
    DecimalOfNat(col + 1);
    var h := d[2..][1..][2..];
    FormatLiteral(h, row + 1, col + 1, 2);
    FormatEnd(h[1..], row + 1, col + 1, 2);
    JoinAll(Digits(row + 1), Digits(col + 1));
  }

  lemma FormatIncrement(cap: seq<int>, v0: int, v1: int, position: nat)
    requires |cap| >= 2 && cap[0] == '%' as int && cap[1] == 'i' as int
    ensures Format(cap, v0, v1, position) == Format(cap[2..], v0 + 1, v1 + 1, position)
  {
  }

  lemma FormatEnd(cap: seq<int>, v0: int, v1: int, position: nat)
    requires cap == []
    ensures Format(cap, v0, v1, position) == Some([])
  {
  }

  lemma JoinAll(r: seq<int>, c: seq<int>)
    ensures [ESC] + (['[' as int] + (r + ([';' as int] + (c + (['H' as int] + [])))))
         == [ESC, '[' as int] + r + [';' as int] + c + ['H' as int]
  {
  }

  /** Parsing digits undoes printing them. */
  lemma {:induction false} FeedValue1(t: Term, n: nat)
    requires Sized(t) && t.stage == 2 && t.value1 == 0
    ensures Write(t, Digits(n)) == t.(value1 := n)
    decreases n
  {
    if n >= 10 {
      FeedValue1(t, n / 10);
      WriteConcat(t, Digits(n / 10), ['0' as int + n % 10]);
      FeedOne(t.(value1 := n / 10), '0' as int + n % 10);
    } else {
      FeedOne(t, '0' as int + n);
    }
  }

  lemma {:induction false} FeedValue2(t: Term, n: nat)
    requires Sized(t) && t.stage == 3 && t.value2 == 0
    ensures Write(t, Digits(n)) == t.(value2 := n)
    decreases n
  {
    if n >= 10 {
      FeedValue2(t, n / 10);
      WriteConcat(t, Digits(n / 10), ['0' as int + n % 10]);
      FeedOne(t.(value2 := n / 10), '0' as int + n % 10);
    } else {
      FeedOne(t, '0' as int + n);
    }
  }

  lemma FeedOne(t: Term, ch: int)
    requires Sized(t)
    ensures Write(t, [ch]) == WriteByte(t, ch)
  {
    hide WriteByte;
    assert [ch][1..] == [];
    assert Write(WriteByte(t, ch), []) == WriteByte(t, ch);
  }

  /** ESC [ v1 ; v2 and a final character. */
  function TwoValues(v1: nat, v2: nat, ch: int): seq<int>
  {
    [ESC, '[' as int] + Digits(v1) + [';' as int] + Digits(v2) + [ch]
  }

  /** Feeding an escape sequence with two values runs its command on them. */
  lemma TwoValuesRun(t: Term, v1: nat, v2: nat, ch: int)
    requires AtRest(t) && !IsDigit(ch)
    ensures Write(t, TwoValues(v1, v2, ch)) == Ground(Command2(t.(stage := 3, value1 := v1, value2 := v2), ch))
  {
    hide Digits, Write, Command2;
    var last := [ch];
    assert TwoValues(v1, v2, ch) == [ESC] + (['[' as int] + (Digits(v1) + ([';' as int] + (Digits(v2) + last))));
    var t1 := t.(stage := 1);
    var t2 := t.(stage := 2);
    var t3 := t2.(value1 := v1);
    var t4 := t3.(stage := 3);
    var t5 := t4.(value2 := v2);
    FeedOne(t, ESC);
    WriteConcat(t, [ESC], ['[' as int] + (Digits(v1) + ([';' as int] + (Digits(v2) + last))));
    FeedOne(t1, '[' as int);
    WriteConcat(t1, ['[' as int], Digits(v1) + ([';' as int] + (Digits(v2) + last)));
    FeedValue1(t2, v1);
    WriteConcat(t2, Digits(v1), [';' as int] + (Digits(v2) + last));
    FeedOne(t3, ';' as int);
    WriteConcat(t3, [';' as int], Digits(v2) + last);
    FeedValue2(t4, v2);
    WriteConcat(t4, Digits(v2), last);
    FeedOne(t5, ch);
  }

  /** The terminal after the bytes tgoto printed: a move and a reclip. */
  lemma MotionMoves(t: Term, col: nat, row: nat)
    requires AtRest(t)
    ensures Write(t, MotionBytes(col, row)) == Reclip(SetPosition(t, col, row))
  {
    hide Reclip, Digits, Write;
    TwoValuesRun(t, row + 1, col + 1, 'H' as int);
    ReclipIgnoresEscape(SetPosition(t.(stage := 3, value1 := row + 1, value2 := col + 1), col, row),
                        SetPosition(t, col, row));
  }

  lemma ReclipIgnoresEscape(a: Term, b: Term)
    requires Sized(a) && b.stage == 0 && b.value1 == 0 && b.value2 == 0 && b == Ground(a)
    ensures Ground(Reclip(a)) == Reclip(b)
  {
    hide Off, RowOf, SlotOf, MovedUp, MovedDown;
  }

  /**
   * For a column on the screen, the cursor ends exactly where tgoto was asked to
   * put it, with the cells unchanged, if the row is inside the scroll region;
   * and it ends there only then, or when inverted margins happen to send the
   * first column of the bottom row to itself.
   */
  lemma MotionRoundTrip(t: Term, col: nat, row: nat)
    requires AtRest(t) && Margins(t) && col < t.width
    ensures Format(CURSOR_MOTION, row, col, 0).Some?
    ensures var u := Write(t, Format(CURSOR_MOTION, row, col, 0).value);
      && (t.top <= row <= t.bottom ==> u == SetPosition(t, col, row))
      && (u.x == col && u.y == row <==> t.top <= row <= t.bottom || (row == t.bottom < t.top && col == 0))
  {
    hide Format, Write, Reclip, MotionBytes;
    MotionFormat(col, row);
    MotionMoves(t, col, row);
    var p := SetPosition(t, col, row);
    if t.top <= row <= t.bottom {
      ReclipInside(p);
    } else {
      ReclipOutside(p);
    }
  }

  lemma ReclipOutside(t: Term)
    requires Sized(t) && Margins(t) && 0 <= t.x < t.width && t.y >= 0
    requires t.y < t.top || t.y > t.bottom
    ensures Reclip(t).x == t.x && Reclip(t).y == t.y <==> t.y == t.bottom < t.top && t.x == 0
  {
    RowColUnique(t.y, t.x, t.width);
    RowColUnique(t.top, 0, t.width);
    if t.y < t.top { OffMonotone(t.y + 1, t.top, t.width); } else { OffMonotone(t.top, t.y, t.width); }
  }

  // ---------------------------------------------------------- setting the margins

  /** ESC [ v1 ; v2 r sets the margins and nothing else. */
  lemma MarginBytesSet(t: Term, v1: nat, v2: nat)
    requires AtRest(t)
    ensures Write(t, TwoValues(v1, v2, 'r' as int)) == t.(top := v1 - 1, bottom := v2 - 1)
  {
    hide Write, Digits;
    TwoValuesRun(t, v1, v2, 'r' as int);
  }

  /**
   * The code accepts any margins.  From a terminal at rest, after ESC [ v1 ; v2 r
   * every continuation that sets no margins keeps the cursor on the screen if and
   * only if 1 <= v1 and 1 <= v2 <= height.
   */
  lemma MarginBytesExact(t: Term, v1: nat, v2: nat)
    requires AtRest(t)
    ensures var u := Write(t, TwoValues(v1, v2, 'r' as int));
      AtRest(u) && (1 <= v1 && 1 <= v2 <= t.height <==> forall bytes :: !LeavesScreen(u, bytes))
  {
    hide Write, Digits, LeavesScreen;
    MarginBytesSet(t, v1, v2);
    MarginsExact(t.(top := v1 - 1, bottom := v2 - 1));
  }

  /** ESC [ 1 ; v r with `v` above the height, then some newlines: the cursor is
      below the screen. */
  lemma MarginBelowScreenFails(t: Term, v: nat) returns (bytes: seq<int>)
    requires AtRest(t) && v > t.height
    ensures NoMargins(Write(t, TwoValues(1, v, 'r' as int)), bytes)
    ensures !OnScreen(Write(t, TwoValues(1, v, 'r' as int) + bytes))
  {
    hide Write, Digits, NoMargins;
    MarginBytesSet(t, 1, v);
    bytes := BottomBelow(t.(top := 0, bottom := v - 1));
    WriteConcat(t, TwoValues(1, v, 'r' as int), bytes);
  }
}

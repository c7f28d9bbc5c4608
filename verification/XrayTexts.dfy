/**
 * Which annotation texts the report loses: the ones that landed on slot 0,
 * whose index is recorded as "no annotation".
 */
module XrayTexts {
  import opened Wrappers
  import opened RingIndex
  import opened XrayLayout
  import opened XrayCalls
  import opened XrayReport

  function OwnText(text: Option<Text>): seq<Byte> { if text.Some? then text.value else [] }

  /** The lines with every call's own text. */
  function OwnLines(cs: Calls, d: nat, max: nat): seq<Line>
    decreases cs
  {
    if cs == NoCalls then []
    else
      (if d >= max then []
       else
         [Line(d, KeptAddr(cs.addr), (cs.exit - cs.enter) % TWO32, OwnText(cs.text))]
         + OwnLines(cs.inner, d + 1, max))
      + OwnLines(cs.next, d, max)
  }

  /** A non-empty annotation at position `q` is lost exactly on slot 0. */
  predicate Lost(text: Option<Text>, q: nat, n: nat)
    requires n > 0
  {
    text.Some? && text.value != [] && SlotOf(q, n) == 0
  }

  /** The number of non-empty annotations above the depth limit on slot 0. */
  function LostTexts(cs: Calls, d: nat, max: nat, a: nat, n: nat): nat
    requires n > 0
    decreases cs
  {
    if cs == NoCalls then 0
    else
      (if d >= max then 0
       else
         (if Lost(cs.text, TextPosition(cs, d, max, a), n) then 1 else 0)
         + LostTexts(cs.inner, d + 1, max, a + 1, n))
      + LostTexts(cs.next, d, max, a + FirstSize(cs, d, max), n)
  }

  /** The number of places where two reports of equal length differ. */
  function Differing(ls: seq<Line>, ms: seq<Line>): nat
    requires |ls| == |ms|
  {
    if ls == [] then 0 else (if ls[0] != ms[0] then 1 else 0) + Differing(ls[1..], ms[1..])
  }

  lemma {:induction false} DifferingConcat(ls: seq<Line>, ms: seq<Line>, ls': seq<Line>, ms': seq<Line>)
    requires |ls| == |ms| && |ls'| == |ms'|
    ensures Differing(ls + ls', ms + ms') == Differing(ls, ms) + Differing(ls', ms')
  {
    if ls == [] {
      assert ls + ls' == ls' && ms + ms' == ms';
    } else {
      assert (ls + ls')[1..] == ls[1..] + ls' && (ms + ms')[1..] == ms[1..] + ms';
      DifferingConcat(ls[1..], ms[1..], ls', ms');
    }
  }

  lemma {:induction false} NothingDiffers(ls: seq<Line>, ms: seq<Line>)
    requires |ls| == |ms|
    ensures Differing(ls, ms) == 0 <==> ls == ms
  {
    if ls == [] {
    } else {
      NothingDiffers(ls[1..], ms[1..]);
      assert ls == [ls[0]] + ls[1..] && ms == [ms[0]] + ms[1..];
    }
  }

  /** The lines that lack their text are exactly the lost texts. */
  lemma {:induction false} LostTextsCounted(cs: Calls, d: nat, max: nat, a: nat, n: nat)
    requires n > 0
    ensures |CallLines(cs, d, max, a, n)| == |OwnLines(cs, d, max)|
    ensures Differing(CallLines(cs, d, max, a, n), OwnLines(cs, d, max)) == LostTexts(cs, d, max, a, n)
    decreases cs
  {
    hide KeptAddr, KeptText, OwnText, Lost, Differing, FirstSize, Size, SlotOf, TextPosition;
    if cs == NoCalls {
      NothingDiffers([], []);
    } else {
      var m := a + FirstSize(cs, d, max);
      LostTextsCounted(cs.next, d, max, m, n);
      if d >= max {
        assert CallLines(cs, d, max, a, n) == CallLines(cs.next, d, max, m, n);
        assert OwnLines(cs, d, max) == OwnLines(cs.next, d, max);
      } else {
        LostTextsCounted(cs.inner, d + 1, max, a + 1, n);
        FirstLineDiffers(cs, d, max, a, n);
        var first, own := FirstLine(cs, d, max, a, n), FirstOwnLine(cs, d);
        var ls, ms := CallLines(cs.inner, d + 1, max, a + 1, n), OwnLines(cs.inner, d + 1, max);
        DifferingConcat([first], [own], ls, ms);
        DifferingConcat([first] + ls, [own] + ms, CallLines(cs.next, d, max, m, n), OwnLines(cs.next, d, max));
      }
    }
  }

  function FirstLine(cs: Calls, d: nat, max: nat, a: nat, n: nat): Line
    requires n > 0 && cs.Call?
  {
    Line(d, KeptAddr(cs.addr), (cs.exit - cs.enter) % TWO32, KeptText(cs.text, TextPosition(cs, d, max, a), n))
  }

  function FirstOwnLine(cs: Calls, d: nat): Line
    requires cs.Call?
  {
    Line(d, KeptAddr(cs.addr), (cs.exit - cs.enter) % TWO32, OwnText(cs.text))
  }

  lemma FirstLineDiffers(cs: Calls, d: nat, max: nat, a: nat, n: nat)
    requires n > 0 && cs.Call?
    ensures Differing([FirstLine(cs, d, max, a, n)], [FirstOwnLine(cs, d)])
         == if Lost(cs.text, TextPosition(cs, d, max, a), n) then 1 else 0
  {
    hide SlotOf, KeptAddr, TextPosition;
  }

  /** Every call's own text is reported if and only if no non-empty annotation
      above the depth limit landed on slot 0. */
  lemma TextsKeptExact(cs: Calls, d: nat, max: nat, a: nat, n: nat)
    requires n > 0
    ensures CallLines(cs, d, max, a, n) == OwnLines(cs, d, max) <==> LostTexts(cs, d, max, a, n) == 0
  {
    LostTextsCounted(cs, d, max, a, n);
    NothingDiffers(CallLines(cs, d, max, a, n), OwnLines(cs, d, max));
  }

  // ------------------------------------------------- at most one in each frame

  /** Positions among the `k` from `a` on that fall on slot 0. */
  function ZeroSlots(a: nat, k: nat, n: nat): nat
    requires n > 0
    decreases k
  {
    if k == 0 then 0 else (if SlotOf(a, n) == 0 then 1 else 0) + ZeroSlots(a + 1, k - 1, n)
  }

  lemma {:induction false} ZeroSlotsSplit(a: nat, k: nat, m: nat, n: nat)
    requires n > 0
    ensures ZeroSlots(a, k + m, n) == ZeroSlots(a, k, n) + ZeroSlots(a + k, m, n)
    decreases k
  {
    if k > 0 { ZeroSlotsSplit(a + 1, k - 1, m, n); }
  }

  lemma {:induction false} NoFurtherZero(a: nat, b: nat, k: nat, n: nat)
    requires n > 0 && a < b && b + k <= a + n && SlotOf(a, n) == 0
    ensures ZeroSlots(b, k, n) == 0
    decreases k
  {
    if k > 0 {
      Distinct(a, b, n);
      NoFurtherZero(a, b + 1, k - 1, n);
    }
  }

  lemma {:induction false} OneZeroPerLap(a: nat, k: nat, n: nat)
    requires n > 0 && k <= n
    ensures ZeroSlots(a, k, n) <= 1
    decreases k
  {
    if k > 0 {
      if SlotOf(a, n) == 0 { NoFurtherZero(a, a + 1, k - 1, n); } else { OneZeroPerLap(a + 1, k - 1, n); }
    }
  }

  /** Every lost text used up a position on slot 0 of its own. */
  lemma {:induction false} LostTextsUseZeros(cs: Calls, d: nat, max: nat, a: nat, n: nat)
    requires n > 0
    ensures LostTexts(cs, d, max, a, n) <= ZeroSlots(a, Size(cs, d, max), n)
    decreases cs
  {
    hide SlotOf, ZeroSlots, Lost, ExtraSlots;
    if cs.Call? {
      var k := FirstSize(cs, d, max);
      LostTextsUseZeros(cs.next, d, max, a + k, n);
      ZeroSlotsSplit(a, k, Size(cs.next, d, max), n);
      if d < max {
        var inner := Size(cs.inner, d + 1, max);
        LostTextsUseZeros(cs.inner, d + 1, max, a + 1, n);
        LostTextUsesZero(cs.text, a + 1 + inner, n);
        ZeroSlotsSplit(a, 1, inner, n);
        ZeroSlotsSplit(a, 1 + inner, ExtraSlots(cs.text), n);
      }
    }
  }

  lemma LostTextUsesZero(text: Option<Text>, q: nat, n: nat)
    requires n > 0
    ensures Lost(text, q, n) ==> ZeroSlots(q, ExtraSlots(text), n) >= 1
  {
  }

  /** Calls that fit in the ring lose at most one text. */
  lemma AtMostOneLost(cs: Calls, d: nat, max: nat, a: nat, n: nat)
    requires n > 0 && Size(cs, d, max) <= n
    ensures LostTexts(cs, d, max, a, n) <= 1
    ensures |CallLines(cs, d, max, a, n)| == |OwnLines(cs, d, max)|
    ensures Differing(CallLines(cs, d, max, a, n), OwnLines(cs, d, max)) <= 1
  {
    LostTextsCounted(cs, d, max, a, n);
    LostTextsUseZeros(cs, d, max, a, n);
    OneZeroPerLap(a, Size(cs, d, max), n);
  }
}

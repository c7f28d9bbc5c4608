/**
 * What the trace report shows for a frame: one line per recorded call, in
 * preorder, with its annotation text; and that the lines determine the calls.
 */
module XrayReport {
  import opened Wrappers
  import opened RingIndex
  import opened XrayLayout
  import opened XrayCalls

  /** One line of XRayTraceReport; ticks are cut to 32 bits as the report does. */
  datatype Line = Line(depth: nat, addr: nat, ticks: nat, text: seq<Byte>)

  /** The text a record's annotation index leads to; index 0 means none. */
  function TextOf(b: Ring, annotation: nat): seq<Byte>
  {
    if annotation == 0 then []
    else
      match Scan(b, annotation, 1, |b|)
      case None => []
      case Some((t, _)) => t
  }

  function LineOf(b: Ring, row: Row): Line
  {
    Line(ExtractDepth(row.depthAddr), ExtractAddr(row.depthAddr), row.ticks % TWO32, TextOf(b, row.annotation))
  }

  function Lines(b: Ring, rows: seq<Row>): (ls: seq<Line>)
    ensures |ls| == |rows| && forall i :: 0 <= i < |ls| ==> ls[i] == LineOf(b, rows[i])
  {
    if rows == [] then [] else [LineOf(b, rows[0])] + Lines(b, rows[1..])
  }

  /** Steps forward from slot `start` to slot `end` of a ring of `n`. */
  function Ahead(start: nat, end: nat, n: nat): nat
    requires start < n && end < n
  {
    if start <= end then end - start else end + n - start
  }

  /** XRayTraceReport on a frame's recorded start and end. */
  function FrameReport(b: Ring, start: nat, end: nat): Option<seq<Line>>
    requires start < |b| && end < |b|
  {
    match Walk(b, start, start + Ahead(start, end, |b|))
    case None => None
    case Some(rows) => Some(Lines(b, rows))
  }

  lemma {:induction false} AheadMod(a: nat, k: nat, n: nat)
    requires k < n
    ensures Ahead(SlotOf(a, n), SlotOf(a + k, n), n) == k
  {
    if a >= n { AheadMod(a - n, k, n); }
  }

  /** The report of a frame that reads as its calls shows exactly their lines. */
  lemma ReportIsCallLines(b: Ring, cs: Calls, max: nat, a: nat)
    requires max < STACK_SIZE && Size(cs, 1, max) < |b| && Reads(b, cs, 1, max, a)
    ensures FrameReport(b, SlotOf(a, |b|), SlotOf(a + Size(cs, 1, max), |b|))
         == Some(CallLines(cs, 1, max, a, |b|))
  {
    hide Walk, Texts, Rows, Lines, CallLines, SlotOf, Size;
    var k, i := Size(cs, 1, max), SlotOf(a, |b|);
    AheadMod(a, k, |b|);
    SlotOfIdempotent(a, |b|);
    WalkPeriodic(b, a, a + k, i, i + k);
    LinesOfCalls(b, cs, 1, max, a);
  }

  /** The address a record keeps: bits 4..27. */
  function KeptAddr(addr: nat): nat { addr / 16 % 0x100_0000 * 16 }

  /** The text reported for a call: lost when its annotation landed on slot 0. */
  function KeptText(text: Option<Text>, q: nat, n: nat): seq<Byte>
    requires n > 0
  {
    if text.Some? && SlotOf(q, n) != 0 then text.value else []
  }

  /** The lines the calls call for, computed from the calls alone. */
  function CallLines(cs: Calls, d: nat, max: nat, a: nat, n: nat): seq<Line>
    requires n > 0
    decreases cs
  {
    if cs == NoCalls then []
    else
      (if d >= max then []
       else
         [Line(d, KeptAddr(cs.addr), (cs.exit - cs.enter) % TWO32, KeptText(cs.text, TextPosition(cs, d, max, a), n))]
         + CallLines(cs.inner, d + 1, max, a + 1, n))
      + CallLines(cs.next, d, max, a + FirstSize(cs, d, max), n)
  }

  lemma {:induction false} LinesConcat(b: Ring, r: seq<Row>, s: seq<Row>)
    ensures Lines(b, r + s) == Lines(b, r) + Lines(b, s)
  {
    if r == [] {
      assert r + s == s;
    } else {
      assert (r + s)[1..] == r[1..] + s;
      LinesConcat(b, r[1..], s);
    }
  }

  lemma LineOfCall(b: Ring, cs: Calls, d: nat, max: nat, q: nat)
    requires cs.Call? && d < max < STACK_SIZE && (cs.text.Some? ==> TextAt(b, q, cs.text.value))
    ensures LineOf(b, RowFor(cs, d, q, |b|))
         == Line(d, KeptAddr(cs.addr), (cs.exit - cs.enter) % TWO32, KeptText(cs.text, q, |b|))
  {
    var i := SlotOf(q, |b|);
    SlotOfIdempotent(q, |b|);
    ScanPeriodic(b, i, q, 1, |b|);
    var t := (cs.exit - cs.enter) % TWO64;
    TicksCut(cs.exit - cs.enter);
    assert ExtractAddr(Pack(d, cs.addr)) == KeptAddr(cs.addr) by { KeptAddrIs(d, cs.addr); }
  }

  lemma KeptAddrIs(d: nat, addr: nat)
    requires d < 256
    ensures ExtractAddr(Pack(d, addr)) == KeptAddr(addr)
  {
    var hi := addr / 16 % 0x100_0000;
    assert (d + 256 * hi) / 256 == hi;
  }

  lemma TicksCut(t: int)
    ensures t % TWO64 % TWO32 == t % TWO32
  {
    var q := t / TWO64;
    assert t == q * TWO64 + t % TWO64;
    assert t == (q * TWO32) * TWO32 + t % TWO64;
  }

  /** Reading the records and following their annotations gives exactly the
      lines the calls call for. */
  lemma {:induction false} LinesOfCalls(b: Ring, cs: Calls, d: nat, max: nat, a: nat)
    requires max < STACK_SIZE && Texts(b, cs, d, max, a)
    ensures Lines(b, Rows(cs, d, max, a, |b|)) == CallLines(cs, d, max, a, |b|)
    decreases cs
  {
    hide Scan, LineOf, RowFor, KeptAddr, KeptText, TextAt, FirstSize, Size, SlotOf;
    if cs.Call? {
      var tail := Rows(cs.next, d, max, a + FirstSize(cs, d, max), |b|);
      LinesOfCalls(b, cs.next, d, max, a + FirstSize(cs, d, max));
      if d < max {
        var row := RowFor(cs, d, TextPosition(cs, d, max, a), |b|);
        var mid := Rows(cs.inner, d + 1, max, a + 1, |b|);
        LinesOfCalls(b, cs.inner, d + 1, max, a + 1);
        LineOfCall(b, cs, d, max, TextPosition(cs, d, max, a));
        LinesConcat(b, [row] + mid, tail);
        LinesConcat(b, [row], mid);
        assert Lines(b, [row]) == [LineOf(b, row)];
      } else {
        LinesConcat(b, [], tail);
      }
    }
  }

  // ----------------------------------------- the lines determine the call tree

  datatype Tree = Leaf | Node(addr: nat, ticks: nat, inner: Tree, next: Tree)

  /** The calls above the depth limit, as far as a record keeps them. */
  function Recorded(cs: Calls, d: nat, max: nat): Tree
    decreases cs
  {
    if cs == NoCalls || d >= max then Leaf
    else Node(KeptAddr(cs.addr), (cs.exit - cs.enter) % TWO32,
              Recorded(cs.inner, d + 1, max), Recorded(cs.next, d, max))
  }

  /** Rebuilding a tree from a preorder with depths; stops at the first line
      that is not at depth `d`. */
  function Rebuild(ls: seq<Line>, d: nat): (r: (Tree, seq<Line>))
    ensures |r.1| <= |ls|
    decreases |ls|
  {
    if ls == [] || ls[0].depth != d then (Leaf, ls)
    else
      var (inner, rest) := Rebuild(ls[1..], d + 1);
      var (next, rest') := Rebuild(rest, d);
      (Node(ls[0].addr, ls[0].ticks, inner, next), rest')
  }

  lemma {:induction false} DeepCallsHaveNoLines(cs: Calls, d: nat, max: nat, a: nat, n: nat)
    requires n > 0 && d >= max
    ensures CallLines(cs, d, max, a, n) == []
  {
    if cs.Call? { DeepCallsHaveNoLines(cs.next, d, max, a + FirstSize(cs, d, max), n); }
  }

  /** The report of a balanced call sequence determines its truncated call tree. */
  lemma {:induction false} RebuildCalls(cs: Calls, d: nat, max: nat, a: nat, n: nat, rest: seq<Line>)
    requires n > 0 && (rest == [] || rest[0].depth < d)
    ensures Rebuild(CallLines(cs, d, max, a, n) + rest, d) == (Recorded(cs, d, max), rest)
    decreases cs
  {
    hide CallLines, KeptAddr, FirstSize, Rebuild;
    if d >= max {
      DeepCallsHaveNoLines(cs, d, max, a, n);
      RebuildStops(rest, d);
      assert [] + rest == rest;
    } else if cs == NoCalls {
      NoCallsNoLines(d, max, a, n);
      RebuildStops(rest, d);
      assert [] + rest == rest;
    } else {
      var ls := CallLines(cs, d, max, a, n) + rest;
      var tail := CallLines(cs.next, d, max, a + FirstSize(cs, d, max), n) + rest;
      CallLinesSplit(cs, d, max, a, n, rest);
      RebuildCalls(cs.next, d, max, a + FirstSize(cs, d, max), n, rest);
      FirstLineDepth(cs.next, d, max, a + FirstSize(cs, d, max), n, rest);
      RebuildCalls(cs.inner, d + 1, max, a + 1, n, tail);
      RebuildNode(ls, d, Recorded(cs.inner, d + 1, max), tail, Recorded(cs.next, d, max), rest);
    }
  }

  lemma CallLinesSplit(cs: Calls, d: nat, max: nat, a: nat, n: nat, rest: seq<Line>)
    requires n > 0 && cs.Call? && d < max
    ensures var ls := CallLines(cs, d, max, a, n) + rest;
      && ls != [] && ls[0].depth == d && ls[0].addr == KeptAddr(cs.addr) && ls[0].ticks == (cs.exit - cs.enter) % TWO32
      && ls[1..] == CallLines(cs.inner, d + 1, max, a + 1, n)
                    + (CallLines(cs.next, d, max, a + FirstSize(cs, d, max), n) + rest)
  {
    hide KeptAddr, KeptText, FirstSize, Size;
  }

  lemma NoCallsNoLines(d: nat, max: nat, a: nat, n: nat)
    requires n > 0
    ensures CallLines(NoCalls, d, max, a, n) == []
  {
  }

  lemma RebuildStops(rest: seq<Line>, d: nat)
    requires rest == [] || rest[0].depth < d
    ensures Rebuild(rest, d) == (Leaf, rest)
  {
  }

  lemma RebuildNode(ls: seq<Line>, d: nat, inner: Tree, tail: seq<Line>, next: Tree, rest: seq<Line>)
    requires ls != [] && ls[0].depth == d
    requires Rebuild(ls[1..], d + 1) == (inner, tail) && Rebuild(tail, d) == (next, rest)
    ensures Rebuild(ls, d) == (Node(ls[0].addr, ls[0].ticks, inner, next), rest)
  {
  }

  lemma FirstLineDepth(cs: Calls, d: nat, max: nat, a: nat, n: nat, rest: seq<Line>)
    requires n > 0 && d < max && (rest == [] || rest[0].depth < d)
    ensures var ls := CallLines(cs, d, max, a, n) + rest;
            ls == [] || ls[0].depth <= d
  {
  }
}

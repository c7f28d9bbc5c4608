/**
 * Recording calls: the profiler state, the enter and exit hooks, and the
 * proof that walking the slots a call forest used gives its preorder back.
 */
module XrayCalls {
  import opened Wrappers
  import opened RingIndex
  import opened XrayLayout

  const STACK_SIZE: nat := 256
  const RING_LIMIT: nat := 0x8000_0000

  datatype StackEntry = StackEntry(depthAddr: nat, tsc: nat, dest: nat)

  datatype FrameEntry = FrameEntry(start: nat, end: nat, valid: bool)

  /** The fields of g_xray that decide what is captured. */
  datatype Xray = Xray(
    buffer: Ring, index: nat,
    stack: seq<StackEntry>, depth: nat, maxDepth: nat,
    recording: bool,
    frames: seq<FrameEntry>, head: nat, tail: nat)

  predicate Wf(x: Xray)
  {
    && |x.buffer| < RING_LIMIT && x.index < |x.buffer|
    && |x.stack| == STACK_SIZE
    && (forall d :: 0 <= d < STACK_SIZE ==> x.stack[d].dest < |x.buffer| && x.stack[d].depthAddr < TWO32)
    && 1 <= x.maxDepth < STACK_SIZE
    && x.head < |x.frames| && x.tail < |x.frames|
    && (forall f :: 0 <= f < |x.frames| ==> x.frames[f].start < |x.buffer| && x.frames[f].end < |x.buffer|)
  }

  // ------------------------------------------------------------------- hooks

  /** __cyg_profile_func_enter: reserve a slot and remember where it is. */
  function Enter(x: Xray, addr: nat, tsc: nat): (y: Xray)
    requires Wf(x)
    ensures Wf(y)
  {
    if !x.recording then x
    else
      var y :=
        if x.depth < x.maxDepth then
          x.(stack := x.stack[x.depth := StackEntry(Pack(x.depth, addr), tsc, x.index)],
             index := Inc(x.index, |x.buffer|))
        else x;
      y.(depth := x.depth + 1)
  }

  /** The record written for a finished call; its annotation, if any, goes to
      the current index. */
  function ExitSlot(x: Xray, se: StackEntry, tsc: nat, text: Option<Text>): Slot
  {
    CallSlot(se.depthAddr, if text.Some? then x.index else 0, (tsc - se.tsc) % TWO64)
  }

  /** __xray_profile_append_annotation. */
  function Annotate(x: Xray, text: Option<Text>): (y: Xray)
    requires Wf(x)
    ensures Wf(y)
  {
    match text
    case None => x
    case Some(t) =>
      x.(buffer := Append(x.buffer, x.index, TextBytes(t)), index := SlotOf(x.index + TextSlots(t), |x.buffer|))
  }

  /** __cyg_profile_func_exit: fill the reserved slot, then append the annotation. */
  function Exit(x: Xray, tsc: nat, text: Option<Text>): (y: Xray)
    requires Wf(x)
    requires x.recording ==> x.depth >= 1
    ensures Wf(y)
  {
    if !x.recording then x
    else
      var d := x.depth - 1;
      if d >= x.maxDepth then x.(depth := d)
      else
        var se := x.stack[d];
        Annotate(x.(depth := d, buffer := x.buffer[se.dest := ExitSlot(x, se, tsc, text)]), text)
  }

  // ------------------------------------------------------------------- calls

  /** A balanced call sequence: a first call with its time stamps, optional
      annotation and inner calls, then the calls after it. */
  datatype Calls =
    | NoCalls
    | Call(addr: nat, enter: nat, exit: nat, text: Option<Text>, inner: Calls, next: Calls)

  function Run(x: Xray, cs: Calls): (y: Xray)
    requires Wf(x)
    ensures Wf(y) && y.depth == x.depth && y.recording == x.recording && |y.buffer| == |x.buffer|
    decreases cs, 1
  {
    if cs == NoCalls then x else Run(RunFirst(x, cs), cs.next)
  }

  function ExtraSlots(text: Option<Text>): nat
  {
    if text.Some? then TextSlots(text.value) else 0
  }

  /** Slots used by calls made at depth `d`; none at or below the depth limit. */
  function Size(cs: Calls, d: nat, max: nat): nat
    decreases cs, 1
  {
    if cs == NoCalls then 0 else FirstSize(cs, d, max) + Size(cs.next, d, max)
  }

  function FirstSize(cs: Calls, d: nat, max: nat): nat
    requires cs.Call?
    decreases cs, 0
  {
    if d >= max then 0 else 1 + Size(cs.inner, d + 1, max) + ExtraSlots(cs.text)
  }

  /** The state when the first call has returned. */
  function RunFirst(x: Xray, cs: Calls): (y: Xray)
    requires Wf(x) && cs.Call?
    ensures Wf(y) && y.depth == x.depth && y.recording == x.recording && |y.buffer| == |x.buffer|
    decreases cs, 0
  {
    Exit(Run(Enter(x, cs.addr, cs.enter), cs.inner), cs.exit, cs.text)
  }

  lemma {:induction false} DeepCallsAreFree(cs: Calls, d: nat, max: nat)
    requires d >= max
    ensures Size(cs, d, max) == 0
  {
    if cs.Call? { DeepCallsAreFree(cs.next, d, max); }
  }

  // --------------------------------------------------------- what a walk sees

  /** The fields of one call record, as stored. */
  datatype Row = Row(depthAddr: nat, annotation: nat, ticks: nat)

  function RowOf(s: Slot): Row { Row(DepthAddr(s), AnnotationIndex(s), Ticks(s)) }

  /** How far XRayTraceBufferNextEntry moves; 0 when an annotation has no end. */
  function EntryLen(b: Ring, a: nat): nat
  {
    if !IsAnnotation(At(b, a)) then 1
    else
      match Scan(b, a, 1, |b|)
      case None => 0
      case Some((_, m)) => m
  }

  /** The call record at position `a`, if it is one. */
  function EntryRows(b: Ring, a: nat): seq<Row>
  {
    if IsAnnotation(At(b, a)) then [] else [RowOf(At(b, a))]
  }

  /** Following NextEntry from position `a` to `z`: the call records passed on
      the way.  `None` when the walk would jump over `z` or never end. */
  function Walk(b: Ring, a: nat, z: nat): Option<seq<Row>>
    requires a <= z
    decreases z - a
  {
    if a == z then Some([])
    else
      var m := EntryLen(b, a);
      if !(1 <= m <= z - a) then None
      else
        match Walk(b, a + m, z)
        case None => None
        case Some(rows) => Some(EntryRows(b, a) + rows)
  }

  /** The record of the first call at depth `d` when its annotation is at `q`. */
  function RowFor(cs: Calls, d: nat, q: nat, n: nat): Row
    requires cs.Call? && n > 0
  {
    Row(Pack(d, cs.addr), if cs.text.Some? then SlotOf(q, n) else 0, (cs.exit - cs.enter) % TWO64)
  }

  /** Where the annotation of the first call goes when its record is at `a`. */
  function TextPosition(cs: Calls, d: nat, max: nat, a: nat): nat
    requires cs.Call?
  {
    a + 1 + Size(cs.inner, d + 1, max)
  }

  /** The preorder of the calls above the depth limit, when the first record is
      at position `a` of a ring of `n` slots. */
  function Rows(cs: Calls, d: nat, max: nat, a: nat, n: nat): seq<Row>
    requires n > 0
    decreases cs
  {
    if cs == NoCalls then []
    else
      (if d >= max then []
       else [RowFor(cs, d, TextPosition(cs, d, max, a), n)] + Rows(cs.inner, d + 1, max, a + 1, n))
      + Rows(cs.next, d, max, a + FirstSize(cs, d, max), n)
  }

  /** Every annotated call above the limit has its text at its place in `b`. */
  ghost predicate Texts(b: Ring, cs: Calls, d: nat, max: nat, a: nat)
    decreases cs
  {
    cs.Call? ==>
      && (d < max ==>
           && Texts(b, cs.inner, d + 1, max, a + 1)
           && (cs.text.Some? ==> TextAt(b, TextPosition(cs, d, max, a), cs.text.value)))
      && Texts(b, cs.next, d, max, a + FirstSize(cs, d, max))
  }

  /** Reading the annotation at position `q` gives this text and its length. */
  ghost predicate TextAt(b: Ring, q: nat, t: Text)
  {
    Scan(b, q, 1, |b|) == Some((t, TextSlots(t)))
  }

  // ------------------------------------------------------------- walk algebra

  lemma {:induction false} WalkConcat(b: Ring, a: nat, m: nat, z: nat)
    requires a <= m <= z && Walk(b, a, m).Some? && Walk(b, m, z).Some?
    ensures Walk(b, a, z) == Some(Walk(b, a, m).value + Walk(b, m, z).value)
    decreases m - a
  {
    hide EntryLen, EntryRows;
    var tail := Walk(b, m, z).value;
    if a == m {
      assert [] + tail == tail;
    } else {
      var k := EntryLen(b, a);
      WalkConcat(b, a + k, m, z);
      var mid := Walk(b, a + k, m).value;
      assert EntryRows(b, a) + (mid + tail) == (EntryRows(b, a) + mid) + tail;
    }
  }

  lemma EntryLocal(b: Ring, c: Ring, a: nat)
    requires EntryLen(b, a) >= 1 && SameOn(b, c, a, a + EntryLen(b, a))
    ensures EntryLen(c, a) == EntryLen(b, a) && EntryRows(c, a) == EntryRows(b, a)
  {
    assert At(b, a) == At(c, a);
    if IsAnnotation(At(b, a)) { ScanLocal(b, c, a, 1, |b|); }
  }

  /** A walk only looks at the slots it crosses. */
  lemma {:induction false} WalkLocal(b: Ring, c: Ring, a: nat, z: nat)
    requires a <= z && Walk(b, a, z).Some? && SameOn(b, c, a, z)
    ensures Walk(c, a, z) == Walk(b, a, z)
    decreases z - a
  {
    hide EntryLen, EntryRows, At;
    if a < z {
      EntryLocal(b, c, a);
      WalkLocal(b, c, a + EntryLen(b, a), z);
    }
  }

  lemma EntryPeriodic(b: Ring, a: nat, a': nat)
    requires SlotOf(a, |b|) == SlotOf(a', |b|)
    ensures EntryLen(b, a) == EntryLen(b, a') && EntryRows(b, a) == EntryRows(b, a')
  {
    assert At(b, a) == At(b, a');
    ScanPeriodic(b, a, a', 1, |b|);
  }

  /** Only the slot a walk starts from matters, not which lap it is on. */
  lemma {:induction false} WalkPeriodic(b: Ring, a: nat, z: nat, a': nat, z': nat)
    requires a <= z && z' - a' == z - a && SlotOf(a, |b|) == SlotOf(a', |b|)
    ensures a' <= z' && Walk(b, a, z) == Walk(b, a', z')
    decreases z - a
  {
    hide EntryLen, EntryRows, SlotOf;
    if a < z {
      EntryPeriodic(b, a, a');
      var m := EntryLen(b, a);
      if 1 <= m <= z - a {
        SlotOfAdd(a, a', m, |b|);
        WalkPeriodic(b, a + m, z, a' + m, z');
      }
    }
  }

  lemma {:induction false} TextsLocal(b: Ring, b': Ring, cs: Calls, d: nat, max: nat, a: nat)
    requires Texts(b, cs, d, max, a) && SameOn(b, b', a, a + Size(cs, d, max))
    ensures Texts(b', cs, d, max, a)
    decreases cs
  {
    hide At, Scan;
    if cs.Call? {
      if d < max {
        TextsLocal(b, b', cs.inner, d + 1, max, a + 1);
        if cs.text.Some? { ScanLocal(b, b', TextPosition(cs, d, max, a), 1, |b|); }
      }
      TextsLocal(b, b', cs.next, d, max, a + FirstSize(cs, d, max));
    }
  }

  // ------------------------------------------------- what running calls leaves

  /** A slot whose first byte cannot be the marker's. */
  predicate Unmarked(s: Slot) { s[0] != 255 }

  /** The slots of [a, z) were written and none of them looks like a marker. */
  ghost predicate WritesOver(b: Ring, c: Ring, a: nat, z: nat)
  {
    && SameOutside(b, c, a, z)
    && forall i :: 0 <= i < |b| && (Touched(i, a, z, |b|) || Unmarked(b[i])) ==> Unmarked(c[i])
  }

  lemma WritesOverCompose(b: Ring, c: Ring, e: Ring, a: nat, m: nat, z: nat)
    requires a <= m <= z && WritesOver(b, c, a, m) && WritesOver(c, e, m, z)
    ensures WritesOver(b, e, a, z)
  {
    var n := |b|;
    forall i | 0 <= i < n && !Touched(i, a, z, n)
      ensures e[i] == b[i]
    {
      assert !Touched(i, a, m, n) && !Touched(i, m, z, n);
    }
    forall i | 0 <= i < n && (Touched(i, a, z, n) || Unmarked(b[i]))
      ensures Unmarked(e[i])
    {
      if Touched(i, a, z, n) {
        var p :| a <= p < z && SlotOf(p, n) == i;
        if p < m { assert Touched(i, a, m, n); } else { assert Touched(i, m, z, n); }
      }
    }
  }

  /** Everything but the buffer, its index and the stack above `depth` is kept. */
  ghost predicate Keeps(x: Xray, y: Xray)
  {
    && y.depth == x.depth && y.maxDepth == x.maxDepth && y.recording == x.recording
    && y.frames == x.frames && y.head == x.head && y.tail == x.tail
    && |y.buffer| == |x.buffer| && |y.stack| == |x.stack|
    && forall d :: 0 <= d < x.depth && d < |x.stack| ==> y.stack[d] == x.stack[d]
  }

  /** From `x` to `y` exactly the positions [a, z) were used. */
  ghost predicate Ran(x: Xray, y: Xray, a: nat, z: nat)
  {
    Keeps(x, y) && y.index == SlotOf(z, |x.buffer|) && WritesOver(x.buffer, y.buffer, a, z)
  }

  lemma RanCompose(x: Xray, y: Xray, w: Xray, a: nat, m: nat, z: nat)
    requires a <= m <= z && Ran(x, y, a, m) && Ran(y, w, m, z)
    ensures Ran(x, w, a, z)
  {
    WritesOverCompose(x.buffer, y.buffer, w.buffer, a, m, z);
  }

  ghost predicate Capturing(x: Xray, a: nat)
  {
    Wf(x) && x.recording && x.depth >= 1 && x.index == SlotOf(a, |x.buffer|)
  }

  /** Running calls from position `a` writes exactly the positions they use. */
  lemma {:induction false} RunWrites(x: Xray, cs: Calls, a: nat)
    requires Capturing(x, a)
    ensures Ran(x, Run(x, cs), a, a + Size(cs, x.depth, x.maxDepth))
    decreases cs, 1
  {
    hide Wf, SlotOf, RunFirst, FirstSize;
    if cs == NoCalls {
      assert WritesOver(x.buffer, x.buffer, a, a);
    } else {
      var m := a + FirstSize(cs, x.depth, x.maxDepth);
      FirstWrites(x, cs, a);
      var y := RunFirst(x, cs);
      RunWrites(y, cs.next, m);
      RanCompose(x, y, Run(y, cs.next), a, m, m + Size(cs.next, x.depth, x.maxDepth));
    }
  }

  lemma {:induction false} FirstWrites(x: Xray, cs: Calls, a: nat)
    requires Capturing(x, a) && cs.Call?
    ensures var y, m := RunFirst(x, cs), a + FirstSize(cs, x.depth, x.maxDepth);
            Ran(x, y, a, m) && Capturing(y, m)
    decreases cs, 0
  {
    if x.depth >= x.maxDepth {
      FirstWritesDeep(x, cs, a);
    } else {
      FirstWritesSlots(x, cs, a);
    }
  }

  lemma {:induction false} FirstWritesDeep(x: Xray, cs: Calls, a: nat)
    requires Capturing(x, a) && cs.Call? && x.depth >= x.maxDepth
    ensures Ran(x, RunFirst(x, cs), a, a) && Capturing(RunFirst(x, cs), a)
    decreases cs.inner, 2
  {
    hide WritesOver, Run, Size, SlotOf;
    RunWrites(Enter(x, cs.addr, cs.enter), cs.inner, a);
    DeepCallsAreFree(cs.inner, x.depth + 1, x.maxDepth);
  }

  lemma {:induction false} FirstWritesSlots(x: Xray, cs: Calls, a: nat)
    requires Capturing(x, a) && cs.Call? && x.depth < x.maxDepth
    ensures var y, m := RunFirst(x, cs), a + FirstSize(cs, x.depth, x.maxDepth);
            Ran(x, y, a, m) && Capturing(y, m)
    decreases cs.inner, 2
  {
    hide Wf, Enter, Exit, Ran, Run, Size, SlotOf;
    var e := Enter(x, cs.addr, cs.enter);
    EnterReserves(x, cs.addr, cs.enter, a);
    RunWrites(e, cs.inner, a + 1);
    ExitRan(x, e, Run(e, cs.inner), cs, a, a + 1 + Size(cs.inner, x.depth + 1, x.maxDepth));
  }

  lemma EnterReserves(x: Xray, addr: nat, tsc: nat, a: nat)
    requires Capturing(x, a) && x.depth < x.maxDepth
    ensures var e := Enter(x, addr, tsc);
      && Capturing(e, a + 1) && e.depth == x.depth + 1 && e.buffer == x.buffer
      && e.stack[x.depth] == StackEntry(Pack(x.depth, addr), tsc, SlotOf(a, |x.buffer|))
      && Keeps(x, e.(depth := x.depth))
  {
    IncIsSuccessor(a, |x.buffer|);
  }

  /** `e` is `x` after entering the call, `r` is `e` after its inner calls. */
  lemma ExitRan(x: Xray, e: Xray, r: Xray, cs: Calls, a: nat, q: nat)
    requires Capturing(x, a) && cs.Call? && x.depth < x.maxDepth && a < q
    requires Keeps(x, e.(depth := x.depth)) && e.depth == x.depth + 1 && e.buffer == x.buffer
    requires e.stack[x.depth] == StackEntry(Pack(x.depth, cs.addr), cs.enter, SlotOf(a, |x.buffer|))
    requires Wf(r) && Ran(e, r, a + 1, q)
    ensures var y, m := Exit(r, cs.exit, cs.text), q + ExtraSlots(cs.text);
            Ran(x, y, a, m) && Capturing(y, m)
  {
    hide WritesOver, ExitSlot, Append, SlotOf, Pack;
    assert r.stack[x.depth] == e.stack[x.depth];
    ExitWrites(r, cs.exit, cs.text, a, q, x.buffer);
  }

  /** The exit of a recorded call whose slot is at `a`, with the children's
      slots up to `q` already written. */
  lemma ExitWrites(r: Xray, tsc: nat, text: Option<Text>, a: nat, q: nat, b: Ring)
    requires Wf(r) && r.recording && 2 <= r.depth <= r.maxDepth && a < q
    requires r.index == SlotOf(q, |r.buffer|)
    requires r.stack[r.depth - 1].dest == SlotOf(a, |r.buffer|)
    requires r.stack[r.depth - 1].depthAddr % 256 == r.depth - 1
    requires WritesOver(b, r.buffer, a + 1, q)
    ensures var y := Exit(r, tsc, text);
            y.index == SlotOf(q + ExtraSlots(text), |b|) && WritesOver(b, y.buffer, a, q + ExtraSlots(text))
  {
    hide WritesOver, Annotate, SlotOf, CallSlot;
    var se := r.stack[r.depth - 1];
    var slot := ExitSlot(r, se, tsc, text);
    WritesOverLength(b, r.buffer, a + 1, q);
    CallSlotFields(se.depthAddr, if text.Some? then r.index else 0, (tsc - se.tsc) % TWO64);
    CallSlotWrites(b, r.buffer, a, q, slot);
    AnnotateWrites(r.(depth := r.depth - 1, buffer := r.buffer[se.dest := slot]), text, a, q, b);
  }

  lemma WritesOverLength(b: Ring, c: Ring, a: nat, z: nat)
    requires WritesOver(b, c, a, z)
    ensures |c| == |b|
  {
  }

  lemma TextBytesFacts(t: Text)
    ensures Avoids(TextBytes(t), 255) && |TextBytes(t)| == |t| + 2
  {
  }

  lemma AppendWritesOver(b: Ring, q: nat, bytes: seq<Byte>)
    requires Avoids(bytes, 255)
    ensures WritesOver(b, Append(b, q, bytes), q, q + SlotsFor(|bytes|))
  {
    hide Append;
    AppendTouches(b, q, bytes);
    AppendNoMarker(b, q, bytes);
  }

  lemma AnnotateWrites(x: Xray, text: Option<Text>, a: nat, q: nat, b: Ring)
    requires Wf(x) && a < q && x.index == SlotOf(q, |b|) && WritesOver(b, x.buffer, a, q)
    ensures Annotate(x, text).index == SlotOf(q + ExtraSlots(text), |b|)
    ensures WritesOver(b, Annotate(x, text).buffer, a, q + ExtraSlots(text))
    ensures text.Some? ==> Annotate(x, text).buffer == Append(x.buffer, q, TextBytes(text.value))
  {
    hide SlotOf, Append, TextBytes;
    if text.Some? {
      var t := text.value;
      var bytes := TextBytes(t);
      assert Avoids(bytes, 255) && |bytes| == |t| + 2 by { TextBytesFacts(t); }
      SlotOfIdempotent(q, |b|);
      AppendAtIndex(x.buffer, x.index, q, bytes);
      SlotOfAdd(x.index, q, TextSlots(t), |b|);
      AppendWritesOver(x.buffer, q, bytes);
      WritesOverCompose(b, x.buffer, Append(x.buffer, q, bytes), a, q, q + TextSlots(t));
    }
  }

  lemma CallSlotWrites(b: Ring, c: Ring, a: nat, q: nat, slot: Slot)
    requires a < q && WritesOver(b, c, a + 1, q) && Unmarked(slot)
    ensures WritesOver(b, c[SlotOf(a, |c|) := slot], a, q)
  {
    var n, i := |b|, SlotOf(a, |b|);
    assert Touched(i, a, q, n);
    forall j | 0 <= j < n && j != i
      ensures Touched(j, a, q, n) <==> Touched(j, a + 1, q, n)
    {
      if Touched(j, a, q, n) {
        var p :| a <= p < q && SlotOf(p, n) == j;
        assert a + 1 <= p;
      }
    }
  }

  lemma {:induction false} AppendAtIndex(b: Ring, i: nat, q: nat, bytes: seq<Byte>)
    requires SlotOf(i, |b|) == SlotOf(q, |b|)
    ensures Append(b, i, bytes) == Append(b, q, bytes)
    decreases |bytes|
  {
    if bytes != [] {
      var k, s := Chunk(bytes), SlotOf(q, |b|);
      SlotOfAdd(i, q, 1, |b|);
      AppendAtIndex(b[s := bytes[..k] + b[s][k..]], i + 1, q + 1, bytes[k..]);
    }
  }

  // ------------------------------------------------------- reading calls back

  /** Walking the slots of the calls gives their preorder, texts included. */
  ghost predicate Reads(b: Ring, cs: Calls, d: nat, max: nat, a: nat)
  {
    && Walk(b, a, a + Size(cs, d, max)) == Some(Rows(cs, d, max, a, |b|))
    && Texts(b, cs, d, max, a)
  }

  lemma ReadsLocal(b: Ring, b': Ring, cs: Calls, d: nat, max: nat, a: nat)
    requires Reads(b, cs, d, max, a) && SameOn(b, b', a, a + Size(cs, d, max))
    ensures Reads(b', cs, d, max, a)
  {
    hide Walk, Texts, At, Size;
    WalkLocal(b, b', a, a + Size(cs, d, max));
    TextsLocal(b, b', cs, d, max, a);
  }

  /** `b` holds the record of the first call at `a`, its inner calls and its annotation. */
  ghost predicate InPlace(b: Ring, cs: Calls, d: nat, max: nat, a: nat)
    requires cs.Call?
  {
    var q := TextPosition(cs, d, max, a);
    && !IsAnnotation(At(b, a)) && RowOf(At(b, a)) == RowFor(cs, d, q, |b|)
    && Reads(b, cs.inner, d + 1, max, a + 1)
    && (cs.text.Some? ==> IsAnnotation(At(b, q)) && TextAt(b, q, cs.text.value))
  }

  lemma InPlaceLocal(b: Ring, b': Ring, cs: Calls, d: nat, max: nat, a: nat)
    requires cs.Call? && d < max && InPlace(b, cs, d, max, a) && SameOn(b, b', a, a + FirstSize(cs, d, max))
    ensures InPlace(b', cs, d, max, a)
  {
    hide SlotOf, Scan, Reads;
    assert At(b, a) == At(b', a);
    ReadsLocal(b, b', cs.inner, d + 1, max, a + 1);
    if cs.text.Some? {
      var q := TextPosition(cs, d, max, a);
      assert At(b, q) == At(b', q);
      ScanLocal(b, b', q, 1, |b|);
    }
  }

  /** A call in place is walked whole: its record, the inner preorder, and no
      record for the annotation. */
  lemma InPlaceWalk(b: Ring, cs: Calls, d: nat, max: nat, a: nat)
    requires cs.Call? && d < max && InPlace(b, cs, d, max, a)
    ensures Walk(b, a, a + FirstSize(cs, d, max))
         == Some([RowFor(cs, d, TextPosition(cs, d, max, a), |b|)] + Rows(cs.inner, d + 1, max, a + 1, |b|))
  {
    hide Walk, Size, At, TextAt, RowFor, Rows;
    var q := TextPosition(cs, d, max, a);
    var rows := [RowFor(cs, d, q, |b|)] + Rows(cs.inner, d + 1, max, a + 1, |b|);
    InPlaceRecord(b, cs, d, max, a);
    if cs.text.Some? {
      AnnotationIsSkipped(b, q, cs.text.value);
      WalkConcat(b, a, q, q + TextSlots(cs.text.value));
      assert rows + [] == rows;
    }
  }

  lemma InPlaceRecord(b: Ring, cs: Calls, d: nat, max: nat, a: nat)
    requires cs.Call? && d < max && InPlace(b, cs, d, max, a)
    ensures Walk(b, a, TextPosition(cs, d, max, a))
         == Some([RowFor(cs, d, TextPosition(cs, d, max, a), |b|)] + Rows(cs.inner, d + 1, max, a + 1, |b|))
  {
    hide Scan, Size, RowFor, Rows, At;
    assert EntryLen(b, a) == 1;
  }

  /** An annotation contributes no record and is stepped over whole. */
  lemma AnnotationIsSkipped(b: Ring, q: nat, t: Text)
    requires IsAnnotation(At(b, q)) && TextAt(b, q, t)
    ensures Walk(b, q, q + TextSlots(t)) == Some([])
  {
    assert EntryLen(b, q) == TextSlots(t) && EntryRows(b, q) == [];
    assert EntryRows(b, q) + [] == EntryRows(b, q);
  }

  lemma ReadsCons(b: Ring, cs: Calls, d: nat, max: nat, a: nat)
    requires cs.Call? && d < max && InPlace(b, cs, d, max, a)
    requires Reads(b, cs.next, d, max, a + FirstSize(cs, d, max))
    ensures Reads(b, cs, d, max, a)
  {
    hide At, Scan, RowFor, RowOf, FirstSize, Walk, TextAt;
    var m := a + FirstSize(cs, d, max);
    InPlaceWalk(b, cs, d, max, a);
    WalkConcat(b, a, m, m + Size(cs.next, d, max));
  }

  /** Calls that fit in one lap read back as their preorder, texts included. */
  lemma {:induction false} RunReads(x: Xray, cs: Calls, a: nat)
    requires Capturing(x, a) && Size(cs, x.depth, x.maxDepth) <= |x.buffer|
    ensures Reads(Run(x, cs).buffer, cs, x.depth, x.maxDepth, a)
    decreases cs, 1
  {
    if cs.Call? { RunReadsStep(x, cs, a); }
  }

  lemma {:induction false} RunReadsStep(x: Xray, cs: Calls, a: nat)
    requires Capturing(x, a) && Size(cs, x.depth, x.maxDepth) <= |x.buffer| && cs.Call?
    ensures Reads(Run(x, cs).buffer, cs, x.depth, x.maxDepth, a)
    decreases cs, 0
  {
    hide Wf, SlotOf, RunFirst, InPlace, FirstSize, Reads;
    var m := a + FirstSize(cs, x.depth, x.maxDepth);
    var y := RunFirst(x, cs);
    FirstWrites(x, cs, a);
    if x.depth < x.maxDepth { FirstReads(x, cs, a); }
    RunReads(y, cs.next, m);
    RunWrites(y, cs.next, m);
    ReadsAll(y.buffer, Run(y, cs.next).buffer, cs, x.depth, x.maxDepth, a);
  }

  /** Later calls leave the first one in place. */
  lemma ReadsAll(b: Ring, b': Ring, cs: Calls, d: nat, max: nat, a: nat)
    requires cs.Call? && Size(cs, d, max) <= |b| && (d < max ==> InPlace(b, cs, d, max, a))
    requires var m := a + FirstSize(cs, d, max);
      SameOutside(b, b', m, m + Size(cs.next, d, max)) && Reads(b', cs.next, d, max, m)
    ensures Reads(b', cs, d, max, a)
  {
    hide InPlace, Walk, Texts;
    if d < max {
      var m := a + FirstSize(cs, d, max);
      OutsideMeansSame(b, b', a, m, m, m + Size(cs.next, d, max));
      InPlaceLocal(b, b', cs, d, max, a);
      ReadsCons(b', cs, d, max, a);
    } else {
      ReadsDeep(b', cs, d, max, a);
    }
  }

  lemma ReadsDeep(b: Ring, cs: Calls, d: nat, max: nat, a: nat)
    requires cs.Call? && d >= max && Reads(b, cs.next, d, max, a)
    ensures Reads(b, cs, d, max, a)
  {
    hide Walk, TextAt, RowFor;
    assert [] + Rows(cs.next, d, max, a, |b|) == Rows(cs.next, d, max, a, |b|);
  }

  /** After its exit, the first call is in place. */
  lemma {:induction false} FirstReads(x: Xray, cs: Calls, a: nat)
    requires Capturing(x, a) && cs.Call? && x.depth < x.maxDepth
    requires Size(cs, x.depth, x.maxDepth) <= |x.buffer|
    ensures InPlace(RunFirst(x, cs).buffer, cs, x.depth, x.maxDepth, a)
    decreases cs.inner, 2
  {
    hide SlotOf, Enter, Exit, Run, Reads, InPlace, WritesOver, Pack;
    var d, max := x.depth, x.maxDepth;
    var e := Enter(x, cs.addr, cs.enter);
    var r := Run(e, cs.inner);
    EnterReserves(x, cs.addr, cs.enter, a);
    RunWrites(e, cs.inner, a + 1);
    RunReads(e, cs.inner, a + 1);
    assert r.stack[d] == e.stack[d];
    ExitInPlace(r, cs, a, max);
  }

  lemma ExitInPlace(r: Xray, cs: Calls, a: nat, max: nat)
    requires Wf(r) && r.recording && 2 <= r.depth <= r.maxDepth == max && cs.Call?
    requires var d, n := r.depth - 1, |r.buffer|;
      && r.stack[d] == StackEntry(Pack(d, cs.addr), cs.enter, SlotOf(a, n))
      && r.index == SlotOf(TextPosition(cs, d, max, a), n)
      && Reads(r.buffer, cs.inner, d + 1, max, a + 1)
      && FirstSize(cs, d, max) <= n
    ensures InPlace(Exit(r, cs.exit, cs.text).buffer, cs, r.depth - 1, max, a)
  {
    hide Walk, Texts, Append, SlotOf, RowFor, RowOf, IsAnnotation, ExitSlot, Size;
    var d := r.depth - 1;
    var slot := ExitSlot(r, r.stack[d], cs.exit, cs.text);
    var b: Ring := r.buffer[SlotOf(a, |r.buffer|) := slot];
    ExitSlotRow(r, cs, d, TextPosition(cs, d, max, a));
    SlotInPlace(r.buffer, slot, cs, d, max, a);
    AnnotateInPlace(r.(depth := d, buffer := b), cs, d, max, a);
  }

  lemma ExitSlotRow(r: Xray, cs: Calls, d: nat, q: nat)
    requires Wf(r) && cs.Call? && 1 <= d < STACK_SIZE && r.index == SlotOf(q, |r.buffer|)
    requires r.stack[d].depthAddr == Pack(d, cs.addr) && r.stack[d].tsc == cs.enter
    ensures var slot := ExitSlot(r, r.stack[d], cs.exit, cs.text);
            RowOf(slot) == RowFor(cs, d, q, |r.buffer|) && !IsAnnotation(slot)
  {
    hide CallSlot, DepthAddr, AnnotationIndex, Ticks, SlotOf, Pack;
    CallSlotFields(Pack(d, cs.addr), if cs.text.Some? then r.index else 0, (cs.exit - cs.enter) % TWO64);
  }

  lemma SlotInPlace(b: Ring, slot: Slot, cs: Calls, d: nat, max: nat, a: nat)
    requires cs.Call? && d < max && FirstSize(cs, d, max) <= |b| && Reads(b, cs.inner, d + 1, max, a + 1)
    ensures var b': Ring := b[SlotOf(a, |b|) := slot];
            At(b', a) == slot && Reads(b', cs.inner, d + 1, max, a + 1)
  {
    hide Reads, Size, SameOn;
    var b' := OneSlotOutside(b, a, slot, TextPosition(cs, d, max, a));
    ReadsLocal(b, b', cs.inner, d + 1, max, a + 1);
  }

  lemma OneSlotOutside(b: Ring, a: nat, slot: Slot, q: nat) returns (b': Ring)
    requires a < q <= a + |b|
    ensures b' == b[SlotOf(a, |b|) := slot] && At(b', a) == slot && SameOn(b, b', a + 1, q)
  {
    b' := b[SlotOf(a, |b|) := slot];
    assert Touched(SlotOf(a, |b|), a, a + 1, |b|);
    OutsideMeansSame(b, b', a + 1, q, a, a + 1);
  }

  lemma AnnotateInPlace(x: Xray, cs: Calls, d: nat, max: nat, a: nat)
    requires Wf(x) && cs.Call? && d < max && FirstSize(cs, d, max) <= |x.buffer|
    requires var q, b := TextPosition(cs, d, max, a), x.buffer;
      && x.index == SlotOf(q, |b|)
      && !IsAnnotation(At(b, a)) && RowOf(At(b, a)) == RowFor(cs, d, q, |b|)
      && Reads(b, cs.inner, d + 1, max, a + 1)
    ensures InPlace(Annotate(x, cs.text).buffer, cs, d, max, a)
  {
    hide SlotOf, Append, Scan, Reads, RowOf, RowFor, TextBytes, Size;
    if cs.text.Some? {
      var b, t, q := x.buffer, cs.text.value, TextPosition(cs, d, max, a);
      SlotOfIdempotent(q, |b|);
      AppendAtIndex(b, x.index, q, TextBytes(t));
      var b' := Append(b, q, TextBytes(t));
      TextBytesFacts(t);
      AppendTouches(b, q, TextBytes(t));
      OutsideMeansSame(b, b', a, q, q, q + TextSlots(t));
      assert At(b, a) == At(b', a);
      ReadsLocal(b, b', cs.inner, d + 1, max, a + 1);
      AnnotationRoundTrip(b, q, t);
    }
  }
}

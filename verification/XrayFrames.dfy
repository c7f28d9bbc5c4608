/**
 * Frames: starting and ending a capture, invalidating stomped frames, and the
 * whole-run theorem that a frame still flagged valid is intact.
 */
module XrayFrames {
  import opened Wrappers
  import opened RingIndex
  import opened XrayLayout
  import opened XrayCalls
  import opened XrayReport

  // -------------------------------------------------------------- operations

  const NO_FRAME := FrameEntry(0, 0, false)
  const NO_ENTRY := StackEntry(0, 0, 0)

  /** XRayInit, before any capture. */
  function Init(n: nat, frameCount: nat, maxDepth: nat): (x: Xray)
    requires 0 < n < RING_LIMIT && 1 <= maxDepth < STACK_SIZE
    ensures Wf(x)
  {
    Xray(seq(n, _ => ZERO_SLOT), 0, seq(STACK_SIZE, _ => NO_ENTRY), 0, maxDepth, false,
         seq(frameCount + 1, _ => NO_FRAME), 0, 0)
  }

  /** XRaySetMaxStackDepth clamps to 1..255. */
  function SetMaxStackDepth(x: Xray, depth: int): (y: Xray)
    requires Wf(x)
    ensures Wf(y) && y == x.(maxDepth := y.maxDepth)
    ensures 1 <= depth <= 255 ==> y.maxDepth == depth
    ensures depth < 1 ==> y.maxDepth == 1
    ensures depth > 255 ==> y.maxDepth == 255
  {
    x.(maxDepth := if depth < 1 then 1 else if depth >= STACK_SIZE then STACK_SIZE - 1 else depth)
  }

  /** XRayReset forgets every frame and starts writing at slot 0 again. */
  function Reset(x: Xray): (y: Xray)
    requires Wf(x)
    ensures Wf(y) && y.maxDepth == x.maxDepth && y.recording == x.recording && y.buffer == x.buffer
  {
    x.(index := 0, depth := 0, head := 0, tail := 0,
       frames := seq(|x.frames|, _ => NO_FRAME), stack := seq(STACK_SIZE, _ => NO_ENTRY))
  }

  /** XRayStartFrame writes the marker and opens the frame just after it. */
  function StartFrame(x: Xray): (y: Xray)
    requires Wf(x)
    ensures Wf(y)
  {
    var i := Inc(x.index, |x.buffer|);
    x.(buffer := x.buffer[x.index := WithDepthAddr(x.buffer[x.index], FRAME_MARKER)],
       index := i,
       frames := x.frames[x.head := x.frames[x.head].(start := i)],
       depth := 1,
       stack := x.stack[0 := NO_ENTRY],
       recording := true)
  }

  /** XRayTraceBufferGetTraceCountForFrame: the whole ring for an empty frame. */
  function TraceCount(f: FrameEntry, n: nat): int
  {
    if f.start < f.end then f.end - f.start else n - (f.start - f.end)
  }

  /** Steps from frame `i` back to frame `head`. */
  function Back(i: nat, head: nat, count: nat): nat
    requires i < count && head < count
  {
    if i >= head then i - head else i + count - head
  }

  /** The loop of XRayFrameFindTail, at frame `i`. */
  function Stomp(fs: seq<FrameEntry>, head: nat, i: nat, total: int, last: nat, n: nat)
    : (r: (seq<FrameEntry>, nat))
    requires i < |fs| && head < |fs| && last < |fs|
    ensures |r.0| == |fs| && r.1 < |fs|
    ensures forall k :: 0 <= k < |fs| ==> r.0[k] == fs[k].(valid := r.0[k].valid)
    decreases Back(i, head, |fs|)
  {
    if i == head then (fs, last)
    else if !fs[i].valid then Stomp(fs, head, Dec(i, |fs|), total, last, n)
    else
      var total' := total + TraceCount(fs[i], n) + 1;
      if total' < n then Stomp(fs, head, Dec(i, |fs|), total', i, n)
      else Stomp(fs[i := fs[i].(valid := false)], head, Dec(i, |fs|), total', last, n)
  }

  function FindTail(fs: seq<FrameEntry>, head: nat, tail: nat, n: nat): (r: (seq<FrameEntry>, nat))
    requires head < |fs| && tail < |fs|
    ensures |r.0| == |fs| && r.1 < |fs|
    ensures forall k :: 0 <= k < |fs| ==> r.0[k] == fs[k].(valid := r.0[k].valid)
  {
    if head == tail then (fs, head)
    else Stomp(fs, head, Dec(head, |fs|), 0, Dec(head, |fs|), n)
  }

  /** The frame table after XRayEndFrame has closed frame `x.head`. */
  function Closed(x: Xray): (r: (seq<FrameEntry>, nat))
    requires Wf(x)
    ensures |r.0| == |x.frames| && r.1 < |x.frames|
  {
    var fs := x.frames[x.head := x.frames[x.head].(end := x.index, valid := true)];
    var head := Inc(x.head, |fs|);
    FindTail(fs, head, if head == x.tail then Inc(x.tail, |fs|) else x.tail, |x.buffer|)
  }

  /** XRayEndFrame. */
  function EndFrame(x: Xray): (y: Xray)
    requires Wf(x)
    ensures Wf(y)
  {
    var (fs, tail) := Closed(x);
    var y := x.(recording := false, frames := fs, head := Inc(x.head, |fs|), tail := tail);
    var marker := Dec(x.frames[x.head].start, |x.buffer|);
    if DepthAddr(x.buffer[marker]) != FRAME_MARKER then Reset(y)
    else y.(buffer := x.buffer[marker := WithDepthAddr(x.buffer[marker], NULL_ANNOTATION)])
  }

  // ---------------------------------------------------------------- histories

  datatype Action = Frame(calls: Calls) | Restart | Limit(depth: int)

  /** What is remembered of a finished frame: where it was, what it recorded. */
  datatype FrameLog = FrameLog(start: nat, calls: Calls, max: nat, slots: seq<Slot>)

  /** The profiler with its history since the last reset. */
  datatype Session = Session(x: Xray, log: seq<FrameLog>, pos: nat)

  function End(f: FrameLog): nat { f.start + |f.slots| }

  function SlotsOf(b: Ring, a: nat, k: nat): (s: seq<Slot>)
    ensures |s| == k && forall i :: 0 <= i < k ==> s[i] == At(b, a + i)
  {
    seq<Slot>(k, i requires 0 <= i < k => At(b, a + i))
  }

  /** The profiler after one whole frame. */
  function Capture(x: Xray, calls: Calls): (y: Xray)
    requires Wf(x)
    ensures Wf(y)
  {
    EndFrame(Run(StartFrame(x), calls))
  }

  function Step(s: Session, a: Action): (s': Session)
    requires Wf(s.x)
    ensures Wf(s'.x)
  {
    match a
    case Restart => Session(Reset(s.x), [], 0)
    case Limit(d) => s.(x := SetMaxStackDepth(s.x, d))
    case Frame(calls) =>
      var y, k := Capture(s.x, calls), Size(calls, 1, s.x.maxDepth);
      if k < |s.x.buffer| then
        Session(y, s.log + [FrameLog(s.pos + 1, calls, s.x.maxDepth, SlotsOf(y.buffer, s.pos + 1, k))], s.pos + 1 + k)
      else Session(y, [], 0)
  }

  function History(s: Session, acts: seq<Action>): (s': Session)
    requires Wf(s.x)
    ensures Wf(s'.x)
    decreases |acts|
  {
    if acts == [] then s else History(Step(s, acts[0]), acts[1..])
  }

  // ---------------------------------------------------------------- invariant

  /** What a frame counts for when frames are invalidated. */
  function Cost(f: FrameLog, n: nat): nat
  {
    (if |f.slots| == 0 then n else |f.slots|) + 1
  }

  /** Cost of frame `t` and all newer ones. */
  function Total(log: seq<FrameLog>, t: nat, n: nat): nat
    requires t <= |log|
    decreases |log| - t
  {
    if t == |log| then 0 else Cost(log[t], n) + Total(log, t + 1, n)
  }

  /** Frames follow each other, one marker slot apart, up to `pos`. */
  predicate Chained(log: seq<FrameLog>, pos: nat, n: nat)
  {
    && (log == [] ==> pos == 0)
    && (log != [] ==> End(log[|log| - 1]) == pos)
    && (forall t :: 0 <= t < |log| ==>
          && log[t].start >= 1 && log[t].max < STACK_SIZE
          && |log[t].slots| == Size(log[t].calls, 1, log[t].max) < n)
    && (forall t :: 0 < t < |log| ==> log[t].start == End(log[t - 1]) + 1)
  }

  /** Frame `t` is among the newest `count - 1`, the ones the table still shows. */
  predicate Shown(t: nat, frames: nat, count: nat) { t < frames && t + count - 1 >= frames }

  /** The table entry of a frame. */
  function EntryFor(f: FrameLog, valid: bool, n: nat): FrameEntry
    requires n > 0
  {
    FrameEntry(SlotOf(f.start, n), SlotOf(End(f), n), valid)
  }

  /** The flags in closed form: a shown frame is valid exactly when it and all
      newer frames cost less than the ring. */
  ghost predicate Flags(fs: seq<FrameEntry>, log: seq<FrameLog>, n: nat)
    requires n > 0 && |fs| > 0
  {
    && (forall t :: 0 <= t < |log| && Shown(t, |log|, |fs|) ==>
          fs[SlotOf(t, |fs|)] == EntryFor(log[t], Total(log, t, n) < n, n))
    && (forall i :: |log| <= i < |fs| ==> !fs[i].valid)
  }

  /** The oldest valid frame reached from frame `t` going back no further than `lo`. */
  function Oldest(log: seq<FrameLog>, t: nat, lo: nat, n: nat): (o: nat)
    requires lo <= t < |log|
    ensures lo <= o <= t
    decreases t
  {
    if t > lo && Total(log, t - 1, n) < n then Oldest(log, t - 1, lo, n) else t
  }

  function Window(frames: nat, count: nat): nat
    requires count > 0
  {
    if frames < count then 0 else frames - (count - 1)
  }

  ghost predicate TailOk(x: Xray, log: seq<FrameLog>)
    requires Wf(x)
  {
    if log == [] then x.tail == x.head
    else |x.frames| >= 2 ==>
      x.tail == SlotOf(Oldest(log, |log| - 1, Window(|log|, |x.frames|), |x.buffer|), |x.frames|)
  }

  /** The ring still holds what the frame recorded, and it reads as its calls. */
  ghost predicate Intact(b: Ring, f: FrameLog)
  {
    && (forall i :: 0 <= i < |f.slots| ==> At(b, f.start + i) == f.slots[i])
    && Reads(b, f.calls, 1, f.max, f.start)
  }

  ghost predicate Inv(s: Session)
  {
    && Wf(s.x) && !s.x.recording
    && s.x.index == SlotOf(s.pos, |s.x.buffer|)
    && s.x.head == SlotOf(|s.log|, |s.x.frames|)
    && Chained(s.log, s.pos, |s.x.buffer|)
    && Flags(s.x.frames, s.log, |s.x.buffer|)
    && TailOk(s.x, s.log)
    && (forall t :: 0 <= t < |s.log| && Unstomped(s, t) ==> Intact(s.x.buffer, s.log[t]))
  }

  /** Nothing written since frame `t` has come round to its slots. */
  predicate Unstomped(s: Session, t: nat)
    requires t < |s.log|
  {
    s.pos <= s.log[t].start + |s.x.buffer|
  }

  // ---------------------------------------------------------------- arithmetic

  lemma {:induction false} TotalAppend(log: seq<FrameLog>, f: FrameLog, t: nat, n: nat)
    requires t <= |log|
    ensures Total(log + [f], t, n) == Total(log, t, n) + Cost(f, n)
    decreases |log| - t
  {
    if t < |log| { TotalAppend(log, f, t + 1, n); }
  }

  lemma {:induction false} TotalMonotone(log: seq<FrameLog>, t: nat, u: nat, n: nat)
    requires t <= u <= |log|
    ensures Total(log, u, n) <= Total(log, t, n)
    decreases u - t
  {
    if t < u { TotalMonotone(log, t + 1, u, n); }
  }

  /** The cost of a frame bounds how far back it starts. */
  lemma {:induction false} TotalReachesBack(log: seq<FrameLog>, t: nat, pos: nat, n: nat)
    requires t < |log| && Chained(log, pos, n)
    ensures pos + 1 - log[t].start <= Total(log, t, n)
    decreases |log| - t
  {
    if t + 1 < |log| { TotalReachesBack(log, t + 1, pos, n); }
  }

  /** The count the code computes is the frame's cost. */
  lemma {:induction false} TraceCountIsCost(f: FrameLog, valid: bool, n: nat)
    requires |f.slots| < n
    ensures TraceCount(EntryFor(f, valid, n), n) + 1 == Cost(f, n)
  {
    CountMod(f.start, |f.slots|, n);
  }

  lemma {:induction false} CountMod(s: nat, k: nat, n: nat)
    requires k < n
    ensures var a, z := SlotOf(s, n), SlotOf(s + k, n);
            (if a < z then z - a else n - (a - z)) == if k == 0 then n else k
  {
    if s >= n { CountMod(s - n, k, n); }
  }

  // ------------------------------------------------------ invalidating frames

  /** The table entry at unwrapped frame position `v`. */
  function Entry(fs: seq<FrameEntry>, v: nat): FrameEntry
    requires |fs| > 0
  {
    fs[SlotOf(v, |fs|)]
  }

  /** Position `v` shows its frame, and flags it valid if it still fits. */
  ghost predicate EntryMatches(fs: seq<FrameEntry>, log: seq<FrameLog>, v: nat, n: nat)
    requires n > 0 && 0 < |fs| <= v < |log| + |fs|
  {
    && Entry(fs, v) == EntryFor(log[v - |fs|], Entry(fs, v).valid, n)
    && (Total(log, v - |fs|, n) < n ==> Entry(fs, v).valid)
  }

  /** Frame `t` sits at unwrapped position `t + |fs|`; positions above |log| and
      up to `w` are still to be scanned. */
  ghost predicate Scannable(fs: seq<FrameEntry>, log: seq<FrameLog>, w: nat, n: nat)
  {
    var F, T := |fs|, |log|;
    && F >= 2 && T >= 1 && T <= w < T + F && n > 0
    && (forall t :: 0 <= t < T ==> |log[t].slots| < n)
    && (forall v :: T < v <= w && v >= F ==> EntryMatches(fs, log, v, n))
    && (forall v :: T < v <= w && v < F ==> !Entry(fs, v).valid)
    && (forall v, v' :: T < v' <= v <= w && !Entry(fs, v).valid ==> !Entry(fs, v').valid)
  }

  /** The running total is right, or nothing valid is left. */
  ghost predicate TotalRight(fs: seq<FrameEntry>, log: seq<FrameLog>, w: nat, total: int, n: nat)
    requires Scannable(fs, log, w, n)
  {
    || (w >= |fs| && total == Total(log, w - |fs| + 1, n))
    || (forall v :: |log| < v <= w ==> !Entry(fs, v).valid)
  }

  predicate Fits(log: seq<FrameLog>, v: nat, count: nat, n: nat)
  {
    count <= v < |log| + count && Total(log, v - count, n) < n
  }

  /** What scanning back from position `w` leaves. */
  ghost predicate Scanned(fs: seq<FrameEntry>, log: seq<FrameLog>, w: nat, last: nat, n: nat,
                          r: (seq<FrameEntry>, nat))
    requires Scannable(fs, log, w, n) && |r.0| == |fs|
  {
    var F, T := |fs|, |log|;
    && (forall v :: T < v <= w ==> Entry(r.0, v).valid == Fits(log, v, F, n))
    && (forall v :: w < v <= T + F ==> Entry(r.0, v) == Entry(fs, v))
    && r.1 == if w > T && Fits(log, w, F, n)
              then SlotOf(Oldest(log, w - F, Window(T, F), n), F) else last
  }

  lemma {:induction false} StompFlags(fs: seq<FrameEntry>, log: seq<FrameLog>, w: nat, total: int, last: nat, n: nat)
    requires Scannable(fs, log, w, n) && TotalRight(fs, log, w, total, n) && last < |fs|
    ensures Scanned(fs, log, w, last, n, Stomp(fs, SlotOf(|log|, |fs|), SlotOf(w, |fs|), total, last, n))
    decreases w
  {
    hide EntryFor, TraceCount, Total;
    var F, T := |fs|, |log|;
    if w > T {
      Distinct(T, w, F);
      IncIsSuccessor(w - 1, F);
      if !Entry(fs, w).valid {
        StompSkips(fs, log, w, total, last, n);
      } else {
        StompCounts(fs, log, w, total, last, n);
      }
    }
  }

  lemma {:induction false} StompSkips(fs: seq<FrameEntry>, log: seq<FrameLog>, w: nat, total: int, last: nat, n: nat)
    requires Scannable(fs, log, w, n) && last < |fs| && w > |log| && !Entry(fs, w).valid
    requires SlotOf(w, |fs|) != SlotOf(|log|, |fs|) && Dec(SlotOf(w, |fs|), |fs|) == SlotOf(w - 1, |fs|)
    ensures Scanned(fs, log, w, last, n, Stomp(fs, SlotOf(|log|, |fs|), SlotOf(w, |fs|), total, last, n))
    decreases w, 0
  {
    hide EntryFor, TraceCount, Total, SlotOf, Oldest;
    var F, T := |fs|, |log|;
    assert w >= F ==> EntryMatches(fs, log, w, n);
    assert w - 1 > T && w - 1 >= F ==> EntryMatches(fs, log, w - 1, n);
    assert !Fits(log, w, F, n);
    assert w - 1 > T ==> !Entry(fs, w - 1).valid;
    assert w - 1 > T ==> !Fits(log, w - 1, F, n);
    StompFlags(fs, log, w - 1, total, last, n);
    var r := Stomp(fs, SlotOf(T, F), SlotOf(w - 1, F), total, last, n);
    assert Entry(r.0, w) == Entry(fs, w);
  }

  lemma {:induction false} StompCounts(fs: seq<FrameEntry>, log: seq<FrameLog>, w: nat, total: int, last: nat, n: nat)
    requires Scannable(fs, log, w, n) && TotalRight(fs, log, w, total, n) && last < |fs|
    requires w > |log| && Entry(fs, w).valid
    requires SlotOf(w, |fs|) != SlotOf(|log|, |fs|) && Dec(SlotOf(w, |fs|), |fs|) == SlotOf(w - 1, |fs|)
    ensures Scanned(fs, log, w, last, n, Stomp(fs, SlotOf(|log|, |fs|), SlotOf(w, |fs|), total, last, n))
    decreases w, 1
  {
    hide EntryFor, TraceCount, SlotOf, Total, Scanned, Oldest, Stomp;
    assert EntryMatches(fs, log, w, n);
    TotalGrows(fs, log, w, total, n);
    if total + TraceCount(fs[SlotOf(w, |fs|)], n) + 1 < n {
      StompKeeps(fs, log, w, total, last, n);
    } else {
      StompClears(fs, log, w, total, last, n);
    }
  }

  lemma TotalGrows(fs: seq<FrameEntry>, log: seq<FrameLog>, w: nat, total: int, n: nat)
    requires Scannable(fs, log, w, n) && TotalRight(fs, log, w, total, n) && w > |log| && Entry(fs, w).valid
    ensures w >= |fs| && total + TraceCount(fs[SlotOf(w, |fs|)], n) + 1 == Total(log, w - |fs|, n)
  {
    hide EntryFor, TraceCount, SlotOf;
    assert w >= |fs|;
    assert EntryMatches(fs, log, w, n);
    TraceCountIsCost(log[w - |fs|], true, n);
  }

  lemma {:induction false} StompKeeps(fs: seq<FrameEntry>, log: seq<FrameLog>, w: nat, total: int, last: nat, n: nat)
    requires Scannable(fs, log, w, n) && w > |log| && w >= |fs| && Entry(fs, w).valid && last < |fs|
    requires total + TraceCount(fs[SlotOf(w, |fs|)], n) + 1 == Total(log, w - |fs|, n) < n
    requires SlotOf(w, |fs|) != SlotOf(|log|, |fs|) && Dec(SlotOf(w, |fs|), |fs|) == SlotOf(w - 1, |fs|)
    ensures Scanned(fs, log, w, last, n, Stomp(fs, SlotOf(|log|, |fs|), SlotOf(w, |fs|), total, last, n))
    decreases w, 0
  {
    hide EntryFor, TraceCount, SlotOf, Oldest;
    var i := SlotOf(w, |fs|);
    StompFlags(fs, log, w - 1, total + TraceCount(fs[i], n) + 1, i, n);
    OldestStep(log, w, |fs|, n);
  }

  lemma {:induction false} StompClears(fs: seq<FrameEntry>, log: seq<FrameLog>, w: nat, total: int, last: nat, n: nat)
    requires Scannable(fs, log, w, n) && w > |log| && w >= |fs| && Entry(fs, w).valid && last < |fs|
    requires total + TraceCount(fs[SlotOf(w, |fs|)], n) + 1 == Total(log, w - |fs|, n) >= n
    requires SlotOf(w, |fs|) != SlotOf(|log|, |fs|) && Dec(SlotOf(w, |fs|), |fs|) == SlotOf(w - 1, |fs|)
    ensures Scanned(fs, log, w, last, n, Stomp(fs, SlotOf(|log|, |fs|), SlotOf(w, |fs|), total, last, n))
    decreases w, 0
  {
    hide EntryFor, TraceCount, SlotOf, Oldest;
    var F, T, i := |fs|, |log|, SlotOf(w, |fs|);
    var fs1 := fs[i := fs[i].(valid := false)];
    OneFlagOff(fs, log, w, n);
    StompFlags(fs1, log, w - 1, total + TraceCount(fs[i], n) + 1, last, n);
    if w - 1 > T && w - 1 >= F { TotalMonotone(log, w - 1 - F, w - F, n); }
  }

  lemma OneFlagOff(fs: seq<FrameEntry>, log: seq<FrameLog>, w: nat, n: nat)
    requires Scannable(fs, log, w, n) && w > |log|
    ensures var fs1 := fs[SlotOf(w, |fs|) := Entry(fs, w).(valid := false)];
      && (forall v :: |log| < v <= |log| + |fs| && v != w ==> Entry(fs1, v) == Entry(fs, v))
      && !Entry(fs1, w).valid
      && Scannable(fs1, log, w - 1, n)
  {
    hide EntryFor, Total, SlotOf;
    var F, T, i := |fs|, |log|, SlotOf(w, |fs|);
    var fs1 := fs[i := fs[i].(valid := false)];
    forall v | T < v <= T + F && v != w
      ensures Entry(fs1, v) == Entry(fs, v)
    {
      if v < w { Distinct(v, w, F); } else { Distinct(w, v, F); }
    }
    forall v | T < v <= w - 1 && v >= F
      ensures EntryMatches(fs1, log, v, n)
    {
      assert EntryMatches(fs, log, v, n);
    }
  }

  lemma OldestStep(log: seq<FrameLog>, w: nat, F: nat, n: nat)
    requires F >= 2 && |log| >= 1 && |log| < w < |log| + F && Fits(log, w, F, n)
    ensures SlotOf(Oldest(log, w - F, Window(|log|, F), n), F)
         == if w - 1 > |log| && Fits(log, w - 1, F, n)
            then SlotOf(Oldest(log, w - 1 - F, Window(|log|, F), n), F) else SlotOf(w, F)
  {
  }

  // ------------------------------------------------------------- one capture

  ghost predicate Ready(x: Xray, pos: nat)
  {
    Wf(x) && x.index == SlotOf(pos, |x.buffer|)
  }

  /** The frame's slots: a marker at `pos`, then the calls. */
  lemma StartThenRun(x: Xray, calls: Calls, pos: nat)
    requires Ready(x, pos)
    ensures var k, y, z := Size(calls, 1, x.maxDepth), StartFrame(x), Run(StartFrame(x), calls);
      && Capturing(y, pos + 1) && Ran(y, z, pos + 1, pos + 1 + k)
      && (k < |x.buffer| ==> Reads(z.buffer, calls, 1, x.maxDepth, pos + 1))
  {
    hide SlotOf, Size, Run, WritesOver, Reads, WithDepthAddr;
    assert Inc(x.index, |x.buffer|) == SlotOf(pos + 1, |x.buffer|) by { IncIsSuccessor(pos, |x.buffer|); }
    var y := StartFrame(x);
    RunWrites(y, calls, pos + 1);
    if Size(calls, 1, x.maxDepth) < |x.buffer| { RunReads(y, calls, pos + 1); }
  }

  /** The marker survives exactly when the frame used fewer slots than the ring has. */
  lemma MarkerExact(x: Xray, calls: Calls, pos: nat)
    requires Ready(x, pos)
    ensures DepthAddr(Run(StartFrame(x), calls).buffer[x.index]) == FRAME_MARKER
       <==> Size(calls, 1, x.maxDepth) < |x.buffer|
  {
    hide Size, Run, Reads, WithDepthAddr, DepthAddr;
    var n, k, z := |x.buffer|, Size(calls, 1, x.maxDepth), Run(StartFrame(x), calls);
    StartThenRun(x, calls, pos);
    MarkerReadBack(x.buffer[x.index]);
    MarkerReadBack(z.buffer[x.index]);
    if k < n {
      OutsideMeansSame(StartFrame(x).buffer, z.buffer, pos, pos + 1, pos + 1, pos + 1 + k);
      assert At(z.buffer, pos) == At(StartFrame(x).buffer, pos);
    } else {
      assert SlotOf(pos + n, n) == x.index;
      assert Touched(x.index, pos + 1, pos + 1 + k, n);
    }
  }

  /** Ending a frame that used the whole ring resets the profiler. */
  lemma OverflowResets(x: Xray, calls: Calls, pos: nat)
    requires Ready(x, pos) && Size(calls, 1, x.maxDepth) >= |x.buffer|
    ensures Inv(Session(Capture(x, calls), [], 0))
    ensures |Capture(x, calls).buffer| == |x.buffer| && |Capture(x, calls).frames| == |x.frames|
  {
    hide Size, Run, Reads, WithDepthAddr, DepthAddr, WritesOver, Closed;
    StartThenRun(x, calls, pos);
    MarkerExact(x, calls, pos);
    MarkerIndex(x, pos);
  }

  lemma MarkerIndex(x: Xray, pos: nat)
    requires Ready(x, pos)
    ensures Dec(StartFrame(x).frames[x.head].start, |x.buffer|) == x.index
    ensures StartFrame(x).frames[x.head].start == SlotOf(pos + 1, |x.buffer|)
  {
    IncIsSuccessor(pos, |x.buffer|);
  }

  /** Ending a frame that fits keeps everything outside its slots and marker. */
  lemma CaptureFits(x: Xray, calls: Calls, pos: nat)
    requires Ready(x, pos) && Size(calls, 1, x.maxDepth) < |x.buffer|
    ensures var k, y, n := Size(calls, 1, x.maxDepth), Capture(x, calls), |x.buffer|;
      && |y.buffer| == n && SameOutside(x.buffer, y.buffer, pos, pos + 1 + k)
      && Reads(y.buffer, calls, 1, x.maxDepth, pos + 1)
      && y.index == SlotOf(pos + 1 + k, n) && !y.recording && y.maxDepth == x.maxDepth
      && y.head == Inc(x.head, |x.frames|)
      && (y.frames, y.tail) == Table(x, SlotOf(pos + 1, n), SlotOf(pos + 1 + k, n))
  {
    hide Size, Run, Reads, WithDepthAddr, DepthAddr, Stomp, SlotOf, FindTail;
    var n, k, z := |x.buffer|, Size(calls, 1, x.maxDepth), Run(StartFrame(x), calls);
    StartThenRun(x, calls, pos);
    MarkerExact(x, calls, pos);
    MarkerIndex(x, pos);
    CaptureBuffer(x, z.buffer, calls, pos);
    assert z.frames == StartFrame(x).frames && z.head == x.head && z.tail == x.tail;
    var e := FrameEntry(SlotOf(pos + 1, n), SlotOf(pos + 1 + k, n), true);
    assert z.frames[x.head := z.frames[x.head].(end := z.index, valid := true)] == x.frames[x.head := e];
  }

  /** A frame that fits leaves an empty annotation where its marker was. */
  lemma MarkerBecomesEmptyText(x: Xray, calls: Calls, pos: nat)
    requires Ready(x, pos) && Size(calls, 1, x.maxDepth) < |x.buffer|
    ensures var b := Capture(x, calls).buffer;
      At(b, pos)[..4] == [0, 0, 0, 0] && Scan(b, pos, 1, |b|) == Some(([], 1))
  {
    hide Size, Run, Reads, SlotOf, FindTail, WithDepthAddr, DepthAddr;
    StartThenRun(x, calls, pos);
    MarkerExact(x, calls, pos);
    MarkerIndex(x, pos);
    var z := Run(StartFrame(x), calls);
    assert z.frames == StartFrame(x).frames && z.head == x.head;
    var b := Capture(x, calls).buffer;
    assert At(b, pos) == WithDepthAddr(z.buffer[x.index], NULL_ANNOTATION);
    EmptyText(b, pos, z.buffer[x.index]);
  }

  lemma EmptyText(b: Ring, p: nat, s: Slot)
    requires At(b, p) == WithDepthAddr(s, NULL_ANNOTATION)
    ensures At(b, p)[..4] == [0, 0, 0, 0] && Scan(b, p, 1, |b|) == Some(([], 1))
  {
    hide SlotOf;
    assert Le(0, 1) == [0] && Le(0, 2) == [0, 0] && Le(0, 3) == [0, 0, 0];
    assert Le(0, 4) == [0, 0, 0, 0];
    var t := At(b, p);
    assert t[1] == 0 && t[1..][0] == 0;
    assert ZeroFrom(t, 1) == 1 && t[1..1] == [];
  }

  /** Calls made while no frame is being captured leave no trace. */
  lemma {:induction false} NothingRecorded(x: Xray, cs: Calls)
    requires Wf(x) && !x.recording
    ensures Run(x, cs) == x
    decreases cs
  {
    if cs.Call? {
      NothingRecorded(x, cs.inner);
      NothingRecorded(x, cs.next);
    }
  }

  /** The frame table after closing a frame with this start and end. */
  function Table(x: Xray, start: nat, end: nat): (r: (seq<FrameEntry>, nat))
    requires Wf(x)
    ensures |r.0| == |x.frames|
  {
    var fs := x.frames[x.head := FrameEntry(start, end, true)];
    var head := Inc(x.head, |fs|);
    FindTail(fs, head, if head == x.tail then Inc(x.tail, |fs|) else x.tail, |x.buffer|)
  }

  lemma CaptureBuffer(x: Xray, b: Ring, calls: Calls, pos: nat)
    requires Ready(x, pos) && Size(calls, 1, x.maxDepth) < |x.buffer|
    requires var k := Size(calls, 1, x.maxDepth);
      && SameOutside(StartFrame(x).buffer, b, pos + 1, pos + 1 + k)
      && Reads(b, calls, 1, x.maxDepth, pos + 1)
    ensures var k := Size(calls, 1, x.maxDepth);
      var c: Ring := b[x.index := WithDepthAddr(b[x.index], NULL_ANNOTATION)];
      && SameOutside(x.buffer, c, pos, pos + 1 + k)
      && Reads(c, calls, 1, x.maxDepth, pos + 1)
  {
    hide Size, Reads, WithDepthAddr;
    var n, k := |x.buffer|, Size(calls, 1, x.maxDepth);
    var c: Ring := b[x.index := WithDepthAddr(b[x.index], NULL_ANNOTATION)];
    assert Touched(x.index, pos, pos + 1 + k, n);
    forall i | 0 <= i < n && !Touched(i, pos, pos + 1 + k, n)
      ensures c[i] == x.buffer[i]
    {
      assert !Touched(i, pos + 1, pos + 1 + k, n);
    }
    var c' := OneSlotOutside(b, pos, c[x.index], pos + 1 + k);
    ReadsLocal(b, c, calls, 1, x.maxDepth, pos + 1);
  }

  // --------------------------------------------------------- the frame table

  /** The table with the new frame entered is ready to be scanned. */
  lemma TableScannable(was: seq<FrameEntry>, log: seq<FrameLog>, f: FrameLog, n: nat)
    requires |was| >= 2 && n > 0 && Flags(was, log, n)
    requires |f.slots| < n && forall t :: 0 <= t < |log| ==> |log[t].slots| < n
    ensures Scannable(was[SlotOf(|log|, |was|) := EntryFor(f, true, n)], log + [f], |log| + |was|, n)
  {
    hide EntryFor, SlotOf, Total, Entry, EntryMatches, Flags;
    var F, T, log' := |was|, |log| + 1, log + [f];
    var fs := was[SlotOf(|log|, F) := EntryFor(f, true, n)];
    forall v | T < v <= T + F - 1 && v >= F
      ensures EntryMatches(fs, log', v, n)
    {
      TableEntry(was, log, f, v - F, n);
    }
    forall v | T < v <= T + F - 1 && v < F
      ensures !Entry(fs, v).valid
    {
      TableGap(was, log, f, v, n);
    }
    forall v, v' | T < v' <= v <= T + F - 1 && !Entry(fs, v).valid
      ensures !Entry(fs, v').valid
    {
      TableOlder(was, log, f, v', v, n);
    }
  }

  lemma TableEntry(was: seq<FrameEntry>, log: seq<FrameLog>, f: FrameLog, t: nat, n: nat)
    requires |was| >= 2 && n > 0 && Flags(was, log, n)
    requires t <= |log| < t + |was|
    ensures var fs, log' := was[SlotOf(|log|, |was|) := EntryFor(f, true, n)], log + [f];
      && EntryMatches(fs, log', t + |was|, n)
      && Entry(fs, t + |was|).valid == (t == |log| || Total(log, t, n) < n)
  {
    hide SlotOf, Total;
    SlotOfLap(t, |was|);
    if t < |log| {
      Distinct(t, |log|, |was|);
      TotalAppend(log, f, t, n);
      assert Shown(t, |log|, |was|);
    }
  }

  /** Entries no frame has reached yet are not flagged. */
  lemma TableGap(was: seq<FrameEntry>, log: seq<FrameLog>, f: FrameLog, v: nat, n: nat)
    requires |was| >= 2 && n > 0 && Flags(was, log, n) && |log| < v < |was|
    ensures !Entry(was[SlotOf(|log|, |was|) := EntryFor(f, true, n)], v).valid
  {
    hide EntryFor, Total;
    SlotOfSmall(v, |was|);
    SlotOfSmall(|log|, |was|);
  }

  /** A frame older than an unflagged one is not flagged. */
  lemma TableOlder(was: seq<FrameEntry>, log: seq<FrameLog>, f: FrameLog, v: nat, w: nat, n: nat)
    requires |was| >= 2 && n > 0 && Flags(was, log, n)
    requires |log| + 1 < v <= w <= |log| + |was|
    requires !Entry(was[SlotOf(|log|, |was|) := EntryFor(f, true, n)], w).valid
    ensures !Entry(was[SlotOf(|log|, |was|) := EntryFor(f, true, n)], v).valid
  {
    hide EntryFor, SlotOf, Total, Entry, EntryMatches, Flags;
    var F := |was|;
    if v < F {
      TableGap(was, log, f, v, n);
    } else {
      TableEntry(was, log, f, v - F, n);
      TableEntry(was, log, f, w - F, n);
      TotalMonotone(log, v - F, w - F, n);
    }
  }

  /** Closing a frame keeps the flags in closed form and the tail at the oldest
      valid frame. */
  lemma TableFlags(x: Xray, log: seq<FrameLog>, f: FrameLog)
    requires Wf(x) && |x.frames| >= 2 && x.head == SlotOf(|log|, |x.frames|)
    requires Flags(x.frames, log, |x.buffer|)
    requires |f.slots| < |x.buffer| && forall t :: 0 <= t < |log| ==> |log[t].slots| < |x.buffer|
    ensures var n, F, log' := |x.buffer|, |x.frames|, log + [f];
      var (fs, tail) := Table(x, SlotOf(f.start, n), SlotOf(End(f), n));
      && |fs| == F && Flags(fs, log', n)
      && tail == SlotOf(Oldest(log', |log'| - 1, Window(|log'|, F), n), F)
  {
    hide SlotOf, Total, Stomp, Oldest, Scannable, Scanned, Flags, EntryFor, Table;
    var n, F, T, log' := |x.buffer|, |x.frames|, |log| + 1, log + [f];
    var fs := x.frames[x.head := EntryFor(f, true, n)];
    var w := |log| + F;
    TableScannable(x.frames, log, f, n);
    TotalStartsRight(fs, log', w, n);
    StompFlags(fs, log', w, 0, SlotOf(w, F), n);
    var r := Stomp(fs, SlotOf(T, F), SlotOf(w, F), 0, SlotOf(w, F), n);
    TableIsStomp(x, |log|, f);
    ScannedFlags(x.frames, log, f, fs, r, n);
    ScannedTail(fs, log', w, n, r);
  }

  lemma TotalStartsRight(fs: seq<FrameEntry>, log: seq<FrameLog>, w: nat, n: nat)
    requires Scannable(fs, log, w, n) && w == |log| + |fs| - 1
    ensures TotalRight(fs, log, w, 0, n)
  {
  }

  lemma TableIsStomp(x: Xray, t: nat, f: FrameLog)
    requires Wf(x) && |x.frames| >= 2 && x.head == SlotOf(t, |x.frames|)
    ensures var n, F := |x.buffer|, |x.frames|;
      Table(x, SlotOf(f.start, n), SlotOf(End(f), n))
      == Stomp(x.frames[x.head := EntryFor(f, true, n)], SlotOf(t + 1, F), SlotOf(t + F, F), 0, SlotOf(t + F, F), n)
  {
    hide SlotOf, Stomp;
    IncIsSuccessor(t, |x.frames|);
    SlotOfLap(t, |x.frames|);
  }

  lemma ScannedTail(fs: seq<FrameEntry>, log: seq<FrameLog>, w: nat, n: nat, r: (seq<FrameEntry>, nat))
    requires Scannable(fs, log, w, n) && w == |log| + |fs| - 1 && |r.0| == |fs|
    requires Scanned(fs, log, w, SlotOf(w, |fs|), n, r)
    ensures r.1 == SlotOf(Oldest(log, |log| - 1, Window(|log|, |fs|), n), |fs|)
  {
    hide SlotOf, Total, EntryFor;
    if !Fits(log, w, |fs|, n) {
      SlotOfLap(|log| - 1, |fs|);
      OldestWhenNewestStomped(log, Window(|log|, |fs|), n);
    }
  }

  lemma OldestWhenNewestStomped(log: seq<FrameLog>, lo: nat, n: nat)
    requires lo < |log| && Total(log, |log| - 1, n) >= n
    ensures Oldest(log, |log| - 1, lo, n) == |log| - 1
  {
    if |log| >= 2 { TotalMonotone(log, |log| - 2, |log| - 1, n); }
  }

  lemma ScannedFlags(was: seq<FrameEntry>, log: seq<FrameLog>, f: FrameLog, fs0: seq<FrameEntry>,
                     r: (seq<FrameEntry>, nat), n: nat)
    requires |was| >= 2 && n > 0 && Flags(was, log, n)
    requires fs0 == was[SlotOf(|log|, |was|) := EntryFor(f, true, n)] && |r.0| == |fs0|
    requires forall k :: 0 <= k < |fs0| ==> r.0[k] == fs0[k].(valid := r.0[k].valid)
    requires Scannable(fs0, log + [f], |log| + |was|, n)
    requires Scanned(fs0, log + [f], |log| + |was|, SlotOf(|log| + |was|, |was|), n, r)
    ensures Flags(r.0, log + [f], n)
  {
    hide SlotOf, Total, Oldest, Entry, EntryMatches, EntryFor, Fits;
    var F, T, log' := |was|, |log| + 1, log + [f];
    forall t | 0 <= t < T && Shown(t, T, F)
      ensures r.0[SlotOf(t, F)] == EntryFor(log'[t], Total(log', t, n) < n, n)
    {
      assert EntryMatches(fs0, log', t + F, n);
      assert Entry(r.0, t + F).valid == Fits(log', t + F, F, n);
      ScannedEntry(fs0, log', r.0, t, n);
    }
    forall i | T <= i < F
      ensures !r.0[i].valid
    {
      ScannedLater(was, log, f, fs0, r, i, n);
    }
  }

  lemma ScannedLater(was: seq<FrameEntry>, log: seq<FrameLog>, f: FrameLog, fs0: seq<FrameEntry>,
                     r: (seq<FrameEntry>, nat), i: nat, n: nat)
    requires |was| >= 2 && n > 0 && Flags(was, log, n) && |log| + 1 <= i < |was|
    requires fs0 == was[SlotOf(|log|, |was|) := EntryFor(f, true, n)] && |r.0| == |fs0|
    requires Scannable(fs0, log + [f], |log| + |was|, n)
    requires Scanned(fs0, log + [f], |log| + |was|, SlotOf(|log| + |was|, |was|), n, r)
    ensures !r.0[i].valid
  {
    hide SlotOf, Total, Oldest, Entry, EntryMatches, EntryFor, Fits;
    var F, T, log' := |was|, |log| + 1, log + [f];
    if i > T {
      assert Entry(r.0, i).valid == Fits(log', i, F, n);
      NotYetFits(log', i, F, n);
    }
    assert Entry(r.0, T + F) == Entry(fs0, T + F);
    ScannedGap(was, log, fs0, r.0, i, n);
  }

  lemma ScannedEntry(fs0: seq<FrameEntry>, log: seq<FrameLog>, fs: seq<FrameEntry>, t: nat, n: nat)
    requires |fs| == |fs0| >= 2 && n > 0 && t < |log| && EntryMatches(fs0, log, t + |fs0|, n)
    requires forall k :: 0 <= k < |fs0| ==> fs[k] == fs0[k].(valid := fs[k].valid)
    requires Entry(fs, t + |fs|).valid == Fits(log, t + |fs|, |fs|, n)
    ensures fs[SlotOf(t, |fs|)] == EntryFor(log[t], Total(log, t, n) < n, n)
  {
    hide SlotOf, Total;
    SlotOfLap(t, |fs|);
  }

  lemma NotYetFits(log: seq<FrameLog>, v: nat, count: nat, n: nat)
    requires v < count
    ensures !Fits(log, v, count, n)
  {
  }

  lemma ScannedGap(was: seq<FrameEntry>, log: seq<FrameLog>, fs0: seq<FrameEntry>, fs: seq<FrameEntry>, i: nat, n: nat)
    requires n > 0 && 2 <= |was| == |fs0| == |fs| && |log| + 1 <= i < |was| && Flags(was, log, n)
    requires fs0[i] == was[i] || i == SlotOf(|log|, |was|)
    requires i > |log| + 1 ==> !Entry(fs, i).valid
    requires i == |log| + 1 ==> Entry(fs, i + |fs|) == Entry(fs0, i + |fs|)
    ensures !fs[i].valid
  {
    hide EntryFor, Total;
    SlotOfSmall(i, |was|);
    SlotOfSmall(|log|, |was|);
    SlotOfLap(i, |was|);
  }

  // ------------------------------------------------------------ every history

  lemma ChainedAppend(log: seq<FrameLog>, pos: nat, f: FrameLog, n: nat)
    requires Chained(log, pos, n) && f.start == pos + 1 && f.max < STACK_SIZE
    requires |f.slots| == Size(f.calls, 1, f.max) < n
    ensures Chained(log + [f], End(f), n)
  {
    hide Size;
  }

  /** A frame the new one does not reach round to was not written over by it. */
  lemma StaysIntact(b: Ring, c: Ring, log: seq<FrameLog>, pos: nat, end: nat, t: nat)
    requires t < |log| && Chained(log, pos, |b|) && |c| == |b|
    requires pos <= end <= log[t].start + |b|
    requires SameOutside(b, c, pos, end) && Intact(b, log[t])
    ensures Intact(c, log[t])
  {
    hide Reads, Size, At;
    EndsBefore(log, pos, t, |b|);
    OutsideMeansSame(b, c, log[t].start, End(log[t]), pos, end);
    ReadsLocal(b, c, log[t].calls, 1, log[t].max, log[t].start);
  }

  lemma {:induction false} EndsBefore(log: seq<FrameLog>, pos: nat, t: nat, n: nat)
    requires t < |log| && Chained(log, pos, n)
    ensures End(log[t]) <= pos
    decreases |log| - t
  {
    if t + 1 < |log| { EndsBefore(log, pos, t + 1, n); }
  }

  lemma FrameKeepsInv(s: Session, calls: Calls)
    requires Inv(s)
    ensures Inv(Step(s, Frame(calls)))
  {
    hide Size, Reads, Capture, Total, Flags, Chained, Intact, Wf, Oldest;
    var k, n, y := Size(calls, 1, s.x.maxDepth), |s.x.buffer|, Capture(s.x, calls);
    if k >= n {
      OverflowResets(s.x, calls, s.pos);
    } else {
      CaptureFits(s.x, calls, s.pos);
      var f := FrameLog(s.pos + 1, calls, s.x.maxDepth, SlotsOf(y.buffer, s.pos + 1, k));
      FrameFitsKeepsInv(s, y, f);
    }
  }

  /** `y` is what a frame that fits, logged as `f`, leaves of the profiler. */
  ghost predicate FittingFrame(s: Session, y: Xray, f: FrameLog)
    requires Wf(s.x)
  {
    && f.start == s.pos + 1 && f.max == s.x.maxDepth
    && |f.slots| == Size(f.calls, 1, f.max) < |s.x.buffer|
    && Wf(y) && |y.buffer| == |s.x.buffer|
    && f.slots == SlotsOf(y.buffer, f.start, |f.slots|)
    && SameOutside(s.x.buffer, y.buffer, s.pos, End(f))
    && Reads(y.buffer, f.calls, 1, f.max, f.start)
    && y.index == SlotOf(End(f), |y.buffer|) && !y.recording && y.head == Inc(s.x.head, |s.x.frames|)
    && (y.frames, y.tail) == Table(s.x, SlotOf(f.start, |y.buffer|), SlotOf(End(f), |y.buffer|))
  }

  lemma FramesKept(s: Session, y: Xray, f: FrameLog)
    requires Inv(s) && FittingFrame(s, y, f)
    ensures var s' := Session(y, s.log + [f], End(f));
      forall t :: 0 <= t < |s'.log| && Unstomped(s', t) ==> Intact(y.buffer, s'.log[t])
  {
    hide Size, Reads, Table, Flags, TailOk, Wf, SlotOf, At;
    var s' := Session(y, s.log + [f], End(f));
    forall t | 0 <= t < |s'.log| && Unstomped(s', t)
      ensures Intact(y.buffer, s'.log[t])
    {
      if t < |s.log| {
        assert Unstomped(s, t);
        StaysIntact(s.x.buffer, y.buffer, s.log, s.pos, End(f), t);
      }
    }
  }

  lemma SlotsBelow(s: Session)
    requires Inv(s)
    ensures forall t :: 0 <= t < |s.log| ==> |s.log[t].slots| < |s.x.buffer|
  {
    hide Size, Flags, TailOk, Wf, SlotOf, Intact, Unstomped;
  }

  lemma FrameLogged(s: Session, y: Xray, f: FrameLog)
    requires Inv(s) && FittingFrame(s, y, f)
    ensures Chained(s.log + [f], End(f), |y.buffer|)
  {
    hide Size, Flags, TailOk, SlotOf, Intact, Unstomped, Chained, Reads, Table, SameOutside;
    ChainedAppend(s.log, s.pos, f, |y.buffer|);
  }

  lemma OneEntryFlags(s: Session, y: Xray, f: FrameLog)
    requires |y.frames| == 1 && |y.buffer| > 0
    ensures Flags(y.frames, s.log + [f], |y.buffer|)
  {
  }

  lemma FrameFitsKeepsInv(s: Session, y: Xray, f: FrameLog)
    requires Inv(s) && FittingFrame(s, y, f)
    ensures Inv(Session(y, s.log + [f], End(f)))
  {
    hide Size, Reads, Total, SlotOf, Oldest, Table, EntryFor, Intact, Unstomped, Flags, SameOutside, SlotsOf, Chained;
    FrameLogged(s, y, f);
    IncIsSuccessor(|s.log|, |s.x.frames|);
    FramesKept(s, y, f);
    if |s.x.frames| >= 2 { SlotsBelow(s); TableFlags(s.x, s.log, f); } else { OneEntryFlags(s, y, f); }
  }

  lemma StepKeepsInv(s: Session, a: Action)
    requires Inv(s)
    ensures Inv(Step(s, a))
  {
    hide Size, Reads, Capture, Total, Chained, Oldest, EntryFor;
    match a
    case Frame(calls) => FrameKeepsInv(s, calls);
    case Restart => NoFramesInv(Reset(s.x));
    case Limit(d) =>
  }

  lemma NoFramesInv(x: Xray)
    requires Wf(x) && !x.recording && x.index == 0 && x.head == 0 && x.tail == 0
    requires forall i :: 0 <= i < |x.frames| ==> !x.frames[i].valid
    ensures Inv(Session(x, [], 0))
  {
  }

  /** Every history, from initialisation on, keeps the invariant. */
  lemma {:induction false} HistoryKeepsInv(s: Session, acts: seq<Action>)
    requires Inv(s)
    ensures Inv(History(s, acts))
    decreases |acts|
  {
    hide Flags, Chained, TailOk, Intact, Step, Total;
    if acts != [] {
      StepKeepsInv(s, acts[0]);
      HistoryKeepsInv(Step(s, acts[0]), acts[1..]);
    }
  }

  function Fresh(n: nat, frameCount: nat, maxDepth: nat): (s: Session)
    requires 0 < n < RING_LIMIT && 1 <= maxDepth < STACK_SIZE
    ensures Wf(s.x)
  {
    Session(Init(n, frameCount, maxDepth), [], 0)
  }

  // ------------------------------------------------------------- main results

  /** The session after any history that starts with XRayInit. */
  ghost predicate Reachable(s: Session)
  {
    exists n, frameCount, maxDepth, acts ::
      && 0 < n < RING_LIMIT && 1 <= maxDepth < STACK_SIZE
      && s == History(Fresh(n, frameCount, maxDepth), acts)
  }

  lemma ReachableInv(s: Session)
    requires Reachable(s)
    ensures Inv(s)
  {
    hide Inv, History;
    var n, frameCount, maxDepth, acts :|
      && 0 < n < RING_LIMIT && 1 <= maxDepth < STACK_SIZE
      && s == History(Fresh(n, frameCount, maxDepth), acts);
    NoFramesInv(Init(n, frameCount, maxDepth));
    HistoryKeepsInv(Fresh(n, frameCount, maxDepth), acts);
  }

  /** Every flagged entry except the one about to be reused belongs to a frame. */
  lemma ShownFrameOf(s: Session, i: nat) returns (t: nat)
    requires Inv(s) && i < |s.x.frames| && i != s.x.head && s.x.frames[i].valid
    ensures t < |s.log| && Shown(t, |s.log|, |s.x.frames|) && SlotOf(t, |s.x.frames|) == i
  {
    hide Total, Chained, TailOk, Intact, EntryFor;
    assert i < |s.log|;
    t := FindPosition(i, |s.log|, |s.x.frames|);
    SlotOfLap(t, |s.x.frames|);
  }

  /** Among the last `n` positions below `z`, the one in slot `i`. */
  lemma {:induction false} FindPosition(i: nat, z: nat, n: nat) returns (t: nat)
    requires i < n && i < z
    ensures t < z <= t + n && SlotOf(t, n) == i
  {
    if z <= n {
      t := i;
    } else if z - n <= i {
      t := i;
    } else {
      var u := FindPosition(i, z - n, n);
      t := u + n;
    }
  }

  /**
   * For every history of frames, resets and depth changes: a frame still
   * flagged valid (other than the entry the next frame will reuse) holds exactly
   * the slots it recorded, and its report lists exactly its calls.
   */
  lemma ValidFrameIsIntact(s: Session, i: nat) returns (t: nat)
    requires Reachable(s) && i < |s.x.frames| && i != s.x.head && s.x.frames[i].valid
    ensures Wf(s.x) && t < |s.log| && SlotOf(t, |s.x.frames|) == i
    ensures Intact(s.x.buffer, s.log[t])
    ensures FrameReport(s.x.buffer, s.x.frames[i].start, s.x.frames[i].end)
         == Some(CallLines(s.log[t].calls, 1, s.log[t].max, s.log[t].start, |s.x.buffer|))
  {
    hide Reachable, Total, Reads, FrameReport, CallLines, Size, TailOk, SlotOf;
    ReachableInv(s);
    t := ShownFrameOf(s, i);
    TotalReachesBack(s.log, t, s.pos, |s.x.buffer|);
    assert Unstomped(s, t);
    ReportIsCallLines(s.x.buffer, s.log[t].calls, s.log[t].max, s.log[t].start);
  }

  /** Slots counted, marker included, from frame `i` forward to the head. */
  function RingTotal(fs: seq<FrameEntry>, i: nat, head: nat, n: nat): int
    requires i < |fs| && head < |fs|
    decreases Ahead(i, head, |fs|)
  {
    if i == head then 0 else TraceCount(fs[i], n) + 1 + RingTotal(fs, Inc(i, |fs|), head, n)
  }

  /** Every frame from `i` forward to the head is valid. */
  predicate RunValid(fs: seq<FrameEntry>, i: nat, head: nat)
    requires i < |fs| && head < |fs|
    decreases Ahead(i, head, |fs|)
  {
    i != head ==> fs[i].valid && RunValid(fs, Inc(i, |fs|), head)
  }

  lemma {:induction false} RunFrom(s: Session, t: nat)
    requires Inv(s) && t <= |s.log| && t + |s.x.frames| > |s.log|
    requires Total(s.log, t, |s.x.buffer|) < |s.x.buffer|
    ensures RunValid(s.x.frames, SlotOf(t, |s.x.frames|), s.x.head)
    ensures RingTotal(s.x.frames, SlotOf(t, |s.x.frames|), s.x.head, |s.x.buffer|) == Total(s.log, t, |s.x.buffer|)
    decreases |s.log| - t
  {
    hide Intact, TailOk, TraceCount, SlotOf;
    var F, n := |s.x.frames|, |s.x.buffer|;
    if t < |s.log| {
      assert Shown(t, |s.log|, F);
      Distinct(t, |s.log|, F);
      IncIsSuccessor(t, F);
      TraceCountIsCost(s.log[t], true, n);
      RunFrom(s, t + 1);
    }
  }

  /**
   * After every history, the frames from tail to head are an unbroken run of
   * valid ones whose slots and markers together are fewer than the ring, and
   * no older entry is flagged; or the newest frame alone did not fit and
   * nothing is flagged.
   */
  lemma TailStartsValidRun(s: Session)
    requires Reachable(s) && s.log != []
    ensures Wf(s.x)
    ensures s.x.frames[s.x.tail].valid ==>
      && RunValid(s.x.frames, s.x.tail, s.x.head)
      && RingTotal(s.x.frames, s.x.tail, s.x.head, |s.x.buffer|) < |s.x.buffer|
    ensures !s.x.frames[s.x.tail].valid ==> s.x.tail == Dec(s.x.head, |s.x.frames|)
    ensures forall i :: 0 <= i < |s.x.frames| && i != s.x.head && s.x.frames[i].valid ==>
      Ahead(i, s.x.head, |s.x.frames|) <= Ahead(s.x.tail, s.x.head, |s.x.frames|)
  {
    hide Reachable, Flags, Chained, TailOk, Intact, Unstomped, RunValid, RingTotal, Oldest, Ahead;
    ReachableInv(s);
    if |s.x.frames| == 1 {
      OneEntry(s);
    } else {
      TailRuns(s);
      forall i | 0 <= i < |s.x.frames| && i != s.x.head && s.x.frames[i].valid
        ensures Ahead(i, s.x.head, |s.x.frames|) <= Ahead(s.x.tail, s.x.head, |s.x.frames|)
      {
        TailIsOldest(s, i);
      }
    }
  }

  /** The unwrapped number of the oldest valid frame, or of the newest if none is. */
  function OldestOf(s: Session): (o: nat)
    requires Wf(s.x) && s.log != []
    ensures Window(|s.log|, |s.x.frames|) <= o
  {
    if Window(|s.log|, |s.x.frames|) >= |s.log| then Window(|s.log|, |s.x.frames|)
    else Oldest(s.log, |s.log| - 1, Window(|s.log|, |s.x.frames|), |s.x.buffer|)
  }

  lemma TailSlot(s: Session)
    requires Inv(s) && s.log != [] && |s.x.frames| >= 2
    ensures OldestOf(s) < |s.log| && Shown(OldestOf(s), |s.log|, |s.x.frames|)
    ensures s.x.tail == SlotOf(OldestOf(s), |s.x.frames|) && s.x.head == SlotOf(|s.log|, |s.x.frames|)
    ensures Total(s.log, OldestOf(s), |s.x.buffer|) < |s.x.buffer| || OldestOf(s) == |s.log| - 1
    ensures s.x.frames[s.x.tail].valid <==> Total(s.log, OldestOf(s), |s.x.buffer|) < |s.x.buffer|
  {
    hide Intact, Unstomped, Chained, SlotOf, Total, Oldest;
    OldestFits(s.log, |s.log| - 1, Window(|s.log|, |s.x.frames|), |s.x.buffer|);
  }

  lemma TailRuns(s: Session)
    requires Inv(s) && s.log != [] && |s.x.frames| >= 2
    ensures s.x.frames[s.x.tail].valid ==>
      && RunValid(s.x.frames, s.x.tail, s.x.head)
      && RingTotal(s.x.frames, s.x.tail, s.x.head, |s.x.buffer|) < |s.x.buffer|
    ensures !s.x.frames[s.x.tail].valid ==> s.x.tail == Dec(s.x.head, |s.x.frames|)
  {
    hide Flags, Chained, TailOk, Intact, Unstomped, RunValid, RingTotal, SlotOf, Total, OldestOf, Shown;
    var F, n, o := |s.x.frames|, |s.x.buffer|, OldestOf(s);
    TailSlot(s);
    if Total(s.log, o, n) < n {
      IsShown(o, |s.log|, F);
      RunFrom(s, o);
    } else {
      IncIsSuccessor(|s.log| - 1, F);
    }
  }

  lemma IsShown(t: nat, frames: nat, count: nat)
    requires Shown(t, frames, count)
    ensures t < frames < t + count
  {
  }

  lemma TailIsOldest(s: Session, i: nat)
    requires Inv(s) && s.log != [] && 2 <= |s.x.frames| && i < |s.x.frames| && i != s.x.head && s.x.frames[i].valid
    ensures Ahead(i, s.x.head, |s.x.frames|) <= Ahead(s.x.tail, s.x.head, |s.x.frames|)
  {
    hide Flags, Chained, TailOk, Intact, Unstomped, SlotOf, Total, Oldest, Ahead;
    var F, n, T, o := |s.x.frames|, |s.x.buffer|, |s.log|, OldestOf(s);
    TailSlot(s);
    var t := ShownFrameOf(s, i);
    AheadMod(o, T - o, F);
    AheadMod(t, T - t, F);
    FlaggedFits(s, t);
    OldestIsFirst(s.log, T - 1, Window(T, F), n, t);
  }

  lemma FlaggedFits(s: Session, t: nat)
    requires Inv(s) && t < |s.log| && Shown(t, |s.log|, |s.x.frames|) && s.x.frames[SlotOf(t, |s.x.frames|)].valid
    ensures Total(s.log, t, |s.x.buffer|) < |s.x.buffer|
  {
    hide Intact, Unstomped, Chained, TailOk, SlotOf, Total;
  }

  lemma OneEntry(s: Session)
    requires Wf(s.x) && |s.x.frames| == 1
    ensures RunValid(s.x.frames, s.x.tail, s.x.head)
    ensures RingTotal(s.x.frames, s.x.tail, s.x.head, |s.x.buffer|) == 0
  {
  }

  lemma {:induction false} OldestFits(log: seq<FrameLog>, t: nat, lo: nat, n: nat)
    requires lo <= t < |log|
    ensures Total(log, Oldest(log, t, lo, n), n) < n || Oldest(log, t, lo, n) == t
    decreases t
  {
    if t > lo && Total(log, t - 1, n) < n { OldestFits(log, t - 1, lo, n); }
  }

  lemma {:induction false} OldestIsFirst(log: seq<FrameLog>, t: nat, lo: nat, n: nat, u: nat)
    requires lo <= t < |log| && lo <= u <= t && Total(log, u, n) < n
    ensures Oldest(log, t, lo, n) <= u
    decreases t
  {
    if u < t {
      TotalMonotone(log, u, t - 1, n);
      OldestIsFirst(log, t - 1, lo, n, u);
    }
  }

  /** A frame is dropped by the marker check exactly when it used the whole ring,
      and then nothing stays flagged. */
  lemma OverflowIsCaught(s: Session, calls: Calls)
    requires Reachable(s)
    ensures Wf(s.x)
    ensures var y, fits := Capture(s.x, calls), Size(calls, 1, s.x.maxDepth) < |s.x.buffer|;
      && (fits ==> y.index == SlotOf(s.pos + 1 + Size(calls, 1, s.x.maxDepth), |s.x.buffer|)
                   && y.head == SlotOf(|s.log| + 1, |s.x.frames|))
      && (!fits ==> y.index == 0 && y.head == 0 && y.tail == 0
                    && forall i :: 0 <= i < |y.frames| ==> !y.frames[i].valid)
  {
    hide Reachable, Size, Total, Reads, Capture, Chained, SlotOf;
    ReachableInv(s);
    if Size(calls, 1, s.x.maxDepth) < |s.x.buffer| {
      CaptureFits(s.x, calls, s.pos);
      IncIsSuccessor(|s.log|, |s.x.frames|);
    } else {
      OverflowResets(s.x, calls, s.pos);
      SlotOfSmall(0, |s.x.frames|);
      SlotOfSmall(0, |s.x.buffer|);
    }
  }
}

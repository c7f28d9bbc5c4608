/**
 * How far the frame flags and the reports can be trusted: when exactly a frame
 * keeps its flag, and when exactly its report keeps every text.
 */
module XrayLimits {
  import opened Wrappers
  import opened RingIndex
  import opened XrayLayout
  import opened XrayCalls
  import opened XrayReport
  import opened XrayTexts
  import opened XrayFrames

  // --------------------------------------------------------------------- flags

  predicate NoneEmpty(log: seq<FrameLog>, t: nat)
  {
    forall u :: t <= u < |log| ==> |log[u].slots| > 0
  }

  /** Without empty frames the cost of frame `t` and all newer ones is the
      distance back to its marker. */
  lemma {:induction false} TotalIsDistance(log: seq<FrameLog>, t: nat, pos: nat, n: nat)
    requires t < |log| && Chained(log, pos, n) && NoneEmpty(log, t)
    ensures Total(log, t, n) == pos + 1 - log[t].start
    decreases |log| - t
  {
    hide Size;
    if t + 1 < |log| { TotalIsDistance(log, t + 1, pos, n); }
  }

  /** One empty frame costs more than the whole ring. */
  lemma {:induction false} EmptyCostsRing(log: seq<FrameLog>, t: nat, u: nat, n: nat)
    requires t <= u < |log| && |log[u].slots| == 0
    ensures Total(log, t, n) > n
    decreases u - t
  {
    if t < u { EmptyCostsRing(log, t + 1, u, n); }
  }

  /** Total in terms of positions. */
  lemma TotalExact(log: seq<FrameLog>, t: nat, pos: nat, n: nat)
    requires t < |log| && Chained(log, pos, n)
    ensures Total(log, t, n) < n <==> NoneEmpty(log, t) && pos + 1 < log[t].start + n
  {
    hide Total, Chained;
    if NoneEmpty(log, t) {
      TotalIsDistance(log, t, pos, n);
    } else {
      var u :| t <= u < |log| && |log[u].slots| == 0;
      EmptyCostsRing(log, t, u, n);
    }
  }

  /** After every history, a frame the table still shows is flagged exactly when
      neither it nor any newer frame is empty and the writing position has not
      come round to its marker, one slot before its start. */
  lemma FlagExact(s: Session, t: nat)
    requires Reachable(s) && t < |s.log| && Shown(t, |s.log|, |s.x.frames|)
    ensures Wf(s.x)
    ensures s.x.frames[SlotOf(t, |s.x.frames|)].valid
       <==> NoneEmpty(s.log, t) && s.pos + 1 < s.log[t].start + |s.x.buffer|
  {
    hide Reachable, Chained, Intact, TailOk, Total, NoneEmpty, Unstomped, SlotOf;
    ReachableInv(s);
    TotalExact(s.log, t, s.pos, |s.x.buffer|);
  }

  /** After every history, the slots of a frame are as it left them, flagged or
      not, as long as the writing position has not come past its start again. */
  lemma UnstompedIsIntact(s: Session, t: nat)
    requires Reachable(s) && t < |s.log| && s.pos <= s.log[t].start + |s.x.buffer|
    ensures Wf(s.x) && Intact(s.x.buffer, s.log[t])
  {
    hide Reachable, Chained, Intact, TailOk, Flags, SlotOf;
    ReachableInv(s);
    assert Unstomped(s, t);
  }

  // --------------------------------------------------------------------- texts

  /** After every history, the report of a frame flagged valid has all its lines,
      at most one of them without its text, and every text if and only if no
      non-empty annotation of the frame landed on slot 0. */
  lemma ReportTextsExact(s: Session, i: nat) returns (t: nat)
    requires Reachable(s) && i < |s.x.frames| && i != s.x.head && s.x.frames[i].valid
    ensures Wf(s.x) && t < |s.log| && SlotOf(t, |s.x.frames|) == i
    ensures var f, n := s.log[t], |s.x.buffer|;
      var report, own := FrameReport(s.x.buffer, s.x.frames[i].start, s.x.frames[i].end), OwnLines(f.calls, 1, f.max);
      && report.Some? && |report.value| == |own| && Differing(report.value, own) <= 1
      && (report.value == own <==> LostTexts(f.calls, 1, f.max, f.start, n) == 0)
  {
    hide Reachable, FrameReport, CallLines, OwnLines, Differing, LostTexts, Size, SlotOf, Reads, Flags, TailOk, Intact;
    t := ValidFrameIsIntact(s, i);
    FrameSize(s, t);
    var f, n := s.log[t], |s.x.buffer|;
    AtMostOneLost(f.calls, 1, f.max, f.start, n);
    TextsKeptExact(f.calls, 1, f.max, f.start, n);
  }

  lemma FrameSize(s: Session, t: nat)
    requires Reachable(s) && t < |s.log|
    ensures Size(s.log[t].calls, 1, s.log[t].max) < |s.x.buffer|
  {
    hide Reachable, Size, SlotOf, Reads, Flags, TailOk, Intact, Wf;
    ReachableInv(s);
  }

  // ------------------------------------------------------------ concrete histories

  /** One call, with an annotation or without. */
  function OneCall(text: Option<Text>): Calls { Call(0, 0, 0, text, NoCalls, NoCalls) }

  /** What a frame that fits leaves behind. */
  lemma OneFrame(s: Session, calls: Calls)
    requires Inv(s) && Size(calls, 1, s.x.maxDepth) < |s.x.buffer|
    ensures var s', k := Step(s, Frame(calls)), Size(calls, 1, s.x.maxDepth);
      && Inv(s') && |s'.x.buffer| == |s.x.buffer| && |s'.x.frames| == |s.x.frames| && s'.x.maxDepth == s.x.maxDepth
      && |s'.log| == |s.log| + 1 && s'.log[..|s.log|] == s.log && s'.pos == s.pos + 1 + k
      && var f := s'.log[|s.log|]; f.start == s.pos + 1 && f.calls == calls && f.max == s.x.maxDepth && |f.slots| == k
  {
    hide Capture, Size, Reads, Flags, Chained, TailOk, Intact, Unstomped, SlotsOf, SlotOf, SameOutside;
    FrameKeepsInv(s, calls);
    CaptureFits(s.x, calls, s.pos);
  }

  lemma IsReachable(n: nat, frameCount: nat, a: Action, b: Action)
    requires 0 < n < RING_LIMIT
    ensures Reachable(Step(Step(Fresh(n, frameCount, 2), a), b))
  {
    hide Step, Wf, Fresh;
    var s := Fresh(n, frameCount, 2);
    assert [a, b][1..] == [b] && [b][1..] == [];
    assert History(Step(s, a), [b]) == History(Step(Step(s, a), b), []);
    assert History(s, [a, b]) == Step(Step(s, a), b);
  }

  /** What two frames that fit in a new ring leave behind. */
  lemma TwoFrames(n: nat, frameCount: nat, a: Calls, b: Calls) returns (s: Session)
    requires 0 < n < RING_LIMIT && Size(a, 1, 2) < n && Size(b, 1, 2) < n
    ensures Reachable(s) && Wf(s.x) && |s.x.buffer| == n && |s.x.frames| == frameCount + 1
    ensures s.x.head == SlotOf(2, frameCount + 1)
    ensures |s.log| == 2 && s.pos == 2 + Size(a, 1, 2) + Size(b, 1, 2)
    ensures s.log[0].start == 1 && s.log[0].calls == a && |s.log[0].slots| == Size(a, 1, 2)
    ensures s.log[1].start == 2 + Size(a, 1, 2) && s.log[1].calls == b && |s.log[1].slots| == Size(b, 1, 2)
    ensures s.log[1].max == 2
  {
    hide Capture, Size, Flags, Chained, TailOk, Intact, Unstomped, Reachable, Step, History, SlotOf;
    var s0 := Fresh(n, frameCount, 2);
    NoFramesInv(s0.x);
    OneFrame(s0, a);
    var s1 := Step(s0, Frame(a));
    OneFrame(s1, b);
    s := Step(s1, Frame(b));
    assert s.log[0] == s.log[..1][0];
    IsReachable(n, frameCount, Frame(a), Frame(b));
  }

  lemma OneCallSize(text: Option<Text>)
    ensures Size(OneCall(text), 1, 2) == 1 + ExtraSlots(text)
  {
    hide ExtraSlots;
    NoCallsSize();
    var cs := OneCall(text);
    assert FirstSize(cs, 1, 2) == 1 + Size(NoCalls, 2, 2) + ExtraSlots(text);
  }

  lemma NoCallsSize()
    ensures Size(NoCalls, 1, 2) == 0 && Size(NoCalls, 2, 2) == 0
  {
  }

  /** In a ring of four slots, after a frame of one call: the record of the next
      frame's annotated call goes to slot 3 and its text to slot 0.  The frame is
      flagged valid, yet reported without its text. */
  lemma TextOnSlotZeroIsLost() returns (s: Session)
    ensures Reachable(s) && Wf(s.x) && |s.x.buffer| == 4 && |s.x.frames| == 2 && s.x.head == 0
    ensures |s.log| == 2 && s.log[0].calls == OneCall(None) && s.log[1].calls == OneCall(Some([65]))
    ensures s.x.frames[1].valid
    ensures FrameReport(s.x.buffer, s.x.frames[1].start, s.x.frames[1].end) == Some([Line(1, 0, 0, [])])
    ensures OwnLines(s.log[1].calls, 1, 2) == [Line(1, 0, 0, [65])]
  {
    hide Size, Reachable, CallLines, FrameReport, Reads, OwnLines;
    OneCallSize(None);
    OneCallSize(Some([65]));
    s := TwoFrames(4, 1, OneCall(None), OneCall(Some([65])));
    FlagExact(s, 1);
    var t := ValidFrameIsIntact(s, 1);
    LostLine();
  }

  lemma LostLine()
    ensures CallLines(OneCall(Some([65])), 1, 2, 3, 4) == [Line(1, 0, 0, [])]
    ensures OwnLines(OneCall(Some([65])), 1, 2) == [Line(1, 0, 0, [65])]
  {
    var b := OneCall(Some([65]));
    assert TextPosition(b, 1, 2, 3) == 4;
    assert CallLines(NoCalls, 2, 2, 4, 4) == [];
    assert CallLines(NoCalls, 1, 2, 3 + FirstSize(b, 1, 2), 4) == [];
  }

  /** A frame of one call followed by an empty frame: its slot is untouched, yet
      its flag is gone. */
  lemma EmptyFrameUnflagsIntactFrame() returns (s: Session)
    ensures Reachable(s) && Wf(s.x) && |s.x.buffer| == 8 && |s.x.frames| == 3
    ensures |s.log| == 2 && s.log[0].calls == OneCall(None) && s.log[1].calls == NoCalls
    ensures |s.log[0].slots| == 1 && Intact(s.x.buffer, s.log[0]) && !s.x.frames[0].valid
  {
    hide Size, Reachable, Reads, Flags, Chained, TailOk, Unstomped, Intact;
    OneCallSize(None);
    NoCallsSize();
    s := TwoFrames(8, 2, OneCall(None), NoCalls);
    FlagExact(s, 0);
    UnstompedIsIntact(s, 0);
  }
}

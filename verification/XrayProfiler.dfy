/**
 * The profiler as the program runs it: arrays and fields updated in place,
 * each operation proved against its specification on states.
 */
module XrayProfiler {
  import opened Wrappers
  import opened RingIndex
  import opened XrayLayout
  import opened XrayCalls
  import opened XrayReport
  import opened XrayFrames

  class Profiler {
    const buffer: array<Slot>
    const stack: array<StackEntry>
    const frames: array<FrameEntry>
    var index: nat
    var depth: nat
    var maxDepth: nat
    var recording: bool
    var head: nat
    var tail: nat

    /** The abstract state the fields and arrays stand for. */
    ghost function State(): Xray
      requires buffer.Length > 0
      reads this, buffer, stack, frames
    {
      Xray(buffer[..], index, stack[..], depth, maxDepth, recording, frames[..], head, tail)
    }

    ghost predicate Valid()
      reads this, buffer, stack, frames
    {
      && buffer.Length > 0 && Wf(State())
      && buffer as object != stack && buffer as object != frames && stack as object != frames
    }

    /** XRayInit, with a positive ring size and the frame count plus one entries. */
    constructor (stackDepth: int, bufferSize: nat, frameCount: nat)
      requires 0 < bufferSize < RING_LIMIT
      ensures Valid() && fresh(buffer) && fresh(stack) && fresh(frames)
      ensures State() == SetMaxStackDepth(Init(bufferSize, frameCount, 1), stackDepth)
    {
      buffer := new Slot[bufferSize](_ => ZERO_SLOT);
      stack := new StackEntry[STACK_SIZE](_ => NO_ENTRY);
      frames := new FrameEntry[frameCount + 1](_ => NO_FRAME);
      index, depth, recording, head, tail := 0, 0, false, 0, 0;
      maxDepth := if stackDepth < 1 then 1 else if stackDepth >= STACK_SIZE then STACK_SIZE - 1 else stackDepth;
      new;
      assert buffer[..] == seq(bufferSize, _ => ZERO_SLOT);
      assert stack[..] == seq(STACK_SIZE, _ => NO_ENTRY);
      assert frames[..] == seq(frameCount + 1, _ => NO_FRAME);
    }

    method LimitDepth(stackDepth: int)
      requires Valid()
      modifies this`maxDepth
      ensures Valid() && State() == SetMaxStackDepth(old(State()), stackDepth)
    {
      var d := stackDepth;
      if d < 1 { d := 1; }
      if d >= STACK_SIZE { d := STACK_SIZE - 1; }
      maxDepth := d;
    }

    /** __cyg_profile_func_enter. */
    method OnEnter(addr: nat, tsc: nat)
      requires Valid()
      modifies this`index, this`depth, stack
      ensures Valid() && State() == Enter(old(State()), addr, tsc)
    {
      if recording {
        if depth < maxDepth {
          stack[depth] := StackEntry(Pack(depth, addr), tsc, index);
          index := Inc(index, buffer.Length);
        }
        depth := depth + 1;
      }
    }

    /** The inner loop of XRayTraceBufferAppendString: bytes of the string from
        `s` on go into slot `i` from byte `from` on, up to the terminator. */
    method PutChunk(i: nat, src: Text, s: nat, from: nat) returns (s': nat, done: bool)
      requires i < buffer.Length && s <= |src| && from <= 1
      modifies buffer
      ensures done == (|src| - s < 16 - from)
      ensures s' == if done then |src| else s + 16 - from
      ensures buffer[..] == old(buffer[..])[i := Overlay(old(buffer[i]), from, src[s..] + [0])]
    {
      s', done := s, false;
      var k := from;
      ghost var was, rest := buffer[i], src[s..] + [0];
      while k < 16
        invariant from <= k <= 16 && !done && s' == s + k - from <= |src|
        invariant forall m :: 0 <= m < buffer.Length && m != i ==> buffer[m] == old(buffer[m])
        invariant OverlaidTo(buffer[i], was, from, rest, k)
      {
        var x: Byte := if s' < |src| then src[s'] else 0;
        buffer[i] := buffer[i][k := x];
        if x == 0 {
          done := true;
          k := k + 1;
          break;
        }
        s' := s' + 1;
        k := k + 1;
      }
      OverlaidIsOverlay(buffer[i], was, from, rest, k);
    }

    /** XRayTraceBufferAppendString. */
    method AppendString(src: Text)
      requires Valid()
      modifies this`index, buffer
      ensures Valid() && State() == Annotate(old(State()), Some(src))
    {
      hide Append, SlotOf, Overlay, TextBytes;
      ghost var goal := Append(buffer[..], index, TextBytes(src));
      ghost var j := 0;
      SlotOfSmall(index, buffer.Length);
      var i, s, from := index, 0, 1;
      buffer[i] := buffer[i][0 := 0];
      AppendFirstByte(old(buffer[..]), i, src);
      var done := false;
      while !done
        invariant i == SlotOf(old(index) + j, buffer.Length)
        invariant !done ==> s <= |src| && from <= 1 && (from == 1 ==> buffer[i][0] == 0)
        invariant !done ==> 16 * j == s + 1 - from
        invariant !done ==> goal == Append(buffer[..], old(index) + j, (if from == 1 then [0] else []) + src[s..] + [0])
        invariant done ==> j == TextSlots(src) && buffer[..] == goal
        decreases |src| - s, !done
      {
        ghost var b := buffer[..];
        ghost var s0, from0 := s, from;
        s, done := PutChunk(i, src, s, from);
        PutChunkAppends(b, old(index) + j, src, s0, from0);
        IncIsSuccessor(old(index) + j, buffer.Length);
        i := Inc(i, buffer.Length);
        from := 0;
        j := j + 1;
      }
      index := i;
      SlotOfIdempotent(old(index) + j, buffer.Length);
    }

    /** __cyg_profile_func_exit; the annotation text, if any, is given. */
    method OnExit(tsc: nat, text: Option<Text>)
      requires Valid() && (recording ==> depth >= 1)
      modifies this`index, this`depth, buffer
      ensures Valid() && State() == Exit(old(State()), tsc, text)
    {
      hide Append, SlotOf, CallSlot, TextBytes;
      if recording {
        depth := depth - 1;
        if depth < maxDepth {
          var se := stack[depth];
          var ticks := (tsc - se.tsc) % TWO64;
          if text.Some? {
            buffer[se.dest] := CallSlot(se.depthAddr, index, ticks);
            AppendString(text.value);
          } else {
            buffer[se.dest] := CallSlot(se.depthAddr, 0, ticks);
          }
        }
      }
    }

    /** XRayTraceBufferCopyToString: the text and the index after it. */
    method CopyToString(at: nat) returns (dst: seq<Byte>, next: nat)
      requires Valid() && at < buffer.Length
      requires IsAnnotation(buffer[at]) && Scan(buffer[..], at, 1, buffer.Length).Some?
      ensures var (text, slots) := Scan(buffer[..], at, 1, buffer.Length).value;
              dst == text && next == SlotOf(at + slots, buffer.Length)
    {
      hide SlotOf, ZeroFrom, Scan, Copying;
      SlotOfSmall(at, buffer.Length);
      ghost var fuel: nat, p: nat := buffer.Length, at;
      ghost var b: Ring := buffer[..];
      ghost var goal := Scan(b, at, 1, fuel).value;
      dst, next := [], at;
      var done, from := false, 1;
      CopyingStarts(b, at, fuel);
      while !done
        invariant from <= 1 && next == SlotOf(p, buffer.Length)
        invariant !done ==> Copying(b, dst, p, from, fuel, goal.0, at + goal.1)
        invariant done ==> dst == goal.0 && p == at + goal.1
        decreases fuel, !done
      {
        var part;
        CopyingStep(b, dst, p, from, fuel, goal.0, at + goal.1);
        part, done := CopySlot(buffer[next], from);
        dst := dst + part;
        IncIsSuccessor(p, buffer.Length);
        next := Inc(next, buffer.Length);
        from := 0;
        fuel, p := fuel - 1, p + 1;
      }
    }

    /** XRayTraceBufferSkipAnnotation. */
    method SkipAnnotation(at: nat) returns (next: nat)
      requires Valid() && at < buffer.Length
      requires IsAnnotation(buffer[at]) && Scan(buffer[..], at, 1, buffer.Length).Some?
      ensures next == SlotOf(at + Scan(buffer[..], at, 1, buffer.Length).value.1, buffer.Length)
    {
      hide SlotOf, ZeroFrom;
      SlotOfSmall(at, buffer.Length);
      ghost var fuel: nat, p: nat := buffer.Length, at;
      ghost var goal := at + Scan(buffer[..], at, 1, fuel).value.1;
      next := at;
      var done, from := false, 1;
      while !done
        invariant from <= 1 && next == SlotOf(p, buffer.Length)
        invariant !done ==> Scan(buffer[..], p, from, fuel).Some?
        invariant !done ==> p + Scan(buffer[..], p, from, fuel).value.1 == goal
        invariant done ==> p == goal
        decreases fuel, !done
      {
        var str := buffer[next];
        var i := from;
        while i < 16
          invariant from <= i <= 16 && !done && i <= ZeroFrom(str, from)
        {
          ZeroFromMeets(str, from, i);
          if str[i] == 0 {
            done := true;
            break;
          }
          i := i + 1;
        }
        IncIsSuccessor(p, buffer.Length);
        next := Inc(next, buffer.Length);
        from := 0;
        fuel, p := fuel - 1, p + 1;
      }
    }

    /** XRayTraceBufferNextEntry. */
    method NextEntry(at: nat) returns (next: nat)
      requires Valid() && at < buffer.Length && EntryLen(buffer[..], at) > 0
      ensures next == SlotOf(at + EntryLen(buffer[..], at), buffer.Length)
    {
      SlotOfSmall(at, buffer.Length);
      if IsAnnotation(buffer[at]) {
        next := SkipAnnotation(at);
      } else {
        IncIsSuccessor(at, buffer.Length);
        next := Inc(at, buffer.Length);
      }
    }

    /** The records XRayTraceReport visits between two slots. */
    method CollectRows(start: nat, end: nat) returns (rows: seq<Row>)
      requires Valid() && start < buffer.Length && end < buffer.Length
      requires Walk(buffer[..], start, start + Ahead(start, end, buffer.Length)).Some?
      ensures Some(rows) == Walk(buffer[..], start, start + Ahead(start, end, buffer.Length))
    {
      hide SlotOf, EntryLen, RowOf, Walk;
      ghost var n, z := buffer.Length, start + Ahead(start, end, buffer.Length);
      ghost var goal, p := Walk(buffer[..], start, z).value, start;
      SlotOfSmall(start, n);
      AheadLands(start, end, n);
      var i := start;
      rows := [];
      while i != end
        invariant start <= p <= z && i == SlotOf(p, n)
        invariant Walk(buffer[..], p, z).Some? && rows + Walk(buffer[..], p, z).value == goal
        decreases z - p
      {
        assert p < z;
        assert At(buffer[..], p) == buffer[i];
        EntryAtSlot(buffer[..], p);
        WalkStep(buffer[..], p, z);
        ghost var m := EntryLen(buffer[..], p);
        ghost var tail := Walk(buffer[..], p + m, z).value;
        assert rows + (EntryRows(buffer[..], p) + tail) == (rows + EntryRows(buffer[..], p)) + tail;
        if !IsAnnotation(buffer[i]) {
          rows := rows + [RowOf(buffer[i])];
        }
        SlotOfIdempotent(p, n);
        SlotOfAdd(p, i, m, n);
        i := NextEntry(i);
        p := p + m;
      }
      if p < z { Distinct(p, z, n); }
      WalkEnds(buffer[..], z);
      assert rows + [] == rows;
    }

    /** XRayReset. */
    method Restart()
      requires Valid() && !recording
      modifies this, stack, frames
      ensures Valid() && State() == Reset(old(State()))
    {
      index, depth, head, tail := 0, 0, 0, 0;
      forall i | 0 <= i < frames.Length { frames[i] := NO_FRAME; }
      forall i | 0 <= i < stack.Length { stack[i] := NO_ENTRY; }
    }

    /** XRayStartFrame. */
    method BeginFrame()
      requires Valid() && !recording
      modifies this, buffer, stack, frames
      ensures Valid() && State() == StartFrame(old(State()))
    {
      hide WithDepthAddr;
      buffer[index] := WithDepthAddr(buffer[index], FRAME_MARKER);
      index := Inc(index, buffer.Length);
      frames[head] := frames[head].(start := index);
      depth := 1;
      stack[0] := NO_ENTRY;
      recording := true;
    }

    /** XRayFrameFindTail. */
    method LastValidFrame() returns (last: nat)
      requires Valid() && !recording
      modifies frames
      ensures last < frames.Length && Valid()
      ensures (frames[..], last) == FindTail(old(frames[..]), head, tail, buffer.Length)
    {
      last := Dec(head, frames.Length);
      if head == tail { return head; }
      var i: nat, total: int := last, 0;
      ghost var goal := Stomp(frames[..], head, i, total, last, buffer.Length);
      while i != head
        invariant i < frames.Length && last < frames.Length && Valid()
        invariant Stomp(frames[..], head, i, total, last, buffer.Length) == goal
        decreases Back(i, head, frames.Length)
      {
        if frames[i].valid {
          total := total + TraceCount(frames[i], buffer.Length) + 1;
          if total < buffer.Length {
            last := i;
          } else {
            frames[i] := frames[i].(valid := false);
          }
        }
        i := Dec(i, frames.Length);
      }
    }

    /** XRayEndFrame, which the source requires to be called at depth 1. */
    method FinishFrame()
      requires Valid() && recording && depth == 1
      modifies this, buffer, stack, frames
      ensures Valid() && State() == EndFrame(old(State()))
    {
      hide WithDepthAddr, DepthAddr, Stomp, FindTail;
      var i := head;
      recording := false;
      frames[i] := frames[i].(end := index, valid := true);
      head := Inc(head, frames.Length);
      if head == tail { tail := Inc(tail, frames.Length); }
      tail := LastValidFrame();
      var marker := Dec(frames[i].start, buffer.Length);
      if DepthAddr(buffer[marker]) != FRAME_MARKER {
        Restart();
      } else {
        buffer[marker] := WithDepthAddr(buffer[marker], NULL_ANNOTATION);
      }
    }
  }

  /** The inner loop of XRayTraceBufferCopyToString. */
  method CopySlot(src: Slot, from: nat) returns (part: seq<Byte>, done: bool)
    requires from <= 16
    ensures part == src[from..ZeroFrom(src, from)] && done == (ZeroFrom(src, from) < 16)
  {
    hide ZeroFrom;
    part, done := [], false;
    var i := from;
    while i < 16
      invariant from <= i <= ZeroFrom(src, from) && !done && part == src[from..i]
    {
      ZeroFromMeets(src, from, i);
      if src[i] == 0 {
        done := true;
        break;
      }
      part := part + [src[i]];
      i := i + 1;
    }
  }

  /** With `dst` copied, the rest of the text starts at byte `from` of position
      `p`; in the end there are `text` and position `end`. */
  ghost predicate Copying(b: Ring, dst: seq<Byte>, p: nat, from: nat, fuel: nat, text: seq<Byte>, end: nat)
  {
    && from <= 16 && Scan(b, p, from, fuel).Some?
    && var (t, m) := Scan(b, p, from, fuel).value; dst + t == text && p + m == end
  }

  lemma CopyingStarts(b: Ring, at: nat, fuel: nat)
    requires Scan(b, at, 1, fuel).Some?
    ensures var (t, m) := Scan(b, at, 1, fuel).value; Copying(b, [], at, 1, fuel, t, at + m)
  {
    hide Scan;
    var t := Scan(b, at, 1, fuel).value.0;
    assert [] + t == t;
  }

  lemma CopyingStep(b: Ring, dst: seq<Byte>, p: nat, from: nat, fuel: nat, text: seq<Byte>, end: nat)
    requires Copying(b, dst, p, from, fuel, text, end)
    ensures fuel > 0 && from <= 16
    ensures var s := At(b, p);
      var z := ZeroFrom(s, from);
      if z < 16 then dst + s[from..z] == text && p + 1 == end
      else Copying(b, dst + s[from..z], p + 1, 0, fuel - 1, text, end)
  {
    hide ZeroFrom, At;
    var s := At(b, p);
    if ZeroFrom(s, from) == 16 {
      var rest := Scan(b, p + 1, 0, fuel - 1).value.0;
      assert dst + (s[from..] + rest) == (dst + s[from..]) + rest;
      assert s[from..16] == s[from..];
    }
  }

  lemma ZeroFromMeets(s: Slot, from: nat, i: nat)
    requires from <= i < 16 && i <= ZeroFrom(s, from)
    ensures s[i] == 0 <==> i == ZeroFrom(s, from)
  {
    var z := FirstZero(s[from..]);
    if i < from + z { assert s[from..][..z][i - from] == s[i]; }
    if i == from + z { assert s[from..][z] == s[i]; }
  }

  lemma AheadLands(start: nat, end: nat, n: nat)
    requires start < n && end < n
    ensures SlotOf(start + Ahead(start, end, n), n) == end
  {
  }

  lemma WalkStep(b: Ring, p: nat, z: nat)
    requires p < z && Walk(b, p, z).Some?
    ensures var m := EntryLen(b, p);
      && 1 <= m <= z - p && Walk(b, p + m, z).Some?
      && Walk(b, p, z).value == EntryRows(b, p) + Walk(b, p + m, z).value
  {
    hide EntryLen, EntryRows;
  }

  lemma WalkEnds(b: Ring, z: nat)
    ensures Walk(b, z, z) == Some([])
  {
  }

  /** An entry is the same read at its slot or at its position. */
  lemma EntryAtSlot(b: Ring, p: nat)
    ensures EntryLen(b, SlotOf(p, |b|)) == EntryLen(b, p)
    ensures EntryRows(b, p) == if IsAnnotation(At(b, p)) then [] else [RowOf(At(b, p))]
  {
    SlotOfIdempotent(p, |b|);
    EntryPeriodic(b, SlotOf(p, |b|), p);
  }

  /** `s` with `bytes` written over it from byte `from` on, as far as they fit. */
  function Overlay(s: Slot, from: nat, bytes: seq<Byte>): Slot
    requires from <= 16
  {
    var k := if |bytes| < 16 - from then |bytes| else 16 - from;
    s[..from] + bytes[..k] + s[from + k..]
  }

  /** `s` is `was` with `bytes` written over it between `from` and `k`. */
  ghost predicate OverlaidTo(s: Slot, was: Slot, from: nat, bytes: seq<Byte>, k: nat)
  {
    && from <= k <= 16 && k - from <= |bytes|
    && (forall e :: 0 <= e < from ==> s[e] == was[e])
    && (forall e :: from <= e < k ==> s[e] == bytes[e - from])
    && (forall e :: k <= e < 16 ==> s[e] == was[e])
  }

  lemma OverlaidIsOverlay(s: Slot, was: Slot, from: nat, bytes: seq<Byte>, k: nat)
    requires OverlaidTo(s, was, from, bytes, k) && (k == 16 || k - from == |bytes|)
    ensures s == Overlay(was, from, bytes)
  {
  }

  lemma AppendFirstByte(b: Ring, p: nat, src: Text)
    requires p < |b|
    ensures Append(b[p := b[p][0 := 0]], p, [0] + src[0..] + [0]) == Append(b, p, TextBytes(src))
  {
    var bytes, c := TextBytes(src), b[p][0 := 0];
    var k := Chunk(bytes);
    assert [0] + src[0..] + [0] == bytes;
    assert bytes[..k] + c[k..] == bytes[..k] + b[p][k..];
    assert b[p := c][p := bytes[..k] + c[k..]] == b[p := bytes[..k] + b[p][k..]];
  }

  /** One chunk is one step of Append. */
  lemma PutChunkAppends(b: Ring, p: nat, src: Text, s: nat, from: nat)
    requires s <= |src| && from <= 1 && (from == 1 ==> At(b, p)[0] == 0)
    ensures var i := SlotOf(p, |b|);
      var c: Ring := b[i := Overlay(b[i], from, src[s..] + [0])];
      var lead: seq<Byte> := if from == 1 then [0] else [];
      Append(b, p, lead + src[s..] + [0]) ==
        if |src| - s < 16 - from then c else Append(c, p + 1, [] + src[s + 16 - from..] + [0])
  {
    hide Append, SlotOf, Overlay;
    var lead: seq<Byte> := if from == 1 then [0] else [];
    LeadTail(lead, src, s);
    OverlayStep(b, p, lead, src[s..] + [0]);
  }

  lemma OverlayStep(b: Ring, p: nat, lead: seq<Byte>, rest: seq<Byte>)
    requires |lead| <= 1 && b[SlotOf(p, |b|)][..|lead|] == lead && rest != []
    ensures var i := SlotOf(p, |b|);
      var c: Ring := b[i := Overlay(b[i], |lead|, rest)];
      Append(b, p, lead + rest) == if |lead + rest| <= 16 then c else Append(c, p + 1, (lead + rest)[16..])
  {
    hide Append, SlotOf, Overlay, Chunk;
    LeadOverlay(b[SlotOf(p, |b|)], lead, rest);
    AppendStep(b, p, lead + rest);
  }

  /** What is left of a string after its first slot. */
  lemma LeadTail(lead: seq<Byte>, src: Text, s: nat)
    requires s <= |src| && |lead| <= 1
    ensures lead + src[s..] + [0] == lead + (src[s..] + [0])
    ensures |src| - s >= 16 - |lead| ==> (lead + src[s..] + [0])[16..] == [] + src[s + 16 - |lead|..] + [0]
  {
    if |src| - s >= 16 - |lead| {
      var bytes := lead + src[s..] + [0];
      var tail := [] + src[s + 16 - |lead|..] + [0];
      assert |bytes[16..]| == |tail|;
      forall k | 0 <= k < |tail|
        ensures bytes[16..][k] == tail[k]
      {
        assert bytes[16..][k] == bytes[16 + k];
      }
    }
  }

  lemma AppendStep(b: Ring, p: nat, bytes: seq<Byte>)
    requires bytes != []
    ensures var i, k := SlotOf(p, |b|), Chunk(bytes);
      var c: Ring := b[i := bytes[..k] + b[i][k..]];
      Append(b, p, bytes) == if |bytes| <= 16 then c else Append(c, p + 1, bytes[16..])
  {
    hide SlotOf;
    if |bytes| <= 16 { assert bytes[Chunk(bytes)..] == []; }
  }

  lemma LeadOverlay(s: Slot, lead: seq<Byte>, rest: seq<Byte>)
    requires |lead| <= 1 && s[..|lead|] == lead && rest != []
    ensures var bytes := lead + rest;
      bytes[..Chunk(bytes)] + s[Chunk(bytes)..] == Overlay(s, |lead|, rest)
  {
  }
}

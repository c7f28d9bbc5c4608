/**
 * The audio handshake at work: initialisation that turns audio on, stream calls
 * that succeed, and copies that are made.
 */
module AudioStreams {
  import opened Audio
  import opened AudioReturns

  // ------------------------------------------------------------- initialisation

  /** Every SDL step and every range check of the main thread succeeds. */
  predicate AllSucceed(acts: seq<Action>)
  {
    forall i :: 0 <= i < |acts| && acts[i].MainStep? ==> acts[i].ok
  }

  predicate InitGoesWell(s: State)
  {
    !s.dead ==> s.main != InitClose && (s.main == InitUnlock ==> s.haveAudio)
  }

  lemma StepGoesWell(s: State, a: Action)
    requires Enabled(s, a) && InitGoesWell(s) && (a.MainStep? ==> a.ok)
    ensures InitGoesWell(Apply(s, a))
  {
    hide AfterMain, AfterApp, AfterCallback, AppCanStep, CallbackCanStep, MainCanStep;
    match a
    case MainStep(ok) => MainGoesWell(s);
    case AppStep => AppLeavesInit(s);
    case CallbackStep => CallbackLeavesInit(s);
    case _ =>
  }

  lemma MainGoesWell(s: State)
    requires !s.dead && MainCanStep(s) && InitGoesWell(s)
    ensures InitGoesWell(AfterMain(s, true))
  {
  }

  lemma AppLeavesInit(s: State)
    requires AppCanStep(s)
    ensures var t := AfterApp(s); t.main == s.main && t.haveAudio == s.haveAudio && t.dead == s.dead
  {
    hide AfterApp;
    if Entering(s) { EntryLeavesInit(s); } else { ExitLeavesInit(s); }
  }

  lemma EntryLeavesInit(s: State)
    requires AppCanStep(s) && Entering(s)
    ensures var t := AfterApp(s); t.main == s.main && t.haveAudio == s.haveAudio && t.dead == s.dead
  {
  }

  lemma ExitLeavesInit(s: State)
    requires AppCanStep(s) && !Entering(s)
    ensures var t := AfterApp(s); t.main == s.main && t.haveAudio == s.haveAudio && t.dead == s.dead
  {
  }

  lemma CallbackLeavesInit(s: State)
    requires CallbackCanStep(s)
    ensures var t := AfterCallback(s); t.main == s.main && t.haveAudio == s.haveAudio && t.dead == s.dead
  {
  }

  lemma {:induction false} RunGoesWell(s: State, acts: seq<Action>)
    requires Legal(s, acts) && AllSucceed(acts) && InitGoesWell(s)
    ensures InitGoesWell(Run(s, acts))
    decreases |acts|
  {
    hide Enabled, Apply, InitGoesWell;
    if acts != [] {
      StepGoesWell(s, acts[0]);
      assert AllSucceed(acts[1..]) by { forall i | 0 <= i < |acts[1..]| ensures acts[1..][i] == acts[i + 1] {} }
      RunGoesWell(Apply(s, acts[0]), acts[1..]);
    }
  }

  /** In every interleaving in which nothing fails, initialisation ends with
      audio on. */
  lemma InitTurnsAudioOn(acts: seq<Action>)
    requires Legal(START, acts) && AllSucceed(acts)
    ensures var s := Run(START, acts);
      !s.dead && s.main == InitUnlock ==> s.haveAudio
  {
    RunGoesWell(START, acts);
  }

  // --------------------------------------------------------------------- streams

  /** Audio is on and no shutdown has taken the global mutex. */
  predicate Undisturbed(s: State)
  {
    !s.dead && s.haveAudio && s.main in {MIdle, InitLock, ShutLock, InitUnlock}
  }

  /** Ordinary steps, and new stream calls. */
  predicate Streaming(a: Action) { Ordinary(a) || a == StartStream }

  /** A legal run from `s` to `t` by such actions. */
  ghost predicate Leads(s: State, acts: seq<Action>, t: State)
  {
    (forall i :: 0 <= i < |acts| ==> Streaming(acts[i])) && Legal(s, acts) && Run(s, acts) == t
  }

  lemma LeadsNowhere(s: State)
    ensures Leads(s, [], s)
  {
  }

  lemma LeadsOn(s: State, a: Action, rest: seq<Action>, t: State)
    requires Streaming(a) && Enabled(s, a) && Leads(Apply(s, a), rest, t)
    ensures Leads(s, [a] + rest, t)
  {
    hide Enabled, Apply, Streaming;
    var acts := [a] + rest;
    assert acts[0] == a && acts[1..] == rest;
  }

  lemma {:induction false} LeadsThrough(s: State, acts: seq<Action>, t: State, more: seq<Action>, u: State)
    requires Leads(s, acts, t) && Leads(t, more, u)
    ensures Leads(s, acts + more, u)
    decreases |acts|
  {
    hide Enabled, Apply, Streaming;
    if acts == [] {
      assert acts + more == more;
    } else {
      LeadsThrough(Apply(s, acts[0]), acts[1..], t, more, u);
      LeadsOn(s, acts[0], acts[1..] + more, u);
      assert [acts[0]] + (acts[1..] + more) == acts + more;
    }
  }

  /** A stream call is under way and has no result yet. */
  predicate InCall(s: State) { s.app != AIdle && !s.app.AUnlock? }

  lemma LetGo(s: State)
    requires Inv(s) && Undisturbed(s) && s.main == InitUnlock
    ensures MainCanStep(s)
    ensures var t := AfterMain(s, true); Undisturbed(t) && Closer(t, s) && t.app == s.app
  {
  }

  lemma CallAdvances(s: State)
    requires Inv(s) && Undisturbed(s) && InCall(s) && AppCanStep(s)
    ensures var t := AfterApp(s); Undisturbed(t) && Closer(t, s) && t.app != AIdle
  {
  }

  lemma CallbackServes(s: State)
    requires Inv(s) && Undisturbed(s) && InCall(s) && s.main != InitUnlock
    requires !AppCanStep(s) && CallbackCanStep(s)
    ensures var t := AfterCallback(s); Undisturbed(t) && Closer(t, s) && t.app != AIdle
  {
  }

  lemma NextCallback(s: State)
    requires Inv(s) && Undisturbed(s) && InCall(s) && s.main != InitUnlock
    requires !AppCanStep(s) && !CallbackCanStep(s)
    ensures Enabled(s, Invoke(0))
    ensures var t := Apply(s, Invoke(0)); Undisturbed(t) && Closer(t, s) && t.app != AIdle
  {
  }

  /** A step that brings the stream call closer to its end and leaves audio on. */
  lemma StepToResult(s: State) returns (a: Action)
    requires Inv(s) && Undisturbed(s) && InCall(s)
    ensures Ordinary(a) && Enabled(s, a) && Inv(Apply(s, a))
    ensures var t := Apply(s, a); Undisturbed(t) && Closer(t, s) && t.app != AIdle
  {
    hide Inv, AfterMain, AfterApp, AfterCallback, MainCanStep, AppCanStep, CallbackCanStep, Closer;
    if s.main == InitUnlock {
      a := MainStep(true);
      LetGo(s);
    } else if AppCanStep(s) {
      a := AppStep;
      CallAdvances(s);
    } else if CallbackCanStep(s) {
      a := CallbackStep;
      CallbackServes(s);
    } else {
      a := Invoke(0);
      NextCallback(s);
    }
    StepKeepsInv(s, a);
  }

  /** The call under way can be brought to return 0. */
  lemma {:induction false} ReachResult(s: State) returns (acts: seq<Action>, t: State)
    requires Inv(s) && Undisturbed(s) && s.app != AIdle
    ensures Leads(s, acts, t) && Inv(t) && Undisturbed(t) && t.app == AUnlock(0)
    ensures forall i :: 0 <= i < |acts| ==> Ordinary(acts[i])
    decreases MainRank(s) + AppRank(s), CallbackRank(s)
  {
    hide Apply, Enabled, MainRank, AppRank, CallbackRank, Handshake, Locks, NoLostWakeup, Leads, Ordinary;
    if s.app.AUnlock? {
      acts, t := [], s;
      LeadsNowhere(s);
    } else {
      var a := StepToResult(s);
      var rest;
      rest, t := ReachResult(Apply(s, a));
      LeadsOn(s, a, rest, t);
      acts := [a] + rest;
    }
  }

  ghost predicate SucceedsBy(s: State, acts: seq<Action>)
  {
    (forall i :: 0 <= i < |acts| ==> Ordinary(acts[i])) && Legal(s, acts) && Run(s, acts).app == AUnlock(0)
  }

  /** From every reachable state with audio on and no shutdown begun, some run
      without spurious wake-ups and without new calls makes the stream call under
      way return 0. */
  lemma StreamCanSucceed(s: State)
    ensures Reachable(s) && Undisturbed(s) && s.app != AIdle ==> exists acts :: SucceedsBy(s, acts)
  {
    if Reachable(s) && Undisturbed(s) && s.app != AIdle {
      ReachableInv(s);
      var acts, t := ReachResult(s);
      assert SucceedsBy(s, acts);
    }
  }

  // ---------------------------------------------------------------------- copies

  /** With the first call behind it, the next stream call copies. */
  lemma CopyNext(s: State) returns (acts: seq<Action>, t: State)
    requires Inv(s) && Undisturbed(s) && s.main != InitUnlock && s.app == AIdle && !s.first
    ensures Leads(s, acts, t) && t.app == ACopy
  {
    var s1 := Apply(s, StartStream);
    var s2 := Apply(s1, AppStep);
    t := Apply(s2, AppStep);
    LeadsNowhere(t);
    LeadsOn(s2, AppStep, [], t);
    LeadsOn(s1, AppStep, [AppStep] + [], t);
    LeadsOn(s, StartStream, [AppStep] + ([AppStep] + []), t);
    acts := [StartStream] + ([AppStep] + ([AppStep] + []));
  }

  /** The result is handed out and the mutex released. */
  lemma FinishCall(s: State) returns (t: State)
    requires Inv(s) && Undisturbed(s) && s.app == AUnlock(0)
    ensures Leads(s, [AppStep], t) && Inv(t) && Undisturbed(t) && t.app == AIdle && !t.first
    ensures t.main != InitUnlock
  {
    t := Apply(s, AppStep);
    LeadsNowhere(t);
    LeadsOn(s, AppStep, [], t);
    assert [AppStep] + [] == [AppStep];
    StepKeepsInv(s, AppStep);
  }

  lemma BeginCall(s: State) returns (t: State)
    requires Inv(s) && Undisturbed(s) && s.app == AIdle
    ensures Leads(s, [StartStream], t) && Inv(t) && Undisturbed(t) && t.app == ALock
  {
    t := Apply(s, StartStream);
    LeadsNowhere(t);
    LeadsOn(s, StartStream, [], t);
    assert [StartStream] + [] == [StartStream];
    StepKeepsInv(s, StartStream);
  }

  lemma ReachCopy(s: State) returns (acts: seq<Action>, t: State)
    requires Inv(s) && Undisturbed(s)
    ensures Leads(s, acts, t) && t.app == ACopy
  {
    hide Inv, Leads, Undisturbed;
    var begun, s1 := [], s;
    if s.app == AIdle {
      s1 := BeginCall(s);
      begun := [StartStream];
    } else {
      LeadsNowhere(s);
    }
    var served, s2 := ReachResult(s1);
    var s3 := FinishCall(s2);
    var last;
    last, t := CopyNext(s3);
    LeadsThrough(s2, [AppStep], s3, last, t);
    LeadsThrough(s1, served, s2, [AppStep] + last, t);
    LeadsThrough(s, begun, s1, served + ([AppStep] + last), t);
    acts := begun + (served + ([AppStep] + last));
  }

  ghost predicate CopiesBy(s: State, acts: seq<Action>)
  {
    (forall i :: 0 <= i < |acts| ==> Streaming(acts[i])) && Legal(s, acts) && Run(s, acts).app == ACopy
  }

  /** From every such state some run of stream calls comes to copy audio data. */
  lemma StreamCanCopy(s: State)
    ensures Reachable(s) && Undisturbed(s) ==> exists acts :: CopiesBy(s, acts)
  {
    if Reachable(s) && Undisturbed(s) {
      ReachableInv(s);
      var acts, t := ReachCopy(s);
      assert CopiesBy(s, acts);
    }
  }

  /** The state once initialisation has succeeded and returned. */
  const ON := START.(haveAudio := true, first := true, open := true, paused := true)

  const INIT: seq<Action> :=
    [StartInit, MainStep(true), MainStep(true), MainStep(true), MainStep(true), MainStep(true)]

  /** From the start, initialisation alone leads to a state with audio on, from
      which stream calls copy. */
  lemma AudioCanBeTurnedOn()
    ensures Legal(START, INIT) && Run(START, INIT) == ON && Undisturbed(ON)
  {
    var s1 := Apply(START, INIT[0]);
    var s2 := Apply(s1, INIT[1]);
    var s3 := Apply(s2, INIT[2]);
    var s4 := Apply(s3, INIT[3]);
    var s5 := Apply(s4, INIT[4]);
    var s6 := Apply(s5, INIT[5]);
    assert s6 == ON;
    assert Legal(s6, []) && Run(s6, []) == s6;
    assert INIT[5..][1..] == [] && Legal(s5, INIT[5..]) && Run(s5, INIT[5..]) == s6;
    assert INIT[4..][1..] == INIT[5..] && Legal(s4, INIT[4..]) && Run(s4, INIT[4..]) == s6;
    assert INIT[3..][1..] == INIT[4..] && Legal(s3, INIT[3..]) && Run(s3, INIT[3..]) == s6;
    assert INIT[2..][1..] == INIT[3..] && Legal(s2, INIT[2..]) && Run(s2, INIT[2..]) == s6;
    assert INIT[1..][1..] == INIT[2..] && Legal(s1, INIT[1..]) && Run(s1, INIT[1..]) == s6;
  }
}

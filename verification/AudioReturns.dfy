/**
 * Progress of the audio handshake: from every reachable state some run without
 * spurious wake-ups and without new calls lets every call return.
 */
module AudioReturns {
  import opened Audio

  /** The steps of the threads themselves, and SDL's next callback. */
  predicate Ordinary(a: Action) { a.MainStep? || a == AppStep || a == CallbackStep || a.Invoke? }

  predicate Returned(s: State) { s.app == AIdle && s.main == MIdle }

  /** A check of have_audio that ends the program may still be ahead. */
  predicate MayFail(s: State) { s.main in {InitLock, InitCheck, ShutLock, ShutCheck} }

  /** This run lets all calls return, unless such a check ends the program. */
  ghost predicate ReturnsBy(s: State, acts: seq<Action>)
  {
    && (forall i :: 0 <= i < |acts| ==> Ordinary(acts[i]))
    && Legal(s, acts)
    && (if Run(s, acts).dead then MayFail(s) else Returned(Run(s, acts)))
  }

  // --------------------------------------------------------------------- ranks

  /** How far nacl_audio_stream is from its end; it may sleep once. */
  function AppRank(s: State): nat
  {
    var awaited := s.ready != 0 || s.shutdown != 0;
    match s.app
    case AIdle => 0
    case AUnlock(_) => 1
    case AUnlockAudio => 2
    case ATest => if awaited then 3 else 6
    case AWake => if awaited then 4 else 7
    case ASleep => 5
    case ABody => 8
    case ALockAudio => 9
    case ACopy => 10
    case ACheck => 11
    case ALock => 12
  }

  function MainRank(s: State): nat
  {
    match s.main
    case MIdle => 0
    case InitUnlock => 1
    case InitClose => 2
    case InitVerify => 3
    case InitOpen => 4
    case InitCheck => 5
    case InitLock => 6
    case ShutUnlock => 1
    case ShutClose => 2
    case ShutUnlockAudio => 3
    case ShutBroadcast => 4
    case ShutSet => 5
    case ShutLockAudio => 6
    case ShutCheck => 7
    case ShutLock => 8
  }

  /** How far the callback is from making way: from waking a sleeping stream
      call, or else from letting go of the audio mutex. */
  function CallbackRank(s: State): nat
  {
    if s.app == ASleep then
      match s.callback
      case CWake => 6
      case CTest => 5
      case CUnlock => 4
      case CIdle => 3
      case CLock => 2
      case CEnter => 1
      case CSleep => 0
    else
      match s.callback
      case CWake => 4
      case CLock => 4
      case CEnter => 3
      case CTest => 2
      case CUnlock => 1
      case CIdle => 0
      case CSleep => 0
  }

  predicate Closer(t: State, s: State)
  {
    || MainRank(t) + AppRank(t) < MainRank(s) + AppRank(s)
    || (MainRank(t) + AppRank(t) == MainRank(s) + AppRank(s) && CallbackRank(t) < CallbackRank(s))
  }

  lemma MainAdvances(s: State)
    requires !s.dead && Inv(s) && MainCanStep(s)
    ensures var t := AfterMain(s, true);
      (t.dead && MayFail(s)) || (!t.dead && Closer(t, s) && (MayFail(t) ==> MayFail(s)))
  {
  }

  lemma AppAdvances(s: State)
    requires !s.dead && Inv(s) && AppCanStep(s)
    ensures var t := AfterApp(s);
      !t.dead && Closer(t, s) && t.main == s.main
  {
  }

  lemma CallbackAdvances(s: State)
    requires !s.dead && Inv(s) && CallbackCanStep(s) && !MainCanStep(s) && !AppCanStep(s) && !Returned(s)
    ensures var t := AfterCallback(s);
      !t.dead && Closer(t, s) && t.main == s.main
  {
  }

  /** When nobody can step, the stream call sleeps and SDL can call back. */
  lemma InvokeAdvances(s: State)
    requires !s.dead && Inv(s) && !CallbackCanStep(s) && !MainCanStep(s) && !AppCanStep(s) && !Returned(s)
    ensures Enabled(s, Invoke(0))
    ensures var t := Apply(s, Invoke(0));
      !t.dead && Closer(t, s) && t.main == s.main
  {
  }

  /** An ordinary step that brings every call closer to its end. */
  lemma NextStep(s: State) returns (a: Action)
    requires !s.dead && Inv(s) && !Returned(s)
    ensures Ordinary(a) && Enabled(s, a) && Inv(Apply(s, a))
    ensures var t := Apply(s, a);
      (t.dead && MayFail(s)) || (!t.dead && Closer(t, s) && (MayFail(t) ==> MayFail(s)))
  {
    hide Inv, AfterMain, AfterApp, AfterCallback, MainCanStep, AppCanStep, CallbackCanStep, Closer;
    if MainCanStep(s) {
      a := MainStep(true);
      MainAdvances(s);
    } else if AppCanStep(s) {
      a := AppStep;
      AppAdvances(s);
    } else if CallbackCanStep(s) {
      a := CallbackStep;
      CallbackAdvances(s);
    } else {
      a := Invoke(0);
      InvokeAdvances(s);
    }
    StepKeepsInv(s, a);
  }

  lemma Prepend(s: State, a: Action, rest: seq<Action>)
    requires Ordinary(a) && Enabled(s, a)
    requires var t := Apply(s, a);
      if t.dead then rest == [] && MayFail(s) else ReturnsBy(t, rest) && (MayFail(t) ==> MayFail(s))
    ensures ReturnsBy(s, [a] + rest)
  {
    hide Apply, Enabled, MayFail, Returned;
    var acts := [a] + rest;
    assert acts[0] == a && acts[1..] == rest;
    if rest == [] { assert Legal(Apply(s, a), []) && Run(Apply(s, a), []) == Apply(s, a); }
  }

  lemma {:induction false} FindRun(s: State) returns (acts: seq<Action>)
    requires !s.dead && Inv(s)
    ensures ReturnsBy(s, acts)
    decreases MainRank(s) + AppRank(s), CallbackRank(s)
  {
    hide Inv, Apply, Enabled, MayFail, MainRank, AppRank, CallbackRank;
    if Returned(s) {
      acts := [];
      assert Legal(s, []) && Run(s, []) == s;
    } else {
      var a := NextStep(s);
      var t := Apply(s, a);
      var rest: seq<Action> := [];
      if !t.dead { rest := FindRun(t); }
      Prepend(s, a, rest);
      acts := [a] + rest;
    }
  }

  /**
   * From every reachable state some run without spurious wake-ups and without
   * new calls lets the calls of both threads return.  Only a check that audio
   * is on or off, still ahead of the main thread, may end the program instead.
   */
  lemma EveryCallCanReturn(s: State)
    ensures Live(s) ==> exists acts :: ReturnsBy(s, acts)
  {
    if Live(s) {
      ReachableInv(s);
      var acts := FindRun(s);
    }
  }
}

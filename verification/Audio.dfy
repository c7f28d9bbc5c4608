/**
 * The audio callback handshake of the standalone multimedia layer.
 *
 * Three threads share two mutexes, one condition variable and the audio flags:
 * the main thread (init and shutdown), the application's audio thread
 * (nacl_audio_stream) and SDL's single callback thread.  Every thread is a
 * program counter; a run is any interleaving of their atomic actions, with
 * spurious wake-ups.  Code that holds the audio mutex is cut at its waits and
 * loop tests; what lies between two cuts touches only fields that mutex guards.
 * A copy into a callback's buffer may be interrupted at any point: it lasts as
 * long as the application thread stays at ACopy.
 */
module Audio {
  datatype Owner = Nobody | MainT | AppT | CallbackT

  /** nacl_audio_init and nacl_audio_shutdown, by the next thing to do. */
  datatype MainPc =
    | MIdle
    | InitLock | InitCheck | InitOpen | InitVerify | InitClose | InitUnlock
    | ShutLock | ShutCheck | ShutLockAudio | ShutSet | ShutBroadcast | ShutUnlockAudio | ShutClose | ShutUnlock

  /** nacl_audio_stream. */
  datatype AppPc =
    | AIdle
    | ALock | ACheck | ACopy | ALockAudio | ABody | ATest | ASleep | AWake | AUnlockAudio
    | AUnlock(result: int)

  /** __NaCl_InternalAudioCallback. */
  datatype CallbackPc = CIdle | CLock | CEnter | CTest | CSleep | CWake | CUnlock

  datatype State = State(
    global: Owner, audio: Owner,
    haveAudio: bool, ready: int, first: bool, shutdown: int, size: nat, stream: nat,
    open: bool, paused: bool,
    main: MainPc, app: AppPc, callback: CallbackPc,
    /* arguments of the running callback: a fresh buffer number and its size */
    buffer: nat, bytes: nat,
    /* how many copies the running callback's buffer has received */
    fills: nat,
    /* the size last returned to the application */
    returned: nat,
    dead: bool)

  datatype Action =
    // main thread
    | StartInit | StartShutdown | MainStep(ok: bool)
    // application thread
    | StartStream | AppStep | AppSpurious
    // SDL and its callback thread
    | Invoke(bytes: nat) | CallbackStep | CallbackSpurious

  const START := State(Nobody, Nobody, false, 0, false, 0, 0, 0, false, false,
                       MIdle, AIdle, CIdle, 0, 0, 0, 0, false)

  // ------------------------------------------------------------------ actions

  /** Which actions a state allows; a lock step waits until the lock is free. */
  predicate Enabled(s: State, a: Action)
  {
    && !s.dead
    && match a
       case StartInit => s.main == MIdle
       case StartShutdown => s.main == MIdle
       case MainStep(_) => MainCanStep(s)
       case StartStream => s.app == AIdle
       case AppStep => AppCanStep(s)
       case AppSpurious => s.app == ASleep
       case Invoke(_) => s.callback == CIdle && s.open && !s.paused
       case CallbackStep => CallbackCanStep(s)
       case CallbackSpurious => s.callback == CSleep
  }

  predicate MainCanStep(s: State)
  {
    match s.main
    case MIdle => false
    case InitLock => s.global == Nobody
    case ShutLock => s.global == Nobody
    case ShutLockAudio => s.audio == Nobody
    // SDL_CloseAudio returns once the callback thread has finished
    case InitClose => s.callback == CIdle
    case ShutClose => s.callback == CIdle
    case _ => true
  }

  predicate AppCanStep(s: State)
  {
    match s.app
    case AIdle => false
    case ALock => s.global == Nobody
    case ALockAudio => s.audio == Nobody
    case AWake => s.audio == Nobody
    case ASleep => false
    case _ => true
  }

  predicate CallbackCanStep(s: State)
  {
    match s.callback
    case CIdle => false
    case CLock => s.audio == Nobody
    case CWake => s.audio == Nobody
    case CSleep => false
    case _ => true
  }

  /** pthread_cond_signal or broadcast, for the waiters this program can have. */
  function WakeApp(s: State): State { if s.app == ASleep then s.(app := AWake) else s }
  function WakeCallback(s: State): State { if s.callback == CSleep then s.(callback := CWake) else s }

  function AfterMain(s: State, ok: bool): State
    requires MainCanStep(s)
  {
    match s.main
    case InitLock => s.(global := MainT, main := InitCheck)
    case InitCheck =>
      if s.haveAudio then s.(dead := true)
      else if !ok then s.(main := InitUnlock)
      else s.(audio := Nobody, ready := 0, first := true, shutdown := 0, size := 0, stream := 0, main := InitOpen)
    case InitOpen =>
      if !ok then s.(main := InitUnlock) else s.(open := true, paused := true, main := InitVerify)
    case InitVerify =>
      if !ok then s.(main := InitClose) else s.(haveAudio := true, main := InitUnlock)
    case InitClose => s.(open := false, main := InitUnlock)
    case InitUnlock => s.(global := Nobody, main := MIdle)
    case ShutLock => s.(global := MainT, main := ShutCheck)
    case ShutCheck => if !s.haveAudio then s.(dead := true) else s.(main := ShutLockAudio)
    case ShutLockAudio => s.(audio := MainT, main := ShutSet)
    case ShutSet => s.(paused := true, shutdown := 1, main := ShutBroadcast)
    case ShutBroadcast => WakeApp(WakeCallback(s.(main := ShutUnlockAudio)))
    case ShutUnlockAudio => s.(audio := Nobody, main := ShutClose)
    case ShutClose => s.(open := false, haveAudio := false, main := ShutUnlock)
    case ShutUnlock => s.(global := Nobody, main := MIdle)
  }

  function AfterApp(s: State): State
    requires AppCanStep(s)
  {
    match s.app
    case ALock => s.(global := AppT, app := ACheck)
    case ACheck =>
      if !s.haveAudio then s.(app := AUnlock(-1))
      else if s.first then s.(app := ALockAudio)
      else s.(app := ACopy)
    // the memcpy into s.stream of s.size bytes ends here
    case ACopy => s.(fills := if s.stream == s.buffer then s.fills + 1 else s.fills, app := ALockAudio)
    case ALockAudio => s.(audio := AppT, app := ABody)
    case ABody =>
      var t := s.(paused := if s.first then false else s.paused, first := false, app := ATest, size := 0);
      if t.ready != 0 then WakeCallback(t.(ready := 0)) else t
    case ATest =>
      if s.ready == 0 && s.shutdown == 0 then s.(audio := Nobody, app := ASleep)
      else if s.shutdown != 0 then s.(size := 0, returned := 0, app := AUnlock(-1))
      else s.(returned := s.size, app := AUnlockAudio)
    case AWake => s.(audio := AppT, app := ATest)
    case AUnlockAudio => s.(audio := Nobody, app := AUnlock(0))
    case AUnlock(_) => s.(global := Nobody, app := AIdle)
  }

  function AfterCallback(s: State): State
    requires CallbackCanStep(s)
  {
    match s.callback
    case CLock => s.(audio := CallbackT, callback := CEnter)
    case CEnter =>
      if s.ready == 0
      then WakeApp(s.(stream := s.buffer, size := s.bytes, ready := 1, callback := CTest))
      else s.(callback := CUnlock)
    case CTest =>
      if s.ready == 1 && s.shutdown == 0 then s.(audio := Nobody, callback := CSleep)
      else s.(callback := CUnlock)
    case CWake => s.(audio := CallbackT, callback := CTest)
    case CUnlock => s.(audio := Nobody, callback := CIdle)
  }

  function Apply(s: State, a: Action): State
    requires Enabled(s, a)
  {
    match a
    case StartInit => s.(main := InitLock)
    case StartShutdown => s.(main := ShutLock)
    case MainStep(ok) => AfterMain(s, ok)
    case StartStream => s.(app := ALock)
    case AppStep => AfterApp(s)
    case AppSpurious => s.(app := AWake)
    case Invoke(n) => s.(callback := CLock, buffer := s.buffer + 1, bytes := n, fills := 0)
    case CallbackStep => AfterCallback(s)
    case CallbackSpurious => s.(callback := CWake)
  }

  /** Every action is enabled when its turn comes. */
  predicate Legal(s: State, acts: seq<Action>)
    decreases |acts|
  {
    acts != [] ==> Enabled(s, acts[0]) && Legal(Apply(s, acts[0]), acts[1..])
  }

  function Run(s: State, acts: seq<Action>): State
    requires Legal(s, acts)
    decreases |acts|
  {
    if acts == [] then s else Run(Apply(s, acts[0]), acts[1..])
  }

  /** Some interleaving leads from the start to `s`. */
  ghost predicate Reachable(s: State)
  {
    exists acts :: Legal(START, acts) && Run(START, acts) == s
  }

  // ---------------------------------------------------------------- invariant

  predicate MainHoldsGlobal(s: State)
  {
    !(s.main in {MIdle, InitLock, ShutLock})
  }

  predicate AppHoldsGlobal(s: State) { !(s.app in {AIdle, ALock}) }

  predicate MainHoldsAudio(s: State) { s.main in {ShutSet, ShutBroadcast, ShutUnlockAudio} }
  predicate AppHoldsAudio(s: State) { s.app in {ABody, ATest, AUnlockAudio} }
  predicate CallbackHoldsAudio(s: State) { s.callback in {CEnter, CTest, CUnlock} }

  /** Who holds which mutex is where their program counter says. */
  predicate Locks(s: State)
  {
    && (s.global == MainT <==> MainHoldsGlobal(s)) && (s.global == AppT <==> AppHoldsGlobal(s))
    && s.global != CallbackT
    && (s.audio == MainT <==> MainHoldsAudio(s)) && (s.audio == AppT <==> AppHoldsAudio(s))
    && (s.audio == CallbackT <==> CallbackHoldsAudio(s))
  }

  /** The application thread is past its check that audio is on. */
  predicate AppInside(s: State)
  {
    s.app in {ACopy, ALockAudio, ABody, ATest, ASleep, AWake, AUnlockAudio}
  }

  /** The application thread waits for the next callback. */
  predicate AppWaiting(s: State) { s.app in {ATest, ASleep, AWake} }

  /** The callback waits for its buffer to be filled. */
  predicate CallbackWaiting(s: State) { s.callback in {CTest, CSleep, CWake} }

  predicate ShuttingDown(s: State) { s.main in {ShutBroadcast, ShutUnlockAudio, ShutClose} }

  /** The life of the audio device. */
  predicate Device(s: State)
  {
    && (s.ready == 0 || s.ready == 1) && (s.shutdown == 0 || s.shutdown == 1)
    && (AppInside(s) ==> s.haveAudio)
    && (s.app.AUnlock? ==> if s.haveAudio then s.app.result == 0 else s.app.result == -1)
    && (s.haveAudio && s.shutdown != 0 ==> ShuttingDown(s))
    && (s.haveAudio ==> s.open)
    && (ShuttingDown(s) ==> s.haveAudio && s.shutdown != 0)
    && (s.main in {ShutLockAudio, ShutSet} ==> s.haveAudio)
    && (s.main in {InitOpen, InitVerify, InitClose} ==> !s.haveAudio && s.first && s.ready == 0 && s.shutdown == 0)
    && (s.main == InitOpen ==> !s.open) && (s.main in {InitVerify, InitClose} ==> s.open)
    && (s.haveAudio && !s.first && s.shutdown == 0 ==> !s.paused)
    && (s.shutdown != 0 ==> s.paused)
    && (s.open && !s.haveAudio ==> s.main in {InitVerify, InitClose})
    && (!s.open ==> s.callback == CIdle)
    && (s.open && s.first ==> s.paused && s.callback == CIdle && s.ready == 0)
    && (s.app in {ACopy} ==> !s.first)
    && (AppWaiting(s) || s.app in {AUnlockAudio, AUnlock(0)} ==> !s.first)
  }

  /** The buffer the shared fields name is the one of the blocked callback. */
  predicate Offered(s: State)
  {
    CallbackWaiting(s) && s.stream == s.buffer && s.size == s.bytes
  }

  /** The handshake itself, while no shutdown is under way. */
  predicate Handshake(s: State)
  {
    && (s.haveAudio && s.shutdown == 0 ==>
          && (s.ready == 1 ==> Offered(s))
          && (s.callback in {CLock, CEnter, CIdle} ==> s.ready == 0)
          && (!s.first && !AppWaiting(s) ==> s.ready == 1)
          && (s.ready == 1 ==> s.fills == if s.app in {ALockAudio, ABody} then 1 else 0)
          && (s.ready == 0 && s.callback in {CTest, CSleep, CWake, CUnlock} ==> s.fills == 1)
          && (s.callback == CUnlock ==> s.ready == 0))
    && (s.callback in {CLock, CEnter} ==> s.fills == 0)
    && s.fills <= 1
    && (s.callback == CUnlock && s.shutdown == 0 ==> s.fills == 1)
    && (s.app in {AUnlockAudio, AUnlock(0)} ==> s.returned == s.bytes)
  }

  /** Nobody sleeps on a condition that already holds. */
  predicate NoLostWakeup(s: State)
  {
    && (s.callback == CSleep ==> s.ready == 1 && (s.shutdown == 0 || s.main == ShutBroadcast))
    && (s.app == ASleep ==> s.ready == 0 && s.shutdown == 0)
  }

  predicate Inv(s: State)
  {
    !s.dead ==> Locks(s) && Device(s) && Handshake(s) && NoLostWakeup(s)
  }

  predicate Initialising(s: State)
  {
    s.main in {InitLock, InitCheck, InitOpen, InitVerify, InitClose, InitUnlock}
  }

  /** Before the shutdown is announced. */
  predicate ShutStarting(s: State) { s.main in {ShutLock, ShutCheck, ShutLockAudio} }

  lemma InitStepKeepsInv(s: State, ok: bool)
    requires !s.dead && Inv(s) && MainCanStep(s) && Initialising(s)
    ensures Inv(AfterMain(s, ok))
  {
  }

  lemma ShutStartKeepsInv(s: State, ok: bool)
    requires !s.dead && Inv(s) && MainCanStep(s) && ShutStarting(s)
    ensures Inv(AfterMain(s, ok))
  {
  }

  lemma AnnounceKeepsInv(s: State, ok: bool)
    requires !s.dead && Inv(s) && MainCanStep(s) && s.main in {ShutSet, ShutBroadcast}
    ensures Inv(AfterMain(s, ok))
  {
  }

  lemma ShutEndKeepsInv(s: State, ok: bool)
    requires !s.dead && Inv(s) && MainCanStep(s) && s.main in {ShutUnlockAudio, ShutClose, ShutUnlock}
    ensures Inv(AfterMain(s, ok))
  {
  }

  /** Up to taking the audio mutex. */
  predicate Entering(s: State) { s.app in {ALock, ACheck, ACopy, ALockAudio} }

  lemma AppEntryKeepsInv(s: State)
    requires !s.dead && Inv(s) && AppCanStep(s) && Entering(s)
    ensures Inv(AfterApp(s))
  {
  }

  lemma AppBodyKeepsInv(s: State)
    requires !s.dead && Inv(s) && s.app == ABody
    ensures Inv(AfterApp(s))
  {
  }

  lemma AppWaitKeepsInv(s: State)
    requires !s.dead && Inv(s) && AppCanStep(s) && s.app in {ATest, AWake}
    ensures Inv(AfterApp(s))
  {
  }

  lemma AppExitKeepsInv(s: State)
    requires !s.dead && Inv(s) && AppCanStep(s) && (s.app == AUnlockAudio || s.app.AUnlock?)
    ensures Inv(AfterApp(s))
  {
  }

  lemma CallbackStepKeepsInv(s: State)
    requires !s.dead && Inv(s) && CallbackCanStep(s)
    ensures Inv(AfterCallback(s))
  {
  }

  lemma StartKeepsInv(s: State, a: Action)
    requires Inv(s) && Enabled(s, a) && !a.MainStep? && a != AppStep && a != CallbackStep
    ensures Inv(Apply(s, a))
  {
  }

  lemma MainStepKeepsInv(s: State, ok: bool)
    requires !s.dead && Inv(s) && MainCanStep(s)
    ensures Inv(AfterMain(s, ok))
  {
    hide Inv, AfterMain;
    if Initialising(s) {
      InitStepKeepsInv(s, ok);
    } else if ShutStarting(s) {
      ShutStartKeepsInv(s, ok);
    } else if s.main in {ShutSet, ShutBroadcast} {
      AnnounceKeepsInv(s, ok);
    } else {
      ShutEndKeepsInv(s, ok);
    }
  }

  lemma AppStepKeepsInv(s: State)
    requires !s.dead && Inv(s) && AppCanStep(s)
    ensures Inv(AfterApp(s))
  {
    hide Inv, AfterApp;
    if Entering(s) {
      AppEntryKeepsInv(s);
    } else if s.app == ABody {
      AppBodyKeepsInv(s);
    } else if s.app in {ATest, AWake} {
      AppWaitKeepsInv(s);
    } else {
      AppExitKeepsInv(s);
    }
  }

  lemma StepKeepsInv(s: State, a: Action)
    requires Inv(s) && Enabled(s, a)
    ensures Inv(Apply(s, a))
  {
    hide Inv, AfterMain, AfterApp, AfterCallback;
    match a
    case MainStep(ok) => MainStepKeepsInv(s, ok);
    case AppStep => AppStepKeepsInv(s);
    case CallbackStep => CallbackStepKeepsInv(s);
    case _ => StartKeepsInv(s, a);
  }

  lemma {:induction false} RunKeepsInv(s: State, acts: seq<Action>)
    requires Inv(s) && Legal(s, acts)
    ensures Inv(Run(s, acts))
    decreases |acts|
  {
    hide Inv;
    if acts != [] {
      StepKeepsInv(s, acts[0]);
      RunKeepsInv(Apply(s, acts[0]), acts[1..]);
    }
  }

  lemma ReachableInv(s: State)
    requires Reachable(s)
    ensures Inv(s)
  {
    var acts :| Legal(START, acts) && Run(START, acts) == s;
    RunKeepsInv(START, acts);
  }

  // ------------------------------------------------------------- main results

  /** Some interleaving leads here, and no failed check has ended the program. */
  ghost predicate Live(s: State) { Reachable(s) && !s.dead }

  /** In every interleaving, while nacl_audio_stream copies, the callback whose
      buffer it copies to is blocked with ready == 1, the size is exactly that
      callback's, and this is the buffer's first copy. */
  lemma CopyTargetsBlockedCallback(s: State)
    ensures Live(s) && s.app == ACopy ==>
      && s.stream == s.buffer && s.size == s.bytes && s.fills == 0
      && s.ready == 1 && s.shutdown == 0 && CallbackWaiting(s)
      && (Enabled(s, CallbackStep) ==> CallbackWaiting(Apply(s, CallbackStep)))
  {
    if Live(s) { ReachableInv(s); }
  }

  /** A callback that returns without a shutdown had its buffer filled exactly
      once; none is ever filled twice. */
  lemma ReturningCallbackWasFilledOnce(s: State)
    ensures Live(s) ==> s.fills <= 1
    ensures Live(s) && s.callback == CUnlock && s.shutdown == 0 ==> s.fills == 1
  {
    if Live(s) { ReachableInv(s); }
  }

  /** Shutdown with audio still on happens only under the global mutex, so
      nacl_audio_stream never takes the exit that forgets the audio mutex. */
  lemma LeakingExitUnreachable(s: State)
    ensures Live(s) && s.shutdown != 0 && s.haveAudio ==> s.global == MainT && ShuttingDown(s)
    ensures Live(s) && s.app == ATest ==> s.shutdown == 0 && !(Apply(s, AppStep).app.AUnlock?)
  {
    if Live(s) { ReachableInv(s); }
  }

  /** Every return of nacl_audio_stream leaves both mutexes released by it, and
      a return of 0 hands out the size of a callback that is still blocked. */
  lemma StreamReturnReleases(s: State)
    ensures Live(s) && s.app.AUnlock? ==>
      && Enabled(s, AppStep)
      && (var t := Apply(s, AppStep); t.app == AIdle && t.global != AppT && t.audio != AppT)
      && (s.app.result == 0 ==> s.ready == 1 && s.shutdown == 0 && Offered(s) && s.returned == s.bytes)
  {
    if Live(s) { ReachableInv(s); }
  }

  /** The stream call returns 0 with audio on and -1 with audio off, and nothing
      else. */
  lemma StreamResultExact(s: State)
    ensures Live(s) && s.app.AUnlock? ==>
      && (s.app.result == 0 <==> s.haveAudio)
      && (s.app.result == -1 <==> !s.haveAudio)
  {
    if Live(s) { ReachableInv(s); }
  }

  /** Once shutdown is announced no callback sleeps, none goes back to sleep after
      re-testing, and SDL starts no new one. */
  lemma ShutdownDrainsCallback(s: State)
    ensures Live(s) && s.shutdown != 0 ==> s.paused && forall n: nat :: !Enabled(s, Invoke(n))
    ensures Live(s) && s.shutdown != 0 && s.main != ShutBroadcast ==> s.callback != CSleep
    ensures Live(s) && s.shutdown != 0 && s.callback == CTest ==> Apply(s, CallbackStep).callback == CUnlock
  {
    if Live(s) { ReachableInv(s); }
  }

  /** No wake-up is lost: a sleeper's condition does not hold, so the two
      waiting threads never sleep at the same time. */
  lemma NeverBothAsleep(s: State)
    ensures Live(s) && s.callback == CSleep ==> s.ready == 1
    ensures Live(s) && s.app == ASleep ==> s.ready == 0 && s.shutdown == 0
    ensures Live(s) ==> !(s.app == ASleep && s.callback == CSleep)
  {
    if Live(s) { ReachableInv(s); }
  }

  /** While any call of the interface is under way, some thread can take a step
      that is not a spurious wake-up, or SDL can invoke its callback. */
  lemma NoDeadlock(s: State)
    ensures Live(s) && (s.app != AIdle || s.main != MIdle) ==>
      MainCanStep(s) || AppCanStep(s) || CallbackCanStep(s) || Enabled(s, Invoke(0))
  {
    if Live(s) { ReachableInv(s); }
  }
}

# Verified models of six stateful cores

This project models the stateful cores of a browser plug-in's tool tree and
proves properties of them over every input and every run.

- **XRay trace capture.** `RingIndex`, `XrayLayout`, `XrayCalls`, `XrayReport`
  and `XrayFrames` specify the profiler on values: a ring of 16-byte slots
  written by function-entry and function-exit hooks, annotation texts spread
  over slots, and a second ring of frame records. `XrayTexts` and `XrayLimits`
  say exactly which texts and flags are lost. `XrayProfiler` is the profiler
  updated in place, tied to that specification. The main theorem is that after
  every history a frame still flagged valid is intact and its report lists
  exactly its calls.
- **Audio callback handshake.** `Audio` is a step relation over three threads
  with program counters, two mutexes, a condition variable and spurious
  wake-ups; its theorems hold in every interleaving. `AudioReturns` shows that
  every call can return, `AudioStreams` that streaming can succeed.
- **Simple regular expressions.** `RegexSyntax` (grammar, validator, unique
  parse), `RegexAtoms` (the characters of each atom) and `RegexMatch`
  (declarative language, backtracking matcher, the expression class).
- **Deferred-function scheduler.** `Defer` and `DeferRuns` specify registration
  and whole runs, `DeferOrder` who comes to wait for whom, `DeferAfter` what the
  arguments of a call mean for the run; `DeferRoot` is the dictionary of shared
  group objects that is mutated while one of them is iterated.
- **Open-addressing hash table.** `HashTable` and `Bits`: power-of-two sizes,
  probing all slots but one, growth, and the map it stands for.
- **Terminal emulator.** `Terminal` specifies the escape state machine over a
  flat cell buffer, `TerminalMoves` says what each byte does by row and column,
  `ConsoleXterm` is the in-place machine, `Tgoto` prints the cursor-motion
  strings the machine parses.
- **Two companions.** `SourceWalker` (iterative depth-first walk) and `Primes`
  (three prime tables).

Each in-place class is proved to move its abstract state exactly as the
value-level specification does; the lemmas then speak about that specification.

Where the code falls short of what its comments promise, the model follows the
code and the exact condition is proved:

- An empty frame counts as a whole ring when old frames are invalidated
  (xray.c:194-197), and any frame loses its flag when the writing position comes
  round to its marker, up to two slots before it is written over. `FlagExact` gives the exact condition on positions for
  every frame after every history, `UnstompedIsIntact` says when a frame really
  is intact, and `EmptyFrameUnflagsIntactFrame` shows a frame lost to an empty
  one.
- An annotation that lands on slot 0 is recorded as none, so its text is missing
  from the report. A frame loses at most one text this way, and none exactly
  when no annotation of it landed there (`ReportTextsExact`);
  `TextOnSlotZeroIsLost` is a history where it happens.
- A frame that uses the whole ring or more is dropped, with all others, by the
  marker check, and no other frame ever is (`MarkerExact`, `OverflowIsCaught`).
- A pattern whose text ends in an escaped dollar gets no closing `$`, so full
  matching only asks for a prefix (`FullMatchExact`).
- Margin sequences are not checked. After ESC[v1;v2r the cursor stays on the
  screen exactly when 1 <= v1 and 1 <= v2 <= height; inverted margins are
  harmless in this respect (`MarginBytesExact`, `MarginsExact`). Beyond that
  cells outside the buffer are touched.
- A motion string reaches its target only for rows inside the scroll region, but
  for one corner under inverted margins (`MotionRoundTrip`).
- A group that starts to list the running group only after that has registered
  a third one does not wait for the third, although the comment in defer.py:300-304
  makes no such exception (`WaitsExactly`, `LateListingDoesNotWait`).
- Hash tables of one or two slots can refuse an insert (`Table.Insert`,
  `TableFull`).
- The prime tables disagree below zero: for -1 a sieve that reaches 2 answers
  2, trial division answers -1 (`HybridPrimeTable.GetNextPrime`). For numbers
  below -1 the sieve's search reads its array at a negative index, while trial
  division answers -1.

## Model

| member | source | states |
|---|---|---|
| RingIndex.IncIsSuccessor | native_client/tools/xray/xray.c:151-165 | stepping a wrapped index forward or back is stepping the unbounded position it stands for |
| RingIndex.Distinct | native_client/tools/xray/xray.c:151-165 | two positions less than a lap apart are never the same slot |
| RingIndex.SlotOfIsRemainder | native_client/tools/xray/xray.c:151-165 | the slot of a position is its remainder by the ring size |
| XrayLayout.PackIsMaskAndShift | native_client/tools/xray/xray_priv.h:60-75 | the masks and shifts on 32 bits compute the packing arithmetic used by the other lemmas |
| XrayLayout.PackRecovers | native_client/tools/xray/xray_priv.h:60-75 | the depth always survives packing; the address survives exactly when it is 16-byte aligned and below 2^28 |
| XrayLayout.CallSlotFields | native_client/tools/xray/xray.c:62-66 | the three fields written to a call record are the three fields read back, and its first byte is the depth |
| XrayLayout.MarkerReadBack | native_client/tools/xray/xray.c:485-543 | a written frame marker reads back as the marker, and only a slot whose first byte is 0xFF can read as one |
| XrayLayout.AppendTouches | native_client/tools/xray/xray.c:225-249 | appending a string changes no slot outside the ones its length calls for, wrap-around included |
| XrayLayout.AppendNoMarker | native_client/tools/xray/xray.c:225-249 | no slot an appended string reaches can later be mistaken for a frame marker |
| XrayLayout.OutsideMeansSame | native_client/tools/xray/xray.c:151-165 | a write of consecutive positions leaves every range alone that lies within the same lap |
| XrayLayout.AnnotationRoundTrip | native_client/tools/xray/xray.c:225-274 | for every text that fits in the ring and every start, wrap-around included, what was appended is what is copied out, and reading stops where writing stopped |
| XrayCalls.RunWrites | native_client/tools/xray/xray.c:280-333 | every balanced call sequence writes only the positions its size counts and leaves the index just after them |
| XrayCalls.RunReads | native_client/tools/xray/xray.c:280-333 | calls that fit in one lap read back, record by record and text by text, as their preorder above the depth limit |
| XrayCalls.InPlaceWalk | native_client/tools/xray/xray.c:587-619 | the walk of one recorded call passes its record, its inner calls, and steps over its annotation whole |
| XrayCalls.AnnotationIsSkipped | native_client/tools/xray/xray.c:587-608 | an annotation is stepped over in one move and contributes no record |
| XrayCalls.WalkConcat | native_client/tools/xray/xray.c:613-619 | walks compose: a walk to the middle and one from there give the whole walk |
| XrayCalls.WalkLocal | native_client/tools/xray/xray.c:613-619 | a walk depends only on the slots it crosses |
| XrayCalls.WalkPeriodic | native_client/tools/xray/xray.c:613-619 | a walk depends on the slot it starts from, not on the lap |
| XrayCalls.DeepCallsAreFree | native_client/tools/xray/xray.c:280-296 | calls at or below the depth limit use no slots |
| XrayReport.ReportIsCallLines | native_client/tools/xray/xray.c:644-674 | the report loop on the recorded start and end ends exactly at the end and lists exactly the calls, in preorder, whatever the wrap-around |
| XrayReport.LinesOfCalls | native_client/tools/xray/xray.c:648-674 | following each record to its annotation text gives the lines the calls alone determine |
| XrayReport.RebuildCalls | native_client/tools/xray/xray.c:648-674 | the reported lines determine the whole call tree above the depth limit |
| XrayTexts.LostTextsCounted | native_client/tools/xray/xray.c:648-674 | the lines of the report that differ from the ones with every call's own text are as many as the non-empty annotations above the depth limit that landed on slot 0 |
| XrayTexts.TextsKeptExact | native_client/tools/xray/xray.c:648-674 | every call's own text is reported if and only if no non-empty annotation above the depth limit landed on slot 0 |
| XrayTexts.AtMostOneLost | native_client/tools/xray/xray.c:225-249 | calls that fit in the ring lose at most one text |
| XrayLimits.ReportTextsExact | native_client/tools/xray/xray.c:644-674 | after every history, the report of a flagged frame lacks at most one text, and none if and only if no annotation of the frame landed on slot 0 |
| XrayLimits.TextOnSlotZeroIsLost | native_client/tools/xray/xray.c:324-333 | a history in a ring of four slots whose second frame is flagged valid and reported without its text |
| XrayFrames.MarkerExact | native_client/tools/xray/xray.c:513-543 | the marker survives to the end of the frame exactly when the frame used fewer slots than the ring has |
| XrayFrames.OverflowIsCaught | native_client/tools/xray/xray.c:513-543 | from every reachable state, a frame using the whole ring or more resets the profiler and leaves nothing flagged valid; any other frame is kept |
| XrayFrames.OverflowResets | native_client/tools/xray/xray.c:513-543 | ending a frame that used the whole ring re-establishes the invariant of an empty profiler |
| XrayFrames.MarkerBecomesEmptyText | native_client/tools/xray/xray.c:531-542 | a frame that fits leaves an empty annotation of one slot where its marker was |
| XrayFrames.NothingRecorded | native_client/tools/xray/xray.c:280-319 | calls made while no frame is being captured leave the profiler as it was |
| XrayFrames.SetMaxStackDepth | native_client/tools/xray/xray.c:424-432 | a depth from 1 to 255 becomes the limit, below it the limit is 1, above it 255, and nothing else changes |
| XrayFrames.Reset | native_client/tools/xray/xray.c:407-420 | resetting keeps the depth limit and the ring |
| XrayFrames.CaptureFits | native_client/tools/xray/xray.c:485-543 | a whole frame that fits changes only its marker and its own slots, and reads back as its calls |
| XrayFrames.TraceCountIsCost | native_client/tools/xray/xray.c:186-199 | the count computed from wrapped start and end is the number of slots used, except that an empty frame counts as the whole ring |
| XrayFrames.StompFlags | native_client/tools/xray/xray.c:457-480 | the stomping loop clears exactly the flags of frames whose slots, with all newer ones, no longer fit |
| XrayFrames.TableFlags | native_client/tools/xray/xray.c:457-543 | closing a frame leaves the table with exactly those flags and the tail at the oldest valid frame |
| XrayFrames.StaysIntact | native_client/tools/xray/xray.c:457-543 | a frame the new one does not reach round to was not written over by it |
| XrayFrames.FrameKeepsInv | native_client/tools/xray/xray.c:485-543 | one whole frame keeps the invariant that ties flags, tail, head, index and ring contents to the history |
| XrayFrames.HistoryKeepsInv | native_client/tools/xray/xray.c:407-543 | every history of frames, resets and depth changes keeps that invariant |
| XrayFrames.ReachableInv | native_client/tools/xray/xray.c:793-824 | the invariant holds after every history that starts with initialisation |
| XrayFrames.ValidFrameIsIntact | native_client/tools/xray/xray.c:457-543 | after every history, a frame still flagged valid holds exactly the slots it recorded, and its report lists exactly its calls |
| XrayFrames.TailStartsValidRun | native_client/tools/xray/xray.c:457-480 | after every history, the frames from tail to head are an unbroken valid run that fits the ring with its markers, no older entry is flagged, or the newest frame alone did not fit |
| XrayLimits.TotalExact | native_client/tools/xray/xray.c:457-480 | the slots counted from a frame on stay below the ring size exactly when no frame from it on is empty and the writing position has not come round to its marker |
| XrayLimits.FlagExact | native_client/tools/xray/xray.c:457-480 | after every history, a frame the table still shows is flagged exactly when neither it nor a newer frame is empty and the writing position has not come round to its marker |
| XrayLimits.UnstompedIsIntact | native_client/tools/xray/xray.c:457-480 | after every history, a frame is intact, flagged or not, as long as the writing position has not come past its start again |
| XrayLimits.EmptyFrameUnflagsIntactFrame | native_client/tools/xray/xray.c:186-199 | a history after which a frame has lost its flag to an empty one although its slots are untouched |
| XrayProfiler.Profiler.constructor | native_client/tools/xray/xray.c:793-824 | the object starts in the initial state of the specification |
| XrayProfiler.Profiler.LimitDepth | native_client/tools/xray/xray.c:424-432 | the depth limit is clamped to what a record can hold; nothing else changes |
| XrayProfiler.Profiler.OnEnter | native_client/tools/xray/xray.c:280-296 | the in-place hook moves the whole state as the specification does |
| XrayProfiler.Profiler.OnExit | native_client/tools/xray/xray.c:302-333 | the in-place hook fills the reserved slot and appends the annotation as the specification does |
| XrayProfiler.Profiler.PutChunk | native_client/tools/xray/xray.c:225-249 | the byte loop overlays exactly the bytes up to the terminator on one slot |
| XrayProfiler.Profiler.AppendString | native_client/tools/xray/xray.c:225-249 | the in-place byte loops write the same ring as the slot-wise specification and stop at the next free slot |
| XrayProfiler.Profiler.CopyToString | native_client/tools/xray/xray.c:253-274 | returns the text up to its terminator and the index after its last slot |
| XrayProfiler.CopySlot | native_client/tools/xray/xray.c:253-274 | copies one slot up to its first zero byte and says whether there was one |
| XrayProfiler.Profiler.SkipAnnotation | native_client/tools/xray/xray.c:587-608 | returns the same next index as copying the text out |
| XrayProfiler.Profiler.NextEntry | native_client/tools/xray/xray.c:613-619 | moves one slot past a record and a whole text past an annotation |
| XrayProfiler.Profiler.CollectRows | native_client/tools/xray/xray.c:644-674 | the report loop terminates and visits exactly the records the specification walks over |
| XrayProfiler.Profiler.Restart | native_client/tools/xray/xray.c:407-420 | the reset object is the reset specification state |
| XrayProfiler.Profiler.BeginFrame | native_client/tools/xray/xray.c:485-507 | opens a frame behind a marker as the specification does |
| XrayProfiler.Profiler.LastValidFrame | native_client/tools/xray/xray.c:457-480 | the in-place loop leaves the flags and returns the tail that the specification computes |
| XrayProfiler.Profiler.FinishFrame | native_client/tools/xray/xray.c:513-543 | closing a frame moves the whole object state as the specification does, marker check and reset included |
| Audio.StepKeepsInv | native_client/common/standalone.cc:423-645 | every atomic step of every thread, spurious wake-ups included, keeps the handshake invariant |
| Audio.RunKeepsInv | native_client/common/standalone.cc:423-645 | every interleaving keeps the handshake invariant |
| Audio.ReachableInv | native_client/common/standalone.cc:451-535 | the handshake invariant holds in every state some interleaving reaches from the start |
| Audio.CopyTargetsBlockedCallback | native_client/common/standalone.cc:583-597 | in every interleaving, a copy goes to the buffer of a callback that is still blocked with ready == 1 and exactly that size, and is its first copy |
| Audio.ReturningCallbackWasFilledOnce | native_client/common/standalone.cc:423-448 | a callback that returns without a shutdown had its buffer filled exactly once, and none is ever filled twice |
| Audio.LeakingExitUnreachable | native_client/common/standalone.cc:538-568 | shutdown with audio still on happens only under the global mutex, so the exit of the stream call that forgets the audio mutex is never taken |
| Audio.StreamReturnReleases | native_client/common/standalone.cc:574-645 | every return of the stream call leaves both mutexes released by it, and a 0 result announces a callback that is still blocked |
| Audio.StreamResultExact | native_client/common/standalone.cc:583-645 | the stream call returns 0 exactly with audio on and -1 exactly with audio off |
| Audio.ShutdownDrainsCallback | native_client/common/standalone.cc:538-568 | once shutdown is announced no callback stays asleep or goes back to sleep, and no new one is started |
| Audio.NeverBothAsleep | native_client/common/standalone.cc:423-448 | no wake-up is lost: the application and the callback never sleep at the same time |
| Audio.NoDeadlock | native_client/common/standalone.cc:423-645 | whenever a call is under way some thread can move, or the next callback can arrive, without a spurious wake-up |
| AudioReturns.NextStep | native_client/common/standalone.cc:423-645 | whenever a call is under way some ordinary step brings all calls closer to their end: a rank over the three threads falls |
| AudioReturns.EveryCallCanReturn | native_client/common/standalone.cc:538-645 | from every reachable state some run without spurious wake-ups and without new calls lets the stream call and the main thread's call return; only a check of have_audio still ahead may end the program instead |
| AudioStreams.InitTurnsAudioOn | native_client/common/standalone.cc:451-535 | in every interleaving in which no check and no SDL step fails, initialisation ends with audio on |
| AudioStreams.AudioCanBeTurnedOn | native_client/common/standalone.cc:451-535 | from the start, initialisation alone leads to a state with audio on and no shutdown begun |
| AudioStreams.StreamCanSucceed | native_client/common/standalone.cc:574-645 | from every reachable state with audio on and no shutdown begun, some run without spurious wake-ups and new calls makes the stream call under way return 0 |
| AudioStreams.StreamCanCopy | native_client/common/standalone.cc:583-597 | from every such state some run of stream calls comes to copy audio data |
| RegexSyntax.ValidateRegex | testing/gtest/src/gtest-port.cc:223-277 | accepts a string exactly when it is the printing of some pattern of the grammar |
| RegexSyntax.AcceptsIffPrinted | testing/gtest/src/gtest-port.cc:223-277 | the left-to-right token rules accept exactly the printings of patterns |
| RegexSyntax.ParseThenPrint | testing/gtest/src/gtest-port.cc:223-277 | printing the parse of an accepted string gives the string back |
| RegexSyntax.PrintThenParse | testing/gtest/src/gtest-port.cc:223-277 | every printed body is accepted and parses back to the same items |
| RegexSyntax.PrintParsesBack | testing/gtest/src/gtest-port.cc:223-277 | every printed pattern is accepted and parses back to the same pattern |
| RegexSyntax.ParseIsUnique | testing/gtest/src/gtest-port.cc:223-277 | no string is the printing of two patterns |
| RegexAtoms.PlainAtomMatches | testing/gtest/src/gtest-port.cc:194-213 | an unescaped dot matches every character but the newline, any other unescaped character itself only |
| RegexAtoms.ClassMatches | testing/gtest/src/gtest-port.cc:176-207 | the classes d, w and s match exactly the ten digits; letters, digits and underscore; and the six white-space characters |
| RegexAtoms.ComplementMatches | testing/gtest/src/gtest-port.cc:196-207 | the capital classes match exactly the other characters |
| RegexAtoms.ControlMatches | testing/gtest/src/gtest-port.cc:199-205 | each control escape matches one character |
| RegexAtoms.EscapedPunctuationMatches | testing/gtest/src/gtest-port.cc:209 | escaped punctuation matches itself only |
| RegexAtoms.PunctuationExact | testing/gtest/src/gtest-port.cc:177-179 | punctuation is every printable ASCII character but letters, digits and the space |
| RegexAtoms.EscapesExact | testing/gtest/src/gtest-port.cc:187-190 | exactly punctuation and eleven letters may follow a backslash |
| RegexAtoms.PlainAtomsExact | testing/gtest/src/gtest-port.cc:251-270 | exactly thirteen characters cannot stand for themselves |
| RegexAtoms.RepeatsExact | testing/gtest/src/gtest-port.cc:180 | the repeats are exactly the question mark, the star and the plus |
| RegexAtoms.RepeatMeans | testing/gtest/src/gtest-port.cc:279-308 | they stand for at most one, any number, and at least one |
| RegexAtoms.DotStarWords | testing/gtest/src/gtest-port.cc:212 | the words of dot-star are exactly the strings without a newline |
| RegexMatch.HeadMatchCons | testing/gtest/src/gtest-port.cc:313-339 | matching a prefix is splitting off what the first item takes and matching the rest: the step backtracking relies on |
| RegexMatch.MatchRepetitionAndRegexAtHead | testing/gtest/src/gtest-port.cc:286-308 | the backtracking loop succeeds exactly when some number of repetitions lets the rest match, and terminates because the pattern shrinks |
| RegexMatch.MatchRegexAtHead | testing/gtest/src/gtest-port.cc:313-339 | true exactly when some prefix of the string (all of it before a final `$`) is in the declarative language |
| RegexMatch.MatchRegexAnywhere | testing/gtest/src/gtest-port.cc:349-362 | true exactly when some substring allowed by the anchors is in the language; a null argument never matches |
| RegexMatch.BuildFull | testing/gtest/src/gtest-port.cc:395-413 | the built full pattern is itself valid and is the anchored pattern, closed unless the text ends in an escaped dollar |
| RegexMatch.RE.constructor | testing/gtest/src/gtest-port.cc:383-414 | an expression is valid exactly when its text is the printing of some pattern |
| RegexMatch.RE.FullMatch | testing/gtest/src/gtest-port.cc:371-374 | true exactly when the whole string is in the language, or for a pattern ending in an escaped dollar when a prefix is; never for an invalid expression |
| RegexMatch.RE.PartialMatch | testing/gtest/src/gtest-port.cc:376-380 | true exactly when a substring allowed by the anchors is in the language; never for an invalid expression |
| RegexMatch.FullMatchIsWholeString | testing/gtest/src/gtest-port.cc:395-413 | without an escaped dollar at the end the full pattern matches exactly the strings in the language |
| RegexMatch.FullMatchIsPrefix | testing/gtest/src/gtest-port.cc:410-411 | with one it matches every string that has a prefix in the language |
| RegexMatch.EscapedDollarOverMatches | testing/gtest/src/gtest-port.cc:410-411 | for every valid pattern ending in an escaped dollar there is a string that matches although it is not in the language |
| RegexMatch.FullMatchExact | testing/gtest/src/gtest-port.cc:395-413 | full matching means membership for all strings if and only if the pattern does not end in an escaped dollar |
| Defer.RegisterKeepsInv | native_client/site_scons/site_tools/defer.py:261-270 | a group whose name reads as false never holds functions, so testing the context for truth misses no running group |
| Defer.RegisterAllFuncs | native_client/site_scons/site_tools/defer.py:287-298 | a group ends with what it held followed by exactly what was registered for it, in order |
| Defer.RunningGroupIsFresh | native_client/site_scons/site_tools/defer.py:164-172 | a group re-registered while it runs holds only the new registrations, none of the functions being run |
| Defer.RegisterAllInherits | native_client/site_scons/site_tools/defer.py:300-310 | a group waiting for the running one also waits for every group the running one registers |
| Defer.DescendantsInherited | native_client/site_scons/site_tools/defer.py:300-310 | through any number of turns, a pending group comes to wait for everything its after-names register, directly or through what that registers |
| Defer.StartsAfterDescendants | native_client/site_scons/site_tools/defer.py:155-177 | when a group starts, none of its after-names and nothing those registered, at any remove, is pending |
| Defer.RegisteredRunsFirst | native_client/site_scons/site_tools/defer.py:300-310 | what `a` registers while it runs is started before any group that already listed `a` starts |
| DeferOrder.WaitsExactly | native_client/site_scons/site_tools/defer.py:300-310 | while a group runs, another comes to wait for a third exactly when it did before, when a registration says so, or when the third is registered at a moment at which it lists the running one |
| DeferOrder.ListsExactly | native_client/site_scons/site_tools/defer.py:297-310 | a group lists the running one afterwards exactly when it did before or a registration said so |
| DeferOrder.RegisteredInTimeRunsFirst | native_client/site_scons/site_tools/defer.py:300-310 | what `a` registers while `b` lists `a`, even if only since earlier in the same run, is started before `b` starts |
| DeferOrder.LateListingDoesNotWait | native_client/site_scons/site_tools/defer.py:300-310 | groups with which `b` lists `a` only after `a` has registered `c`, and starts while `c` is pending |
| Defer.PendingUntilPicked | native_client/site_scons/site_tools/defer.py:164-166 | a pending group leaves the dictionary only by being started |
| DeferRuns.CalledExactlyOnce | native_client/site_scons/site_tools/defer.py:155-177 | over every run, what was called and what is still pending are exactly what was there and what was registered, group by group and in order |
| DeferRuns.RunGroupWeight | native_client/site_scons/site_tools/defer.py:155-177 | every turn makes the pending work smaller, so every run ends |
| DeferRuns.StuckHasCycle | native_client/site_scons/site_tools/defer.py:179-183 | when no pending group can start there is a dependency cycle among them |
| DeferRuns.CycleNeverRuns | native_client/site_scons/site_tools/defer.py:157-159 | the groups of a cycle never start, however the run continues |
| DeferRuns.QuietRun | native_client/site_scons/site_tools/defer.py:155-177 | without registrations during the run, groups start at most once each and in an order that respects every after-name |
| DeferRuns.QuietOutcome | native_client/site_scons/site_tools/defer.py:155-183 | such a run ends with groups left if and only if the registered groups had a cycle, and otherwise has called every function exactly once |
| DeferRoot.Root.AddToGroup | native_client/site_scons/site_tools/defer.py:288-298 | creates the group if need be and adds the function and the after-names to its own object |
| DeferRoot.Root.constructor | native_client/site_scons/site_tools/defer.py:117-126 | a new environment has no groups |
| DeferRoot.Root.Add | native_client/site_scons/site_tools/defer.py:287-310 | registering in place changes exactly the group objects the specification changes, with no object shared between two names |
| DeferRoot.Root.Inheriting | native_client/site_scons/site_tools/defer.py:305-310 | the in-place propagation loop adds the name to exactly the groups waiting for the running one |
| DeferRoot.Root.Defer | native_client/site_scons/site_tools/defer.py:219-310 | a bad after-element raises before anything is changed; otherwise the environment is the specification's |
| DeferRoot.ResolveArgs | native_client/site_scons/site_tools/defer.py:274-285 | the after-loop yields the names of strings and functions, or nothing as soon as some element is neither |
| DeferAfter.ResolveExact | native_client/site_scons/site_tools/defer.py:274-285 | the after-argument is refused exactly when some element is neither a name nor a function nor None; otherwise it yields exactly the names given and the names of the functions given |
| DeferAfter.GroupNameExact | native_client/site_scons/site_tools/defer.py:261-270 | the group is the label, or without one the function's name |
| DeferAfter.ListedStartsFirst | native_client/site_scons/site_tools/defer.py:155-177 | in every legal run a group that lists a pending one starts only after it has started |
| DeferAfter.FunctionAfterFunction | native_client/site_scons/site_tools/defer.py:234-235 | after deferring f and then g after f, in every legal run the group of g starts only after the group of f |
| DeferAfter.GroupAfterGroup | native_client/site_scons/site_tools/defer.py:249-251 | the same for groups given by label |
| DeferAfter.DeferredIsCalled | native_client/site_scons/site_tools/defer.py:293-295 | when a run ends with no group left, a deferred function has been called, in its place between what its group held and what the run added |
| DeferRoot.Root.StartGroup | native_client/site_scons/site_tools/defer.py:161-172 | iterating the removed group's own list while functions register more gives the specification's turn: the list being iterated is never disturbed |
| DeferRoot.Root.Call | native_client/site_scons/site_tools/defer.py:170-172 | a called function's registrations leave the running group's object untouched |
| DeferRoot.Root.FindReady | native_client/site_scons/site_tools/defer.py:157-159 | finds a group none of whose after-names is pending, or shows there is none |
| DeferRoot.Root.Turn | native_client/site_scons/site_tools/defer.py:155-177 | one pass starts a group that may start, or changes nothing because none may |
| DeferRoot.Root.RunAll | native_client/site_scons/site_tools/defer.py:155-183 | the loop terminates on every registration tree, with no group left or none that can start |
| DeferRoot.Root.ExecuteDefer | native_client/site_scons/site_tools/defer.py:129-186 | the groups started form a legal run from the old environment; it ends empty, or with the cycle error in a state where nothing can start; a re-entrant call changes nothing; otherwise the context is reset |
| HashTable.RoundUpIsLeastPower | native_client/tools/xray/hashtable.c:174-192 | the or-and-shift rounding yields the least power of two not below the request, and at least 4 for requests of 3 and more |
| HashTable.SmearIsOnes | native_client/tools/xray/hashtable.c:177-187 | the five shifts 1, 2, 4, 8, 16 fill every place below the highest bit of a number of at most 32 bits |
| Bits.SmearStep | native_client/tools/xray/hashtable.c:181-185 | or-ing a number with itself shifted by its count of leading ones doubles that count, up to its length |
| Bits.NoCommonBit | native_client/tools/xray/hashtable.c:175-176 | a positive number without a bit in common with its predecessor is a power of two |
| Bits.MaskIsRemainder | native_client/tools/xray/hashtable.c:86-90 | masking with a power of two less one is taking the remainder |
| HashTable.ProbesCoverTable | native_client/tools/xray/hashtable.c:114-144 | a probe sequence that never finds a free slot has seen every slot but one |
| HashTable.AbsentIfPassedOver | native_client/tools/xray/hashtable.c:86-110 | a probe that meets an empty slot or runs out proves the key is nowhere in the table |
| HashTable.TableFull | native_client/tools/xray/hashtable.c:119-143 | the probes run out only in tables of one or two slots |
| HashTable.FillSlot | native_client/tools/xray/hashtable.c:114-133 | filling the slot where the probe stopped keeps every key findable and unique and adds exactly one pair to the map |
| HashTable.Table.constructor | native_client/tools/xray/hashtable.c:174-202 | a new table of any requested size from 1 to 2^30 is the empty map, with the least power of two of slots |
| HashTable.Table.Lookup | native_client/tools/xray/hashtable.c:86-110 | returns the data of exactly the keys in the map |
| HashTable.Table.FindSlot | native_client/tools/xray/hashtable.c:114-141 | stops at the first slot that is free or holds the key, having passed over all before it |
| HashTable.Table.Insert | native_client/tools/xray/hashtable.c:114-144 | inserts if absent and otherwise keeps the old data; refuses exactly when the key is absent and a table of one or two slots cannot take it, never with four or more |
| HashTable.Table.Grow | native_client/tools/xray/hashtable.c:156-171 | doubling keeps the map and the count, and no re-insertion grows a second time |
| HashTable.InsertAll | native_client/tools/xray/hashtable.c:114-171 | any sequence of insertions makes the table equal to the insert-if-absent map, with no refusal, across all growth |
| Terminal.ReclipOnScreen | native_client/common/console/console_xterm.cc:206-217 | with acceptable margins reclipping always brings the cursor onto the screen, at or above the bottom margin |
| Terminal.ReclipInside | native_client/common/console/console_xterm.cc:206-217 | a cursor inside the scroll region is left alone, cells included |
| Terminal.ByteKeepsGood | native_client/common/console/console_xterm.cc:58-204 | every byte keeps the cursor on the screen and the escape state in order (stage 0..3, both values zero at stage 0), provided a margin sequence it completes is acceptable |
| Terminal.StreamKeepsGood | native_client/common/console/console_xterm.cc:50-56 | the same after every byte of every stream |
| TerminalMoves.ReclipLands | native_client/common/console/console_xterm.cc:206-217 | reclipping sends the cursor to its row and column, to the first cell of the region if it is above it, and to the bottom row if it is below, in which case the region moves up by one row |
| TerminalMoves.NewlineByte | native_client/common/console/console_xterm.cc:181-184 | newline goes to the first column of the next row |
| TerminalMoves.NewlineAtBottom | native_client/common/console/console_xterm.cc:206-217 | on the bottom row of the region newline blanks the bottom row, moves each other row of the region up by one and leaves all rows outside alone |
| TerminalMoves.BackspaceByte | native_client/common/console/console_xterm.cc:185-187 | backspace goes one column back, from the first column to the end of the row before |
| TerminalMoves.CarriageReturnByte | native_client/common/console/console_xterm.cc:188-190 | carriage return goes to the first column of the row |
| TerminalMoves.PrintableByte | native_client/common/console/console_xterm.cc:195-203 | a printable byte changes exactly the cell at the cursor, to that character in the current colours, and the cursor goes one column on, wrapping and scrolling at the end of a row |
| TerminalMoves.PrintableInside | native_client/common/console/console_xterm.cc:195-203 | the same in one step for a cursor inside the region |
| TerminalMoves.OtherGroundByte | native_client/common/console/console_xterm.cc:191-194 | escape starts a sequence, and all other control bytes and bytes above 127 do nothing |
| TerminalMoves.CursorUpDown | native_client/common/console/console_xterm.cc:73-78 | ESC[nA and ESC[nB go n rows up and down in the same column |
| TerminalMoves.CursorForward | native_client/common/console/console_xterm.cc:79-81 | ESC[nC goes n columns on, over the ends of rows |
| TerminalMoves.CursorBack | native_client/common/console/console_xterm.cc:82-84 | ESC[nD goes n columns back, over the starts of rows |
| TerminalMoves.CursorInside | native_client/common/console/console_xterm.cc:73-84 | inside the region the four commands change the cursor and the escape state only |
| TerminalMoves.CursorAtEdges | native_client/common/console/console_xterm.cc:73-78 | beyond the region's edges the cursor up ends in the region's first cell, and the cursor down on the bottom row with the region moved up by one |
| TerminalMoves.CursorHome | native_client/common/console/console_xterm.cc:150-151 | ESC[H goes to the first cell of the screen whatever the margins |
| TerminalMoves.CursorTo | native_client/common/console/console_xterm.cc:159-161 | ESC[r;cH and ESC[r;cf go to column c of row r, counted from one, with columns off the screen running over into other rows |
| TerminalMoves.ColourCommand | native_client/common/console/console_xterm.cc:101-115 | ESC[nm brings the cursor into the region and sets the two colours each value stands for |
| TerminalMoves.ColourInside | native_client/common/console/console_xterm.cc:101-115 | inside the region it changes the two colours and the escape state only |
| TerminalMoves.EscapeBytes | native_client/common/console/console_xterm.cc:58-173 | bracket, digits and semicolon are read as a sequence with two decimal values, and anything unknown ends it without effect |
| Terminal.MarginsExact | native_client/common/console/console_xterm.cc:162-165 | every margin-free continuation keeps the cursor on the screen if and only if the top margin is not above the screen and the bottom margin is on it |
| Tgoto.MarginBytesExact | native_client/common/console/console_xterm.cc:162-165 | after ESC[v1;v2r on any terminal at rest, every margin-free continuation keeps the cursor on the screen if and only if 1 <= v1 and 1 <= v2 <= height |
| Tgoto.MarginBelowScreenFails | native_client/common/console/console_xterm.cc:162-165 | after ESC[1;vr with v above the height, some bytes without margin sequences take the cursor off the screen |
| Terminal.ScrollRow | native_client/common/console/console.cc:108-124 | one scroll of the flat buffer, seen row by row: one blank row in, one row out, all rows outside the range unchanged |
| Terminal.ScrollAnyRow | native_client/common/console/console.cc:108-124 | the same for any two rows: they are brought onto the screen, and a last row before the first counts as the first |
| Terminal.InsertDeleteLines | native_client/common/console/console_xterm.cc:85-100 | ESC[nL and ESC[nM insert or delete max(n, 1) blank rows at the cursor row down to the bottom margin and leave all other rows alone |
| Terminal.EraseCommands | native_client/common/console/console_xterm.cc:116-149 | ESC[nJ and ESC[nK, by row and column: exactly which cells become spaces in the current colours |
| ConsoleXterm.Console.constructor | native_client/common/console/console.cc:82-89 | the screen starts blank, 80 by 24 |
| ConsoleXterm.Console.SetSize | native_client/common/console/console.cc:100-106 | a resized screen has a fresh blank buffer; the cursor stays |
| ConsoleXterm.Console.ScrollRows | native_client/common/console/console.cc:108-124 | the clamped move-and-clear stays inside the buffer and makes the scrolled screen |
| ConsoleXterm.Xterm.constructor | native_client/common/console/console_xterm.cc:36-48 | a new terminal is at rest with its margins at the screen's edges and the cells untouched |
| ConsoleXterm.Xterm.ReclipCursor | native_client/common/console/console_xterm.cc:206-217 | the in-place reclip makes the specified screen, scrolling included |
| ConsoleXterm.Xterm.ScrollLines | native_client/common/console/console_xterm.cc:85-100 | the counting loop scrolls the specified number of times |
| ConsoleXterm.Xterm.EraseScreen | native_client/common/console/console_xterm.cc:116-149 | the erasing loop stays inside the buffer and makes the specified screen |
| ConsoleXterm.Xterm.WriteEscapedChar | native_client/common/console/console_xterm.cc:58-174 | every escape byte moves both objects as the specification does |
| ConsoleXterm.Xterm.WriteChar | native_client/common/console/console_xterm.cc:176-204 | every byte makes the specified terminal with all cell accesses in bounds and the cursor on the screen |
| ConsoleXterm.Xterm.WriteString | native_client/common/console/console_xterm.cc:50-56 | a whole string with acceptable margins makes the specified terminal with the cursor on the screen |
| Tgoto.Tgoto | native_client/common/console/termcap.c:62-115 | the pointer walk prints what the format denotes, for every format that uses at most two values |
| Tgoto.SilentConversions | native_client/common/console/termcap.c:81-107 | %% prints a percent sign, %r exchanges the values, %i counts from one, and unknown conversions are skipped |
| Tgoto.ValueConversions | native_client/common/console/termcap.c:84-99 | %d, %2, %3 and the dot print the next value, in decimal, padded, or as one character |
| Tgoto.PaddedDecimal | native_client/common/console/termcap.c:88-95 | %2 and %3 print exactly two and three digits for values below 100 and 1000, and no padding for longer ones |
| Tgoto.MotionFormat | native_client/common/console/termcap.c:62-115 | for the cursor-motion format the printed bytes are the escape sequence with both decimals, one-based |
| Tgoto.FeedValue1 | native_client/common/console/console_xterm.cc:67-69 | parsing the decimal digits of a number as first value gives the number back |
| Tgoto.FeedValue2 | native_client/common/console/console_xterm.cc:156-158 | the same for the second value |
| Tgoto.TwoValuesRun | native_client/common/console/console_xterm.cc:66-169 | feeding an escape sequence with two printed decimals runs its command on exactly those values and returns to stage 0 |
| Tgoto.MotionMoves | native_client/common/console/console_xterm.cc:155-161 | feeding the printed bytes to a terminal at rest is one move to the position and one reclip |
| Tgoto.MotionRoundTrip | native_client/common/console/console_xterm.cc:155-217 | for every column on the screen and all acceptable margins, the cursor ends where tgoto was asked to put it, cells unchanged, if the row is inside the scroll region; it ends there in no other case except the first column of the bottom row under inverted margins |
| SourceWalker.PushedOk | native_client/site_scons/site_tools/component_targets_msvs.py:396-400 | going down into a new child keeps the walk invariant and uses up one node |
| SourceWalker.PoppedOk | native_client/site_scons/site_tools/component_targets_msvs.py:386-396 | passing over a child on the stack or seen keeps the walk invariant |
| SourceWalker.LeftOk | native_client/site_scons/site_tools/component_targets_msvs.py:401-407 | returning a node keeps the walk invariant, and all its children are seen or still on the stack |
| SourceWalker.Complete | native_client/site_scons/site_tools/component_targets_msvs.py:385-408 | a finished walk has returned exactly the reachable nodes |
| SourceWalker.Walker.constructor | native_client/site_scons/site_tools/component_targets_msvs.py:350-373 | the walk starts with its root on the stack and nothing returned |
| SourceWalker.Walker.Next | native_client/site_scons/site_tools/component_targets_msvs.py:376-408 | terminates on every finite graph, cyclic or not; each returned node's children are seen or on the stack |
| SourceWalker.Walker.TakeChild | native_client/site_scons/site_tools/component_targets_msvs.py:386-400 | one child is examined and the walk has strictly less to do |
| SourceWalker.Walker.Leave | native_client/site_scons/site_tools/component_targets_msvs.py:402-407 | the top node is returned and moves from the stack to the seen nodes; its children are seen or still on the stack |
| SourceWalker.Walker.WalkAll | native_client/site_scons/site_tools/component_targets_msvs.py:415-418 | returns every node reachable from the root past the nodes already seen, each exactly once, and no others |
| SourceWalker.NothingSkipped | native_client/site_scons/site_tools/component_targets_msvs.py:364-367 | with nothing seen beforehand these are all nodes reachable from the root |
| Primes.SquareRootSuffices | testing/gtest/samples/prime_tables.h:58-67 | a number without divisors up to its square root is prime |
| Primes.PrimesAreUnbounded | testing/gtest/samples/prime_tables.h:69-75 | above every number there is a prime: what the search loop's termination rests on |
| Primes.OnTheFlyPrimeTable.IsPrime | testing/gtest/samples/prime_tables.h:58-67 | trial division decides primality of every integer |
| Primes.OnTheFlyPrimeTable.GetNextPrime | testing/gtest/samples/prime_tables.h:69-75 | terminates with the least prime above every non-negative number, and answers -1 for every negative one |
| Primes.CompositeStrikesNothing | testing/gtest/samples/prime_tables.h:106-107 | skipping a struck-out number loses nothing: its multiples are struck already |
| Primes.PreCalculatedPrimeTable.constructor | testing/gtest/samples/prime_tables.h:83-114 | for every max of at least 1 the table marks exactly the primes in 0..max |
| Primes.PreCalculatedPrimeTable.CalculatePrimesUpTo | testing/gtest/samples/prime_tables.h:102-114 | the two nested loops leave exactly the numbers without a smaller divisor above one |
| Primes.PreCalculatedPrimeTable.StrikeMultiples | testing/gtest/samples/prime_tables.h:106-113 | one turn strikes exactly the proper multiples of the next number |
| Primes.PreCalculatedPrimeTable.IsPrime | testing/gtest/samples/prime_tables.h:89-91 | decides primality up to the table's end and answers no beyond |
| Primes.PreCalculatedPrimeTable.GetNextPrime | testing/gtest/samples/prime_tables.h:93-99 | the least prime above p in the table, and -1 exactly when the table holds none |
| Primes.HybridPrimeTable.constructor | testing/gtest/samples/sample8_unittest.cc:52-56 | a table is made exactly when the fallback is not forced |
| Primes.HybridPrimeTable.IsPrime | testing/gtest/samples/sample8_unittest.cc:62-67 | decides primality of every integer in both modes |
| Primes.HybridPrimeTable.GetNextPrime | testing/gtest/samples/sample8_unittest.cc:69-75 | the least prime above p in both modes exactly when p is not negative, except that a table reaching 2 also answers -1 correctly; otherwise -1 |

## Left out

- XRay totals per function, `annotation_count`, report formatting, the percentage cutoff, `qsort` and map files: output and floating point; time stamps are opaque naturals.
- XRay's annotation scratch stack and its formatting: the text of a call's annotation is an input, free of the bytes 0 and 0xFF.
- XRay's capture pausing: `XRayDisableCapture` asserts that recording is on, so it cannot nest although its comment says it can; frames here are captured without pauses.
- XRay hooks called unbalanced, and frames ended at a depth other than 1, which the source asserts against.
- XRay's frame guard and thread id, and allocation failure.
- XRay's string pool, symbol table and symbol pool: bump allocators.
- XRay record words are read as little-endian, as on the targets it is built for.
- XrayFrames.ValidFrameIsIntact: leaves out the entry the next frame will reuse, which the source does not count as part of the ring of frames.
- Audio's `initialized` flag, the same-thread check and failing pthread calls: the source ends the program there, and the model has one application thread and a dead state for the checks on `have_audio`.
- Audio's SDL is an environment: it invokes one callback at a time while open and unpaused, and closing waits for a running callback.
- AudioReturns.EveryCallCanReturn: says that such a run exists, not that every fair scheduler takes one.
- SDL video, events and key translation: thin wrappers over an unseen library.
- Regular expressions: texts are without NUL characters; the pattern length limit of memory and the POSIX half are not modelled.
- Deferred functions are modelled by the finite tree of registrations they make when called; environments, working directories, printing and functions that raise or call ExecuteDefer themselves are not, nor is the root-environment warning.
- DeferRoot.Root.FindReady: picks an arbitrary ready group, since dictionary order is unspecified; all run theorems hold for every choice.
- The hash function is any function of the key, keys are naturals, data is never null, and the probe histogram is left out.
- HashTable.Table.constructor: requests below 1 (an empty or negative size, read out of bounds) and above 2^30 (rounding leaves the positive 32-bit range) are excluded; sizes and masks are naturals otherwise.
- HashTable.Table.Insert: the load test is 100 * count > 66 * size instead of a float division, and sizes do not overflow 32 bits.
- Terminal drawing, fonts and actual colour values; messages about unknown sequences.
- Terminal values are unbounded integers: escape values and cell indices do not overflow. Bytes are signed, so those above 127 are negative and ignored.
- ConsoleXterm.Xterm.WriteChar: bytes that complete a margin sequence leaving the screen are excluded, since the source then touches cells outside its buffer sooner or later (`Tgoto.MarginBytesExact`); nor is the console resized under a live terminal, whose margins would not follow.
- ConsoleXterm.Xterm.WriteString: excludes strings with such margin sequences.
- Tgoto.ValueConversions: the dot is described for the values 1..127; elsewhere the character depends on the signedness of char.
- Tgoto.Tgoto: the 100-byte buffer is unbounded, and formats that use a third value or end in a lone `%`, undefined in the source, are outside the contract.
- SourceWalker's progress printing, and two walkers sharing the child lists kept on the nodes; nodes are assumed to be true in a condition, as SCons nodes are.
- Primes.PreCalculatedPrimeTable.GetNextPrime: numbers below -1 are excluded, because the source then reads its array at a negative index.
- Primes.HybridPrimeTable.GetNextPrime: the same, when there is a table and the number is below its maximum.
- Primes.PreCalculatedPrimeTable.constructor: a maximum below 1 writes outside the source's array and is excluded.
- Primes: integers do not overflow, so the search of the next prime always finds one.

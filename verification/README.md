# Compilation Fabric, verified

A Dafny model of the Compilation Fabric: the orchestrator that gives every
compile request a canonical key, reuses or compiles an artifact under
single-flight and generation authority, validates and persists it, and serves it
locally or through a coordinator and workers.

| area | modules |
|---|---|
| concurrent compile protocol | Fabric (state and lock regions, as a class), FabricRuns (step system and invariant), FabricTheorems (whole runs), FabricAccounts (what artifacts and replies record), FabricRestart (ids after recovery), FabricGaps (limits), Traces, Autotune, EndToEnd |
| coordinator | Coordinator, CoordinatorRuns, CoordinatorCache, CoordinatorLimits (exact conditions), CoordinatorAccounts (where answers come from), CoordinatorGaps |
| CPU compiler | Cpu (execution and optimizer), Bytecode |
| keys | Wire, Canonical, Key, Order, Request, KeyContents (what a key holds), Compatibility, Lifecycle |
| hashing and names | Sha256, Sha256Facts (bits, constants, example), Hex |
| JSON | Json (values, printer, grammar), JsonTheorems, JsonLiterals (what texts denote), JsonParser (the classes) |
| store | Persistence, CrashSafety, Store |
| protocol | Protocol, Channel |
| byte formats | Layouts (what stands at each offset) |
| GPU reduction | Reduction, Parity (against the CPU reference) |

`dafny verify dfyconfig.toml` checks everything.

How the model is laid out. Code that updates fields or arrays is a class or a
method with loops, and its contract ties the new state to a function of the old
one; those functions carry the theorems. Concurrent code is additionally a step
system over the same functions, one step per lock region or atomic access, and
its theorems quantify over every trace. Bytes are integers below 256, C++
integer widths and truncations are written out where they matter, and error
cases are results, not preconditions.

What is a parameter: the number domain of the CPU program (with `x*1 = x`,
`x+0 = x`, `x-0 = x` and an idempotent rounding to single precision), the source
text parser, planning and the toolchain context, the backends' output and
verdicts, the digest where only its equality is used, the printing and rounding
of non-integer numbers, the order in which a directory or a scheduler presents
things, and every split of a byte stream.

Findings, each with a lemma that exhibits it:

- A waiter can receive an artifact that was invalidated between commit and done
  or between done and its own wake-up (`FabricGaps.WaiterGap`,
  `FabricGaps.WaiterGapAfterDone`; exactly when is `FabricTheorems.WaiterIsExact`).
- A key can be compiled twice although the cache would serve it
  (`FabricGaps.DuplicateCompile`; exactly when is
  `FabricTheorems.DuplicateIsExact`).
- Supersession makes `lookup` report an invalidated entry as reusable, recovery
  revives an invalidated artifact, dependency invalidation matches nothing
  (module Fabric, each with its exact condition).
- After a restart recovered ids are given out again
  (`FabricRestart.RestartReusesIds`).
- The coordinator's Invalidate frame never does anything
  (`CoordinatorCache.InvalidateIsNoOp`). A bump after the comparison that looked
  at it comes too late, also inside the check, and a promise is lost when it is
  replaced or erased under its request id (module CoordinatorLimits, exactly
  when; one run in CoordinatorGaps).
- A digest field that was set cannot be read back; half of a digest never
  reaches the identity derived from it (`Key.DigestNeverReadsBack`,
  `Request.IdForDropsHalf`).
- `==` and `<` of parsed keys disagree when the wire order differs
  (`Key.EquivalenceExact`, `Key.WireOrderBreaksAgreement`).
- A lenient environment policy lets reuse cross targets, namespaces and tenants
  (`Compatibility.ReuseIsExact`, `Compatibility.CrossableTags`).
- A crash can mix two records when the digest is zero or fits the old content
  (`CrashSafety.MixtureIff`), and metadata is accepted with extra bytes, with any
  content digest, or with none (`CrashSafety.AcceptedIff`,
  `CrashSafety.CanonicalIff`).
- Two tests never decide: the toolchain generation in the commit region
  (`FabricAccounts.ToolchainTestIsRedundant`) and the limit on the field count
  (`Canonical.CountLimitIsRedundant`); `Terminal` is a state nothing enters
  (`Lifecycle.TerminalIff`).
- The block reduction drops an element for blocks that are not a power of two
  (`Reduction.KernelExactWhenPowerOfTwo`).

Where code and comments disagree the model follows the code: the largest key tag
is that of `IRContent` (57), not the `Tenant` range named in
include/CompilationFabric/Canonical.hpp:162; extra bytes inside metadata are
accepted although include/CompilationFabric/Persistence.hpp:9 says trailing
garbage is rejected.

## Model

| member | source | states |
|---|---|---|
| `EndToEnd.ReuseIsSemanticallySound` | src/Fabric.cpp:217-437 | in every interleaved run, bytes returned to any CPU-planned call (hit, waiter or fresh, any level or tuning variant, maybe compiled for another request) decode to a program that for every seed computes what the call's own unoptimized program computes |
| `EndToEnd.CacheIsSemanticallySound` | src/Fabric.cpp:512-520 | the same for every cached entry under a request's key, hence for everything deploy can load |
| `EndToEnd.SameKeySameProgram` | src/Request.cpp:198-263 | requests with one key have one program and run on the same backend |
| `EndToEnd.EmittedComputes` | src/CpuBackend.cpp:276-305 | bytes of any tuning variant that decode compute the request's unoptimized program |
| `EndToEnd.CpuOnlyHosts` | src/Fabric.cpp:79-86 | a fabric with the CPU backend alone meets the assumptions of the theorems above |
| `FabricTheorems.NoStalePublish` | src/Fabric.cpp:397-407 | an attempt publishes only if no invalidation step lies between its registration and its commit, in any interleaving |
| `FabricTheorems.StaleCommitRejected` | src/Fabric.cpp:400-404 | a commit after such an invalidation leaves the cache unchanged and returns StaleGeneration |
| `FabricTheorems.InvalidationIsFinal` | src/Fabric.cpp:454-498 | once an invalidation matched an artifact, in no later state of a run without recover is it a hit under any key or admitted by deploy |
| `FabricTheorems.SupersessionIsFinal` | src/Fabric.cpp:499-508 | the same for a supersession that applied |
| `FabricTheorems.DeployableIsSound` | src/Fabric.cpp:358-407 | in every reachable state a cached entry was validated for its key, carries the digest of its bytes, comes from a backend run for that key and shares its id with no other entry; Deployable, deployable flag and passed validation go together |
| `FabricTheorems.RepliesAreSound` | src/Fabric.cpp:225-291 | every success returned to a call is for its own key, validated, digest-consistent and made for a request with that key |
| `FabricTheorems.SingleFlight` | src/Fabric.cpp:252-274 | two owners never have the same key, and an owner's flight is the running one its key points to |
| `FabricTheorems.SettledOnce` | src/Fabric.cpp:276-436 | a flight is never dropped or rewritten, and it is settled only by its owner's last step, which returns the recorded reply |
| `FabricTheorems.OwnerExitSettles` | src/Fabric.cpp:276-436 | every exit path of an owner settles its so far open flight with the reply it returns |
| `FabricTheorems.SettledForever` | src/Fabric.cpp:433-436 | what a flight recorded stays recorded for the rest of the run |
| `FabricTheorems.WaitersGetTheOwnersReply` | src/Fabric.cpp:256-266 | all calls served by one flight return exactly the reply it recorded |
| `FabricTheorems.NoDeadlock` | src/Fabric.cpp:252-291 | while a call is unfinished, some call has an enabled step |
| `FabricTheorems.BoundedWork` | src/Fabric.cpp:217-437 | in every run the calls take at most eight steps each |
| `FabricTheorems.GapIsExact` | src/Fabric.cpp:405-434 | until the owner marks its flight done, its artifact is still in service if and only if no invalidation or supersession matched it since the commit |
| `FabricTheorems.WaiterIsExact` | src/Fabric.cpp:256-266 | a waiter receives exactly the owner's result, and when it wakes the cache still serves that artifact if and only if, from the commit to the wake-up, nothing took the key out of service and no later commit replaced it |
| `FabricTheorems.ArtifactServedIff` | src/Fabric.cpp:405-506 | the same condition for a published artifact at any later moment |
| `FabricTheorems.ServingIsExact` | src/Fabric.cpp:225-506 | over any stretch of a run a key is served at its end exactly if some commit in it published the key and nothing hurt it since, or it was served at the start and nothing hurt it |
| `FabricTheorems.HitIsExact` | src/Fabric.cpp:225-235 | a probe hits exactly if an earlier commit published the key and no invalidation or supersession matched it since |
| `FabricTheorems.DuplicateIsExact` | src/Fabric.cpp:248-274 | a call that missed and then registers compiles a key the cache would serve if and only if between the two some commit published the key and nothing took it out of service since |
| `FabricTheorems.ReachableInv` | src/Fabric.cpp:36-75 | every reachable state satisfies the protocol invariant |
| `FabricTheorems.InvalidationHits` | src/Fabric.cpp:454-498 | over runs: an artifact in service is taken out by compiler generation exactly if its commit saw a toolchain generation up to the given one, by id exactly if that is the id its owner returned, by key exactly if it is its key |
| `FabricTheorems.StampIsKept` | src/Fabric.cpp:405-407 | while an artifact stays in service its entry carries the generations of its commit |
| `FabricAccounts.ReuseIsCounted` | src/Fabric.cpp:228-236 | conservation over runs: while an artifact is in service its reuse counter is the number of hits on its key since its commit |
| `FabricAccounts.CommittingOrigin` | src/Fabric.cpp:360-375 | every artifact about to be committed carries the id and generation its own call drew, in two separate reads of the counter, the digest of the bytes its build produced, and the attempt and request of the call |
| `FabricAccounts.ReusedMeansFromCache` | src/Fabric.cpp:225-266 | in every reachable state a success is marked as reused exactly if it came from the cache, and then carries the caller's own request id |
| `FabricAccounts.ToolchainTestIsRedundant` | src/Fabric.cpp:400-400 | in every reachable state the commit test is decided by the cache generation alone |
| `FabricRuns.StepKeeps` | src/Fabric.cpp:217-506 | every step of every call and every invalidation and supersession preserves the invariant |
| `FabricRuns.CommitKeeps` | src/Fabric.cpp:397-420 | the commit region preserves it, in the stale and in the publishing branch |
| `FabricRuns.EndKeeps` | src/Fabric.cpp:276-291 | every way an owner leaves preserves it |
| `FabricRuns.RegisterKeeps` | src/Fabric.cpp:267-273 | registering an attempt preserves it |
| `FabricRuns.ProbeKeeps` | src/Fabric.cpp:225-250 | a probe, hit or miss, preserves it |
| `FabricRestart.RestartReusesIds` | src/Fabric.cpp:69-69 | for every recovered artifact and every compilable key that was not recovered, some run after the restart ends with both sharing an id if and only if that id is at least 2 |
| `FabricRestart.PublishedIdsInRange` | src/Fabric.cpp:362-362 | every artifact published after a restart has an id between 2 and the counter |
| `FabricRestart.RestartBounds` | src/Fabric.cpp:561-574 | after a restart attempts count from 1, artifacts from 2, and every entry under a key that was not recovered has an id of this run |
| `FabricGaps.WaiterGap` | src/Fabric.cpp:420-434 | a concrete run: a waiter that joins between commit and done receives as deployable an artifact already invalidated in the cache, with the owner's request id |
| `FabricGaps.WaiterGapAfterDone` | src/Fabric.cpp:261-266 | a concrete run: an invalidation between done and the waiter's re-acquired lock is missed as well |
| `FabricGaps.DuplicateCompile` | src/Fabric.cpp:248-274 | a run of that kind: a call that missed before the commit joins after done |
| `Fabric.OperationInvalidationExact` | src/Fabric.cpp:472-479 | invalidation by operation matches exactly the keys built for that operation |
| `Fabric.InvalidationIsExact` | src/Fabric.cpp:454-487 | invalidation by key, by id and by compiler generation, entry by entry: only the entry under the key, with the id, or committed under a toolchain generation up to the given one stops being a hit, it loses state and flags and nothing else, and the generations move by one |
| `Fabric.RequestInvalidationIsExact` | src/Fabric.cpp:472-498 | the same for the two kinds that read the key, for keys built from requests |
| `Fabric.SupersessionIsExact` | src/Fabric.cpp:499-508 | supersession changes only entries with that id and an older generation, and of those only state and deployable flag |
| `Fabric.DependencyInvalidationMatchesNothing` | src/Fabric.cpp:488-498 | invalidation by dependency generation matches no key that a request can have |
| `Fabric.SupersedeUndoesInvalidationForLookup` | src/Fabric.cpp:442-448 | after an invalidation a supersession makes lookup report the entry as reusable if and only if it names its id and a newer generation; neither compile nor deploy serves it |
| `Fabric.RecoverRevivesInvalidated` | src/Fabric.cpp:561-574 | for every list of records: an invalidated key is a hit after recovery if and only if the last record with it is Deployable, and it then serves that record's artifact |
| `Fabric.HitAfterRecovery` | src/Fabric.cpp:561-574 | for every list of records and every key: a hit after recovery exactly when the last record with the key is Deployable and reusable, or no record has it and it was a hit before |
| `Fabric.RecoveredState` | src/Fabric.cpp:568-574 | under each key the last record with it, or what was there before; counters, generations and flights unchanged |
| `Fabric.Fabric.Recover` | src/Fabric.cpp:567-574 | the loop leaves exactly that state |
| `Fabric.Fabric.Probe` | src/Fabric.cpp:225-250 | a hit exactly when a reusable Deployable entry is cached; it returns that entry and counts the reuse, a miss changes nothing |
| `Fabric.Fabric.JoinOrRegister` | src/Fabric.cpp:252-274 | joins the running attempt of the key if there is one, otherwise registers a new one under the current generations |
| `Fabric.Fabric.Commit` | src/Fabric.cpp:397-407 | publishes if neither generation moved since registration, otherwise settles the flight as stale |
| `Fabric.Fabric.Compile` | src/Fabric.cpp:217-437 | an undisturbed call: it waits exactly when it misses and an attempt is running, reuses exactly on a hit, a fresh success leaves a hit behind, a failure leaves the cache as it was, and no flight of its own stays open |
| `Fabric.Fabric.Invalidate` | src/Fabric.cpp:454-498 | kills exactly the matching entries and bumps the generations of its kind |
| `Fabric.Fabric.Supersede` | src/Fabric.cpp:499-508 | retires exactly the entries with that id and an older generation |
| `Fabric.Fabric.Deploy` | src/Fabric.cpp:512-520 | returns only an admitted entry with that id; where ids are unique, exactly when the entry with that id is admitted, and that entry |
| `Autotune.SelectWinner` | src/Fabric.cpp:299-331 | a validated candidate if there is one: the fastest measured one, first among equals, otherwise the first validated one |
| `Autotune.VariantsDifferOnlyInTuning` | src/Fabric.cpp:303-305 | a variant changes only the level and the seed; the first has level 0, the others the requested level but at least 1 |
| `Autotune.SeedsAreDistinct` | src/Fabric.cpp:305-305 | no two variants share a seed, and the first has the request's |
| `CoordinatorRuns.ReplayNeverPasses` | src/Distributed.cpp:161-177 | once an envelope's epoch or a generation is passed, or its artifact generation published, no frame carrying it that arrives later passes the authority check |
| `CoordinatorRuns.InFlightReplayRejected` | src/Distributed.cpp:161-177 | a publication also stops every frame in flight for that artifact and no newer generation that has not passed the locked checks |
| `CoordinatorRuns.PublishingBars` | src/Distributed.cpp:205-212 | publication bars the frame's own envelope, and each bump bars every envelope up to the old value |
| `CoordinatorRuns.ArtifactGenerationsMonotone` | src/Distributed.cpp:209-210 | the generation recorded for an artifact never decreases over a run |
| `CoordinatorRuns.CompletedIsAccounted` | src/Distributed.cpp:198-214 | completed equals fulfilled promises plus suppressed duplicates plus publications in progress, in every reachable state |
| `CoordinatorRuns.AttemptsDistinct` | src/Distributed.cpp:282-283 | no two dispatches of a run carry the same attempt id |
| `CoordinatorRuns.PromisesFulfilledOnce` | src/Distributed.cpp:211-213 | a promise's value, once set, is never replaced |
| `CoordinatorRuns.DoomedStep` | src/Distributed.cpp:161-177 | a frame that an outstanding check will reject stays so under every step |
| `CoordinatorRuns.StepPending` | src/Distributed.cpp:279-281 | every step keeps awaited promises unset and awaited under one name |
| `CoordinatorRuns.StepBalanced` | src/Distributed.cpp:198-214 | every step keeps the accounts balanced |
| `CoordinatorAccounts.ReceivedWasPublished` | src/Distributed.cpp:205-290 | an answer to a submission that waited is the result of a publication under its own request id, made while its own promise was the pending one |
| `CoordinatorAccounts.AnswerOrigin` | src/Distributed.cpp:258-290 | every answer is what is published under the key, what the awaited promise holds, or nothing after giving up |
| `CoordinatorAccounts.OnlySuccessIsPublished` | src/Distributed.cpp:179-214 | in every reachable state accepted and published frames are successful ones, ignored frames failures, and exactly the registered workers have a channel |
| `CoordinatorAccounts.RejectedIsAccounted` | src/Distributed.cpp:161-177 | the rejection counter is the number of rejected frames, in every reachable state |
| `CoordinatorAccounts.ValueOrigin` | src/Distributed.cpp:211-213 | a fulfilled promise holds the result of a publication that found it pending |
| `CoordinatorAccounts.PromiseOrigin` | src/Distributed.cpp:279-281 | a waiting submission waits for the promise it made itself |
| `CoordinatorCache.PublishedAgreesWithKey` | src/Distributed.cpp:202-266 | if workers answer what was dispatched and no request id is reused with another key, every published entry and every reply was computed for the key it is stored under or was asked for |
| `CoordinatorCache.InvalidateIsNoOp` | src/Distributed.cpp:242-246 | an Invalidate frame changes nothing in any reachable state |
| `CoordinatorCache.MapIsStable` | src/Distributed.cpp:256-256 | in such a run a request is never remapped to another key |
| `CoordinatorLimits.PublishedThoughBarred` | src/Distributed.cpp:161-214 | a frame that passed its four checks is barred when it is published if and only if its epoch rolled, a generation was bumped or its artifact was published after the check that looked at it |
| `CoordinatorLimits.LateEpochIsExact` | src/Distributed.cpp:162-162 | after passing the epoch check a frame is of an old epoch exactly if the epoch rolled since, inside the check or after it |
| `CoordinatorLimits.LateCacheIsExact` | src/Distributed.cpp:163-163 | the same for the cache generation |
| `CoordinatorLimits.LateToolchainIsExact` | src/Distributed.cpp:163-163 | the same for the toolchain generation |
| `CoordinatorLimits.LateArtifactIsExact` | src/Distributed.cpp:169-171 | after the locked checks a frame is a duplicate exactly if its artifact was published since under at least its generation |
| `CoordinatorLimits.PromiseLostIff` | src/Distributed.cpp:279-289 | the promise of a submission is lost if and only if, while awaited, another submission promised under its request id or one under that id gave up; otherwise it is awaited or fulfilled |
| `CoordinatorLimits.FateIsExact` | src/Distributed.cpp:206-289 | the same from any moment at which a promise is awaited |
| `CoordinatorLimits.LostForever` | src/Distributed.cpp:279-290 | a lost promise is never fulfilled |
| `CoordinatorLimits.OverwrittenPromiseIsLost` | src/Distributed.cpp:279-281 | in particular a promise replaced by a second submission with its request id |
| `CoordinatorLimits.LockedChecksAreExact` | src/Distributed.cpp:164-175 | over every run, the locked checks let a frame through if and only if the worker's last registration carries its boot id with no disconnect since, its artifact generation is not zero and no publication recorded that artifact at or above it, and a submission promised under its request id that no publication or give-up removed |
| `CoordinatorLimits.WorkersAreExact` | src/Distributed.cpp:164-168 | a worker is registered with given capabilities exactly if some registration put them there and no later registration or disconnect of it followed |
| `CoordinatorLimits.PendingIsExact` | src/Distributed.cpp:172-174 | a request id is pending exactly if a promise was made under it that nothing has removed since |
| `CoordinatorGaps.LateBumpDoesNotStopPublication` | src/Distributed.cpp:198-214 | a run of that kind: the epoch rolls between check and publication and the old frame is published |
| `Coordinator.Coordinator.RejectLocked` | src/Distributed.cpp:164-175 | rejects exactly the unauthorized envelopes, counting each |
| `Coordinator.Coordinator.Publish` | src/Distributed.cpp:206-214 | publishes, raises the artifact generation, and fulfils the awaited promise or counts a duplicate |
| `Coordinator.Coordinator.FulfilOrCount` | src/Distributed.cpp:211-213 | fulfils and forgets the awaited promise, or counts a duplicate |
| `Coordinator.Coordinator.Promise` | src/Distributed.cpp:279-281 | allocates a promise and makes it the awaited one of the request |
| `Coordinator.Coordinator.PickWorker` | src/Distributed.cpp:268-277 | the capable worker with the least id, or none if none is capable |
| `Cpu.OptimizePreservesMeaning` | src/CpuBackend.cpp:286-305 | for every program, level and seed the optimized program computes the same output |
| `Cpu.OptimizeIdempotent` | src/CpuBackend.cpp:290-304 | optimizing twice changes nothing more; exactly the removable operations go, unless all are |
| `Cpu.OptimizeKeepsExactly` | src/CpuBackend.cpp:290-304 | level 0 keeps everything; above it an operation is kept exactly if it is not neutral (kind 0, scale by one, add or subtract zero), in order and with its multiplicity, unless nothing would be left |
| `Cpu.RunRounded` | src/CpuBackend.cpp:188-232 | every buffer element stays a fixpoint of rounding |
| `Cpu.DroppableIsIdentity` | src/CpuBackend.cpp:295-299 | a removable operation leaves a rounded buffer unchanged |
| `Cpu.UnroundedBufferBreaksFolding` | src/CpuBackend.cpp:54-57 | without that invariant dropping a scale by one changes the result |
| `Cpu.Execute` | src/CpuBackend.cpp:188-232 | the in-place run yields the program's meaning |
| `Cpu.MapInPlace` | src/CpuBackend.cpp:194-215 | one elementwise operation applied to every element |
| `Cpu.Reduce` | src/CpuBackend.cpp:216-227 | the left fold of a reduction with its starting value |
| `Cpu.Optimize` | src/CpuBackend.cpp:290-304 | the loop yields the specified operation list |
| `Bytecode.DecodeOfEncode` | src/CpuBackend.cpp:128-173 | decoding an encoding returns the program if it has 1 to 4096 operations and rejects it otherwise, also past the 32-bit count |
| `Bytecode.EncodeOfDecode` | src/CpuBackend.cpp:146-173 | every byte string that decodes is the encoding of its program |
| `Bytecode.CompileCorrect` | src/CpuBackend.cpp:276-305 | emitted bytes decode exactly when at most 4096 operations remain, and then compute the request's unoptimized program |
| `Bytecode.RequestOverrides` | src/CpuBackend.cpp:279-283 | what a request overrides in the parsed program: a declared datatype, the first static dimension or else a larger rank, the launch configuration, and nothing else |
| `Bytecode.ValidatedIff` | src/CpuBackend.cpp:364-383 | an artifact validates exactly if it has 1 to 4096 operations, its digest is zero or its own, and every output equals itself |
| `Bytecode.Encode` | src/CpuBackend.cpp:128-144 | the writer produces the specified encoding |
| `Bytecode.Decode` | src/CpuBackend.cpp:146-173 | the reader decides as specified, with the same error classes in the same order |
| `Bytecode.Compile` | src/CpuBackend.cpp:270-310 | parse, reconcile with the request, optimize and encode |
| `Bytecode.Validate` | src/CpuBackend.cpp:364-383 | passes exactly when the bytes decode, the digest is zero or matches, and no output element differs from itself |
| `Canonical.EncodingIffMap` | src/Canonical.cpp:159-174 | two lists of distinct in-range tags encode to the same bytes if and only if they mean the same map |
| `Canonical.RoundTrip` | src/Canonical.cpp:159-204 | distinct in-range tags are parsed back tag-sorted and with the same meaning |
| `Canonical.ReencodeIffSorted` | src/Canonical.cpp:176-204 | an accepted record re-encodes to itself if and only if its fields were in tag order |
| `Canonical.ParseOfEncoding` | src/Canonical.cpp:159-204 | for every list: parsing its encoding succeeds exactly when the valid tags are distinct and no field was skipped, since the count includes skipped fields |
| `Canonical.ParsedIsRecord` | src/Canonical.cpp:176-204 | an accepted record has distinct valid tags and is the record of its fields |
| `Canonical.CountLimitIsRedundant` | src/Canonical.cpp:180-188 | a record with more than 57 fields is refused whatever the limit on the count |
| `Canonical.SortedDetermined` | src/Canonical.cpp:161-163 | a field map has exactly one tag-sorted list |
| `Canonical.MakeCanonicalFields` | src/Canonical.cpp:159-174 | writes the record of some tag sort of the fields |
| `Canonical.Sort` | src/Canonical.cpp:161-163 | a permutation in tag order |
| `Canonical.WriteFields` | src/Canonical.cpp:165-172 | appends the encoding of the fields, skipping invalid tags |
| `Canonical.ParseKeyFields` | src/Canonical.cpp:176-204 | the loop accepts and rejects as the grammar says |
| `Canonical.Duplicate` | src/Canonical.cpp:187-188 | detects a repeated tag |
| `Key.PutFieldRefinesMap` | src/Key.cpp:118-129 | a setter keeps fields sorted and unique and is a map update |
| `Key.SettersRefineMap` | src/Key.cpp:118-137 | any sequence of setters is that sequence of map updates |
| `Key.PutFieldCommutes` | src/Key.cpp:118-129 | setters of different tags commute |
| `Key.LastPutWins` | src/Key.cpp:118-129 | the last of two setters of one tag counts |
| `Key.KeyEqIffMap` | src/Key.cpp:178-185 | operator== is equality of the field maps, in whatever order |
| `Key.KeyLtStrictTotal` | src/Key.cpp:186-192 | operator< is a strict total order on field vectors |
| `Key.EquivalenceExact` | src/Key.cpp:178-192 | neither key less than the other if and only if the keys are equal and list their tags in the same order |
| `Key.SortedKeysAgree` | src/Key.cpp:178-192 | on tag-sorted keys the equivalence of operator< is operator== |
| `Key.WireOrderBreaksAgreement` | src/Key.cpp:219-225 | two parsed keys that are equal and yet one less than the other |
| `Key.ListNeverReadsAsU64` | src/Key.cpp:26-42 | no encoded list reads as a single 64-bit value |
| `Key.DigestGetterExact` | src/Key.cpp:154-160 | getDigest succeeds exactly on a value prefixed with the length 32 |
| `Key.DigestNeverReadsBack` | src/Key.cpp:12-12 | a digest that was set is never read back |
| `Key.EncU64sInjective` | src/Key.cpp:26-30 | lists encode injectively, also beyond the 32-bit count |
| `Key.EncShapeInjective` | src/Key.cpp:16-20 | shapes encode injectively |
| `Key.EncStringInjective` | src/Key.cpp:13-13 | strings encode injectively |
| `Key.EncU64Injective` | src/Key.cpp:15-15 | 64-bit values encode injectively |
| `Key.EncIdInjective` | src/Key.cpp:11-11 | identities encode injectively |
| `Key.EncIdsInjective` | src/Key.cpp:21-25 | lists of identities are encoded injectively |
| `Key.BytesOrdered` | src/Key.cpp:186-192 | byte strings are ordered by their first difference, the smaller byte or the end first |
| `Key.ScalarsReadBack` | src/Key.cpp:32-42 | strings and 64-bit values that were set are read back |
| `Key.DecIdOfEnc` | src/Key.cpp:48-52 | an encoded identity is read back |
| `Key.CompilationKey.Put` | src/Key.cpp:118-129 | erase and insert at the lower bound is a map update that keeps the order |
| `Key.CompilationKey.Find` | src/Key.cpp:108-112 | the first field with the tag |
| `Key.CompilationKey.Equals` | src/Key.cpp:178-185 | compares field by field as specified |
| `Key.CompilationKey.Less` | src/Key.cpp:186-192 | lexicographic comparison of the field vectors |
| `Key.RemoveTag` | src/Key.cpp:120-121 | drops exactly the fields with the tag |
| `Key.LowerBound` | src/Key.cpp:126-127 | splits the fields at the tag |
| `Request.BuildCompilationKey` | src/Request.cpp:198-263 | the run of conditional setters yields, for every request, plan and toolchain, the key that the tag table describes |
| `Request.KeyOfMeaning` | src/Request.cpp:198-263 | the key holds at each tag what the table says and nothing else |
| `Request.KeyOfSorted` | src/Request.cpp:198-263 | every built key is tag-sorted with valid tags |
| `Request.KeyEqualityIsFieldEquality` | src/Request.cpp:198-263 | keys are equal if and only if all their tags agree |
| `Request.KeySeparatesProgram` | src/Request.cpp:198-263 | requests with equal keys agree on source, launch specialization, datatype, rank and shape |
| `Request.KeySeparatesSpecialization` | src/Request.cpp:240-247 | ... on layout, alignment, quantization and precision |
| `Request.KeySeparatesIdentity` | src/Request.cpp:198-262 | ... on operation, source digest, dependency generations, namespace and tenant |
| `Request.ShiftDigest` | src/Request.cpp:26-30 | the shift loop yields the identity of the last eight bytes of each half |
| `Request.IdForDropsHalf` | src/Request.cpp:26-30 | two digests give one identity exactly when bytes 8-15 and 24-31 agree |
| `KeyContents.KeysEqualIff` | src/Request.cpp:198-263 | two keys are equal if and only if the inputs agree: sources and IR, every toolchain field, effective target and ABI, shapes and types, flags and constants, modes, environment, dependencies, revisions, generations, namespace and tenant |
| `KeyContents.KeySeparatesSource` | src/Request.cpp:200-205 | equal keys agree on operation, source and IR |
| `KeyContents.KeySeparatesToolchain` | src/Request.cpp:206-258 | equal keys agree on every toolchain field |
| `KeyContents.KeySeparatesTarget` | src/Request.cpp:222-234 | equal keys agree on vendor, family, and the effective architecture, capability, ISA and ABIs |
| `KeyContents.KeySeparatesShapes` | src/Request.cpp:236-244 | equal keys agree on datatype, layout, rank, shapes, alignment, quantization and precision |
| `KeyContents.KeySeparatesFlags` | src/Request.cpp:243-249 | equal keys agree on launch specialization, constants and flags |
| `KeyContents.KeySeparatesModes` | src/Request.cpp:250-260 | equal keys agree on modes, environment, dependencies, revisions, generations, namespace and tenant |
| `KeyContents.SourceTags` | src/Request.cpp:200-205 | what stands under each tag of the source fields |
| `KeyContents.FrontTags` | src/Request.cpp:206-212 | the same for the front of the toolchain |
| `KeyContents.BackTags` | src/Request.cpp:213-220 | the same for the back of it |
| `KeyContents.TargetTags` | src/Request.cpp:222-234 | the same for the target |
| `KeyContents.ShapeTags` | src/Request.cpp:236-243 | the same for types and shapes |
| `KeyContents.SpecialTags` | src/Request.cpp:243-249 | the same for specialization |
| `KeyContents.ModeTags` | src/Request.cpp:250-256 | the same for modes, environment and dependencies |
| `KeyContents.PolicyTags` | src/Request.cpp:203-260 | the same for generations, namespace, tenant and content |
| `KeyContents.NoOtherTags` | src/Request.cpp:198-263 | a key has no other tag |
| `KeyContents.TextReadsBack` | src/Request.cpp:198-263 | a text under a tag is what the getter returns |
| `Compatibility.DiffsEmptyIff` | src/Compatibility.cpp:192-211 | the list of differences is empty if and only if the keys are equal |
| `Compatibility.DiffsExact` | src/Compatibility.cpp:192-211 | a tag is listed exactly when the keys map it differently |
| `Compatibility.DefaultPolicyIsExact` | src/Compatibility.cpp:213-290 | under the default policy reuse means equal keys and an unblocked state |
| `Compatibility.ReuseNeverCrossesHardField` | src/Compatibility.cpp:213-290 | under every policy reused keys agree on every field with a hard reason |
| `Compatibility.OutcomeIsLowestSpecificDifference` | src/Compatibility.cpp:264-290 | a refusal carries the outcome of the lowest-tagged difference whose outcome is not specialization |
| `Compatibility.RefusalNamesTheLowest` | src/Compatibility.cpp:111-290 | the same by tag numbers alone: which outcome stands for which range of tags |
| `Compatibility.OutcomeByTag` | src/Compatibility.cpp:111-190 | for every tag and outcome, that outcome exactly for the tags of its range |
| `Compatibility.BlockedOutcomes` | src/Compatibility.cpp:218-226 | a named state is out of the question exactly if it is terminal and not Terminal; corrupt, stale or invalid by state |
| `Compatibility.ReuseIsExact` | src/Compatibility.cpp:213-290 | unequal keys are reused, in an unblocked state, if and only if equivalent targets are allowed and only tags 20 to 26 differ, or environments are lenient, tag 48 differs and only tags 20 to 26, 48, 54 and 55 do |
| `Compatibility.CrossableTags` | src/Compatibility.cpp:111-262 | policy by policy, exactly which fields some reuse crosses |
| `Compatibility.LenientEnvironmentCarriesTarget` | src/Compatibility.cpp:246-262 | a lenient environment policy crosses exactly the target fields, the environment, the namespace and the tenant; the default policy crosses nothing |
| `Compatibility.FieldDiffs` | src/Compatibility.cpp:192-211 | visits tags ascending and lists the differences |
| `Compatibility.Decide` | src/Compatibility.cpp:213-290 | decides reuse, outcome and reasons: state first, then equality, then the two lenient policies, then refusal |
| `Lifecycle.HistoryAdvances` | src/Lifecycle.cpp:72-127 | between any two moments of a legal history the ordinal strictly rises, except within the pair Deployed and InUse |
| `Lifecycle.NoRevival` | src/Lifecycle.cpp:60-127 | from Superseded on no legal history leads back to an eligible state |
| `Lifecycle.TerminalIsLast` | src/Lifecycle.cpp:48-75 | no legal history goes on after a terminal state |
| `Lifecycle.TableByTarget` | src/Lifecycle.cpp:72-127 | the table read by target: from which states each one is entered |
| `Lifecycle.TerminalIff` | src/Lifecycle.cpp:48-75 | the terminal states are exactly those without a way out; Terminal and Submitted have no way in |
| `Lifecycle.Lifecycle.To` | src/Lifecycle.cpp:136-144 | moves exactly along allowed transitions |
| `Sha256.Sha256.Update` | src/Core.cpp:258-267 | absorbs the chunk: only the concatenation of all chunks matters |
| `Sha256.Sha256.Final` | src/Core.cpp:269-286 | the digest of FIPS 180-4 for everything absorbed |
| `Sha256.Sha256.Pad` | src/Core.cpp:269-274 | appends 0x80 and the least run of zeros; the loop terminates by the distance to 56 modulo 64 |
| `Sha256.Sha256.Transform` | src/Core.cpp:240-256 | one application of the compression function of section 6.2.2 |
| `Sha256.Sha256.Expand` | src/Core.cpp:241-246 | the array holds the message schedule |
| `Sha256.RoundStep` | src/Core.cpp:249-253 | shifting the working variables is one round |
| `Sha256.HashOf` | src/Core.cpp:288-288 | the one-shot hash |
| `Sha256.HashOfChunks` | src/Core.cpp:258-286 | any chunking gives the digest of the whole message |
| `Sha256.LengthBytes` | src/Core.cpp:275-277 | the length field is big-endian |
| `Sha256.PaddingIsMinimal` | src/Core.cpp:269-274 | no shorter padding aligns the length field (section 5.1.1) |
| `Sha256.LengthField` | src/Core.cpp:270-277 | below 2^61 bytes the length field is the bit length |
| `Sha256Facts.ChBits` | src/Core.cpp:250-250 | bit by bit, choice takes the second word where the first has a one and the third elsewhere |
| `Sha256Facts.MajBits` | src/Core.cpp:251-251 | bit by bit, majority is what at least two of the three have |
| `Sha256Facts.RotrBits` | src/Core.cpp:227-227 | bit i of a rotation by n is bit i + n modulo 32, for every n |
| `Sha256Facts.BigSigma0Bits` | src/Core.cpp:228-228 | bit i is the parity of bits i + 2, i + 13 and i + 22 around the word |
| `Sha256Facts.BigSigma1Bits` | src/Core.cpp:229-229 | the same for 6, 11 and 25 |
| `Sha256Facts.SmallSigma0Bits` | src/Core.cpp:230-230 | the same for 7 and 18, with 3 shifted out at the top |
| `Sha256Facts.SmallSigma1Bits` | src/Core.cpp:231-231 | the same for 17 and 19, with 10 shifted out at the top |
| `Sha256Facts.JoinBytes` | src/Core.cpp:242-245 | four bytes are joined most significant first and come apart the same way |
| `Sha256Facts.ConstantIsCubeRoot` | src/Core.cpp:218-226 | each of the 64 constants is the first 32 bits of the fractional part of the cube root of the prime of its index |
| `Sha256Facts.InitialIsSquareRoot` | src/Core.cpp:234-238 | the initial hash value likewise for square roots |
| `Sha256Facts.AbcDigest` | src/Core.cpp:234-286 | the digest of abc is that of the FIPS 180-4 example |
| `Hex.ParseOfIdHex` | src/Core.cpp:165-183 | an identity is recovered from its hexadecimal name |
| `Hex.IdHexOfParse` | src/Core.cpp:165-183 | a parsed name is the printed one if and only if it is lower case |
| `Hex.IdHexInjective` | src/Core.cpp:177-183 | names of identities are injective |
| `Hex.Parse` | src/Core.cpp:165-175 | the digit loop fills the two words as specified |
| `Hex.DigestRoundTrip` | src/Core.cpp:185-202 | a digest is recovered from its name |
| `Hex.ParseDigest` | src/Core.cpp:192-202 | the loop accepts exactly 64 hexadecimal digits |
| `Hex.BytesHexInjective` | src/Core.cpp:206-212 | names of byte strings are injective |
| `JsonTheorems.RoundTrip` | src/Json.cpp:13-185 | for every nested value with arbitrary byte strings and numbers, printing then parsing succeeds and changes nothing but numbers; it is the identity if and only if each number is printed exactly |
| `JsonTheorems.DumpParses` | src/Json.cpp:29-172 | a printed value is parsed back whatever follows it, numbers as printed and rounded |
| `JsonTheorems.DumpInjective` | src/Json.cpp:29-57 | two values with one text agree in all but what printing loses |
| `JsonTheorems.ParsedIsWellFormed` | src/Json.cpp:74-172 | in whatever the parser accepts every object is a map with ascending keys |
| `JsonTheorems.EscapedParses` | src/Json.cpp:13-28 | an escaped byte string is read back |
| `JsonTheorems.IntegersAreExact` | src/Json.cpp:33-38 | an integer up to 2^53 is printed and read back exactly |
| `JsonTheorems.NumberTextParses` | src/Json.cpp:33-38 | every printed number is read back as the decimal shown, rounded |
| `JsonTheorems.RereadIff` | src/Json.cpp:33-38 | a value is its own reread form if and only if each of its numbers was printed exactly |
| `JsonTheorems.IntegralIsExact` | src/Json.cpp:33-38 | values with integers up to 2^53 are printed exactly |
| `JsonTheorems.AssignSorted` | src/Json.cpp:99-99 | inserting a member keeps an object a map |
| `JsonLiterals.DecimalsDenote` | src/Json.cpp:163-172 | w.f is the value of w plus that of f divided by ten to the number of its digits, and an exponent scales that, up or down by its sign |
| `JsonLiterals.DecimalOfPoint` | src/Json.cpp:163-172 | the same with any sign and whatever follows the digits |
| `JsonLiterals.PlaceValue` | src/Json.cpp:163-172 | digits further left weigh ten times more |
| `JsonLiterals.ScaleStep` | src/Json.cpp:163-172 | an exponent one higher is a factor of ten, for positive and negative exponents |
| `JsonLiterals.ExponentValue` | src/Json.cpp:163-172 | an e of either case, an optional sign, digits |
| `JsonLiterals.PrintedInteger` | src/Json.cpp:33-38 | every 64-bit integer is printed with all its digits |
| `JsonLiterals.ShortEscapes` | src/Json.cpp:130-148 | the eight escapes of one letter, what each yields, and that there are no others |
| `JsonLiterals.EscapeOfHex` | src/Json.cpp:142-147 | four hexadecimal digits stand for their low byte |
| `JsonLiterals.EscapeOddities` | src/Json.cpp:142-147 | what else the conversion accepts there: a sign, a 0x prefix |
| `JsonLiterals.PrintedByte` | src/Json.cpp:13-28 | quotes, backslashes and control characters are escaped, all else stands for itself |
| `JsonLiterals.PrintedShape` | src/Json.cpp:29-57 | the text of null, booleans, strings, arrays and objects in its own characters |
| `JsonLiterals.PrintedList` | src/Json.cpp:39-57 | items and members are separated by commas, a key from its value by a colon |
| `JsonLiterals.Classes` | src/Json.cpp:62-166 | which characters are blanks, digits and parts of a number |
| `JsonLiterals.BlanksAreSkipped` | src/Json.cpp:62-76 | blanks in front of a value make no difference |
| `JsonParser.Parse` | src/Json.cpp:178-185 | accepts exactly one value followed by blanks, and returns it |
| `JsonParser.Parser.Value` | src/Json.cpp:74-85 | parses a value as the grammar says, with a sticky failure flag and a decreasing measure |
| `JsonParser.Parser.Object` | src/Json.cpp:86-106 | parses an object, the last of equal keys winning |
| `JsonParser.Parser.Array` | src/Json.cpp:107-122 | parses an array |
| `JsonParser.Parser.String` | src/Json.cpp:123-153 | parses a string with its escapes |
| `JsonParser.Parser.Number` | src/Json.cpp:163-172 | takes the longest decimal at the start of the token |
| `JsonParser.Parser.Word` | src/Json.cpp:154-162 | true, false and null |
| `JsonParser.Printer.DumpTo` | src/Json.cpp:29-57 | appends the printed form |
| `JsonParser.Printer.EscapeTo` | src/Json.cpp:13-28 | appends the quoted string |
| `Protocol.DecodeOfBody` | src/Protocol.cpp:56-80 | a frame is recovered from its body if and only if its type is known |
| `Protocol.BodyOfDecode` | src/Protocol.cpp:66-80 | every accepted body is the encoding of its frame |
| `Protocol.DecodeOfEnvelope` | src/Protocol.cpp:85-110 | an envelope is recovered from its 100 bytes |
| `Protocol.EnvelopeOfDecode` | src/Protocol.cpp:93-110 | bytes decode as an envelope if and only if there are 100 of them, and then re-encode to themselves |
| `Protocol.EncodeFrameBody` | src/Protocol.cpp:56-65 | writes the specified body |
| `Protocol.DecodeFrameBody` | src/Protocol.cpp:66-80 | the errors in the order of the source |
| `Protocol.EncodeEnvelope` | src/Protocol.cpp:85-92 | writes the specified envelope |
| `Protocol.DecodeEnvelope` | src/Protocol.cpp:93-110 | reads it as specified |
| `Channel.ReceiveAllFrames` | src/Protocol.cpp:339-375 | any list of sendable frames is received back from the concatenated stream, leaving what follows |
| `Channel.ReceivedIsFramed` | src/Protocol.cpp:366-375 | a received frame was sent with exactly those bytes |
| `Channel.Transfer` | src/Protocol.cpp:326-375 | frames sent through one socket are received from another however both cut the bytes |
| `Channel.Socket.RecvAll` | src/Protocol.cpp:339-353 | exactly the requested bytes, or failure with the stream drained, for every split |
| `Channel.Socket.SendAll` | src/Protocol.cpp:326-338 | appends all bytes, for every split |
| `Channel.Socket.SendFrame` | src/Protocol.cpp:356-365 | appends length and body, or refuses a body over 1 MiB and sends nothing |
| `Channel.Socket.RecvFrame` | src/Protocol.cpp:366-375 | length bounds, truncation and body errors as specified |
| `Persistence.LoadIsChecked` | src/Persistence.cpp:138-156 | a load succeeds only with an intact checksum, matching id and generation, and content that hashes to the digest unless that is zero |
| `Persistence.LoadErrors` | src/Persistence.cpp:138-156 | which error a failed load reports, exactly |
| `Persistence.ListedName` | src/Persistence.cpp:165-183 | list recovers exactly the id and generation a metadata file is named after |
| `Persistence.NameOfAny` | src/Persistence.cpp:165-183 | a name is split at its first underscore, whatever stands behind it |
| `Persistence.GenerationTexts` | src/Persistence.cpp:165-183 | signs, overflow and the empty text of a generation |
| `Persistence.NamesDistinct` | src/Persistence.cpp:121-126 | different records use different files |
| `Persistence.DocRoundTrip` | src/Descriptor.cpp:377-421 | id, generation and content digest are read back from a descriptor's document |
| `Persistence.FlagsOnly` | src/Persistence.cpp:61-63 | setting the two flags leaves every other member alone |
| `CrashSafety.InterruptedStoreIsAtomic` | src/Persistence.cpp:128-136 | a store that stops anywhere leaves the old result, an error or the complete new record, never a mixture |
| `CrashSafety.OthersUntouched` | src/Persistence.cpp:17-39 | a store, interrupted or not, leaves every other record's load unchanged |
| `CrashSafety.UntouchedOverHistory` | src/Persistence.cpp:128-136 | the same over any history of interrupted and complete stores |
| `CrashSafety.StoreThenLoad` | src/Persistence.cpp:128-156 | for every document: exactly when loading a stored record succeeds, and that it then returns id, generation, key, content, flags and the document as read back |
| `CrashSafety.MetaDecodes` | src/Persistence.cpp:55-108 | metadata decodes to its record, also with covered bytes slipped in before the checksum |
| `CrashSafety.AcceptedIff` | src/Persistence.cpp:78-108 | bytes are accepted as metadata if and only if the checksum holds and they are magic, version, a key that parses, a document that parses and at least 32 more bytes, whatever those are |
| `CrashSafety.CanonicalIff` | src/Persistence.cpp:55-108 | accepted metadata is what the store would write for its record if and only if the key is in tag order, the document is as printed, and exactly its digest and the checksum follow |
| `CrashSafety.GenerationSurvives` | src/Descriptor.cpp:380-403 | the generation comes back if its number does, in particular up to 2^53, and a document with exact numbers comes back whole |
| `CrashSafety.MixtureIff` | src/Persistence.cpp:148-151 | a store can be interrupted into a mixture of metadata and foreign content if and only if there is different old content and the digest is zero or the hash of it |
| `CrashSafety.BetweenTheRenames` | src/Persistence.cpp:131-156 | what loads between the two renames: nothing without old content, an error if a non-zero digest does not match it, otherwise the mixture |
| `CrashSafety.InterruptedStoreIsExact` | src/Persistence.cpp:128-136 | a store that stops anywhere leaves what loaded before, what loads between the renames, or what loads after |
| `Store.CompletedStoreSurvives` | src/Persistence.cpp:192-216 | a completed record that was not rewritten is returned intact by recovery after any further stores and crashes |
| `Store.RecoverPartitions` | src/Persistence.cpp:205-214 | every listed record lands in exactly one class, the one its load says |
| `Store.StoredIsListed` | src/Persistence.cpp:165-183 | a record whose metadata file exists is listed |
| `Store.CleaningKeepsLoads` | src/Persistence.cpp:196-204 | removing temporary files changes no load |
| `Store.Store.AtomicWrite` | src/Persistence.cpp:17-39 | the destination is replaced as a whole, and every intermediate directory differs by a partial temporary file only |
| `Store.Store.StoreRecord` | src/Persistence.cpp:128-136 | at every instant the directory is one an interrupted store can leave |
| `Store.Store.LoadRecord` | src/Persistence.cpp:138-156 | loads as specified |
| `Store.Store.List` | src/Persistence.cpp:165-183 | lists the parsed names of a directory in its order |
| `Store.Store.Recover` | src/Persistence.cpp:192-216 | cleans temporary files and classifies every listed record |
| `Layouts.FrameLayout` | src/Protocol.cpp:56-65 | what stands at each offset of a frame on the wire: length, version 1, type, flags, sequence number, payload length, payload |
| `Layouts.SendableIff` | src/Protocol.cpp:356-375 | a frame can be sent and read back exactly if its type is 1 to 12 and its payload at most 1048552 bytes |
| `Layouts.BodyErrors` | src/Protocol.cpp:66-80 | the outcome for every body by what stands at its offsets: the first defect decides the error |
| `Layouts.StreamErrors` | src/Protocol.cpp:366-375 | the outcome of receiving from every stream: which error, and what is left |
| `Layouts.EnvelopeLayout` | src/Protocol.cpp:85-92 | the offset of every number in the hundred bytes of an envelope |
| `Layouts.ArtifactLayout` | src/CpuBackend.cpp:128-144 | a bytecode artifact: CFB1, version 1, name, shape, datatype, alignment, launch configuration, number of operations, operations |
| `Layouts.ArtifactErrors` | src/CpuBackend.cpp:146-173 | exactly a wrong or missing version is called invalid, all else corrupt |
| `Layouts.OpsLayout` | src/CpuBackend.cpp:139-143 | operation i at offset 13 i: kind, bits of the scalar, count |
| `Layouts.FieldLayout` | src/Canonical.cpp:165-172 | a field: tag, length in eight bytes, value |
| `Layouts.RecordLayout` | src/Canonical.cpp:159-174 | a record: its count, then its fields; tags outside 1 to 57 are counted and left out |
| `Layouts.NumbersLayout` | src/Key.cpp:26-30 | a list of numbers: count in four bytes, eight bytes each |
| `Layouts.IdsLayout` | src/Key.cpp:21-25 | a list of identities: count in four bytes, high and low word each |
| `Layouts.HexLetters` | src/Core.cpp:165-183 | the sixteen lower-case digits, and that upper case reads the same |
| `Layouts.IdText` | src/Core.cpp:177-183 | an identity as text: digit by digit, high word first, most significant first |
| `Layouts.BytesText` | src/Core.cpp:206-212 | a byte string as text: two digits a byte, the high one first |
| `Layouts.DerivedId` | src/Request.cpp:26-30 | the identity derived from a digest, written out, is its second and fourth quarter |
| `Layouts.NameTexts` | src/Persistence.cpp:121-126 | file names: hexadecimal id, underscore, decimal generation, .meta or .bin |
| `Layouts.MetaLayout` | src/Persistence.cpp:55-70 | a metadata file: CFMD, version 1, key record, document, content digest, and at the end the digest of all that |
| `Reduction.KernelExactWhenPowerOfTwo` | src/Cuda.cpp:135-153 | over every commutative monoid with more than one element the kernel equals the fold for all inputs of length n if and only if min(n, 1024) is a power of two |
| `Reduction.EachReductionExact` | src/Cuda.cpp:135-153 | the same for sum, maximum and minimum |
| `Reduction.LoneIsDropped` | src/Cuda.cpp:147-153 | for any other block one place of the input has no influence on the result |
| `Reduction.KernelIsFold` | src/Cuda.cpp:135-153 | with such a block it equals the sequential fold over every commutative monoid |
| `Reduction.LargeInputsAreFine` | src/Cuda.cpp:486-489 | so for all n of at least 1024 |
| `Reduction.OnesAreDropped` | src/Cuda.cpp:147-153 | on n ones, n below 1024, the result is the largest power of two up to n |
| `Reduction.BlockOfThree` | src/Cuda.cpp:147-153 | a block of three loses an element |
| `Reduction.LanesFold` | src/Cuda.cpp:141-146 | strided accumulation loses nothing, for every block size |
| `Reduction.EveryInterleaving` | src/Cuda.cpp:147-152 | under every interleaving of loads and stores between two barriers a phase has one result |
| `Reduction.AnyOrder` | src/Cuda.cpp:147-152 | so for every order of whole threads |
| `Reduction.PhaseIsRaceFree` | src/Cuda.cpp:148-151 | no active thread writes a cell another one touches |
| `Reduction.Kernel` | src/Cuda.cpp:135-153 | the loops compute the specified reduction |
| `Reduction.Accumulate` | src/Cuda.cpp:141-146 | one thread's strided loop |
| `Reduction.Phase` | src/Cuda.cpp:147-152 | one halving phase in place |
| `Parity.ElementwiseMatchesKernel` | src/Cuda.cpp:119-128 | for each of the seven elementwise operations the CPU program computes at every element what the generated kernel computes, rounded to the program's type, on the same number of elements |
| `Parity.ReductionReference` | src/Cuda.cpp:449-453 | the reference of each reduction operation |
| `Parity.EachElementOnce` | src/Cuda.cpp:155-156 | the launch grid gives every element exactly one thread |
| `Parity.AddThenSubtract` | src/CpuBackend.cpp:204-205 | where subtraction undoes addition, adding then subtracting changes nothing |
| `Parity.NegateTwice` | src/CpuBackend.cpp:209-209 | where negation is an involution that rounding respects, so is the operation |
| `Parity.NegateThenAbs` | src/CpuBackend.cpp:208-209 | negating before taking absolute values makes no difference |
| `Parity.MultiplyIsScale` | src/CpuBackend.cpp:206-207 | multiplying and scaling are one operation |
| `Parity.OtherwiseUnchanged` | src/CpuBackend.cpp:54-57 | only datatype F32 rounds, and a kind that is neither elementwise nor a reduction leaves the buffer as it is |
| `Parity.SumCountsOnes` | src/CpuBackend.cpp:216-226 | a sum over ones counts them |
| `Parity.KernelMatchesCpu` | src/Cuda.cpp:449-453 | for every input whose block is a power of two the kernel's reduction equals the CPU reference |
| `Parity.KernelMatchesCpuExactly` | src/Cuda.cpp:449-453 | and for no other length |
| `Parity.CpuSumIsFold` | src/CpuBackend.cpp:216-226 | the CPU's sum is the sequential fold from zero |
| `Parity.CpuExtremeIsFold` | src/CpuBackend.cpp:216-226 | the CPU's maximum or minimum, started from the first element, is the fold from the kernel's extreme value |
| `Parity.ExtremeIsExtreme` | src/CpuBackend.cpp:216-226 | a maximum or minimum is an element that none exceeds or falls below |
| `Wire.GetBlobPut` | src/Canonical.cpp:80-89 | a length-prefixed string is read back whatever follows |
| `Wire.GetBlobInv` | src/Canonical.cpp:80-89 | whatever is accepted is what the writer would have produced |
| `Wire.GetUintPut` | src/Canonical.cpp:11-30 | integers are read back |
| `Wire.GetUintInv` | src/Canonical.cpp:50-63 | accepted integers are what the writer would have produced |
| `Wire.BEAt` | src/Canonical.cpp:15-24 | each byte is what shift and mask yield |
| `Wire.WrappedBoundAgrees` | src/Canonical.cpp:80-89 | the 64-bit bound test agrees with the natural one exactly when the sum does not wrap |
| `Wire.CanonicalWriter.U32` | src/Canonical.cpp:15-28 | appends four bytes, most significant first |
| `Wire.CanonicalWriter.U64` | src/Canonical.cpp:21-29 | appends eight bytes, most significant first |
| `Wire.CanonicalWriter.U128` | src/Canonical.cpp:30-30 | appends the two words |
| `Wire.CanonicalWriter.Str` | src/Canonical.cpp:37-38 | appends length and bytes |
| `Wire.CanonicalReader.U32` | src/Canonical.cpp:50-57 | reads four bytes or leaves the position |
| `Wire.CanonicalReader.U64` | src/Canonical.cpp:58-63 | reads eight bytes or leaves the position |
| `Wire.CanonicalReader.U128` | src/Canonical.cpp:64-69 | reads two words |
| `Wire.CanonicalReader.Blob` | src/Canonical.cpp:80-89 | reads a length-prefixed string |
| `Wire.CanonicalReader.Blob64` | src/Canonical.cpp:85-89 | with the 64-bit bound as written: equal to the natural one unless the sum wraps, and then it always accepts, yields all that is left and moves back |
| `Wire.CanonicalReader.RawBlob` | include/CompilationFabric/Canonical.hpp:64-64 | reads a fixed number of bytes or leaves the position |
| `Order.LexTotal` | src/Key.cpp:186-192 | two sequences neither of which precedes the other are equal |
| `Order.LexIff` | src/Key.cpp:186-192 | lexicographic order by its meaning: the first difference decides |
| `Order.LexTransitive` | src/Key.cpp:186-192 | lexicographic order is transitive |

## Left out

- The text parser of CPU sources (src/CpuBackend.cpp:79-126): a parameter; the theorems hold for every parser that yields a non-empty operation list.
- Floating-point values: host inputs, libm and the doubles themselves are an abstract domain with the laws named above; in IEEE 754 terms equality is `==`.
- Numbers outside the double range; how many digits a stream prints is left to the floating-point parameter, whose output is assumed to be a decimal.
- Counters (ids, generations, epochs) are unbounded; 64-bit wrap-around of a counter is not modelled.
- Runs that contain `recover`, or claims across a restart: invalidation is not persisted (`Fabric.RecoverRevivesInvalidated`) and the id counter restarts (`FabricRestart.RestartReusesIds`).
- Persisting inside the commit region: the result of that store is ignored by the source and does not influence the protocol.
- Leases, observability counters and events, timings, names and error texts: they would only add easy members.
- CUDA driver, NVRTC and process launch, toolchain probing, command line and benchmarks: foreign calls.
- Socket set-up, accept loops and I/O errors other than the end of the stream; a send that takes nothing forever.
- Liveness of coordinator clients: the code does not provide it.
- Field-by-field JSON mapping of requests and descriptors, and enum names: a descriptor is carried as its JSON document.
- Durability against power loss: the file system is assumed to apply writes and renames in order.
- Collision resistance of SHA-256: results that need it name the hypothesis, or conclude equality of digests only; the coordinator names keys by their digest.
- Autotune.VariantsDifferOnlyInTuning: does not model the timing of candidates, because only the choice among measured values matters.
- Wire.CanonicalReader.Blob: takes the bound in the naturals, because `Wire.WrappedBoundAgrees` states exactly when the 64-bit test differs and `Wire.CanonicalReader.Blob64` what it then does.
- Wire.CanonicalReader.RawBlob: takes the bound in the naturals, because its callers pass 32 and 100, for which the 64-bit sum cannot wrap in memory.

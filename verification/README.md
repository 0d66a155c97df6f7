# Child lock: verified model

A Dafny 4.11 model of the stateful parts of the electronic child lock controller, with proofs about
what its modules do over arbitrarily long runs. `dafny verify dfyconfig.toml` checks all of it.

The centre is the rear-risk evaluator (F-07): two timers and two latches driven by a `uint32_t`
millisecond counter that wraps every 49.7 days. The machine is defined once, over a *clock*: `Wrapping`
is the code, `Unbounded` is the same machine on ideal time. Its timing is stated on ideal time, against
a reference definition (`ConfirmedHigh`) that mentions no timers, and carried to the code by a
refinement whose bound on sample gaps is shown to be exact. Around it stand the protection
controller it feeds (F-08), the validator and priority chain that decide the lock (F-01, F-02), the
persistence manager (F-05) and the ignition-off alert (F-10).

| file | content |
|---|---|
| `ChildLockTypes.dfy` | shared types, constants, 32-bit clock arithmetic |
| `RearRiskEvaluation.dfy` | F-07: sample checks, the hysteresis machine, the context updated in place |
| `HysteresisRuns.dfy` | F-07 runs: the reference definition of HIGH, what holds on both clocks for any gaps, characterisation and monotonicity on ideal time |
| `WrapRefinement.dfy` | the 32-bit counter: offset invariance, the two timers, refinement, exactness of the gap bound |
| `RearRiskGuarantees.dfy` | the run theorems for the code, each with its exact gap bound or none; fault erasure; initialisation and reset |
| `RearRiskProtection.dfy` | F-08, F-07 feeding F-08, change accounting |
| `RearRiskRequirement.dfy` | F-07 and F-08 on raw sensor signals, every threshold written out |
| `InputValidation.dfy` | F-01 and the exact window of its freshness test |
| `ChildLockStateDecision.dfy` | F-02 |
| `LockControl.dfy` | F-01 feeding F-02 over runs, the lock state fed back |
| `StatePersistence.dfy` | F-05 over a non-volatile memory and a Door ECU |
| `IgnitionOffAlert.dfy` | F-10 |

## How to read it

- The C structs that functions fill in or update through a pointer are classes; each method is proved
  equal to a function on values, and the run theorems are about those functions. Ghost histories tie an
  object to the run it has been through: a live evaluator's fields are always the state that the samples
  since its last initialisation lead to.
- A run is a sequence of cycles with ideal time stamps. `Stamp32(samples, offset)` is what the code
  receives of it through a counter showing `offset` at time 0. `Paced(events, gap)` says that time does
  not run backwards over the valid samples and that consecutive valid samples are at most `gap` apart;
  faults may lie between them and do not count. `Ordered` is the first half alone, `PacedWithin` the
  second half between two given samples. `MAX_GAP_MS` is 2^32 - 1000, `MAX_CONFIRM_GAP_MS` 2^32 - 500.
- In the evaluator `Event` is what the machine sees of a cycle: a fault, or a threat bit and a time.

## Assumptions

- Floats are finite reals. (A NaN would pass the evaluator's checks, every comparison with it being
  false.) `0.7f` is given its exact single-precision value, on which nothing depends.
- Between F-01 and F-02 the repository has no code. `LockControl.Adapt` is the obvious adapter: same
  switch values, the SPEED_FAULT bit as `speedSignalFault`, the other two fault bits free, validated
  speed, crash and auto-lock passed on, the target state fed back as the current one.
- The persistence memory is faithful: accepted writes replace the value, refused writes do not, and a
  failing read is missing, flagged invalid, or garbled into a value outside the enumeration. How it
  behaves at each call is free otherwise.
- Enumerations take their declared values, except the raw lock states that F-05 and F-10 check.

## Where code and documentation differ

- The clear timer is described as the time the safe condition was first detected
  (`include/F07_RearRiskEvaluation.h:52`) and as a duration the safe condition must persist
  (`include/childlock_types.h:67-68`). The code restarts it at every threat
  (`src/F07_RearRiskEvaluation.c:184`), so it measures from the last threat: with samples up to `gap` ms
  apart the safe condition is observed for 1000 - `gap` ms at the least, and a single safe sample clears
  when the gap is 1000 ms or more. `CodeSafeSpanIsExact` gives the exact bound for the code on its
  32-bit counter, for every gap; the documented 1000 ms is not guaranteed as soon as time passes.
- The distance condition is described as below the threshold (`src/F07_RearRiskEvaluation.c:92`); the
  code includes equality, and so does the model.
- The alert's design lists an active HMI alert and HMI health as inputs
  (`docs/Software_Detailed_Design.md:51`); the code never reads them (`HmiInputsIgnored`).
- `SPM_RESTORE_STATUS_ERROR` is declared but never reported (`RestoreIsExact`).

## Model

| member | source | states |
|---|---|---|
| RearRiskEvaluation.RearRiskEvaluator.Run | src/F07_RearRiskEvaluation.c:263-306 | Updates the context in place so that the output is the run's output at its last sample, a run starting at the last Init, Reset or use of uninitialised memory; faults leave the machine as it is |
| RearRiskEvaluation.RearRiskEvaluator.UpdateHysteresis | src/F07_RearRiskEvaluation.c:176-213 | The in-place timer and latch updates with uint32 subtraction are one step of the machine on the wrapping clock |
| RearRiskEvaluation.RearRiskEvaluator.Init | src/F07_RearRiskEvaluation.c:227-240 | Forgets everything and starts a new run |
| RearRiskEvaluation.RearRiskEvaluator.Reset | src/F07_RearRiskEvaluation.c:316-320 | Same as Init |
| HysteresisRuns.TimersPoint | src/F07_RearRiskEvaluation.c:181-205 | On either clock the onset timer is the stamp of the ongoing threat's first sample and the clear timer that of the last threat |
| HysteresisRuns.NeverEarly | src/F07_RearRiskEvaluation.c:193-211 | On either clock, with no bound on gaps, every rise of the latch ends a genuine 500 ms threat and every fall comes 1000 ms or more after the last threat |
| HysteresisRuns.HighKept | src/F07_RearRiskEvaluation.c:206-211 | On either clock, with no bound on gaps, a HIGH stays until a sample genuinely clears it |
| HysteresisRuns.HighGenuine | src/F07_RearRiskEvaluation.c:193-198 | On either clock, with no bound on gaps, a HIGH goes back to a genuine confirmation |
| HysteresisRuns.LatchIsConfirmedHigh | src/F07_RearRiskEvaluation.c:181-212 | On ideal time the latch is set if and only if some uninterrupted threat of valid samples lasted 500 ms and no later safe sample lay 1000 ms or more after the last threat before it |
| HysteresisRuns.HeldThreatIsHigh | src/F07_RearRiskEvaluation.c:193-198 | On ideal time HIGH at every sample of an uninterrupted threat 500 ms or more after its start |
| HysteresisRuns.QuietStaysClear | src/F07_RearRiskEvaluation.c:206-211 | On ideal time not HIGH from the first safe sample 1000 ms after the last threat, for as long as no threat returns |
| HysteresisRuns.ChatterBound | src/F07_RearRiskEvaluation.c:181-212 | On either clock and with no bound on gaps, k falls of the latch take at least 1500 k ms whatever the samples and their times |
| HysteresisRuns.ChatterBoundIsExact | src/F07_RearRiskEvaluation.c:181-212 | On either clock k falls fit into a span if and only if it is at least 1500 k ms |
| HysteresisRuns.HighMonotone | src/F07_RearRiskEvaluation.c:181-212 | On ideal time a run with a threat wherever another has one is HIGH wherever the other is |
| HysteresisRuns.SafeSpanIsExact | src/F07_RearRiskEvaluation.c:183-211 | On either clock the safe samples behind a fall of the latch span at least s ms in every run with gaps up to g if and only if s is at most max(0, 1000 - g) (or no time passes at all) |
| WrapRefinement.ShiftInvariance | src/F07_RearRiskEvaluation.c:176-240 | Two runs whose time stamps agree up to a constant modulo 2^32 have the same latch throughout, with no bound on gaps or order |
| WrapRefinement.CounterOffsetUnobservable | src/F07_RearRiskEvaluation.c:263-306 | Every output of the code is independent of what the counter showed at time 0 |
| WrapRefinement.LatchLag | src/F07_RearRiskEvaluation.c:193-211 | At its last valid sample an unconfirmed threat has lasted less than 500 ms and a HIGH has been safe for less than 1000 ms |
| WrapRefinement.LatchRefines | src/F07_RearRiskEvaluation.c:176-213 | With gaps of at most 2^32 - 1000 ms the wrapping latch is the ideal latch at every step, even when a threat or the run outlasts 2^32 ms |
| WrapRefinement.HeldThreatConfirmed | src/F07_RearRiskEvaluation.c:186-198 | The wrapping latch is set at the end of a threat held for 500 ms whose own samples are at most 2^32 - 500 ms apart, after any run |
| WrapRefinement.QuietCleared | src/F07_RearRiskEvaluation.c:206-211 | The wrapping latch is down 1000 ms after the last threat if the samples since are at most 2^32 - 1000 ms apart, after any run |
| WrapRefinement.WrapRefinement | src/F07_RearRiskEvaluation.c:176-306 | All outputs of code and ideal machine agree on all runs with gaps up to g if and only if g is at most 2^32 - 1000 |
| WrapRefinement.StaleClearTimer | src/F07_RearRiskEvaluation.c:206-211 | From a gap of 2^32 - 999 ms on there is a run on which the code keeps a HIGH the ideal machine clears |
| RearRiskGuarantees.RiskHighCharacterised | src/F07_RearRiskEvaluation.c:280-305 | With valid samples at most 2^32 - 1000 ms apart, the code reports riskHigh if and only if the sample is valid and a threat has been confirmed and not cleared since |
| RearRiskGuarantees.CharacterisationBoundIsExact | src/F07_RearRiskEvaluation.c:176-305 | That characterisation holds on all runs with gaps up to g if and only if g is at most 2^32 - 1000 |
| RearRiskGuarantees.EvaluatorLatch | src/F07_RearRiskEvaluation.c:176-306 | With valid samples at most 2^32 - 1000 ms apart, the same of the latch field of a live evaluator and the samples it has received |
| RearRiskGuarantees.WrapNeverEarly | src/F07_RearRiskEvaluation.c:193-211 | With no bound on gaps every rise of the code's latch ends a genuine 500 ms threat and every fall comes 1000 ms or more after the last threat, so wrapping can only delay |
| RearRiskGuarantees.RiskHighGenuine | src/F07_RearRiskEvaluation.c:193-198 | With no bound on gaps every HIGH the code reports goes back to a genuine confirmation |
| RearRiskGuarantees.RiskHighKept | src/F07_RearRiskEvaluation.c:206-211 | With no bound on gaps a reported HIGH is reported at every valid sample until one genuinely clears it |
| RearRiskGuarantees.CodeSafeSpanIsExact | src/F07_RearRiskEvaluation.c:183-211 | In all runs of the code with gaps up to g the safe samples behind a fall span at least s ms if and only if s is at most max(0, 1000 - g) (or no time passes at all) |
| RearRiskGuarantees.ReportsMonotone | src/F07_RearRiskEvaluation.c:102-213 | With valid samples at most 2^32 - 1000 ms apart, a run at every cycle no farther and no slower than another is never reported lower by the code, neither in riskHigh nor in risk level |
| RearRiskGuarantees.MonotoneBoundIsExact | src/F07_RearRiskEvaluation.c:176-213 | The code's riskHigh is monotone in this sense on all runs with gaps up to g if and only if g is at most 2^32 - 1000 |
| RearRiskGuarantees.CodeChatterBound | src/F07_RearRiskEvaluation.c:181-212 | With no bound on gaps the code's latch needs 1500 ms of ideal time for each rise and fall |
| RearRiskGuarantees.ConfirmLatency | src/F07_RearRiskEvaluation.c:193-198 | With the valid samples of a held threat at most P <= 2^32 - 500 apart the code reports it at every valid sample from 500 ms after its start s on, the first of which comes by s + 499 + P; the run before is free |
| RearRiskGuarantees.ConfirmBoundIsExact | src/F07_RearRiskEvaluation.c:193-198 | The code reports every held threat with gaps up to g at its end if and only if g is at most 2^32 - 500 |
| RearRiskGuarantees.ClearLatency | src/F07_RearRiskEvaluation.c:206-211 | With the valid samples since a last threat c at most P <= 2^32 - 1000 apart the code reports no HIGH from c + 1000 on, with a valid sample by c + 999 + P; the run before is free |
| RearRiskGuarantees.FaultErasure | src/F07_RearRiskEvaluation.c:280-290 | Deleting the invalid samples of a run changes neither the context it ends in nor the outputs of its valid cycles |
| RearRiskGuarantees.InitTimersUnobservable | src/F07_RearRiskEvaluation.c:235-239 | The timer values Init sets never reach an output |
| RearRiskGuarantees.OnlySamplesSinceResetMatter | src/F07_RearRiskEvaluation.c:274-278 | From uninitialised memory, or after a Reset, the context is that of a run from Init on the samples since |
| RearRiskRequirement.RiskHighOnSignals | src/F07_RearRiskEvaluation.c:55-305 | With usable samples at most 2^32 - 1000 ms apart, and on raw signals with every threshold written out: riskHigh is reported if and only if the sample is usable (healthy, confidence at least 0.7f, 0 to 50 m, 0 to 50 m/s) and samples within 3 m at 2 m/s or more were held for 500 ms and no later sample outside that zone came 1000 ms or more after the last one inside |
| RearRiskRequirement.ReportOnSignals | src/F07_RearRiskEvaluation.c:55-154 | On every run, validity and the fault flag by the literal validity condition; HIGH, MEDIUM and LOW exactly in their zones of distance and speed; an unusable sample reports no HIGH and level NONE |
| RearRiskRequirement.HighOnlyAfterDanger | src/F07_RearRiskEvaluation.c:102-198 | With no bound on gaps a reported HIGH means raw samples were held in the danger zone for 500 ms |
| RearRiskRequirement.HighUntilDangerOver | src/F07_RearRiskEvaluation.c:200-212 | With no bound on gaps a reported HIGH is repeated at every usable sample until one outside the zone comes 1000 ms or more after the last inside |
| RearRiskProtection.Run | src/F08_RearRiskProtectionController.c:62-120 | The step-by-step output is the specified protection output, nothing of the buffer's old contents surviving |
| RearRiskProtection.Protect | src/F08_RearRiskProtectionController.c:31-120 | clChanged exactly when the target differs from the current state; never an unlock; a message, sound and log exactly when powered and faulty or at HIGH, and otherwise silence; each message has exactly its cause and the auto-activation message is never used |
| RearRiskProtection.DemandCharacterised | src/F08_RearRiskProtectionController.c:72-119 | F-07 feeding F-08, with valid samples at most 2^32 - 1000 ms apart: the target is ON if and only if the lock was ON, or the ignition is on and the cycle is faulty or a threat is confirmed and not cleared |
| RearRiskProtection.WarnsExactlyWhenActing | src/F08_RearRiskProtectionController.c:40-119 | On every run sound, log and message occur exactly at powered cycles that are faulty or report HIGH |
| RearRiskRequirement.DemandOnSignals | src/F08_RearRiskProtectionController.c:40-119 | F-07 feeding F-08 on raw signals: the whole output, target, change, sound, log and message, by whether the cycle is powered and unusable or in confirmed danger |
| RearRiskProtection.NoGapInProtection | src/F08_RearRiskProtectionController.c:72-119 | With no bound on the time between valid samples: from a cycle at which HIGH is reported until a sample genuinely clears it, every ignition-on cycle demands the lock with sound and log, through fault bursts of any length |
| RearRiskProtection.NoGapSinceConfirmation | src/F08_RearRiskProtectionController.c:72-119 | The same from the sample that confirms a held threat whose own samples are at most 2^32 - 500 ms apart; fault bursts after it may have any length |
| RearRiskProtection.LockSetOnlyWithCause | src/F08_RearRiskProtectionController.c:72-119 | With no bound on gaps the lock goes from OFF to ON only at a powered cycle that is faulty or comes after a genuine confirmation |
| RearRiskProtection.LockDemandedInTime | src/F08_RearRiskProtectionController.c:98-119 | A threat held with the ignition on, its valid samples at most P <= 2^32 - 500 ms apart, has the lock demanded within 499 + P ms and at every later cycle of it |
| RearRiskProtection.ChangeAccounting | src/F08_RearRiskProtectionController.c:83-119 | Controller changes plus outside locks less outside unlocks is the net movement of the lock, over any inputs |
| RearRiskProtection.ChangesBounded | src/F08_RearRiskProtectionController.c:83-119 | At most one clChanged cycle more than there were outside unlocks |
| InputValidation.InputMonitor.Run | src/F01_InputMonitorAndValidator.c:258-298 | The buffer, filled in step by step, ends with the validated input, whatever it and the context held before |
| InputValidation.ValidatedBuffer.ValidateSpeed | src/F01_InputMonitorAndValidator.c:102-141 | Speed trusted if and only if in range and fresh on the wrapping counter, otherwise 0.0 together with the fault flag |
| InputValidation.Validate | src/F01_InputMonitorAndValidator.c:258-298 | With ignition on the speed fault is flagged exactly when the speed was replaced; a speed passed on is the raw one; no auto-lock on a replaced speed |
| InputValidation.ValidatedOnSignals | src/F01_InputMonitorAndValidator.c:76-211 | With ignition on and stamps read off the counter inside the freshness window, every output field by literal conditions: the speed is valid if and only if it is 0 to 250 km/h and 0 to less than 500 ms old |
| InputValidation.ValidatedWithoutIgnition | src/F01_InputMonitorAndValidator.c:275-282 | Without ignition every field has its safe default, whatever the signals |
| InputValidation.FreshnessWindow | src/F01_InputMonitorAndValidator.c:116-125 | The uint32 freshness test means 0 <= age < 500 on an interval of ideal ages containing 0 if and only if it lies within [-(2^32 - 500), 2^32) |
| ChildLockStateDecision.DecideChildLockState | src/F02_ChildLockStateDecision.c:25-79 | An ON lock is released only with the reason crash or driver unlock; inhibition and no-change keep the state; stateChanged is exact |
| ChildLockStateDecision.ReasonByPriority | src/F02_ChildLockStateDecision.c:25-79 | For every input: each of the seven reasons if and only if its own condition holds and none of higher priority does |
| ChildLockStateDecision.ReasonSettlesResult | src/F02_ChildLockStateDecision.c:25-79 | For every input the reason determines the target and the safety action |
| ChildLockStateDecision.OutrankedIgnored | src/F02_ChildLockStateDecision.c:25-79 | Inputs that differ only in outranked or unread fields have the same result |
| LockControl.CycleEffect | src/F02_ChildLockStateDecision.c:25-79 | F-01 feeding F-02: conditions on the raw signals say which cycles release, which lock and which do neither; without ignition and free faults none is decisive |
| LockControl.ReasonNamesCause | src/F02_ChildLockStateDecision.c:25-79 | Each reason and safety action is reported exactly when its cause is present and no higher-priority one is |
| LockControl.ReleaseOnSignals | src/F02_ChildLockStateDecision.c:27-65 | On raw signals with every threshold written out: an ON lock is released if and only if there is an active and valid crash, or an OFF request at 0 to 3 km/h less than 500 ms old with the free faults clear |
| LockControl.LockOnSignals | src/F02_ChildLockStateDecision.c:35-73 | Likewise exactly when an OFF lock is set |
| LockControl.UnlockIsGranted | src/F02_ChildLockStateDecision.c:51-59 | A powered, crash-free OFF request at 0 to 3 km/h less than 500 ms old with the free faults clear leaves the lock OFF |
| LockControl.WithoutIgnition | src/F01_InputMonitorAndValidator.c:278-282 | Without ignition only the free faults move the lock, to ON |
| LockControl.LastDecisiveWins | src/F02_ChildLockStateDecision.c:25-79 | After any run the lock is where the most recent decisive cycle put it, or where it started |
| LockControl.UnlockSafety | src/F02_ChildLockStateDecision.c:27-65 | Between ON and a later OFF lies a powered cycle with an active and valid crash, or an OFF request at an in-range speed of at most 3 of age below 500 without fault |
| LockControl.SubstitutedSpeedNeverUnlocks | src/F01_InputMonitorAndValidator.c:133-140 | The 0.0 put in for an invalid speed would grant an unlock by itself; with its fault flag the cycle locks |
| LockControl.LockKeptWhileMoving | src/F01_InputMonitorAndValidator.c:178-187 | Once a crash-free moving cycle without an OFF request has run the lock stays ON through crash-free moving or faulty cycles |
| LockControl.UnlockInhibitedWhileMovingKeepsState | src/F02_ChildLockStateDecision.c:51-65 | An OFF request while moving changes nothing without a fault and locks with one |
| LockControl.FrozenSpeedLocks | src/F01_InputMonitorAndValidator.c:116-140 | With a speed stamp frozen for 500 ms up to 2^32 - 1 ms the lock is ON from the first powered crash-free cycle on and through all crash-free ones after it, whatever the driver asks |
| LockControl.FrozenSpeedWindow | src/F01_InputMonitorAndValidator.c:116-140 | Every powered frozen cycle with an age from 500 ms up to a limit locks if and only if the limit is at most 2^32 ms |
| StatePersistence.StatePersistenceManager.HandleIgnitionOff | src/F05_StatePersistenceManager.c:129-151 | Writes exactly a legal state, reports whether the memory accepted it, and extends the run; nothing happens when uninitialised |
| StatePersistence.StatePersistenceManager.HandleRestore | src/F05_StatePersistenceManager.c:160-201 | Result, Door ECU log and memory are those of the run extended by a restore; nothing happens when uninitialised |
| StatePersistence.StatePersistenceManager.HandleIgnitionOn | src/F05_StatePersistenceManager.c:214-218 | The shared restore path |
| StatePersistence.StatePersistenceManager.HandleReset | src/F05_StatePersistenceManager.c:231-235 | The shared restore path |
| StatePersistence.SaveIsReported | src/F05_StatePersistenceManager.c:135-147 | On every run persistSucceeded exactly at a save of a legal state that the memory accepted; savedClState is the state handed over at a legal ignition-off and OFF at every other call |
| StatePersistence.RestoreIsExact | src/F05_StatePersistenceManager.c:172-195 | RESTORED if and only if a working memory holds a legal state, which is then the last one accepted; every other outcome returns OFF and sends no sync |
| StatePersistence.PersistenceRoundTrip | src/F05_StatePersistenceManager.c:129-235 | A saved state comes back at every later restore from a working memory until the next accepted save |
| StatePersistence.SyncLogIsRestoredStates | src/F05_StatePersistenceManager.c:187-195 | The Door ECU sync log is exactly the sequence of restored states, in order |
| IgnitionOffAlert.IgnitionOffStatusAlert.HandleEvent | src/F10_IgnitionOffStatusAlert.c:155-195 | Latch, query count and output are those of the run of events since Init; silent and without effect when uninitialised |
| IgnitionOffAlert.IgnitionOffStatusAlert.Init | src/F10_IgnitionOffStatusAlert.c:121-141 | Succeeds exactly with a query source, and clears the latch either way |
| IgnitionOffAlert.AlertExactlyOnce | src/F10_IgnitionOffStatusAlert.c:163-191 | An alert at an event if and only if it is the first ignition-off whose query did not succeed with OFF, with the message its answer calls for |
| IgnitionOffAlert.AlertOnSignals | src/F10_IgnitionOffStatusAlert.c:163-191 | The same with OFF as 0 and ON as 1 written out, any other delivered value counting as unknown |
| IgnitionOffAlert.AtMostOneAlert | src/F10_IgnitionOffStatusAlert.c:99-108 | No second alert |
| IgnitionOffAlert.QueryCount | src/F10_IgnitionOffStatusAlert.c:163-168 | One query for each ignition-off event up to and including the alerting one, none after it |
| IgnitionOffAlert.HmiInputsIgnored | src/F10_IgnitionOffStatusAlert.c:155-195 | No output depends on activeHmiAlert or hmiHealthy |

## Left out

- NULL-pointer guards and callback-presence checks (except the query source of F-10): objects are always there.
- Enumeration values outside their declared range, other than the raw lock states of F-05 and F-10.
- IEEE-754 rounding and NaN.
- F-03: its retry loop exists only in the documentation; the code classifies one ACK once.
- F-04, F-06, F-09: stateless per call, each settled by reading one branch.
- Arbitration between the lock decided by F-02 and the lock demanded by F-08: the repository has none.
- A latched emergency state, switch debouncing and long press, auto-lock dwell time: in the design documents, not in the code.
- Memories that keep a refused write or garble one lock state into the other.

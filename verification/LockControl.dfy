/** F-01 feeding F-02 over whole runs, the decided state fed back as the current state.

    The repository has no code between the two modules. Adapt is an assumption: the same switch
    enumeration, the SPEED_FAULT bit as speedSignalFault, the validated speed, crash and auto-lock
    values as they are, and the two other fault bits free inputs of each cycle. */
module LockControl {
  import opened ChildLockTypes
  import opened InputValidation
  import opened ChildLockStateDecision

  datatype Cycle = Cycle(raw: RawInput, sensorFault: bool, stateInconsistency: bool)

  function Adapt(v: Validated, c: Cycle, current: LockState): DecisionInput {
    DecisionInput(
      v.validSwitchInput,
      v.validSpeedKmh,
      v.validCrashSignal,
      current,
      FaultFlags(SpeedFault in v.faultFlags, c.sensorFault, c.stateInconsistency),
      v.autoLockConditionMet)
  }

  function Decide(current: LockState, c: Cycle): DecisionResult {
    DecideChildLockState(Adapt(Validate(c.raw), c, current))
  }

  /** The lock state after the first n cycles. */
  function LockAfter(initial: LockState, cycles: seq<Cycle>, n: nat): LockState
    requires n <= |cycles|
  {
    if n == 0 then initial else Decide(LockAfter(initial, cycles, n - 1), cycles[n - 1]).targetClState
  }

  // ---------- What the raw signals of one cycle mean for the lock ----------

  predicate Powered(c: Cycle) {
    c.raw.ignitionState == IgnitionOn
  }

  predicate Crash(c: Cycle) {
    Powered(c) && c.raw.crashSignalActive && c.raw.crashSignalValid
  }

  /** Any fault the decision sees; without ignition F-01 checks no speed, so only the free bits remain. */
  predicate Faulty(c: Cycle) {
    c.sensorFault || c.stateInconsistency || (Powered(c) && !SpeedTrusted(c.raw))
  }

  /** Known to be moving: above 3 km/h on a speed that can be relied on. */
  predicate Moving(c: Cycle) {
    Powered(c) && SpeedTrusted(c.raw) && c.raw.vehicleSpeedKmh > UNLOCK_INHIBIT_SPEED_KMH
  }

  /** A driver's unlock that is granted: asked for at a relied-on speed of at most 3 km/h, with no fault. */
  predicate UnlockGranted(c: Cycle) {
    && Powered(c) && !Faulty(c)
    && c.raw.switchRequest == RequestOff
    && SpeedInRange(c.raw) && c.raw.vehicleSpeedKmh <= 3.0
    && SpeedAge(c.raw) < 500
  }

  predicate Releases(c: Cycle) {
    Crash(c) || UnlockGranted(c)
  }

  /** A cycle that locks: no crash, and a fault, an ON request, or motion without a request. */
  predicate Locks(c: Cycle) {
    && !Crash(c)
    && (|| Faulty(c)
        || (Powered(c) && c.raw.switchRequest == RequestOn)
        || (Moving(c) && c.raw.switchRequest == NoRequest))
  }

  predicate Decisive(c: Cycle) {
    Releases(c) || Locks(c)
  }

  /** The state a decisive cycle sets. */
  function Verdict(c: Cycle): LockState {
    if Releases(c) then Off else On
  }

  /** A cycle either releases, or locks, or leaves the lock alone, and the raw signals say which. */
  lemma CycleEffect(current: LockState, c: Cycle)
    ensures !(Releases(c) && Locks(c))
    ensures Decide(current, c).targetClState == if Decisive(c) then Verdict(c) else current
    ensures !Powered(c) && !c.sensorFault && !c.stateInconsistency ==> !Decisive(c)
  {
  }

  /** The reason and the safety action name the cause in the raw signals, in the order crash, fault, driver,
      auto-lock; an OFF request is inhibited exactly at the speeds that auto-lock without a request. */
  lemma ReasonNamesCause(current: LockState, c: Cycle)
    ensures var result := Decide(current, c);
            && (result.decisionReason == CrashDetected <==> Crash(c))
            && (result.decisionReason == FaultDetected <==> !Crash(c) && Faulty(c))
            && (result.decisionReason == DriverLockRequest <==>
                  !Crash(c) && !Faulty(c) && Powered(c) && c.raw.switchRequest == RequestOn)
            && (result.decisionReason == DriverUnlockRequest <==> !Crash(c) && UnlockGranted(c))
            && (result.decisionReason == UnlockInhibitedWhileMoving <==>
                  !Crash(c) && !Faulty(c) && Moving(c) && c.raw.switchRequest == RequestOff)
            && (result.decisionReason == AutoLockConditionMet <==>
                  !Crash(c) && !Faulty(c) && Moving(c) && c.raw.switchRequest == NoRequest)
            && (result.decisionReason == NoStateChange <==>
                  && !Crash(c) && !Faulty(c)
                  && (!Powered(c) || (c.raw.switchRequest == NoRequest && !Moving(c))))
            && (result.safetyAction == EnterEmergencyReleased <==> result.decisionReason == CrashDetected)
            && (result.safetyAction == EnterSafeLocked <==> result.decisionReason == FaultDetected)
            && (result.safetyAction == InhibitUnlock <==> result.decisionReason == UnlockInhibitedWhileMoving)
  {
  }

  // ---------- One cycle on the raw signals, every threshold written out ----------

  /** The stamps of a powered cycle are read off a counter at ideal times now and stamp, inside the window in which
      the counter tells their age. */
  predicate Stamped(c: Cycle, now: int, stamp: int) {
    && c.raw.ignitionState == IgnitionOn
    && c.raw.currentTimestampMs == Wrap(now)
    && c.raw.speedTimestampMs == Wrap(stamp)
    && -(0x1_0000_0000 - 500) <= now - stamp < 0x1_0000_0000
  }

  /** An ON lock is released if and only if there is a valid crash, or an OFF request at 0 to 3 km/h measured less
      than 500 ms ago with both free faults clear. */
  lemma ReleaseOnSignals(c: Cycle, now: int, stamp: int)
    requires Stamped(c, now, stamp)
    ensures Decide(On, c).targetClState == Off <==>
              || (c.raw.crashSignalActive && c.raw.crashSignalValid)
              || (&& !c.sensorFault && !c.stateInconsistency
                  && c.raw.switchRequest == RequestOff
                  && 0.0 <= c.raw.vehicleSpeedKmh <= 3.0
                  && 0 <= now - stamp < 500)
  {
    ValidatedOnSignals(c.raw, now, stamp);
  }

  /** An OFF lock is set if and only if there is no valid crash, and either a free fault, a speed outside 0 to 250 km/h
      or 500 ms old, an ON request, or more than 3 km/h without a request. */
  lemma LockOnSignals(c: Cycle, now: int, stamp: int)
    requires Stamped(c, now, stamp)
    ensures Decide(Off, c).targetClState == On <==>
              && !(c.raw.crashSignalActive && c.raw.crashSignalValid)
              && (|| c.sensorFault || c.stateInconsistency
                  || !(0.0 <= c.raw.vehicleSpeedKmh <= 250.0) || !(0 <= now - stamp < 500)
                  || c.raw.switchRequest == RequestOn
                  || (c.raw.switchRequest == NoRequest && c.raw.vehicleSpeedKmh > 3.0))
  {
    ValidatedOnSignals(c.raw, now, stamp);
  }

  /** The driver's right to unlock: a powered, crash-free OFF request at 0 to 3 km/h measured less than 500 ms ago,
      the free faults clear, leaves the lock OFF. */
  lemma UnlockIsGranted(current: LockState, c: Cycle, now: int, stamp: int)
    requires Stamped(c, now, stamp) && !(c.raw.crashSignalActive && c.raw.crashSignalValid)
    requires c.raw.switchRequest == RequestOff && !c.sensorFault && !c.stateInconsistency
    requires 0.0 <= c.raw.vehicleSpeedKmh <= 3.0 && 0 <= now - stamp < 500
    ensures Decide(current, c).targetClState == Off && Decide(current, c).decisionReason == DriverUnlockRequest
  {
    ValidatedOnSignals(c.raw, now, stamp);
  }

  /** Without ignition only the free faults count, and they lock. */
  lemma WithoutIgnition(current: LockState, c: Cycle)
    requires c.raw.ignitionState == IgnitionOff
    ensures Decide(current, c).targetClState == On <==> current == On || c.sensorFault || c.stateInconsistency
  {
  }

  // ---------- Last decisive event ----------

  /** The most recent decisive cycle before position n, or -1. */
  function LastDecisive(cycles: seq<Cycle>, n: nat): (i: int)
    requires n <= |cycles|
    ensures -1 <= i < n
    ensures i >= 0 ==> Decisive(cycles[i])
    ensures forall k | i < k < n :: !Decisive(cycles[k])
  {
    if n == 0 then -1 else if Decisive(cycles[n - 1]) then n - 1 else LastDecisive(cycles, n - 1)
  }

  /** The lock is where the most recent decisive cycle put it, or where it started. */
  lemma {:induction false} LastDecisiveWins(initial: LockState, cycles: seq<Cycle>, n: nat)
    requires n <= |cycles|
    ensures LockAfter(initial, cycles, n) ==
            var i := LastDecisive(cycles, n); if i < 0 then initial else Verdict(cycles[i])
  {
    if n > 0 {
      LastDecisiveWins(initial, cycles, n - 1);
      CycleEffect(LockAfter(initial, cycles, n - 1), cycles[n - 1]);
    }
  }

  // ---------- Unlock safety ----------

  /** A lock found ON and later OFF was released in between by a crash that is active and valid, or by an
      unlock request at a trusted speed of at most 3 km/h without any fault; and no later cycle locks. */
  lemma UnlockSafety(initial: LockState, cycles: seq<Cycle>, a: nat, b: nat) returns (n: nat)
    requires a <= b <= |cycles|
    requires LockAfter(initial, cycles, a) == On && LockAfter(initial, cycles, b) == Off
    ensures a <= n < b
    ensures Crash(cycles[n]) || UnlockGranted(cycles[n])
    ensures forall k | n < k < b :: !Locks(cycles[k])
  {
    LastDecisiveWins(initial, cycles, a);
    LastDecisiveWins(initial, cycles, b);
    n := LastDecisive(cycles, b);
  }

  /** The 0.0 that stands in for an invalid speed would by itself be slow enough to unlock; the fault flag
      that comes with it outranks the request, so it locks instead. */
  lemma SubstitutedSpeedNeverUnlocks(current: LockState, c: Cycle)
    requires Powered(c) && !SpeedTrusted(c.raw) && !Crash(c)
    ensures Validate(c.raw).validSpeedKmh <= UNLOCK_INHIBIT_SPEED_KMH
    ensures Decide(current, c).targetClState == On && Decide(current, c).decisionReason == FaultDetected
    ensures c.raw.switchRequest == RequestOff ==>
              var unflagged := Adapt(Validate(c.raw), c, current).(faultFlags := FaultFlags(false, false, false));
              DecideChildLockState(unflagged).targetClState == Off
  {
  }

  // ---------- Lock kept while moving ----------

  /** Once a crash-free moving cycle without an OFF request has run, the lock is ON, and stays ON through
      crash-free cycles that are moving or faulty, whatever the switch says. */
  lemma {:induction false} LockKeptWhileMoving(initial: LockState, cycles: seq<Cycle>, a: nat, n: nat)
    requires a < n <= |cycles|
    requires Moving(cycles[a]) && !Crash(cycles[a]) && cycles[a].raw.switchRequest != RequestOff
    requires forall k | a < k < n :: !Crash(cycles[k]) && (Moving(cycles[k]) || Faulty(cycles[k]))
    ensures LockAfter(initial, cycles, n) == On
  {
    if n > a + 1 {
      LockKeptWhileMoving(initial, cycles, a, n - 1);
    }
    CycleEffect(LockAfter(initial, cycles, n - 1), cycles[n - 1]);
  }

  /** An OFF request while moving is inhibited and leaves the lock as it is; with a fault it locks. */
  lemma UnlockInhibitedWhileMovingKeepsState(current: LockState, c: Cycle)
    requires Moving(c) && !Crash(c) && c.raw.switchRequest == RequestOff
    ensures !Faulty(c) ==>
              && Decide(current, c).targetClState == current
              && Decide(current, c).decisionReason == UnlockInhibitedWhileMoving
    ensures Faulty(c) ==> Decide(current, c).targetClState == On
  {
  }

  // ---------- Frozen speed sensor ----------

  /** A crash-free cycle at ideal time now whose speed stamp froze at ideal time stamp. */
  predicate Frozen(c: Cycle, now: int, stamp: int) {
    && c.raw.currentTimestampMs == Wrap(now)
    && c.raw.speedTimestampMs == Wrap(stamp)
    && !Crash(c)
  }

  lemma FrozenMistrusted(c: Cycle, now: int, stamp: int)
    requires Frozen(c, now, stamp) && SPEED_SIGNAL_TIMEOUT_MS <= now - stamp < WRAP
    ensures !SpeedTrusted(c.raw)
  {
    FreshInsideWindow(now, stamp);
  }

  /** From the first powered cycle with a speed frozen for at least 500 ms the lock is ON, and stays ON through
      every further frozen cycle with an age below 2^32 ms, powered or not, whatever the driver asks. */
  lemma {:induction false} FrozenSpeedLocks(
      initial: LockState, cycles: seq<Cycle>, times: seq<int>, stamp: int, a: nat, n: nat)
    requires a < n <= |cycles| == |times|
    requires forall k | a <= k < n :: Frozen(cycles[k], times[k], stamp)
    requires forall k | a <= k < n :: SPEED_SIGNAL_TIMEOUT_MS <= times[k] - stamp < WRAP
    requires Powered(cycles[a])
    ensures LockAfter(initial, cycles, n) == On
  {
    FrozenMistrusted(cycles[n - 1], times[n - 1], stamp);
    if n > a + 1 {
      FrozenSpeedLocks(initial, cycles, times, stamp, a, n - 1);
    }
    CycleEffect(LockAfter(initial, cycles, n - 1), cycles[n - 1]);
  }

  /** Every powered frozen cycle with an ideal age from 500 ms up to the limit locks. */
  ghost predicate FrozenLocksUpTo(limit: int) {
    forall current, c, now, stamp
      | Powered(c) && Frozen(c, now, stamp) && SPEED_SIGNAL_TIMEOUT_MS <= now - stamp < limit ::
        Decide(current, c).targetClState == On
  }

  /** 2^32 ms is exactly how long a frozen speed is held against the driver; at that age it passes for fresh
      and an OFF request is granted. */
  lemma FrozenSpeedWindow(limit: int)
    ensures FrozenLocksUpTo(limit) <==> limit <= WRAP
  {
    if limit <= WRAP {
      forall current, c, now, stamp
        | Powered(c) && Frozen(c, now, stamp) && SPEED_SIGNAL_TIMEOUT_MS <= now - stamp < limit
        ensures Decide(current, c).targetClState == On
      {
        FrozenMistrusted(c, now, stamp);
        CycleEffect(current, c);
      }
    } else {
      var c := Cycle(RawInput(RequestOff, 0.0, 0, 0, false, false, false, IgnitionOn), false, false);
      assert Frozen(c, WRAP, 0);
      assert Decide(On, c).targetClState == Off;
    }
  }
}

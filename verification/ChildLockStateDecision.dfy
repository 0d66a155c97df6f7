/** F-02, src/F02_ChildLockStateDecision.c: the priority chain crash, fault, driver, auto-lock. */
module ChildLockStateDecision {
  import opened ChildLockTypes

  datatype DecisionReason =
    | NoStateChange
    | CrashDetected
    | FaultDetected
    | DriverLockRequest
    | DriverUnlockRequest
    | UnlockInhibitedWhileMoving
    | AutoLockConditionMet

  datatype SafetyAction = NoAction | EnterSafeLocked | EnterEmergencyReleased | InhibitUnlock

  datatype FaultFlags = FaultFlags(speedSignalFault: bool, sensorFault: bool, stateInconsistency: bool)

  datatype DecisionInput = DecisionInput(
    validSwitchInput: SwitchRequest,
    vehicleSpeedKmh: real,
    validCrashSignal: bool,
    currentClState: LockState,
    faultFlags: FaultFlags,
    autoLockConditionMet: bool)

  datatype DecisionResult = DecisionResult(
    targetClState: LockState,
    decisionReason: DecisionReason,
    safetyAction: SafetyAction,
    stateChanged: bool)

  predicate HasAnyFault(f: FaultFlags) {
    f.speedSignalFault || f.sensorFault || f.stateInconsistency
  }

  function MakeResult(target: LockState, reason: DecisionReason, action: SafetyAction, current: LockState): DecisionResult {
    DecisionResult(target, reason, action, target != current)
  }

  function DecideChildLockState(input: DecisionInput): (result: DecisionResult)
    ensures result.stateChanged <==> result.targetClState != input.currentClState
    ensures result.decisionReason in {NoStateChange, UnlockInhibitedWhileMoving} ==> !result.stateChanged
    ensures result.targetClState == Off && input.currentClState == On ==>
              result.decisionReason in {CrashDetected, DriverUnlockRequest}
  {
    var current := input.currentClState;
    if input.validCrashSignal then
      MakeResult(Off, CrashDetected, EnterEmergencyReleased, current)
    else if HasAnyFault(input.faultFlags) then
      MakeResult(On, FaultDetected, EnterSafeLocked, current)
    else if input.validSwitchInput == RequestOn then
      MakeResult(On, DriverLockRequest, NoAction, current)
    else if input.validSwitchInput == RequestOff then
      if input.vehicleSpeedKmh <= UNLOCK_INHIBIT_SPEED_KMH then
        MakeResult(Off, DriverUnlockRequest, NoAction, current)
      else
        MakeResult(current, UnlockInhibitedWhileMoving, InhibitUnlock, current)
    else if input.autoLockConditionMet then
      MakeResult(On, AutoLockConditionMet, NoAction, current)
    else
      MakeResult(current, NoStateChange, NoAction, current)
  }

  // ---------- The priority chain, on every input ----------

  /** Each reason is given if and only if its own condition holds and none of higher priority does: crash, then
      any of the three faults, then the driver's request, then auto-lock. */
  lemma ReasonByPriority(input: DecisionInput)
    ensures var reason := DecideChildLockState(input).decisionReason;
            var fault := input.faultFlags.speedSignalFault || input.faultFlags.sensorFault || input.faultFlags.stateInconsistency;
            var undisturbed := !input.validCrashSignal && !fault;
            && (reason == CrashDetected <==> input.validCrashSignal)
            && (reason == FaultDetected <==> !input.validCrashSignal && fault)
            && (reason == DriverLockRequest <==> undisturbed && input.validSwitchInput == RequestOn)
            && (reason == DriverUnlockRequest <==>
                  undisturbed && input.validSwitchInput == RequestOff && input.vehicleSpeedKmh <= 3.0)
            && (reason == UnlockInhibitedWhileMoving <==>
                  undisturbed && input.validSwitchInput == RequestOff && input.vehicleSpeedKmh > 3.0)
            && (reason == AutoLockConditionMet <==>
                  undisturbed && input.validSwitchInput == NoRequest && input.autoLockConditionMet)
            && (reason == NoStateChange <==>
                  undisturbed && input.validSwitchInput == NoRequest && !input.autoLockConditionMet)
  {
  }

  /** The reason settles the target and the safety action. */
  lemma ReasonSettlesResult(input: DecisionInput)
    ensures var result := DecideChildLockState(input);
            && (result.decisionReason in {CrashDetected, DriverUnlockRequest} ==> result.targetClState == Off)
            && (result.decisionReason in {FaultDetected, DriverLockRequest, AutoLockConditionMet} ==> result.targetClState == On)
            && (result.decisionReason in {UnlockInhibitedWhileMoving, NoStateChange} ==>
                  result.targetClState == input.currentClState)
            && (result.safetyAction == EnterEmergencyReleased <==> result.decisionReason == CrashDetected)
            && (result.safetyAction == EnterSafeLocked <==> result.decisionReason == FaultDetected)
            && (result.safetyAction == InhibitUnlock <==> result.decisionReason == UnlockInhibitedWhileMoving)
  {
  }

  /** What is outranked is not read: after a crash everything but the current state is irrelevant, after a fault
      also which fault it is, after a request the auto-lock condition, and after a lock request or none the speed. */
  lemma OutrankedIgnored(a: DecisionInput, b: DecisionInput)
    requires a.currentClState == b.currentClState && a.validCrashSignal == b.validCrashSignal
    ensures a.validCrashSignal ==> DecideChildLockState(a) == DecideChildLockState(b)
    ensures HasAnyFault(a.faultFlags) && HasAnyFault(b.faultFlags) ==> DecideChildLockState(a) == DecideChildLockState(b)
    ensures && a.faultFlags == b.faultFlags && a.validSwitchInput == b.validSwitchInput
            && (a.validSwitchInput == RequestOff ==> a.vehicleSpeedKmh == b.vehicleSpeedKmh)
            && (a.validSwitchInput == NoRequest ==> a.autoLockConditionMet == b.autoLockConditionMet) ==>
              DecideChildLockState(a) == DecideChildLockState(b)
  {
  }
}

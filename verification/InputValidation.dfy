/** F-01, src/F01_InputMonitorAndValidator.c: range and freshness checks on the vehicle speed,
    the crash conjunction and the auto-lock condition. */
module InputValidation {
  import opened ChildLockTypes

  datatype RawInput = RawInput(
    switchRequest: SwitchRequest,
    vehicleSpeedKmh: real,
    speedTimestampMs: uint32,
    currentTimestampMs: uint32,
    crashSignalActive: bool,
    crashSignalValid: bool,
    rearDoorInnerHandleActive: bool,
    ignitionState: Ignition)

  datatype EventFlag = RearDoorHandle

  datatype Validated = Validated(
    validSwitchInput: SwitchRequest,
    validSpeedKmh: real,
    speedValid: bool,
    validCrashSignal: bool,
    autoLockConditionMet: bool,
    eventFlags: set<EventFlag>,
    faultFlags: set<FaultFlag>)

  const SAFE_DEFAULTS: Validated := Validated(NoRequest, 0.0, false, false, false, {}, {})

  predicate SpeedInRange(raw: RawInput) {
    0.0 <= raw.vehicleSpeedKmh <= SPEED_MAX_VALID_KMH
  }

  /** The age of the speed signal as the code measures it. */
  function SpeedAge(raw: RawInput): uint32 {
    WrapSub(raw.currentTimestampMs, raw.speedTimestampMs)
  }

  /** The speed can be relied on: in range and not stale. */
  predicate SpeedTrusted(raw: RawInput) {
    SpeedInRange(raw) && SpeedAge(raw) < SPEED_SIGNAL_TIMEOUT_MS
  }

  function Validate(raw: RawInput): (v: Validated)
    ensures v.speedValid ==> v.validSpeedKmh == raw.vehicleSpeedKmh && v.faultFlags == {}
    ensures !v.speedValid ==> v.validSpeedKmh == 0.0 && !v.autoLockConditionMet
    ensures RearDoorHandle in v.eventFlags <==> raw.ignitionState == IgnitionOn && raw.rearDoorInnerHandleActive
    ensures raw.ignitionState == IgnitionOn ==> (SpeedFault in v.faultFlags <==> !v.speedValid)
  {
    if raw.ignitionState != IgnitionOn then SAFE_DEFAULTS
    else
      var trusted := SpeedTrusted(raw);
      Validated(
        raw.switchRequest,
        if trusted then raw.vehicleSpeedKmh else 0.0,
        trusted,
        raw.crashSignalActive && raw.crashSignalValid,
        trusted && raw.vehicleSpeedKmh > AUTO_LOCK_SPEED_THRESHOLD_KMH,
        if raw.rearDoorInnerHandleActive then {RearDoorHandle} else {},
        if trusted then {} else {SpeedFault})
  }

  // ---------- The code: an output buffer filled in step by step ----------

  class ValidatedBuffer {
    var validSwitchInput: SwitchRequest
    var validSpeedKmh: real
    var speedValid: bool
    var validCrashSignal: bool
    var autoLockConditionMet: bool
    var eventFlags: set<EventFlag>
    var faultFlags: set<FaultFlag>

    constructor () {
      validSwitchInput, validSpeedKmh, speedValid, validCrashSignal := NoRequest, 0.0, false, false;
      autoLockConditionMet, eventFlags, faultFlags := false, {}, {};
    }

    function Value(): Validated
      reads this
    {
      Validated(validSwitchInput, validSpeedKmh, speedValid, validCrashSignal, autoLockConditionMet, eventFlags, faultFlags)
    }

    method InitDefault()
      modifies this
      ensures Value() == SAFE_DEFAULTS
    {
      validSwitchInput := NoRequest;
      validSpeedKmh := 0.0;
      speedValid := false;
      validCrashSignal := false;
      autoLockConditionMet := false;
      eventFlags := {};
      faultFlags := {};
    }

    method ValidateCrashSignal(raw: RawInput)
      modifies this`validCrashSignal
      ensures validCrashSignal == (old(validCrashSignal) || (raw.crashSignalActive && raw.crashSignalValid))
    {
      if raw.crashSignalActive && raw.crashSignalValid {
        validCrashSignal := true;
      }
    }

    method ValidateSpeed(raw: RawInput)
      modifies this`validSpeedKmh, this`speedValid, this`faultFlags
      ensures speedValid == SpeedTrusted(raw)
      ensures validSpeedKmh == if speedValid then raw.vehicleSpeedKmh else 0.0
      ensures faultFlags == old(faultFlags) + if speedValid then {} else {SpeedFault}
    {
      var rangeValid, timeoutValid := false, false;
      if raw.vehicleSpeedKmh >= 0.0 && raw.vehicleSpeedKmh <= SPEED_MAX_VALID_KMH {
        rangeValid := true;
      }
      var elapsed := WrapSub(raw.currentTimestampMs, raw.speedTimestampMs);
      if elapsed < SPEED_SIGNAL_TIMEOUT_MS {
        timeoutValid := true;
      }
      if rangeValid && timeoutValid {
        validSpeedKmh := raw.vehicleSpeedKmh;
        speedValid := true;
      } else {
        validSpeedKmh := 0.0;
        speedValid := false;
        faultFlags := faultFlags + {SpeedFault};
      }
    }

    method ValidateSwitchInput(raw: RawInput)
      modifies this`validSwitchInput
      ensures validSwitchInput == raw.switchRequest
    {
      validSwitchInput := raw.switchRequest;
    }

    method EvaluateAutoLockCondition()
      modifies this`autoLockConditionMet
      ensures autoLockConditionMet ==
              (old(autoLockConditionMet) || (speedValid && validSpeedKmh > AUTO_LOCK_SPEED_THRESHOLD_KMH))
    {
      if speedValid && validSpeedKmh > AUTO_LOCK_SPEED_THRESHOLD_KMH {
        autoLockConditionMet := true;
      }
    }

    method DetectEvents(raw: RawInput)
      modifies this`eventFlags
      ensures eventFlags == old(eventFlags) + if raw.rearDoorInnerHandleActive then {RearDoorHandle} else {}
    {
      if raw.rearDoorInnerHandleActive {
        eventFlags := eventFlags + {RearDoorHandle};
      }
    }
  }

  class InputMonitor {
    var isInitialized: bool

    constructor ()
      ensures !isInitialized
    {
      isInitialized := false;
    }

    method Init()
      modifies this
      ensures isInitialized
    {
      isInitialized := true;
    }

    method Reset()
      modifies this
      ensures isInitialized
    {
      Init();
    }

    /** One cycle. The context never influences the result, and nothing of the buffer's old contents survives. */
    method Run(raw: RawInput, output: ValidatedBuffer)
      modifies this, output
      ensures isInitialized
      ensures output.Value() == Validate(raw)
    {
      if !isInitialized {
        Init();
      }
      output.InitDefault();
      if raw.ignitionState != IgnitionOn {
        return;
      }
      output.ValidateCrashSignal(raw);
      output.ValidateSpeed(raw);
      output.ValidateSwitchInput(raw);
      output.EvaluateAutoLockCondition();
      output.DetectEvents(raw);
    }
  }

  // ---------- Freshness on the wrapping counter ----------

  /** The code's freshness test on a stamp and a current time it sees through the counter. */
  predicate PassesAsFresh(now: int, stamp: int) {
    WrapSub(Wrap(now), Wrap(stamp)) < SPEED_SIGNAL_TIMEOUT_MS
  }

  predicate IsFresh(now: int, stamp: int) {
    0 <= now - stamp < SPEED_SIGNAL_TIMEOUT_MS
  }

  /** The test is right for every ideal age in [low, high). */
  ghost predicate FreshnessTestSound(low: int, high: int) {
    forall now, stamp | low <= now - stamp < high :: PassesAsFresh(now, stamp) <==> IsFresh(now, stamp)
  }

  /** The counter measures an ideal age modulo 2^32. */
  lemma AgeModulo(now: int, stamp: int)
    ensures WrapSub(Wrap(now), Wrap(stamp)) == Wrap(now - stamp)
  {
  }

  lemma FreshInsideWindow(now: int, stamp: int)
    requires -(WRAP - SPEED_SIGNAL_TIMEOUT_MS) <= now - stamp < WRAP
    ensures PassesAsFresh(now, stamp) <==> IsFresh(now, stamp)
  {
    AgeModulo(now, stamp);
  }

  /** The validated input said of the raw signals alone, the two stamps read off a counter at ideal times now and
      stamp inside the window: trusted exactly from 0 to 250 km/h and from 0 up to 500 ms. */
  lemma ValidatedOnSignals(raw: RawInput, now: int, stamp: int)
    requires raw.currentTimestampMs == Wrap(now) && raw.speedTimestampMs == Wrap(stamp)
    requires -(0x1_0000_0000 - 500) <= now - stamp < 0x1_0000_0000
    requires raw.ignitionState == IgnitionOn
    ensures var v := Validate(raw);
            && (v.speedValid <==> 0.0 <= raw.vehicleSpeedKmh <= 250.0 && 0 <= now - stamp < 500)
            && v.validSpeedKmh == (if v.speedValid then raw.vehicleSpeedKmh else 0.0)
            && v.faultFlags == (if v.speedValid then {} else {SpeedFault})
            && (v.autoLockConditionMet <==> v.speedValid && raw.vehicleSpeedKmh > 3.0)
            && (v.validCrashSignal <==> raw.crashSignalActive && raw.crashSignalValid)
            && v.validSwitchInput == raw.switchRequest
            && (RearDoorHandle in v.eventFlags <==> raw.rearDoorInnerHandleActive)
  {
    FreshInsideWindow(now, stamp);
  }

  /** Without ignition nothing is passed on and nothing is flagged, whatever the signals. */
  lemma ValidatedWithoutIgnition(raw: RawInput)
    requires raw.ignitionState == IgnitionOff
    ensures Validate(raw) == Validated(NoRequest, 0.0, false, false, false, {}, {})
  {
  }

  lemma WrongOutsideWindow(low: int, high: int)
    requires low <= 0 < high && (low < -(WRAP - SPEED_SIGNAL_TIMEOUT_MS) || high > WRAP)
    ensures !FreshnessTestSound(low, high)
  {
    var age := if high > WRAP then WRAP else -(WRAP - SPEED_SIGNAL_TIMEOUT_MS) - 1;
    AgeModulo(age, 0);
    assert PassesAsFresh(age, 0) && !IsFresh(age, 0);
  }

  /** The exact window: a stamp up to 2^32 - 500 ms in the future, or less than 2^32 ms in the past. Just
      beyond either end a stale (or not yet valid) speed passes for fresh. */
  lemma FreshnessWindow(low: int, high: int)
    requires low <= 0 < high
    ensures FreshnessTestSound(low, high) <==> low >= -(WRAP - SPEED_SIGNAL_TIMEOUT_MS) && high <= WRAP
  {
    if low >= -(WRAP - SPEED_SIGNAL_TIMEOUT_MS) && high <= WRAP {
      forall now, stamp | low <= now - stamp < high
        ensures PassesAsFresh(now, stamp) <==> IsFresh(now, stamp)
      {
        FreshInsideWindow(now, stamp);
      }
    } else {
      WrongOutsideWindow(low, high);
    }
  }
}

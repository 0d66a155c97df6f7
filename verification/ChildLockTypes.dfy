/** The types, constants and 32-bit clock arithmetic shared by the child-lock modules.
    Source: include/childlock_types.h. Floats are finite reals. */
module ChildLockTypes {

  /** The number of values of a uint32_t millisecond counter. */
  const WRAP: int := 0x1_0000_0000

  type uint32 = t: int | 0 <= t < 0x1_0000_0000

  // include/childlock_types.h:41-53
  const UNLOCK_INHIBIT_SPEED_KMH: real := 3.0
  const AUTO_LOCK_SPEED_THRESHOLD_KMH: real := 3.0
  const SPEED_SIGNAL_TIMEOUT_MS: int := 500
  const SPEED_MAX_VALID_KMH: real := 250.0

  // include/childlock_types.h:59-77
  const REAR_RISK_DIST_THRESHOLD_M: real := 3.0
  const REAR_RISK_RELSPEED_THRESHOLD_MPS: real := 2.0
  const REAR_RISK_CONFIRM_DURATION_MS: int := 500
  const REAR_RISK_CLEAR_DURATION_MS: int := 1000
  const REAR_RISK_DIST_MAX_VALID_M: real := 50.0
  const REAR_RISK_RELSPEED_MAX_VALID_MPS: real := 50.0

  /** The single-precision literal 0.7f, exactly. No proof depends on its value. */
  const REAR_RISK_SENSOR_CONFIDENCE_MIN: real := 11744051.0 / 16777216.0

  datatype LockState = Off | On

  datatype Ignition = IgnitionOff | IgnitionOn

  datatype FaultFlag = SpeedFault | RearSensorFault | EcuAckFail | HmiFault | NvmFault

  datatype SwitchRequest = NoRequest | RequestOn | RequestOff

  datatype Option<+T> = None | Some(value: T)

  /** What a uint32_t counter shows at the ideal time t. */
  function Wrap(t: int): uint32 {
    t % 0x1_0000_0000
  }

  /** uint32_t subtraction. */
  function WrapSub(a: int, b: int): (d: uint32)
    ensures Wrap(b + d) == Wrap(a)
  {
    (a - b) % 0x1_0000_0000
  }

  /** A difference that fits in 32 bits is measured exactly. */
  lemma WrapSubExact(a: int, b: int)
    requires 0 <= a - b < WRAP
    ensures WrapSub(a, b) == a - b
  {
  }

  /** The counter never measures more than the time that has passed. */
  lemma WrapSubAtMost(a: int, b: int)
    requires a >= b
    ensures WrapSub(a, b) <= a - b
  {
  }

  /** Until it passes 2^32, the measured time grows with the time that passes. */
  lemma WrapSubGrows(a: int, b: int, passed: int)
    requires 0 <= passed && WrapSub(a, b) + passed < WRAP
    ensures WrapSub(a + passed, b) == WrapSub(a, b) + passed
  {
  }

  // The C enumerators of ChildLockState_t, for the two modules that check a raw value before trusting it.
  type RawLockState = nat

  const CL_STATE_OFF: RawLockState := 0
  const CL_STATE_ON: RawLockState := 1

  predicate IsLegalLockState(raw: RawLockState) {
    raw == CL_STATE_OFF || raw == CL_STATE_ON
  }
}

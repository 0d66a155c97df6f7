/** F-07, src/F07_RearRiskEvaluation.c: a rear-approach risk evaluator with two hysteresis
    timers and two latches. The machine is defined once, over either of two clocks: the
    uint32_t counter the code runs on, and an unbounded clock on which its timing is stated. */
module RearRiskEvaluation {
  import opened ChildLockTypes

  datatype RiskLevel = RiskNone | RiskLow | RiskMedium | RiskHigh {
    function Rank(): nat {
      match this
      case RiskNone => 0
      case RiskLow => 1
      case RiskMedium => 2
      case RiskHigh => 3
    }
  }

  datatype Sample = Sample(
    distanceM: real,
    relSpeedMps: real,
    sensorHealth: bool,
    sensorConfidence: real,
    timestampMs: int)

  /** A sample as the C code receives it, with a uint32_t time stamp. */
  type Sample32 = s: Sample | 0 <= s.timestampMs < WRAP
    witness Sample(0.0, 0.0, false, 0.0, 0)

  datatype RiskOutput = RiskOutput(riskHigh: bool, riskLevel: RiskLevel, riskValid: bool, faultFlag: Option<FaultFlag>)

  predicate IsInputValid(s: Sample) {
    && s.sensorHealth
    && !(s.sensorConfidence < REAR_RISK_SENSOR_CONFIDENCE_MIN)
    && !(s.distanceM < 0.0 || s.distanceM > REAR_RISK_DIST_MAX_VALID_M)
    && !(s.relSpeedMps < 0.0 || s.relSpeedMps > REAR_RISK_RELSPEED_MAX_VALID_MPS)
  }

  predicate IsRawThreatActive(s: Sample) {
    s.distanceM <= REAR_RISK_DIST_THRESHOLD_M && s.relSpeedMps >= REAR_RISK_RELSPEED_THRESHOLD_MPS
  }

  function ClassifyRiskLevel(s: Sample): (level: RiskLevel)
    ensures level == RiskHigh <==> IsRawThreatActive(s)
    ensures level == RiskMedium <==>
              (s.distanceM <= REAR_RISK_DIST_THRESHOLD_M) != (s.relSpeedMps >= REAR_RISK_RELSPEED_THRESHOLD_MPS)
    ensures level == RiskNone <==>
              s.distanceM > 2.0 * REAR_RISK_DIST_THRESHOLD_M && s.relSpeedMps < REAR_RISK_RELSPEED_THRESHOLD_MPS
  {
    if s.distanceM <= REAR_RISK_DIST_THRESHOLD_M && s.relSpeedMps >= REAR_RISK_RELSPEED_THRESHOLD_MPS then RiskHigh
    else if s.distanceM <= REAR_RISK_DIST_THRESHOLD_M || s.relSpeedMps >= REAR_RISK_RELSPEED_THRESHOLD_MPS then RiskMedium
    else if s.distanceM <= REAR_RISK_DIST_THRESHOLD_M * 2.0 then RiskLow
    else RiskNone
  }

  // ---------- The hysteresis machine ----------

  /** What the machine sees of one cycle: a fault, or a valid sample reduced to threat and time. */
  datatype Event = Fault | Tick(threat: bool, atMs: int)

  datatype Clock = Wrapping | Unbounded

  datatype Hysteresis = Hysteresis(onsetMs: int, clearMs: int, high: bool, ongoing: bool)

  const INITIAL: Hysteresis := Hysteresis(0, 0, false, false)

  function Elapsed(clock: Clock, nowMs: int, sinceMs: int): int {
    match clock
    case Wrapping => WrapSub(nowMs, sinceMs)
    case Unbounded => nowMs - sinceMs
  }

  function Update(clock: Clock, h: Hysteresis, threat: bool, nowMs: int): Hysteresis {
    if threat then
      var onsetMs := if h.ongoing then h.onsetMs else nowMs;
      var confirmed := Elapsed(clock, nowMs, onsetMs) >= REAR_RISK_CONFIRM_DURATION_MS;
      Hysteresis(onsetMs, nowMs, h.high || confirmed, true)
    else
      var cleared := Elapsed(clock, nowMs, h.clearMs) >= REAR_RISK_CLEAR_DURATION_MS;
      Hysteresis(nowMs, h.clearMs, h.high && !cleared, false)
  }

  function Step(clock: Clock, h: Hysteresis, e: Event): Hysteresis {
    match e
    case Fault => h
    case Tick(threat, atMs) => Update(clock, h, threat, atMs)
  }

  /** The machine's state after the first n events of a run from Init. */
  function After(clock: Clock, es: seq<Event>, n: nat): Hysteresis
    requires n <= |es|
  {
    if n == 0 then INITIAL else Step(clock, After(clock, es, n - 1), es[n - 1])
  }

  /** The confirmed-HIGH latch isRiskHighActive after n events. */
  predicate High(clock: Clock, es: seq<Event>, n: nat)
    requires n <= |es|
  {
    After(clock, es, n).high
  }

  // ---------- Whole cycles ----------

  function EventOf(s: Sample): Event {
    if IsInputValid(s) then Tick(IsRawThreatActive(s), s.timestampMs) else Fault
  }

  function Events(samples: seq<Sample>): (es: seq<Event>)
    ensures |es| == |samples|
    ensures forall i | 0 <= i < |samples| :: es[i] == EventOf(samples[i])
  {
    seq(|samples|, i requires 0 <= i < |samples| => EventOf(samples[i]))
  }

  /** The output of a cycle that received s and left the machine in state h. */
  function Report(h: Hysteresis, s: Sample): RiskOutput {
    if IsInputValid(s) then
      RiskOutput(h.high, ClassifyRiskLevel(s), true, None)
    else
      RiskOutput(false, RiskNone, false, Some(RearSensorFault))
  }

  function OutputAt(clock: Clock, samples: seq<Sample>, n: nat): RiskOutput
    requires n < |samples|
  {
    Report(After(clock, Events(samples), n + 1), samples[n])
  }

  /** A state depends only on the events before it. */
  lemma {:induction false} AfterAgrees(clock: Clock, es: seq<Event>, fs: seq<Event>, n: nat)
    requires n <= |es| && n <= |fs|
    requires forall i | 0 <= i < n :: es[i] == fs[i]
    ensures After(clock, es, n) == After(clock, fs, n)
  {
    if n > 0 {
      AfterAgrees(clock, es, fs, n - 1);
    }
  }

  // ---------- Calls on a context, initialised or not ----------

  datatype Context = Context(state: Hysteresis, isInitialized: bool)

  /** The calls of the module's interface; Reset is Init. */
  datatype Call = Cycle(sample: Sample) | InitOrReset

  function Perform(ctx: Context, call: Call): Context {
    match call
    case InitOrReset => Context(INITIAL, true)
    case Cycle(s) => Context(Step(Wrapping, if ctx.isInitialized then ctx.state else INITIAL, EventOf(s)), true)
  }

  function PerformAll(ctx: Context, calls: seq<Call>, n: nat): Context
    requires n <= |calls|
  {
    if n == 0 then ctx else Perform(PerformAll(ctx, calls, n - 1), calls[n - 1])
  }

  // ---------- The code: a context and an output updated in place ----------

  class RiskOutputBuffer {
    var riskHigh: bool
    var riskLevel: RiskLevel
    var riskValid: bool
    var faultFlag: Option<FaultFlag>

    constructor () {
      riskHigh, riskLevel, riskValid, faultFlag := false, RiskNone, false, None;
    }

    function Value(): RiskOutput
      reads this
    {
      RiskOutput(riskHigh, riskLevel, riskValid, faultFlag)
    }
  }

  class RearRiskEvaluator {
    var riskOnsetTimestampMs: uint32
    var riskClearTimestampMs: uint32
    var isRiskHighActive: bool
    var isThreatOngoing: bool
    var isInitialized: bool

    /** The samples received since the last Init, Reset or automatic initialisation. */
    ghost var history: seq<Sample32>

    function State(): Hysteresis
      reads this
    {
      Hysteresis(riskOnsetTimestampMs, riskClearTimestampMs, isRiskHighActive, isThreatOngoing)
    }

    function Ctx(): Context
      reads this
    {
      Context(State(), isInitialized)
    }

    /** An initialised context is the state its history leads to. */
    ghost predicate Valid()
      reads this
    {
      isInitialized ==> State() == After(Wrapping, Events(history), |history|)
    }

    /** Caller-allocated memory: every field arbitrary, nothing initialised. */
    constructor (onsetMs: uint32, clearMs: uint32, high: bool, ongoing: bool)
      ensures Valid() && !isInitialized && State() == Hysteresis(onsetMs, clearMs, high, ongoing)
    {
      riskOnsetTimestampMs, riskClearTimestampMs := onsetMs, clearMs;
      isRiskHighActive, isThreatOngoing := high, ongoing;
      isInitialized := false;
      history := [];
    }

    method Init()
      modifies this
      ensures Valid() && isInitialized && history == [] && State() == Hysteresis(0, 0, false, false)
    {
      riskOnsetTimestampMs := 0;
      riskClearTimestampMs := 0;
      isRiskHighActive := false;
      isThreatOngoing := false;
      isInitialized := true;
      history := [];
    }

    method Reset()
      modifies this
      ensures Valid() && isInitialized && history == [] && State() == Hysteresis(0, 0, false, false)
    {
      Init();
    }

    method UpdateHysteresis(rawThreat: bool, nowMs: uint32)
      modifies this`riskOnsetTimestampMs, this`riskClearTimestampMs, this`isRiskHighActive, this`isThreatOngoing
      ensures State() == Update(Wrapping, old(State()), rawThreat, nowMs)
    {
      if rawThreat {
        riskClearTimestampMs := nowMs;
        if !isThreatOngoing {
          isThreatOngoing := true;
          riskOnsetTimestampMs := nowMs;
        }
        var onsetElapsed := WrapSub(nowMs, riskOnsetTimestampMs);
        if onsetElapsed >= REAR_RISK_CONFIRM_DURATION_MS {
          isRiskHighActive := true;
        }
      } else {
        riskOnsetTimestampMs := nowMs;
        isThreatOngoing := false;
        var clearElapsed := WrapSub(nowMs, riskClearTimestampMs);
        if clearElapsed >= REAR_RISK_CLEAR_DURATION_MS {
          isRiskHighActive := false;
        }
      }
    }

    /** One cycle. Since history is the whole run, the output is the run's output at its last sample;
        an uninitialised context starts a new run, whatever its fields held. */
    method Run(input: Sample32, output: RiskOutputBuffer)
      requires Valid()
      modifies this, output
      ensures Valid() && isInitialized
      ensures Ctx() == Perform(old(Ctx()), Cycle(input))
      ensures history == (if old(isInitialized) then old(history) else []) + [input]
      ensures output.Value() == OutputAt(Wrapping, history, |history| - 1)
    {
      if !isInitialized {
        Init();
      }
      ghost var before := history;
      history := history + [input];
      AfterAgrees(Wrapping, Events(before), Events(history), |before|);
      if !IsInputValid(input) {
        output.riskHigh := false;
        output.riskLevel := RiskNone;
        output.riskValid := false;
        output.faultFlag := Some(RearSensorFault);
        return;
      }
      var rawThreat := IsRawThreatActive(input);
      UpdateHysteresis(rawThreat, input.timestampMs);
      var level := ClassifyRiskLevel(input);
      output.riskHigh := isRiskHighActive;
      output.riskLevel := level;
      output.riskValid := true;
      output.faultFlag := None;
    }
  }
}

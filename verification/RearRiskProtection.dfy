/** F-08, src/F08_RearRiskProtectionController.c, and its composition with F-07: when the
    rear-risk function demands the lock. */
module RearRiskProtection {
  import opened ChildLockTypes
  import opened RearRiskEvaluation
  import opened HysteresisRuns
  import opened WrapRefinement
  import opened RearRiskGuarantees

  datatype Warning = NoWarning | RearRiskHighWarning | ChildLockOnWarning | SensorFaultWarning | AlreadyOnWarning

  datatype ProtectionInput = ProtectionInput(
    riskHigh: bool,
    riskValid: bool,
    currentCLState: LockState,
    ignitionState: Ignition)

  datatype ProtectionOutput = ProtectionOutput(
    targetCLState: LockState,
    warningMsgId: Warning,
    warningSound: bool,
    clChanged: bool,
    eventLog: bool)

  /** The controller intervenes on a sensor fault or a confirmed HIGH while the ignition is on. */
  predicate Intervenes(input: ProtectionInput) {
    input.ignitionState == IgnitionOn && (!input.riskValid || input.riskHigh)
  }

  function Protect(input: ProtectionInput): (output: ProtectionOutput)
    ensures output.clChanged <==> output.targetCLState != input.currentCLState
    ensures output.targetCLState == Off ==> input.currentCLState == Off
    ensures output.warningSound == output.eventLog == (output.warningMsgId != NoWarning)
    ensures output.warningMsgId != NoWarning <==>
              input.ignitionState == IgnitionOn && (!input.riskValid || input.riskHigh)
    ensures output.warningMsgId != ChildLockOnWarning
    ensures output.targetCLState == On <==> input.currentCLState == On || output.warningMsgId != NoWarning
    ensures output.warningMsgId == RearRiskHighWarning <==> input.riskValid && output.clChanged
    ensures output.warningMsgId == SensorFaultWarning <==> input.ignitionState == IgnitionOn && !input.riskValid
    ensures output.warningMsgId == AlreadyOnWarning <==>
              input.ignitionState == IgnitionOn && input.riskValid && input.riskHigh && input.currentCLState == On
  {
    if !Intervenes(input) then
      ProtectionOutput(input.currentCLState, NoWarning, false, false, false)
    else
      var wasOff := input.currentCLState == Off;
      var warning :=
        if !input.riskValid then SensorFaultWarning else if wasOff then RearRiskHighWarning else AlreadyOnWarning;
      ProtectionOutput(On, warning, true, wasOff, true)
  }

  // ---------- The code ----------

  class ProtectionOutputBuffer {
    var targetCLState: LockState
    var warningMsgId: Warning
    var warningSound: bool
    var clChanged: bool
    var eventLog: bool

    constructor () {
      targetCLState, warningMsgId, warningSound, clChanged, eventLog := Off, NoWarning, false, false, false;
    }

    function Value(): ProtectionOutput
      reads this
    {
      ProtectionOutput(targetCLState, warningMsgId, warningSound, clChanged, eventLog)
    }

    method InitNeutral(currentCLState: LockState)
      modifies this
      ensures Value() == ProtectionOutput(currentCLState, NoWarning, false, false, false)
    {
      targetCLState := currentCLState;
      warningMsgId := NoWarning;
      warningSound := false;
      clChanged := false;
      eventLog := false;
    }
  }

  method Run(input: ProtectionInput, output: ProtectionOutputBuffer)
    modifies output
    ensures output.Value() == Protect(input)
  {
    output.InitNeutral(input.currentCLState);
    if input.ignitionState != IgnitionOn {
      return;
    }
    if !input.riskValid {
      output.targetCLState := On;
      output.warningMsgId := SensorFaultWarning;
      output.warningSound := true;
      output.eventLog := true;
      if input.currentCLState == Off {
        output.clChanged := true;
      }
      return;
    }
    if input.riskHigh {
      output.targetCLState := On;
      output.warningSound := true;
      output.eventLog := true;
      if input.currentCLState == Off {
        output.warningMsgId := RearRiskHighWarning;
        output.clChanged := true;
      } else {
        output.warningMsgId := AlreadyOnWarning;
        output.clChanged := false;
      }
    }
  }

  // ---------- F-07 feeding F-08 ----------

  /** One cycle of the composed function: the rear sample, the ignition, and the lock state in force. */
  datatype Cycle = Cycle(sample: Sample, ignition: Ignition, current: LockState)

  function Samples(cycles: seq<Cycle>): (samples: seq<Sample>)
    ensures |samples| == |cycles|
    ensures forall i | 0 <= i < |cycles| :: samples[i] == cycles[i].sample
  {
    seq(|cycles|, i requires 0 <= i < |cycles| => cycles[i].sample)
  }

  /** The controller's output at cycle n, F-07 being the code on its 32-bit counter. */
  function Demand(cycles: seq<Cycle>, offset: int, n: nat): ProtectionOutput
    requires n < |cycles|
  {
    var risk := CodeOutput(Samples(cycles), offset, n);
    Protect(ProtectionInput(risk.riskHigh, risk.riskValid, cycles[n].current, cycles[n].ignition))
  }

  /** Exactly when the lock is demanded: a faulty cycle, or one at which some threat has been confirmed and
      not cleared since. */
  lemma DemandCharacterised(cycles: seq<Cycle>, offset: int, n: nat)
    requires n < |cycles| && Paced(Events(Samples(cycles)), MAX_GAP_MS)
    ensures Demand(cycles, offset, n).targetCLState == On <==>
              || cycles[n].current == On
              || (cycles[n].ignition == IgnitionOn
                  && (!IsInputValid(cycles[n].sample) || ConfirmedHigh(Events(Samples(cycles)), n + 1)))
  {
    RiskHighCharacterised(Samples(cycles), offset, n);
  }

  /** Sound and log occur exactly at powered cycles that are faulty or report HIGH, on every run. */
  lemma WarnsExactlyWhenActing(cycles: seq<Cycle>, offset: int, n: nat)
    requires n < |cycles|
    ensures var out := Demand(cycles, offset, n);
            var acts := && cycles[n].ignition == IgnitionOn
                        && (!IsInputValid(cycles[n].sample) || CodeOutput(Samples(cycles), offset, n).riskHigh);
            && (out.warningSound <==> acts)
            && (out.eventLog <==> acts)
            && (out.warningMsgId == NoWarning <==> !acts)
  {
    assert Stamp32(Samples(cycles), offset)[n] ==
           cycles[n].sample.(timestampMs := Wrap(cycles[n].sample.timestampMs + offset));
  }

  /** From a cycle at which HIGH is reported until a sample genuinely clears it, every ignition-on cycle demands
      the lock with sound and log, through sensor-fault bursts of any length: nothing bounds the time between
      valid samples. */
  lemma NoGapInProtection(cycles: seq<Cycle>, offset: int, k: nat, n: nat)
    requires k <= n < |cycles| && Ordered(Events(Samples(cycles)))
    requires CodeOutput(Samples(cycles), offset, k).riskHigh
    requires NotClearedSince(Events(Samples(cycles)), k, n + 1)
    requires cycles[n].ignition == IgnitionOn
    ensures Demand(cycles, offset, n).targetCLState == On
    ensures Demand(cycles, offset, n).warningSound && Demand(cycles, offset, n).eventLog
  {
    RiskHighKept(Samples(cycles), offset, k, n);
  }

  /** The same from the sample that confirms a held threat; only the held threat's own samples must be at most
      2^32 - 500 ms apart. */
  lemma NoGapSinceConfirmation(cycles: seq<Cycle>, offset: int, i: nat, k: nat, n: nat)
    requires k <= n < |cycles| && Ordered(Events(Samples(cycles)))
    requires Confirms(Events(Samples(cycles)), i, k) && PacedWithin(Events(Samples(cycles)), MAX_CONFIRM_GAP_MS, i, k)
    requires NotClearedSince(Events(Samples(cycles)), k, n + 1)
    requires cycles[n].ignition == IgnitionOn
    ensures Demand(cycles, offset, n).targetCLState == On
    ensures Demand(cycles, offset, n).warningSound && Demand(cycles, offset, n).eventLog
  {
    HeldThreatReported(Samples(cycles), offset, i, k);
    NoGapInProtection(cycles, offset, k, n);
  }

  /** With no bound on gaps, the lock is moved from OFF to ON only at a powered cycle that is faulty or comes
      after a genuine confirmation. */
  lemma LockSetOnlyWithCause(cycles: seq<Cycle>, offset: int, n: nat)
    requires n < |cycles| && Ordered(Events(Samples(cycles)))
    requires cycles[n].current == Off && Demand(cycles, offset, n).targetCLState == On
    ensures cycles[n].ignition == IgnitionOn
    ensures IsInputValid(cycles[n].sample) ==> exists i, k | Confirms(Events(Samples(cycles)), i, k) :: k <= n
  {
    if IsInputValid(cycles[n].sample) {
      RiskHighGenuine(Samples(cycles), offset, n);
    }
  }

  /** End to end: with the ignition on and valid samples at most periodMs apart, a threat held from cycle i
      on has the lock demanded within 499 + periodMs, and from then on at every cycle, faulty ones included. */
  lemma LockDemandedInTime(cycles: seq<Cycle>, offset: int, periodMs: int, i: nat, n: nat) returns (k: nat)
    requires i < n < |cycles| && IsInputValid(cycles[i].sample) && IsInputValid(cycles[n].sample)
    requires Ordered(Events(Samples(cycles))) && PacedWithin(Events(Samples(cycles)), periodMs, i, n)
    requires 1 <= periodMs <= MAX_CONFIRM_GAP_MS
    requires AllThreat(Events(Samples(cycles)), i, n)
    requires cycles[n].sample.timestampMs - cycles[i].sample.timestampMs >= REAR_RISK_CONFIRM_DURATION_MS
    requires forall j | i <= j <= n :: cycles[j].ignition == IgnitionOn
    ensures i < k <= n
    ensures cycles[k].sample.timestampMs <= cycles[i].sample.timestampMs + 499 + periodMs
    ensures forall j | k <= j <= n :: Demand(cycles, offset, j).targetCLState == On
  {
    k := ConfirmLatency(Samples(cycles), offset, periodMs, i, n);
    forall j | k <= j <= n
      ensures Demand(cycles, offset, j).targetCLState == On
    {
      var s := cycles[j].sample;
      if IsInputValid(s) {
        var es := Events(Samples(cycles));
        assert es[k].Tick? && es[j].Tick?;
        assert Samples(cycles)[j].timestampMs >= Samples(cycles)[i].timestampMs + 500;
        assert CodeOutput(Samples(cycles), offset, j).riskHigh;
      }
    }
  }

  // ---------- Change accounting ----------

  function Outcome(inputs: seq<ProtectionInput>, n: nat): ProtectionOutput
    requires n < |inputs|
  {
    Protect(inputs[n])
  }

  /** How many of the first n cycles report clChanged. */
  function Changes(inputs: seq<ProtectionInput>, n: nat): nat
    requires n <= |inputs|
  {
    if n == 0 then 0 else Changes(inputs, n - 1) + if Outcome(inputs, n - 1).clChanged then 1 else 0
  }

  /** How often, before cycle n, something else moved the lock from where the controller left it to the given state. */
  function OutsideMoves(inputs: seq<ProtectionInput>, to: LockState, n: nat): nat
    requires n < |inputs|
  {
    if n == 0 then 0
    else
      OutsideMoves(inputs, to, n - 1)
      + if Outcome(inputs, n - 1).targetCLState != to && inputs[n].currentCLState == to then 1 else 0
  }

  function Locked(state: LockState): int {
    if state == On then 1 else 0
  }

  /** Conservation: over any run and any inputs, locks set by the controller and from outside, less the
      unlocks, which all come from outside, is the net movement of the lock. */
  lemma {:induction false} ChangeAccounting(inputs: seq<ProtectionInput>, n: nat)
    requires n < |inputs|
    ensures Changes(inputs, n + 1) + OutsideMoves(inputs, On, n) - OutsideMoves(inputs, Off, n)
            == Locked(Outcome(inputs, n).targetCLState) - Locked(inputs[0].currentCLState)
  {
    if n > 0 {
      ChangeAccounting(inputs, n - 1);
    }
  }

  /** So the controller reports at most one change more than there were outside unlocks. */
  lemma ChangesBounded(inputs: seq<ProtectionInput>, n: nat)
    requires n < |inputs|
    ensures Changes(inputs, n + 1) <= OutsideMoves(inputs, Off, n) + 1
    ensures inputs[0].currentCLState == On ==> Changes(inputs, n + 1) <= OutsideMoves(inputs, Off, n)
  {
    ChangeAccounting(inputs, n);
  }
}

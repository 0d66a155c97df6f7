/** The rear-risk function said of the raw sensor signals alone: distances in metres, speeds in metres per
    second, times in milliseconds, with every threshold written out. Nothing here names the modules'
    own checks, so the theorems below fix those checks as well as the timing built on them. */
module RearRiskRequirement {
  import opened ChildLockTypes
  import opened RearRiskEvaluation
  import opened HysteresisRuns
  import opened WrapRefinement
  import opened RearRiskGuarantees
  import opened RearRiskProtection

  // ---------- Vocabulary ----------

  /** A measurement that may be used. The confidence limit is the single-precision literal 0.7f. */
  predicate Usable(s: Sample) {
    && s.sensorHealth
    && s.sensorConfidence >= 11744051.0 / 16777216.0
    && 0.0 <= s.distanceM <= 50.0
    && 0.0 <= s.relSpeedMps <= 50.0
  }

  /** Close and approaching fast. */
  predicate Dangerous(s: Sample) {
    s.distanceM <= 3.0 && s.relSpeedMps >= 2.0
  }

  /** Usable samples are in time order. */
  ghost predicate InOrder(samples: seq<Sample>) {
    forall i, j | 0 <= i <= j < |samples| && Usable(samples[i]) && Usable(samples[j]) ::
      samples[i].timestampMs <= samples[j].timestampMs
  }

  /** And any two with none between them are at most 2^32 - 1000 ms apart. */
  ghost predicate WellPaced(samples: seq<Sample>) {
    && InOrder(samples)
    && forall i, j | NextUsable(samples, i, j) ::
         samples[j].timestampMs - samples[i].timestampMs <= 0x1_0000_0000 - 1000
  }

  ghost predicate NextUsable(samples: seq<Sample>, i: int, j: int) {
    && 0 <= i < j < |samples|
    && Usable(samples[i]) && Usable(samples[j])
    && forall k | i < k < j :: !Usable(samples[k])
  }

  /** Every usable sample from i to k is dangerous, and they span 500 ms. */
  ghost predicate DangerHeld(samples: seq<Sample>, i: int, k: int) {
    && 0 <= i <= k < |samples|
    && Usable(samples[i]) && Usable(samples[k])
    && (forall j | i <= j <= k && Usable(samples[j]) :: Dangerous(samples[j]))
    && samples[k].timestampMs - samples[i].timestampMs >= 500
  }

  /** c is the last dangerous sample before m, and m comes 1000 ms after it. */
  ghost predicate DangerOver(samples: seq<Sample>, c: int, m: int) {
    && 0 <= c < m < |samples|
    && Usable(samples[c]) && Dangerous(samples[c]) && Usable(samples[m])
    && (forall j | c < j <= m && Usable(samples[j]) :: !Dangerous(samples[j]))
    && samples[m].timestampMs - samples[c].timestampMs >= 1000
  }

  /** At sample n a danger has been held and none of the samples since has found it over. */
  ghost predicate InConfirmedDanger(samples: seq<Sample>, n: nat) {
    exists i, k | DangerHeld(samples, i, k) :: k <= n && NotOverSince(samples, k, n)
  }

  ghost predicate NotOverSince(samples: seq<Sample>, k: int, n: nat) {
    forall c, m | DangerOver(samples, c, m) :: !(k < m <= n)
  }

  // ---------- What the machine sees ----------

  lemma EventsAreSignals(samples: seq<Sample>, i: nat)
    requires i < |samples|
    ensures Events(samples)[i] ==
            if Usable(samples[i]) then Tick(Dangerous(samples[i]), samples[i].timestampMs) else Fault
  {
  }

  lemma AllEventsAreSignals(samples: seq<Sample>)
    ensures forall i | 0 <= i < |samples| ::
              Events(samples)[i] ==
              if Usable(samples[i]) then Tick(Dangerous(samples[i]), samples[i].timestampMs) else Fault
  {
    forall i | 0 <= i < |samples|
      ensures Events(samples)[i] ==
              if Usable(samples[i]) then Tick(Dangerous(samples[i]), samples[i].timestampMs) else Fault
    {
      EventsAreSignals(samples, i);
    }
  }

  lemma InOrderIsOrdered(samples: seq<Sample>)
    requires InOrder(samples)
    ensures Ordered(Events(samples))
  {
    AllEventsAreSignals(samples);
  }

  lemma WellPacedIsPaced(samples: seq<Sample>)
    requires WellPaced(samples)
    ensures Paced(Events(samples), MAX_GAP_MS)
  {
    InOrderIsOrdered(samples);
    AllEventsAreSignals(samples);
    var es := Events(samples);
    forall i, j | Consecutive(es, i, j)
      ensures es[j].atMs - es[i].atMs <= MAX_GAP_MS
    {
      assert forall k | i < k < j :: es[k].Fault?;
      assert NextUsable(samples, i, j);
    }
  }

  lemma DangerHeldIsConfirms(samples: seq<Sample>, i: int, k: int)
    ensures DangerHeld(samples, i, k) <==> Confirms(Events(samples), i, k)
  {
    AllEventsAreSignals(samples);
    var es := Events(samples);
    if DangerHeld(samples, i, k) {
      forall j | 0 <= i <= j <= k < |es| && es[j].Tick?
        ensures es[j].threat
      {
        assert Usable(samples[j]);
      }
    }
    if Confirms(es, i, k) {
      forall j | i <= j <= k && Usable(samples[j])
        ensures Dangerous(samples[j])
      {
        assert es[j].Tick?;
      }
    }
  }

  lemma DangerOverIsClears(samples: seq<Sample>, c: int, m: int)
    ensures DangerOver(samples, c, m) <==> Clears(Events(samples), c, m)
  {
    AllEventsAreSignals(samples);
    var es := Events(samples);
    if DangerOver(samples, c, m) {
      forall j | 0 <= c < j <= m < |es| && es[j].Tick?
        ensures !es[j].threat
      {
        assert Usable(samples[j]);
      }
    }
    if Clears(es, c, m) {
      forall j | c < j <= m && Usable(samples[j])
        ensures !Dangerous(samples[j])
      {
        assert es[j].Tick?;
      }
    }
  }

  lemma NotOverIsNotCleared(samples: seq<Sample>, k: int, n: nat)
    ensures NotOverSince(samples, k, n) <==> NotClearedSince(Events(samples), k, n + 1)
  {
    forall c, m
      ensures DangerOver(samples, c, m) <==> Clears(Events(samples), c, m)
    {
      DangerOverIsClears(samples, c, m);
    }
  }

  lemma DangerIsConfirmedHigh(samples: seq<Sample>, n: nat)
    requires n < |samples|
    ensures InConfirmedDanger(samples, n) <==> ConfirmedHigh(Events(samples), n + 1)
  {
    if InConfirmedDanger(samples, n) {
      var i, k :| DangerHeld(samples, i, k) && k <= n && NotOverSince(samples, k, n);
      DangerHeldIsConfirms(samples, i, k);
      NotOverIsNotCleared(samples, k, n);
    }
    if ConfirmedHigh(Events(samples), n + 1) {
      var i, k :| Confirms(Events(samples), i, k) && k < n + 1 && NotClearedSince(Events(samples), k, n + 1);
      DangerHeldIsConfirms(samples, i, k);
      NotOverIsNotCleared(samples, k, n);
    }
  }

  // ---------- The evaluator ----------

  /** On every run with usable samples at most 2^32 - 1000 ms apart, the code reports HIGH at a cycle if and only
      if its sample is usable and a danger has been held for 500 ms and not been over since. */
  lemma RiskHighOnSignals(samples: seq<Sample>, offset: int, n: nat)
    requires n < |samples| && WellPaced(samples)
    ensures CodeOutput(samples, offset, n).riskHigh <==> Usable(samples[n]) && InConfirmedDanger(samples, n)
  {
    WellPacedIsPaced(samples);
    RiskHighCharacterised(samples, offset, n);
    DangerIsConfirmedHigh(samples, n);
    EventsAreSignals(samples, n);
  }

  /** With no bound on the time between samples: a reported HIGH means that a danger has been held ... */
  lemma HighOnlyAfterDanger(samples: seq<Sample>, offset: int, n: nat)
    requires n < |samples| && InOrder(samples) && CodeOutput(samples, offset, n).riskHigh
    ensures exists i, k | DangerHeld(samples, i, k) :: k <= n
  {
    InOrderIsOrdered(samples);
    RiskHighGenuine(samples, offset, n);
    var i, k :| Confirms(Events(samples), i, k) && k <= n;
    DangerHeldIsConfirms(samples, i, k);
  }

  /** ... and is repeated at every usable sample until one finds the danger over. */
  lemma HighUntilDangerOver(samples: seq<Sample>, offset: int, k: nat, n: nat)
    requires k <= n < |samples| && InOrder(samples) && CodeOutput(samples, offset, k).riskHigh
    requires Usable(samples[n]) && NotOverSince(samples, k, n)
    ensures CodeOutput(samples, offset, n).riskHigh
  {
    InOrderIsOrdered(samples);
    NotOverIsNotCleared(samples, k, n);
    RiskHighKept(samples, offset, k, n);
    EventsAreSignals(samples, n);
  }

  /** The rest of the code's output, on every run: validity, the fault flag, and the level by its zones. */
  lemma ReportOnSignals(samples: seq<Sample>, offset: int, n: nat)
    requires n < |samples|
    ensures var s, out := samples[n], CodeOutput(samples, offset, n);
            && (out.riskValid <==> Usable(s))
            && out.faultFlag == (if Usable(s) then None else Some(RearSensorFault))
            && (!Usable(s) ==> !out.riskHigh && out.riskLevel == RiskNone)
            && (out.riskLevel == RiskHigh <==> Usable(s) && s.distanceM <= 3.0 && s.relSpeedMps >= 2.0)
            && (out.riskLevel == RiskMedium <==> Usable(s) && (s.distanceM <= 3.0) != (s.relSpeedMps >= 2.0))
            && (out.riskLevel == RiskLow <==> Usable(s) && 3.0 < s.distanceM <= 6.0 && s.relSpeedMps < 2.0)
  {
    assert Stamp32(samples, offset)[n] == samples[n].(timestampMs := Wrap(samples[n].timestampMs + offset));
  }

  // ---------- The evaluator feeding the protection controller ----------

  /** The whole output of the composed function: it acts at powered cycles that are unusable or in confirmed danger. */
  lemma DemandOnSignals(cycles: seq<Cycle>, offset: int, n: nat)
    requires n < |cycles| && WellPaced(Samples(cycles))
    ensures var c, out := cycles[n], Demand(cycles, offset, n);
            var unusable := !Usable(c.sample);
            var acts := c.ignition == IgnitionOn && (unusable || InConfirmedDanger(Samples(cycles), n));
            && (out.targetCLState == On <==> c.current == On || acts)
            && (out.clChanged <==> c.current == Off && acts)
            && (out.warningSound <==> acts)
            && (out.eventLog <==> acts)
            && out.warningMsgId ==
               (if !acts then NoWarning
                else if unusable then SensorFaultWarning
                else if c.current == Off then RearRiskHighWarning
                else AlreadyOnWarning)
  {
    RiskHighOnSignals(Samples(cycles), offset, n);
    ReportOnSignals(Samples(cycles), offset, n);
  }
}

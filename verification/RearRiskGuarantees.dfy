/** What F-07, the code on its uint32_t clock, guarantees over whole runs of cycles. A run is given
    with ideal time stamps; the code receives it through a counter with any offset. */
module RearRiskGuarantees {
  import opened ChildLockTypes
  import opened RearRiskEvaluation
  import opened HysteresisRuns
  import opened WrapRefinement

  /** The output of the code at cycle n. */
  function CodeOutput(samples: seq<Sample>, offset: int, n: nat): RiskOutput
    requires n < |samples|
  {
    OutputAt(Wrapping, Stamp32(samples, offset), n)
  }

  /** The code's riskHigh, said of the wrapping machine on ideal times. */
  lemma CodeReportsLatch(samples: seq<Sample>, offset: int, n: nat)
    requires n < |samples|
    ensures CodeOutput(samples, offset, n).riskHigh <==>
              IsInputValid(samples[n]) && High(Wrapping, Events(samples), n + 1)
  {
    StampedLatch(samples, offset);
    assert Latch(Wrapping, Events(Stamp32(samples, offset)))[n + 1] == Latch(Wrapping, Events(samples))[n + 1];
  }

  /** The code's riskHigh, said of the ideal machine. */
  lemma CodeRiskHigh(samples: seq<Sample>, offset: int, gapMs: int, n: nat)
    requires n < |samples| && Paced(Events(samples), gapMs) && gapMs <= MAX_GAP_MS
    ensures CodeOutput(samples, offset, n).riskHigh <==>
              IsInputValid(samples[n]) && High(Unbounded, Events(samples), n + 1)
  {
    CodeLatchRefines(samples, offset, gapMs, n + 1);
  }

  /** Exactly when the code reports confirmed HIGH. */
  lemma RiskHighCharacterised(samples: seq<Sample>, offset: int, n: nat)
    requires n < |samples| && Paced(Events(samples), MAX_GAP_MS)
    ensures CodeOutput(samples, offset, n).riskHigh <==>
              IsInputValid(samples[n]) && ConfirmedHigh(Events(samples), n + 1)
  {
    CodeRiskHigh(samples, offset, MAX_GAP_MS, n);
    LatchIsConfirmedHigh(Events(samples), n + 1);
  }

  /** The same of a live evaluator: its latch field is set exactly when the samples it has received since
      its last initialisation, at their ideal times, confirm a threat that was not cleared since. */
  lemma EvaluatorLatch(evaluator: RearRiskEvaluator, samples: seq<Sample>, offset: int)
    requires evaluator.Valid() && evaluator.isInitialized
    requires evaluator.history == Stamp32(samples, offset) && Paced(Events(samples), MAX_GAP_MS)
    ensures evaluator.isRiskHighActive <==> ConfirmedHigh(Events(samples), |samples|)
  {
    CodeLatchRefines(samples, offset, MAX_GAP_MS, |samples|);
    LatchIsConfirmedHigh(Events(samples), |samples|);
  }

  /** Within a gap of gapMs the code's riskHigh is exactly confirmed HIGH, on all runs. */
  ghost predicate CharacterisedUpToGap(gapMs: int) {
    forall samples: seq<Sample>, offset: int, n: nat | n < |samples| && Paced(Events(samples), gapMs) ::
      CodeOutput(samples, offset, n).riskHigh <==> IsInputValid(samples[n]) && ConfirmedHigh(Events(samples), n + 1)
  }

  /** The gap bound of the characterisation cannot be widened. */
  lemma CharacterisationBoundIsExact(gapMs: int)
    ensures CharacterisedUpToGap(gapMs) <==> gapMs <= MAX_GAP_MS
  {
    if gapMs <= MAX_GAP_MS {
      forall samples: seq<Sample>, offset: int, n: nat | n < |samples| && Paced(Events(samples), gapMs)
        ensures CodeOutput(samples, offset, n).riskHigh <==>
                  IsInputValid(samples[n]) && ConfirmedHigh(Events(samples), n + 1)
      {
        RiskHighCharacterised(samples, offset, n);
      }
    } else {
      StaleRunKeepsHigh(gapMs);
      assert CodeOutput(StaleRun(), 0, 3).riskHigh;
      LatchIsConfirmedHigh(Events(StaleRun()), 4);
    }
  }

  // ---------- With no bound on gaps ----------

  /** A wrapped timer can only be late: every rise of the code's latch ends a genuine threat of 500 ms, and
      every fall comes at a safe sample 1000 ms or more after the last threat. */
  lemma WrapNeverEarly(samples: seq<Sample>, offset: int, n: nat)
    requires n < |samples| && Ordered(Events(samples))
    ensures var latch := Latch(Wrapping, Events(Stamp32(samples, offset)));
            && (!latch[n] && latch[n + 1] ==> Confirms(Events(samples), ThreatStart(Events(samples), n + 1), n))
            && (latch[n] && !latch[n + 1] ==> Clears(Events(samples), LastThreat(Events(samples), n), n))
  {
    StampedLatch(samples, offset);
    NeverEarly(Wrapping, Events(samples), n);
  }

  /** Every HIGH the code reports goes back to a genuine confirmation. */
  lemma RiskHighGenuine(samples: seq<Sample>, offset: int, n: nat)
    requires n < |samples| && Ordered(Events(samples))
    requires CodeOutput(samples, offset, n).riskHigh
    ensures exists i, k | Confirms(Events(samples), i, k) :: k <= n
  {
    CodeReportsLatch(samples, offset, n);
    HighGenuine(Wrapping, Events(samples), n + 1);
  }

  /** A HIGH once reported is reported at every valid sample until one genuinely clears it. */
  lemma RiskHighKept(samples: seq<Sample>, offset: int, k: nat, n: nat)
    requires k <= n < |samples| && Ordered(Events(samples))
    requires CodeOutput(samples, offset, k).riskHigh && NotClearedSince(Events(samples), k, n + 1)
    ensures IsInputValid(samples[n]) ==> CodeOutput(samples, offset, n).riskHigh
  {
    CodeReportsLatch(samples, offset, k);
    HighKept(Wrapping, Events(samples), k, n + 1);
    CodeReportsLatch(samples, offset, n);
  }

  /** The code's latch needs 1500 ms for each time it rises and falls. */
  lemma CodeChatterBound(samples: seq<Sample>, offset: int, f: nat, n: nat)
    requires f < n <= |samples| && FirstTick(Events(samples), f) && Ordered(Events(samples))
    ensures var last := LastTick(Events(samples), n);
            && last >= f
            && samples[last].timestampMs - samples[f].timestampMs
               >= CHATTER_PERIOD_MS * Falls(Latch(Wrapping, Events(Stamp32(samples, offset))), n)
  {
    StampedLatch(samples, offset);
    ChatterBound(Wrapping, Events(samples), f, n);
  }

  /** In every run of the code with gaps up to gapMs, a fall of the latch ends safe samples spanning spanMs. */
  ghost predicate CodeSafeSpanGuaranteed(gapMs: int, spanMs: int) {
    forall samples: seq<Sample>, offset: int | Paced(Events(samples), gapMs) ::
      FallsOnlyAfterSafe(Events(samples), Latch(Wrapping, Events(Stamp32(samples, offset))), spanMs)
  }

  function SamplesOf(es: seq<Event>): (samples: seq<Sample>)
    requires forall k | 0 <= k < |es| :: es[k].Tick?
    ensures Events(samples) == es
  {
    seq(|es|, k requires 0 <= k < |es| => SampleAt(es[k].threat, es[k].atMs))
  }

  /** How long the code observes the safe condition before it clears: 1000 - gapMs at the least, a single
      sample from a gap of 1000 ms on, and never the documented 1000 ms as soon as time passes. */
  lemma CodeSafeSpanIsExact(gapMs: int, spanMs: int)
    ensures CodeSafeSpanGuaranteed(gapMs, spanMs) <==> gapMs <= 0 || spanMs <= SafeSpan(gapMs)
  {
    if gapMs <= 0 || spanMs <= SafeSpan(gapMs) {
      forall samples: seq<Sample>, offset: int | Paced(Events(samples), gapMs)
        ensures FallsOnlyAfterSafe(Events(samples), Latch(Wrapping, Events(Stamp32(samples, offset))), spanMs)
      {
        StampedLatch(samples, offset);
        FallSpan(Wrapping, Events(samples), gapMs, spanMs);
      }
    } else {
      ShortestSafeSpan(Wrapping, gapMs, spanMs);
      var samples := SamplesOf(LongPause(gapMs));
      StampedLatch(samples, 0);
      assert !FallsOnlyAfterSafe(Events(samples), Latch(Wrapping, Events(Stamp32(samples, 0))), spanMs);
    }
  }

  // ---------- Monotonicity ----------

  ghost predicate NoFartherNoSlower(closer: Sample, other: Sample) {
    && closer.timestampMs == other.timestampMs
    && IsInputValid(closer) == IsInputValid(other)
    && closer.distanceM <= other.distanceM
    && closer.relSpeedMps >= other.relSpeedMps
  }

  /** A run that is at every cycle at least as close and at least as fast is never reported lower,
      neither in confirmed HIGH nor in level. */
  lemma ReportsMonotone(closer: seq<Sample>, other: seq<Sample>, offset: int, n: nat)
    requires |closer| == |other| && n < |other|
    requires forall i | 0 <= i < |other| :: NoFartherNoSlower(closer[i], other[i])
    requires Paced(Events(other), MAX_GAP_MS)
    ensures var high, low := CodeOutput(closer, offset, n), CodeOutput(other, offset, n);
            && high.riskValid == low.riskValid
            && (low.riskHigh ==> high.riskHigh)
            && low.riskLevel.Rank() <= high.riskLevel.Rank()
            && (low.riskLevel == RiskHigh ==> high.riskLevel == RiskHigh)
            && (low.riskLevel == RiskMedium ==> high.riskLevel in {RiskMedium, RiskHigh})
            && (low.riskLevel == RiskLow ==> high.riskLevel != RiskNone)
  {
    assert NoFartherNoSlower(closer[n], other[n]);
    var es, fs := Events(other), Events(closer);
    assert ThreatensNoLess(fs, es) by {
      forall i | 0 <= i < |es|
        ensures if es[i].Fault? then fs[i].Fault?
                else fs[i].Tick? && fs[i].atMs == es[i].atMs && (es[i].threat ==> fs[i].threat)
      {
        assert NoFartherNoSlower(closer[i], other[i]);
      }
    }
    SamePacing(es, fs, MAX_GAP_MS);
    HighMonotone(es, fs, n + 1);
    CodeRiskHigh(other, offset, MAX_GAP_MS, n);
    CodeRiskHigh(closer, offset, MAX_GAP_MS, n);
  }

  lemma SamePacing(es: seq<Event>, fs: seq<Event>, gapMs: int)
    requires ThreatensNoLess(fs, es) && Paced(es, gapMs)
    ensures Paced(fs, gapMs)
  {
    forall i, j | Consecutive(fs, i, j)
      ensures fs[j].atMs - fs[i].atMs <= gapMs
    {
      assert Consecutive(es, i, j);
    }
  }

  /** Within a gap of gapMs no run of the code is reported lower than one that is farther and slower throughout. */
  ghost predicate MonotoneUpToGap(gapMs: int) {
    forall closer: seq<Sample>, other: seq<Sample>, offset: int, n: nat
      | n < |closer| == |other| && Paced(Events(other), gapMs)
        && forall i | 0 <= i < |other| :: NoFartherNoSlower(closer[i], other[i]) ::
        CodeOutput(other, offset, n).riskHigh ==> CodeOutput(closer, offset, n).riskHigh
  }

  /** The gap bound of monotonicity cannot be widened either: a later last threat can clear first. */
  lemma MonotoneBoundIsExact(gapMs: int)
    ensures MonotoneUpToGap(gapMs) <==> gapMs <= MAX_GAP_MS
  {
    if gapMs <= MAX_GAP_MS {
      forall closer: seq<Sample>, other: seq<Sample>, offset: int, n: nat
        | n < |closer| == |other| && Paced(Events(other), gapMs)
          && forall i | 0 <= i < |other| :: NoFartherNoSlower(closer[i], other[i])
        ensures CodeOutput(other, offset, n).riskHigh ==> CodeOutput(closer, offset, n).riskHigh
      {
        ReportsMonotone(closer, other, offset, n);
      }
    } else {
      var closer, other := StaleRun()[2 := SampleAt(true, 1499)], StaleRun();
      StaleRunKeepsHigh(gapMs);
      LaterThreatClears();
      assert CodeOutput(other, 0, 3).riskHigh && !CodeOutput(closer, 0, 3).riskHigh;
      assert forall i | 0 <= i < |other| :: NoFartherNoSlower(closer[i], other[i]);
    }
  }

  /** The stale run with a third threat in place of the first safe sample is cleared. */
  lemma LaterThreatClears()
    ensures !CodeOutput(StaleRun()[2 := SampleAt(true, 1499)], 0, 3).riskHigh
  {
    var fs := Events(Stamp32(StaleRun()[2 := SampleAt(true, 1499)], 0));
    assert fs == [Tick(true, 0), Tick(true, 500), Tick(true, 1499), Tick(false, 500)];
    assert After(Wrapping, fs, 1) == Hysteresis(0, 0, false, true);
    assert After(Wrapping, fs, 2) == Hysteresis(0, 500, true, true);
    assert After(Wrapping, fs, 3) == Hysteresis(0, 1499, true, true);
  }

  // ---------- Bounded latency ----------

  /** A threat held from sample i to sample k, with valid samples at most 2^32 - 500 ms apart in between, is
      reported HIGH at k, after any run. */
  lemma HeldThreatReported(samples: seq<Sample>, offset: int, i: nat, k: nat)
    requires k < |samples| && Ordered(Events(samples)) && Confirms(Events(samples), i, k)
    requires PacedWithin(Events(samples), MAX_CONFIRM_GAP_MS, i, k)
    ensures CodeOutput(samples, offset, k).riskHigh
  {
    HeldThreatConfirmed(Events(samples), MAX_CONFIRM_GAP_MS, i, k);
    CodeReportsLatch(samples, offset, k);
  }

  ghost predicate ConfirmsUpToGap(gapMs: int) {
    forall samples: seq<Sample>, offset: int, i: nat, k: nat
      | k < |samples| && Ordered(Events(samples)) && Confirms(Events(samples), i, k)
        && PacedWithin(Events(samples), gapMs, i, k) ::
        CodeOutput(samples, offset, k).riskHigh
  }

  /** The confirm timer has its own bound, 2^32 - 500 ms, and that is exact too. */
  lemma ConfirmBoundIsExact(gapMs: int)
    ensures ConfirmsUpToGap(gapMs) <==> gapMs <= MAX_CONFIRM_GAP_MS
  {
    if gapMs <= MAX_CONFIRM_GAP_MS {
      forall samples: seq<Sample>, offset: int, i: nat, k: nat
        | k < |samples| && Ordered(Events(samples)) && Confirms(Events(samples), i, k)
          && PacedWithin(Events(samples), gapMs, i, k)
        ensures CodeOutput(samples, offset, k).riskHigh
      {
        HeldThreatReported(samples, offset, i, k);
      }
    } else {
      MissedConfirmation(gapMs);
    }
  }

  /** Threat at 0 and 499, then 2^32 - 499 ms later, when the counter reads 0 elapsed. */
  lemma MissedConfirmation(gapMs: int)
    requires gapMs > MAX_CONFIRM_GAP_MS
    ensures !ConfirmsUpToGap(gapMs)
  {
    var samples := [SampleAt(true, 0), SampleAt(true, 499), SampleAt(true, WRAP)];
    var es := Events(samples);
    assert es == [Tick(true, 0), Tick(true, 499), Tick(true, WRAP)];
    ConsecutiveIsAdjacent(es);
    assert Confirms(es, 0, 2) && PacedWithin(es, gapMs, 0, 2);
    var fs := Events(Stamp32(samples, 0));
    assert fs == [Tick(true, 0), Tick(true, 499), Tick(true, 0)];
    assert After(Wrapping, fs, 1) == Hysteresis(0, 0, false, true);
    assert After(Wrapping, fs, 2) == Hysteresis(0, 499, false, true);
    assert !CodeOutput(samples, 0, 2).riskHigh;
  }

  /** With valid samples at most periodMs apart, a threat held from sample i on is reported HIGH at every
      valid sample 500 ms or more later, and the first of these comes by 499 + periodMs. The period concerns
      the held threat only. */
  lemma ConfirmLatency(samples: seq<Sample>, offset: int, periodMs: int, i: nat, n: nat) returns (k: nat)
    requires i < n < |samples| && IsInputValid(samples[i]) && IsInputValid(samples[n])
    requires Ordered(Events(samples)) && PacedWithin(Events(samples), periodMs, i, n)
    requires 1 <= periodMs <= MAX_CONFIRM_GAP_MS
    requires AllThreat(Events(samples), i, n)
    requires samples[n].timestampMs - samples[i].timestampMs >= REAR_RISK_CONFIRM_DURATION_MS
    ensures i < k <= n && IsInputValid(samples[k])
    ensures samples[i].timestampMs + 500 <= samples[k].timestampMs <= samples[i].timestampMs + 499 + periodMs
    ensures forall j | i <= j <= n && IsInputValid(samples[j]) && samples[j].timestampMs >= samples[i].timestampMs + 500 ::
              CodeOutput(samples, offset, j).riskHigh
  {
    var es := Events(samples);
    k := SampleMeetsDeadline(es, periodMs, i, n, REAR_RISK_CONFIRM_DURATION_MS);
    forall j | i <= j <= n && IsInputValid(samples[j]) && samples[j].timestampMs >= samples[i].timestampMs + 500
      ensures CodeOutput(samples, offset, j).riskHigh
    {
      assert Confirms(es, i, j);
      HeldThreatReported(samples, offset, i, j);
    }
  }

  /** Once a sample m comes 1000 ms after the last threat c, with valid samples at most 2^32 - 1000 ms apart in
      between, no cycle j from m on reports HIGH until a threat returns, however far apart the samples after m. */
  lemma QuietIsReported(samples: seq<Sample>, offset: int, c: nat, m: nat, j: nat)
    requires m <= j < |samples| && Ordered(Events(samples))
    requires Clears(Events(samples), c, m) && PacedWithin(Events(samples), MAX_GAP_MS, c, m)
    requires AllSafe(Events(samples), c, j)
    ensures !CodeOutput(samples, offset, j).riskHigh
  {
    QuietCleared(Events(samples), MAX_GAP_MS, c, m);
    LowKeptWhileSafe(Wrapping, Events(samples), m, j + 1);
    CodeReportsLatch(samples, offset, j);
  }

  /** After a last threat at sample c, HIGH is gone from every valid sample 1000 ms or more later, and the
      first of these comes by 999 + periodMs. The period concerns the samples since c only. */
  lemma ClearLatency(samples: seq<Sample>, offset: int, periodMs: int, c: nat, n: nat) returns (m: nat)
    requires c < n < |samples| && IsInputValid(samples[c]) && IsInputValid(samples[n])
    requires Ordered(Events(samples)) && PacedWithin(Events(samples), periodMs, c, n)
    requires 1 <= periodMs <= MAX_GAP_MS
    requires IsRawThreatActive(samples[c]) && AllSafe(Events(samples), c, n)
    requires samples[n].timestampMs - samples[c].timestampMs >= REAR_RISK_CLEAR_DURATION_MS
    ensures c < m <= n && IsInputValid(samples[m])
    ensures samples[c].timestampMs + 1000 <= samples[m].timestampMs <= samples[c].timestampMs + 999 + periodMs
    ensures forall j | m <= j <= n :: !CodeOutput(samples, offset, j).riskHigh
    ensures forall j | c < j <= n && samples[j].timestampMs >= samples[c].timestampMs + 1000 ::
              !CodeOutput(samples, offset, j).riskHigh
  {
    var es := Events(samples);
    m := SampleMeetsDeadline(es, periodMs, c, n, REAR_RISK_CLEAR_DURATION_MS);
    forall j | c < j <= n && (m <= j || samples[j].timestampMs >= samples[c].timestampMs + 1000)
      ensures !CodeOutput(samples, offset, j).riskHigh
    {
      if IsInputValid(samples[j]) {
        QuietIsReported(samples, offset, c, if m <= j then m else j, j);
      }
    }
  }

  // ---------- Fault erasure ----------

  /** The valid ones among the first n samples, in order. */
  function Erase(samples: seq<Sample>, n: nat): seq<Sample>
    requires n <= |samples|
  {
    if n == 0 then []
    else Erase(samples, n - 1) + if IsInputValid(samples[n - 1]) then [samples[n - 1]] else []
  }

  /** The outputs of every cycle of a run, and of its valid cycles only. */
  function Outputs(clock: Clock, samples: seq<Sample>, n: nat): (outputs: seq<RiskOutput>)
    requires n <= |samples|
    ensures |outputs| == n
  {
    if n == 0 then [] else Outputs(clock, samples, n - 1) + [OutputAt(clock, samples, n - 1)]
  }

  function ValidOutputs(clock: Clock, samples: seq<Sample>, n: nat): seq<RiskOutput>
    requires n <= |samples|
  {
    if n == 0 then []
    else
      ValidOutputs(clock, samples, n - 1)
      + if IsInputValid(samples[n - 1]) then [OutputAt(clock, samples, n - 1)] else []
  }

  lemma {:induction false} OutputsAgree(clock: Clock, samples: seq<Sample>, longer: seq<Sample>, n: nat)
    requires n <= |samples| && n <= |longer| && samples[..n] == longer[..n]
    ensures Outputs(clock, samples, n) == Outputs(clock, longer, n)
  {
    if n > 0 {
      assert samples[..n - 1] == samples[..n][..n - 1] == longer[..n - 1];
      OutputsAgree(clock, samples, longer, n - 1);
      assert samples[n - 1] == samples[..n][n - 1] == longer[n - 1];
      forall i | 0 <= i < n
        ensures Events(samples)[i] == Events(longer)[i]
      {
        assert samples[i] == samples[..n][i] == longer[i];
      }
      AfterAgrees(clock, Events(samples), Events(longer), n);
    }
  }

  lemma OneMoreCycle(clock: Clock, samples: seq<Sample>, s: Sample)
    ensures var longer := samples + [s];
            var state := Step(clock, After(clock, Events(samples), |samples|), EventOf(s));
            && After(clock, Events(longer), |longer|) == state
            && Outputs(clock, longer, |longer|) == Outputs(clock, samples, |samples|) + [Report(state, s)]
  {
    var longer := samples + [s];
    AfterAgrees(clock, Events(samples), Events(longer), |samples|);
    OutputsAgree(clock, samples, longer, |samples|);
    assert Events(longer)[|samples|] == EventOf(s);
  }

  /** Deleting the invalid samples changes neither the context a run ends in nor the outputs of its valid
      cycles: a fault neither resets nor advances the machine, on either clock and at any times. */
  lemma {:induction false} FaultErasure(clock: Clock, samples: seq<Sample>, n: nat)
    requires n <= |samples|
    ensures var kept := Erase(samples, n);
            && After(clock, Events(samples), n) == After(clock, Events(kept), |kept|)
            && ValidOutputs(clock, samples, n) == Outputs(clock, kept, |kept|)
  {
    if n > 0 {
      FaultErasure(clock, samples, n - 1);
      var kept := Erase(samples, n - 1);
      if IsInputValid(samples[n - 1]) {
        OneMoreCycle(clock, kept, samples[n - 1]);
        assert Erase(samples, n) == kept + [samples[n - 1]];
      } else {
        assert Erase(samples, n) == kept;
      }
    }
  }

  // ---------- Automatic initialisation and Reset ----------

  /** A context initialised to no threat and no HIGH gives the outputs of Init's, whatever its timers hold. */
  lemma {:induction false} InitTimersUnobservable(ctx: Context, calls: seq<Call>, samples: seq<Sample>, n: nat)
    requires n <= |calls| && n <= |samples|
    requires ctx.isInitialized && !ctx.state.high && !ctx.state.ongoing
    requires forall i | 0 <= i < n :: calls[i] == Cycle(samples[i])
    ensures var h, h' := PerformAll(ctx, calls, n).state, After(Wrapping, Events(samples), n);
            && PerformAll(ctx, calls, n).isInitialized
            && h.high == h'.high && h.ongoing == h'.ongoing
            && (h.ongoing ==> h.onsetMs == h'.onsetMs)
            && (LastThreat(Events(samples), n) >= 0 ==> h.clearMs == h'.clearMs)
            && forall s :: Report(h, s) == Report(h', s)
  {
    if n > 0 {
      InitTimersUnobservable(ctx, calls, samples, n - 1);
      TimersPoint(Wrapping, Events(samples), n - 1);
      assert calls[n - 1] == Cycle(samples[n - 1]);
    }
  }

  /** The context after a Reset or on uninitialised memory: what follows is a run from Init on the cycles since. */
  lemma {:induction false} OnlySamplesSinceResetMatter(ctx: Context, calls: seq<Call>, samples: seq<Sample>, start: nat, n: nat)
    requires start + n <= |calls| && n <= |samples|
    requires if start == 0 then !ctx.isInitialized && n > 0 else calls[start - 1].InitOrReset?
    requires forall i | 0 <= i < n :: calls[start + i] == Cycle(samples[i])
    ensures PerformAll(ctx, calls, start + n) == Context(After(Wrapping, Events(samples), n), true)
  {
    if n > 1 || (n == 1 && start > 0) {
      OnlySamplesSinceResetMatter(ctx, calls, samples, start, n - 1);
    }
    if n > 0 {
      assert calls[start + n - 1] == Cycle(samples[n - 1]);
    }
  }
}

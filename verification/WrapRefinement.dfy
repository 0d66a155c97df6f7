/** The F-07 code, which reads time from a uint32_t counter, against the same machine on an
    unbounded clock: how far apart valid samples may be for the two to agree, and for each of the
    two timers to do its work in time. */
module WrapRefinement {
  import opened ChildLockTypes
  import opened RearRiskEvaluation
  import opened HysteresisRuns

  /** The widest spacing of valid samples the confirm timer tolerates. */
  const MAX_CONFIRM_GAP_MS: int := WRAP - REAR_RISK_CONFIRM_DURATION_MS

  /** The widest spacing of valid samples the clear timer, and with it the whole machine, tolerates. */
  const MAX_GAP_MS: int := WRAP - REAR_RISK_CLEAR_DURATION_MS

  /** The samples as a uint32_t counter that shows offset at ideal time 0 stamps them. */
  function Stamp32(samples: seq<Sample>, offset: int): (stamped: seq<Sample32>)
    ensures |stamped| == |samples|
  {
    seq(|samples|, i requires 0 <= i < |samples| =>
      samples[i].(timestampMs := Wrap(samples[i].timestampMs + offset)))
  }

  /** Two event sequences that differ only in their clocks: fs shows es's times plus shift, modulo 2^32. */
  ghost predicate SameRunShifted(es: seq<Event>, fs: seq<Event>, shift: int) {
    && |es| == |fs|
    && forall i | 0 <= i < |es| :: SameEventShifted(es[i], fs[i], shift)
  }

  predicate SameEventShifted(e: Event, f: Event, shift: int) {
    match e
    case Fault => f.Fault?
    case Tick(threat, atMs) => f.Tick? && f.threat == threat && Wrap(f.atMs) == Wrap(atMs + shift)
  }

  lemma StampShifts(samples: seq<Sample>, offset: int)
    ensures SameRunShifted(Events(samples), Events(Stamp32(samples, offset)), offset)
  {
  }

  lemma {:induction false} SameIndices(es: seq<Event>, fs: seq<Event>, shift: int, n: nat)
    requires SameRunShifted(es, fs, shift) && n <= |es|
    ensures ThreatStart(fs, n) == ThreatStart(es, n)
    ensures LastThreat(fs, n) == LastThreat(es, n)
  {
    if n > 0 {
      SameIndices(es, fs, shift, n - 1);
    }
  }

  lemma ElapsedShifted(es: seq<Event>, fs: seq<Event>, shift: int, i: nat, j: nat)
    requires SameRunShifted(es, fs, shift) && i < |es| && j < |es| && es[i].Tick? && es[j].Tick?
    ensures Elapsed(Wrapping, fs[j].atMs, fs[i].atMs) == Elapsed(Wrapping, es[j].atMs, es[i].atMs)
  {
    assert SameEventShifted(es[i], fs[i], shift) && SameEventShifted(es[j], fs[j], shift);
  }

  // ---------- Clock-shift invariance ----------

  /** On the wrapping clock nothing but time differences modulo 2^32 reaches the latch. */
  lemma {:induction false} ShiftInvariance(es: seq<Event>, fs: seq<Event>, shift: int, n: nat)
    requires SameRunShifted(es, fs, shift) && n <= |es|
    ensures High(Wrapping, fs, n) == High(Wrapping, es, n)
  {
    if n > 0 {
      var m := n - 1;
      ShiftInvariance(es, fs, shift, m);
      HighStep(Wrapping, es, m);
      HighStep(Wrapping, fs, m);
      SameIndices(es, fs, shift, m);
      SameIndices(es, fs, shift, n);
      assert SameEventShifted(es[m], fs[m], shift);
      if es[m].Tick? && es[m].threat {
        ElapsedShifted(es, fs, shift, ThreatStart(es, n), m);
      } else if es[m].Tick? && LastThreat(es, m) >= 0 {
        ElapsedShifted(es, fs, shift, LastThreat(es, m), m);
      }
    }
  }

  /** Every output of the code is the same whatever the counter showed at time 0, for any samples at any times. */
  lemma CounterOffsetUnobservable(samples: seq<Sample>, offset: int, offset': int, n: nat)
    requires n < |samples|
    ensures OutputAt(Wrapping, Stamp32(samples, offset'), n) == OutputAt(Wrapping, Stamp32(samples, offset), n)
  {
    StampShifts(samples, offset);
    StampShifts(samples, offset');
    ShiftInvariance(Events(samples), Events(Stamp32(samples, offset)), offset, n + 1);
    ShiftInvariance(Events(samples), Events(Stamp32(samples, offset')), offset', n + 1);
  }

  /** The latch of the code, whatever its counter's offset, is the wrapping machine's on the ideal times. */
  lemma StampedLatch(samples: seq<Sample>, offset: int)
    ensures Latch(Wrapping, Events(Stamp32(samples, offset))) == Latch(Wrapping, Events(samples))
  {
    var es, fs := Events(samples), Events(Stamp32(samples, offset));
    StampShifts(samples, offset);
    forall n: nat | n <= |es|
      ensures Latch(Wrapping, fs)[n] == Latch(Wrapping, es)[n]
    {
      ShiftInvariance(es, fs, offset, n);
    }
  }

  // ---------- The two timers on the wrapping clock ----------

  lemma {:induction false} SameThreatStart(es: seq<Event>, i: nat, p: nat)
    requires i <= p < |es| && es[i].Tick? && AllThreat(es, i, p)
    ensures ThreatStart(es, p + 1) == ThreatStart(es, i + 1) >= 0
  {
    if i < p {
      SameThreatStart(es, i, p - 1);
    }
  }

  /** Some sample of a held threat comes while the counter shows 500 or more since the threat began: with samples
      at most 2^32 - 500 ms apart none can jump over all of that time. */
  lemma ConfirmingSample(es: seq<Event>, gapMs: int, i: nat, k: nat) returns (p: nat)
    requires Ordered(es) && Confirms(es, i, k) && ThreatStart(es, i + 1) >= 0
    requires PacedWithin(es, gapMs, i, k) && gapMs <= MAX_CONFIRM_GAP_MS
    ensures i <= p <= k && es[p].Tick?
    ensures WrapSub(es[p].atMs, es[ThreatStart(es, i + 1)].atMs) >= REAR_RISK_CONFIRM_DURATION_MS
  {
    var since := es[ThreatStart(es, i + 1)].atMs;
    var shown := WrapSub(es[i].atMs, since);
    p := i;
    if shown < REAR_RISK_CONFIRM_DURATION_MS {
      p := SampleMeetsDeadline(es, gapMs, i, k, REAR_RISK_CONFIRM_DURATION_MS - shown);
      WrapSubGrows(es[i].atMs, since, es[p].atMs - es[i].atMs);
    }
  }

  lemma HighAtConfirmingSample(es: seq<Event>, i: nat, p: nat)
    requires i <= p < |es| && es[i].Tick? && es[p].Tick? && AllThreat(es, i, p) && ThreatStart(es, i + 1) >= 0
    requires WrapSub(es[p].atMs, es[ThreatStart(es, i + 1)].atMs) >= REAR_RISK_CONFIRM_DURATION_MS
    ensures High(Wrapping, es, p + 1)
  {
    SameThreatStart(es, i, p);
    HighStep(Wrapping, es, p);
  }

  /** So a threat held for 500 ms is confirmed by then, whatever the run before it. */
  lemma HeldThreatConfirmed(es: seq<Event>, gapMs: int, i: nat, k: nat)
    requires Ordered(es) && Confirms(es, i, k)
    requires PacedWithin(es, gapMs, i, k) && gapMs <= MAX_CONFIRM_GAP_MS
    ensures High(Wrapping, es, k + 1)
  {
    SameThreatStart(es, i, i);
    var p := ConfirmingSample(es, gapMs, i, k);
    HighAtConfirmingSample(es, i, p);
    HighKeptWhileThreat(Wrapping, es, p, k + 1);
  }

  /** After a last threat, HIGH is gone 1000 ms later if the samples since are at most 2^32 - 1000 ms apart. */
  lemma QuietCleared(es: seq<Event>, gapMs: int, c: nat, m: nat)
    requires Ordered(es) && Clears(es, c, m)
    requires PacedWithin(es, gapMs, c, m) && gapMs <= MAX_GAP_MS
    ensures !High(Wrapping, es, m + 1)
  {
    var p := SampleMeetsDeadline(es, gapMs, c, m, REAR_RISK_CLEAR_DURATION_MS);
    assert LastThreat(es, p) == c;
    WrapSubExact(es[p].atMs, es[c].atMs);
    HighStep(Wrapping, es, p);
    LowKeptWhileSafe(Wrapping, es, p, m + 1);
  }

  // ---------- Refinement ----------

  /** The ideal machine lags by less than a timer: an unconfirmed threat has lasted less than 500 ms at
      the last valid sample, and a HIGH not yet cleared has been safe for less than 1000 ms. */
  lemma {:induction false} LatchLag(es: seq<Event>, n: nat)
    requires n <= |es| && Ordered(es)
    ensures var last := LastTick(es, n);
            && (High(Unbounded, es, n) ==>
                  && 0 <= LastThreat(es, n) <= last
                  && es[last].atMs - es[LastThreat(es, n)].atMs < REAR_RISK_CLEAR_DURATION_MS)
            && (!High(Unbounded, es, n) && ThreatStart(es, n) >= 0 ==>
                  && ThreatStart(es, n) <= last
                  && es[last].atMs - es[ThreatStart(es, n)].atMs < REAR_RISK_CONFIRM_DURATION_MS)
  {
    if n > 0 {
      LatchLag(es, n - 1);
      HighStep(Unbounded, es, n - 1);
    }
  }

  /** Where a comparison at event n can still change the latch, the counter measures the time it compares exactly. */
  ghost predicate DecidesExactly(es: seq<Event>, n: nat)
    requires n < |es|
  {
    && (es[n].Tick? && es[n].threat && !High(Unbounded, es, n) && ThreatStart(es, n + 1) >= 0 ==>
          var since := es[ThreatStart(es, n + 1)].atMs; WrapSub(es[n].atMs, since) == es[n].atMs - since)
    && (es[n].Tick? && !es[n].threat && High(Unbounded, es, n) && LastThreat(es, n) >= 0 ==>
          var since := es[LastThreat(es, n)].atMs; WrapSub(es[n].atMs, since) == es[n].atMs - since)
  }

  lemma DecidingTimesFit(es: seq<Event>, gapMs: int, n: nat)
    requires n < |es|
    requires Paced(es, gapMs) && gapMs <= MAX_GAP_MS
    ensures DecidesExactly(es, n)
  {
    LatchLag(es, n);
    if es[n].Tick? {
      if LastTick(es, n) >= 0 {
        assert Consecutive(es, LastTick(es, n), n);
      }
      if es[n].threat && !High(Unbounded, es, n) {
        WrapSubExact(es[n].atMs, es[ThreatStart(es, n + 1)].atMs);
      } else if !es[n].threat && High(Unbounded, es, n) {
        WrapSubExact(es[n].atMs, es[LastThreat(es, n)].atMs);
      }
    }
  }

  lemma LatchStepAgrees(es: seq<Event>, n: nat)
    requires n < |es| && DecidesExactly(es, n)
    requires High(Wrapping, es, n) == High(Unbounded, es, n)
    ensures High(Wrapping, es, n + 1) == High(Unbounded, es, n + 1)
  {
    HighStep(Wrapping, es, n);
    HighStep(Unbounded, es, n);
  }

  /** With valid samples at most 2^32 - 1000 ms apart the wrapping latch is the ideal latch. Elapsed times
      may still wrap, but only while the latch already has the value the comparison would give it. */
  lemma {:induction false} LatchRefines(es: seq<Event>, gapMs: int, n: nat)
    requires n <= |es|
    requires Paced(es, gapMs) && gapMs <= MAX_GAP_MS
    ensures High(Wrapping, es, n) == High(Unbounded, es, n)
  {
    if n > 0 {
      LatchRefines(es, gapMs, n - 1);
      DecidingTimesFit(es, gapMs, n - 1);
      LatchStepAgrees(es, n - 1);
    }
  }

  /** The latch of the code, reading a counter with any offset, is the ideal latch. */
  lemma CodeLatchRefines(samples: seq<Sample>, offset: int, gapMs: int, n: nat)
    requires n <= |samples|
    requires Paced(Events(samples), gapMs) && gapMs <= MAX_GAP_MS
    ensures High(Wrapping, Events(Stamp32(samples, offset)), n) == High(Unbounded, Events(samples), n)
  {
    LatchRefines(Events(samples), gapMs, n);
    StampShifts(samples, offset);
    ShiftInvariance(Events(samples), Events(Stamp32(samples, offset)), offset, n);
  }

  lemma OutputsRefine(samples: seq<Sample>, offset: int, gapMs: int, n: nat)
    requires n < |samples|
    requires Paced(Events(samples), gapMs) && gapMs <= MAX_GAP_MS
    ensures OutputAt(Wrapping, Stamp32(samples, offset), n) == OutputAt(Unbounded, samples, n)
  {
    CodeLatchRefines(samples, offset, gapMs, n + 1);
  }

  /** Every run whose consecutive valid samples are at most gapMs apart has the same outputs on both clocks. */
  ghost predicate ClocksAgreeUpToGap(gapMs: int) {
    forall samples: seq<Sample>, offset: int, n: nat
      | n < |samples| && Paced(Events(samples), gapMs) ::
        OutputAt(Wrapping, Stamp32(samples, offset), n) == OutputAt(Unbounded, samples, n)
  }

  function SampleAt(threat: bool, atMs: int): (s: Sample)
    ensures EventOf(s) == Tick(threat, atMs)
  {
    Sample(if threat then 1.0 else 10.0, 5.0, true, 1.0, atMs)
  }

  /** 2^32 - 1000 ms is exactly the largest gap for which the wrap-around is harmless. */
  lemma WrapRefinement(gapMs: int)
    ensures ClocksAgreeUpToGap(gapMs) <==> gapMs <= MAX_GAP_MS
  {
    if gapMs <= MAX_GAP_MS {
      forall samples: seq<Sample>, offset: int, n: nat
        | n < |samples| && Paced(Events(samples), gapMs)
        ensures OutputAt(Wrapping, Stamp32(samples, offset), n) == OutputAt(Unbounded, samples, n)
      {
        OutputsRefine(samples, offset, gapMs, n);
      }
    } else {
      StaleClearTimer(gapMs);
    }
  }

  /** HIGH and safe for 999 ms, then a sample 2^32 - 999 ms later, at which the counter reads 0 elapsed. */
  function StaleRun(): (samples: seq<Sample>)
    ensures Events(samples) == [Tick(true, 0), Tick(true, 500), Tick(false, 1499), Tick(false, 500 + WRAP)]
  {
    [SampleAt(true, 0), SampleAt(true, 500), SampleAt(false, 1499), SampleAt(false, 500 + WRAP)]
  }

  lemma StaleRunCleared()
    ensures !OutputAt(Unbounded, StaleRun(), 3).riskHigh
  {
    var es := Events(StaleRun());
    assert After(Unbounded, es, 1) == Hysteresis(0, 0, false, true);
    assert After(Unbounded, es, 2) == Hysteresis(0, 500, true, true);
    assert After(Unbounded, es, 3) == Hysteresis(1499, 500, true, false);
  }

  lemma StaleRunNotCleared()
    ensures OutputAt(Wrapping, Stamp32(StaleRun(), 0), 3).riskHigh
  {
    var fs := Events(Stamp32(StaleRun(), 0));
    assert fs == [Tick(true, 0), Tick(true, 500), Tick(false, 1499), Tick(false, 500)];
    assert After(Wrapping, fs, 1) == Hysteresis(0, 0, false, true);
    assert After(Wrapping, fs, 2) == Hysteresis(0, 500, true, true);
    assert After(Wrapping, fs, 3) == Hysteresis(1499, 500, true, false);
  }

  /** On the stale run the code keeps the HIGH that the ideal machine clears. */
  lemma StaleRunKeepsHigh(gapMs: int)
    requires gapMs > MAX_GAP_MS
    ensures Paced(Events(StaleRun()), gapMs)
    ensures OutputAt(Wrapping, Stamp32(StaleRun(), 0), 3).riskHigh
    ensures !OutputAt(Unbounded, StaleRun(), 3).riskHigh
  {
    ConsecutiveIsAdjacent(Events(StaleRun()));
    StaleRunCleared();
    StaleRunNotCleared();
  }

  /** Above the bound there is a run on which the code differs. */
  lemma StaleClearTimer(gapMs: int)
    requires gapMs > MAX_GAP_MS
    ensures !ClocksAgreeUpToGap(gapMs)
  {
    StaleRunKeepsHigh(gapMs);
    assert OutputAt(Wrapping, Stamp32(StaleRun(), 0), 3) != OutputAt(Unbounded, StaleRun(), 3);
  }
}

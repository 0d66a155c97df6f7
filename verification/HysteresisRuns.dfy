/** What whole runs of the F-07 machine do. Lemmas that take a clock hold on both, with no bound on the
    time between samples; the others speak of ideal time. */
module HysteresisRuns {
  import opened ChildLockTypes
  import opened RearRiskEvaluation

  // ---------- Vocabulary of runs, independent of the machine ----------

  /** Events i and j are valid samples with only faults between them. */
  ghost predicate Consecutive(es: seq<Event>, i: int, j: int) {
    && 0 <= i < j < |es|
    && es[i].Tick? && es[j].Tick?
    && forall k | i < k < j :: es[k].Fault?
  }

  /** Time does not run backwards over the valid samples. */
  ghost predicate Ordered(es: seq<Event>) {
    forall i, j | 0 <= i <= j < |es| && es[i].Tick? && es[j].Tick? :: es[i].atMs <= es[j].atMs
  }

  lemma ConsecutiveIsAdjacent(es: seq<Event>)
    requires forall k | 0 <= k < |es| :: es[k].Tick?
    ensures forall i, j | Consecutive(es, i, j) :: j == i + 1
  {
    forall i, j | Consecutive(es, i, j)
      ensures j == i + 1
    {
      assert es[i + 1].Tick?;
    }
  }

  /** Ordered, and consecutive valid samples are at most gapMs apart. */
  ghost predicate Paced(es: seq<Event>, gapMs: int) {
    && Ordered(es)
    && forall i, j | Consecutive(es, i, j) :: es[j].atMs - es[i].atMs <= gapMs
  }

  /** Consecutive valid samples from i up to k are at most gapMs apart; what comes before and after is free. */
  ghost predicate PacedWithin(es: seq<Event>, gapMs: int, i: int, k: int) {
    forall a, b | Consecutive(es, a, b) && i <= a && b <= k :: es[b].atMs - es[a].atMs <= gapMs
  }

  /** Every valid sample from i up to and including k is a threat. */
  ghost predicate AllThreat(es: seq<Event>, i: int, k: int) {
    forall j | 0 <= i <= j <= k < |es| && es[j].Tick? :: es[j].threat
  }

  /** Every valid sample after c up to and including m is safe. */
  ghost predicate AllSafe(es: seq<Event>, c: int, m: int) {
    forall j | 0 <= c < j <= m < |es| && es[j].Tick? :: !es[j].threat
  }

  /** Valid samples i and k delimit an uninterrupted threat of at least 500 ms. */
  ghost predicate Confirms(es: seq<Event>, i: int, k: int) {
    && 0 <= i <= k < |es|
    && es[i].Tick? && es[k].Tick?
    && AllThreat(es, i, k)
    && es[k].atMs - es[i].atMs >= REAR_RISK_CONFIRM_DURATION_MS
  }

  /** Safe sample m comes at least 1000 ms after c, the last threat before it. */
  ghost predicate Clears(es: seq<Event>, c: int, m: int) {
    && 0 <= c < m < |es|
    && es[c].Tick? && es[c].threat && es[m].Tick?
    && AllSafe(es, c, m)
    && es[m].atMs - es[c].atMs >= REAR_RISK_CLEAR_DURATION_MS
  }

  /** No sample after k and before position n clears. */
  ghost predicate NotClearedSince(es: seq<Event>, k: int, n: nat) {
    forall c, m | Clears(es, c, m) :: !(k < m < n)
  }

  /** The reference definition of confirmed HIGH after n events: some threat was confirmed and nothing cleared it since. */
  ghost predicate ConfirmedHigh(es: seq<Event>, n: nat) {
    exists i, k | Confirms(es, i, k) :: k < n && NotClearedSince(es, k, n)
  }

  // ---------- Where the timers point ----------

  /** The last valid sample before position n, or -1. */
  ghost function LastTick(es: seq<Event>, n: nat): (i: int)
    requires n <= |es|
    ensures -1 <= i < n
    ensures i >= 0 ==> es[i].Tick?
    ensures forall k | i < k < n :: es[k].Fault?
  {
    if n == 0 then -1 else if es[n - 1].Tick? then n - 1 else LastTick(es, n - 1)
  }

  /** The last threatening sample before position n, or -1. */
  ghost function LastThreat(es: seq<Event>, n: nat): (i: int)
    requires n <= |es|
    ensures -1 <= i < n
    ensures i >= 0 ==> es[i].Tick? && es[i].threat
    ensures forall k | i < k < n && es[k].Tick? :: !es[k].threat
  {
    if n == 0 then -1 else if es[n - 1].Tick? && es[n - 1].threat then n - 1 else LastThreat(es, n - 1)
  }

  /** The first sample of the threat still ongoing at position n, or -1. */
  ghost function ThreatStart(es: seq<Event>, n: nat): (i: int)
    requires n <= |es|
    ensures -1 <= i < n
    ensures i >= 0 ==> es[i].Tick? && es[i].threat
  {
    if n == 0 then -1
    else if es[n - 1].Fault? then ThreatStart(es, n - 1)
    else if !es[n - 1].threat then -1
    else if ThreatStart(es, n - 1) >= 0 then ThreatStart(es, n - 1)
    else n - 1
  }

  /** ThreatStart begins an uninterrupted threat ... */
  lemma {:induction false} ThreatStartUninterrupted(es: seq<Event>, n: nat)
    requires n <= |es| && ThreatStart(es, n) >= 0
    ensures AllThreat(es, ThreatStart(es, n), n - 1)
  {
    if ThreatStart(es, n - 1) >= 0 {
      ThreatStartUninterrupted(es, n - 1);
    }
  }

  /** ... and no sample that begins one comes earlier. */
  lemma {:induction false} ThreatStartEarliest(es: seq<Event>, n: nat, k: nat)
    requires k < n <= |es| && es[k].Tick? && AllThreat(es, k, n - 1)
    ensures 0 <= ThreatStart(es, n) <= k
  {
    if k < n - 1 {
      ThreatStartEarliest(es, n - 1, k);
    }
  }

  /** On either clock, the onset timer holds the time stamp of the ongoing threat's first sample and
      the clear timer that of the last threat; before any threat their values are never consulted. */
  lemma {:induction false} TimersPoint(clock: Clock, es: seq<Event>, n: nat)
    requires n <= |es|
    ensures var h := After(clock, es, n);
            && (h.ongoing <==> ThreatStart(es, n) >= 0)
            && (h.ongoing ==> h.onsetMs == es[ThreatStart(es, n)].atMs)
            && (LastThreat(es, n) >= 0 ==> h.clearMs == es[LastThreat(es, n)].atMs)
            && (h.high ==> LastThreat(es, n) >= 0)
            && (h.ongoing ==> ThreatStart(es, n) <= LastThreat(es, n))
  {
    if n > 0 {
      TimersPoint(clock, es, n - 1);
    }
  }

  /** The latch after event n, said of the events alone: a threat sets it once it has lasted 500 ms,
      a safe sample keeps it only within 1000 ms of the last threat. */
  lemma HighStep(clock: Clock, es: seq<Event>, n: nat)
    requires n < |es|
    ensures High(clock, es, n) ==> LastThreat(es, n) >= 0
    ensures es[n].Fault? ==> High(clock, es, n + 1) == High(clock, es, n)
    ensures es[n].Tick? && es[n].threat ==>
              && ThreatStart(es, n + 1) >= 0
              && (High(clock, es, n + 1) <==>
                    || High(clock, es, n)
                    || Elapsed(clock, es[n].atMs, es[ThreatStart(es, n + 1)].atMs) >= REAR_RISK_CONFIRM_DURATION_MS)
    ensures es[n].Tick? && !es[n].threat ==>
              (High(clock, es, n + 1) <==>
                 && High(clock, es, n)
                 && Elapsed(clock, es[n].atMs, es[LastThreat(es, n)].atMs) < REAR_RISK_CLEAR_DURATION_MS)
  {
    TimersPoint(clock, es, n);
    TimersPoint(clock, es, n + 1);
  }

  // ---------- Both clocks: transitions are never early ----------

  /** A wrapping counter measures no more than the time that has passed, and exactly that below 2^32 ms. */
  lemma ElapsedAtMost(clock: Clock, nowMs: int, sinceMs: int)
    requires sinceMs <= nowMs
    ensures 0 <= Elapsed(clock, nowMs, sinceMs) <= nowMs - sinceMs
    ensures nowMs - sinceMs < WRAP ==> Elapsed(clock, nowMs, sinceMs) == nowMs - sinceMs
  {
    if nowMs - sinceMs < WRAP {
      WrapSubExact(nowMs, sinceMs);
    }
    WrapSubAtMost(nowMs, sinceMs);
  }

  /** What event n may do to a latch: raise it only at a threat that has lasted 500 ms, drop it only at a
      safe sample at least 1000 ms after the last threat. */
  ghost predicate StepTimed(es: seq<Event>, n: nat, before: bool, after: bool)
    requires n < |es|
  {
    && (before ==> LastThreat(es, n) >= 0)
    && match es[n]
       case Fault => before == after
       case Tick(threat, atMs) =>
         if threat then
           && ThreatStart(es, n + 1) >= 0
           && (before ==> after)
           && (!before && after ==> atMs - es[ThreatStart(es, n + 1)].atMs >= REAR_RISK_CONFIRM_DURATION_MS)
         else
           && (after ==> before)
           && (before && !after ==> atMs - es[LastThreat(es, n)].atMs >= REAR_RISK_CLEAR_DURATION_MS)
  }

  lemma LatchTimed(clock: Clock, es: seq<Event>, n: nat)
    requires n < |es| && Ordered(es)
    ensures StepTimed(es, n, High(clock, es, n), High(clock, es, n + 1))
  {
    HighStep(clock, es, n);
    if es[n].Tick? && es[n].threat {
      ElapsedAtMost(clock, es[n].atMs, es[ThreatStart(es, n + 1)].atMs);
    } else if es[n].Tick? && LastThreat(es, n) >= 0 {
      ElapsedAtMost(clock, es[n].atMs, es[LastThreat(es, n)].atMs);
    }
  }

  /** Every rise of the latch ends a genuine confirmation, every fall is a genuine clearing. */
  lemma NeverEarly(clock: Clock, es: seq<Event>, n: nat)
    requires n < |es| && Ordered(es)
    ensures !High(clock, es, n) && High(clock, es, n + 1) ==> Confirms(es, ThreatStart(es, n + 1), n)
    ensures High(clock, es, n) && !High(clock, es, n + 1) ==> Clears(es, LastThreat(es, n), n)
  {
    LatchTimed(clock, es, n);
    if ThreatStart(es, n + 1) >= 0 {
      ThreatStartUninterrupted(es, n + 1);
    }
  }

  /** A HIGH is kept until a sample genuinely clears it. */
  lemma {:induction false} HighKept(clock: Clock, es: seq<Event>, k: nat, n: nat)
    requires k < n <= |es| && Ordered(es)
    requires High(clock, es, k + 1) && NotClearedSince(es, k, n)
    ensures High(clock, es, n)
  {
    if k + 1 < n {
      assert NotClearedSince(es, k, n - 1);
      HighKept(clock, es, k, n - 1);
      NeverEarly(clock, es, n - 1);
    }
  }

  /** A HIGH goes back to a genuine confirmation. */
  lemma {:induction false} HighGenuine(clock: Clock, es: seq<Event>, n: nat)
    requires n <= |es| && Ordered(es) && High(clock, es, n)
    ensures exists i, k | Confirms(es, i, k) :: k < n
  {
    if High(clock, es, n - 1) {
      HighGenuine(clock, es, n - 1);
    } else {
      NeverEarly(clock, es, n - 1);
    }
  }

  /** No safe sample, no fall. */
  lemma {:induction false} HighKeptWhileThreat(clock: Clock, es: seq<Event>, p: nat, n: nat)
    requires p < n <= |es| && High(clock, es, p + 1) && AllThreat(es, p, n - 1)
    ensures High(clock, es, n)
  {
    if p + 1 < n {
      HighKeptWhileThreat(clock, es, p, n - 1);
      HighStep(clock, es, n - 1);
    }
  }

  /** No threat, no rise. */
  lemma {:induction false} LowKeptWhileSafe(clock: Clock, es: seq<Event>, m: nat, n: nat)
    requires m < n <= |es| && !High(clock, es, m + 1) && AllSafe(es, m, n - 1)
    ensures !High(clock, es, n)
  {
    if m + 1 < n {
      LowKeptWhileSafe(clock, es, m, n - 1);
      HighStep(clock, es, n - 1);
    }
  }

  // ---------- Exact characterisation ----------

  /** On an unbounded clock the latch is set exactly when the reference definition says HIGH. */
  lemma {:induction false} LatchIsConfirmedHigh(es: seq<Event>, n: nat)
    requires n <= |es| && Ordered(es)
    ensures High(Unbounded, es, n) <==> ConfirmedHigh(es, n)
  {
    if n > 0 {
      LatchIsConfirmedHigh(es, n - 1);
      HighStep(Unbounded, es, n - 1);
      if es[n - 1].Fault? {
        FaultKeepsHigh(es, n);
      } else if es[n - 1].threat {
        ThreatConfirms(es, n);
      } else {
        SafeClears(es, n);
      }
    }
  }

  lemma FaultKeepsHigh(es: seq<Event>, n: nat)
    requires 0 < n <= |es| && es[n - 1].Fault?
    ensures ConfirmedHigh(es, n) <==> ConfirmedHigh(es, n - 1)
  {
    if ConfirmedHigh(es, n) {
      var i, k :| Confirms(es, i, k) && k < n && NotClearedSince(es, k, n);
      assert NotClearedSince(es, k, n - 1);
    }
    if ConfirmedHigh(es, n - 1) {
      var i, k :| Confirms(es, i, k) && k < n - 1 && NotClearedSince(es, k, n - 1);
      assert NotClearedSince(es, k, n);
    }
  }

  lemma ThreatConfirms(es: seq<Event>, n: nat)
    requires 0 < n <= |es| && Ordered(es) && es[n - 1].Tick? && es[n - 1].threat
    ensures ConfirmedHigh(es, n) <==>
              ConfirmedHigh(es, n - 1) ||
              es[n - 1].atMs - es[ThreatStart(es, n)].atMs >= REAR_RISK_CONFIRM_DURATION_MS
  {
    var s := ThreatStart(es, n);
    ThreatStartUninterrupted(es, n);
    if ConfirmedHigh(es, n) {
      var i, k :| Confirms(es, i, k) && k < n && NotClearedSince(es, k, n);
      if k < n - 1 {
        assert NotClearedSince(es, k, n - 1);
      } else {
        ThreatStartEarliest(es, n, i);
      }
    }
    if ConfirmedHigh(es, n - 1) {
      var i, k :| Confirms(es, i, k) && k < n - 1 && NotClearedSince(es, k, n - 1);
      assert NotClearedSince(es, k, n);
    }
    if es[n - 1].atMs - es[s].atMs >= REAR_RISK_CONFIRM_DURATION_MS {
      assert Confirms(es, s, n - 1) && NotClearedSince(es, n - 1, n);
    }
  }

  lemma SafeClears(es: seq<Event>, n: nat)
    requires 0 < n <= |es| && es[n - 1].Tick? && !es[n - 1].threat
    ensures var c := LastThreat(es, n - 1);
            ConfirmedHigh(es, n) <==>
              && ConfirmedHigh(es, n - 1)
              && c >= 0 && es[n - 1].atMs - es[c].atMs < REAR_RISK_CLEAR_DURATION_MS
  {
    var c := LastThreat(es, n - 1);
    if ConfirmedHigh(es, n) {
      var i, k :| Confirms(es, i, k) && k < n && NotClearedSince(es, k, n);
      assert k < n - 1 && es[k].threat && k <= c;
      assert NotClearedSince(es, k, n - 1);
      assert !Clears(es, c, n - 1);
    }
    if ConfirmedHigh(es, n - 1) && c >= 0 && es[n - 1].atMs - es[c].atMs < REAR_RISK_CLEAR_DURATION_MS {
      var i, k :| Confirms(es, i, k) && k < n - 1 && NotClearedSince(es, k, n - 1);
      forall c', m | Clears(es, c', m)
        ensures !(k < m < n)
      {
        assert m == n - 1 ==> c' == c;
      }
    }
  }

  // ---------- Latency ----------

  /** HIGH at every sample of an uninterrupted threat that lies 500 ms or more after its start. */
  lemma HeldThreatIsHigh(es: seq<Event>, i: nat, k: nat)
    requires i <= k < |es| && Ordered(es) && Confirms(es, i, k)
    ensures High(Unbounded, es, k + 1)
  {
    assert NotClearedSince(es, k, k + 1);
    LatchIsConfirmedHigh(es, k + 1);
  }

  /** Not HIGH once a sample clears, for as long as no threat returns. */
  lemma QuietStaysClear(es: seq<Event>, c: nat, m: nat, n: nat)
    requires c < m < n <= |es| && Ordered(es)
    requires es[c].Tick? && es[c].threat && es[m].Tick? && AllSafe(es, c, n - 1)
    requires es[m].atMs - es[c].atMs >= REAR_RISK_CLEAR_DURATION_MS
    ensures !High(Unbounded, es, n)
  {
    assert Clears(es, c, m);
    forall i, k | Confirms(es, i, k) && k < n
      ensures !NotClearedSince(es, k, n)
    {
      assert es[k].threat;
    }
    LatchIsConfirmedHigh(es, n);
  }

  /** Samples at most gapMs apart cannot skip a deadline: one falls in the gapMs following it. */
  lemma {:induction false} SampleMeetsDeadline(es: seq<Event>, gapMs: int, i: nat, n: nat, delayMs: int) returns (k: nat)
    requires i < n < |es| && es[i].Tick? && es[n].Tick?
    requires Ordered(es) && PacedWithin(es, gapMs, i, n) && 1 <= delayMs <= es[n].atMs - es[i].atMs
    ensures i < k <= n && es[k].Tick?
    ensures es[i].atMs + delayMs <= es[k].atMs <= es[i].atMs + delayMs - 1 + gapMs
    decreases n
  {
    var p := LastTick(es, n);
    assert i <= p && Consecutive(es, p, n);
    if es[p].atMs >= es[i].atMs + delayMs {
      k := SampleMeetsDeadline(es, gapMs, i, p, delayMs);
    } else {
      k := n;
    }
  }

  // ---------- Chatter ----------

  /** The latch before the first event and after each. */
  ghost function Latch(clock: Clock, es: seq<Event>): (latch: seq<bool>)
    ensures |latch| == |es| + 1
    ensures forall n: nat | n <= |es| :: latch[n] == High(clock, es, n)
  {
    seq(|es| + 1, n requires 0 <= n <= |es| => High(clock, es, n))
  }

  /** How often a latch fell within the first n events. */
  ghost function Falls(latch: seq<bool>, n: nat): nat
    requires n < |latch|
  {
    if n == 0 then 0 else Falls(latch, n - 1) + if latch[n - 1] && !latch[n] then 1 else 0
  }

  /** f is the first valid sample of the run. */
  ghost predicate FirstTick(es: seq<Event>, f: nat) {
    && f < |es|
    && es[f].Tick?
    && forall k | 0 <= k < f :: es[k].Fault?
  }

  const CHATTER_PERIOD_MS: int := REAR_RISK_CONFIRM_DURATION_MS + REAR_RISK_CLEAR_DURATION_MS

  /** Each completed rise-and-fall pair has taken 1500 ms, and a pending rise 500 ms more. */
  lemma {:induction false} ChatterAccount(es: seq<Event>, latch: seq<bool>, f: nat, n: nat)
    requires n <= |es| && |latch| == |es| + 1 && !latch[0]
    requires forall m: nat | m < |es| :: StepTimed(es, m, latch[m], latch[m + 1])
    requires Ordered(es) && FirstTick(es, f)
    ensures n <= f ==> !latch[n] && Falls(latch, n) == 0 && ThreatStart(es, n) == LastThreat(es, n) == -1
    ensures f < n ==>
              var base := es[f].atMs + CHATTER_PERIOD_MS * Falls(latch, n);
              && f <= LastTick(es, n)
              && base <= es[LastTick(es, n)].atMs
              && (latch[n] ==>
                    && LastThreat(es, n) >= 0
                    && base + REAR_RISK_CONFIRM_DURATION_MS <= es[LastThreat(es, n)].atMs)
              && (!latch[n] && ThreatStart(es, n) >= 0 ==> base <= es[ThreatStart(es, n)].atMs)
  {
    if n > 0 {
      ChatterAccount(es, latch, f, n - 1);
      assert StepTimed(es, n - 1, latch[n - 1], latch[n]);
    }
  }

  /** k completed rise-and-fall pairs span at least 1500 k ms, on either clock and whatever the samples and their times. */
  lemma ChatterBound(clock: Clock, es: seq<Event>, f: nat, n: nat)
    requires f < n <= |es| && Ordered(es) && FirstTick(es, f)
    ensures LastTick(es, n) >= f
    ensures es[LastTick(es, n)].atMs - es[f].atMs >= CHATTER_PERIOD_MS * Falls(Latch(clock, es), n)
  {
    var latch := Latch(clock, es);
    forall m: nat | m < |es|
      ensures StepTimed(es, m, latch[m], latch[m + 1])
    {
      LatchTimed(clock, es, m);
    }
    ChatterAccount(es, latch, f, n);
  }

  /** A run of n events has at least k falls and its valid samples span at most spanMs. */
  ghost predicate ChattersWithin(clock: Clock, es: seq<Event>, f: nat, k: nat, spanMs: int) {
    && Ordered(es) && FirstTick(es, f)
    && Falls(Latch(clock, es), |es|) >= k
    && es[LastTick(es, |es|)].atMs - es[f].atMs <= spanMs
  }

  /** 1500 k ms is exactly the least time in which the latch can rise and fall k times. */
  lemma ChatterBoundIsExact(clock: Clock, k: nat, spanMs: int)
    ensures (exists es, f :: ChattersWithin(clock, es, f, k, spanMs)) <==> spanMs >= CHATTER_PERIOD_MS * k
  {
    forall es, f | ChattersWithin(clock, es, f, k, spanMs)
      ensures spanMs >= CHATTER_PERIOD_MS * k
    {
      ChatterBound(clock, es, f, |es|);
    }
    if k == 0 && spanMs >= 0 {
      assert ChattersWithin(clock, [Tick(false, 0)], 0, k, spanMs);
    } else if spanMs >= CHATTER_PERIOD_MS * k {
      var es := Sawtooth(k);
      SawtoothSpan(k);
      SawtoothFalls(clock, k, k);
      assert ChattersWithin(clock, es, 0, k, spanMs);
    }
  }

  /** Threat at 0 and 500, safe at 1500, and again from there. */
  ghost function Sawtooth(k: nat): seq<Event> {
    seq(3 * k, j =>
      var startMs := CHATTER_PERIOD_MS * (j / 3);
      if j % 3 == 0 then Tick(true, startMs)
      else if j % 3 == 1 then Tick(true, startMs + 500)
      else Tick(false, startMs + 1500))
  }

  lemma SawtoothTooth(k: nat, t: nat)
    requires t < k
    ensures var es, startMs := Sawtooth(k), CHATTER_PERIOD_MS * t;
            && es[3 * t] == Tick(true, startMs)
            && es[3 * t + 1] == Tick(true, startMs + 500)
            && es[3 * t + 2] == Tick(false, startMs + 1500)
  {
  }

  lemma SawtoothSpan(k: nat)
    requires k >= 1
    ensures Ordered(Sawtooth(k)) && FirstTick(Sawtooth(k), 0)
    ensures var last := LastTick(Sawtooth(k), 3 * k); last >= 0 && Sawtooth(k)[last].atMs == CHATTER_PERIOD_MS * k
    ensures Sawtooth(k)[0].atMs == 0
  {
    SawtoothTooth(k, k - 1);
  }

  lemma OneTooth(clock: Clock, h: Hysteresis, startMs: int)
    requires !h.high && !h.ongoing
    ensures Update(clock, h, true, startMs) == Hysteresis(startMs, startMs, false, true)
    ensures Update(clock, Hysteresis(startMs, startMs, false, true), true, startMs + 500)
            == Hysteresis(startMs, startMs + 500, true, true)
    ensures Update(clock, Hysteresis(startMs, startMs + 500, true, true), false, startMs + 1500)
            == Hysteresis(startMs + 1500, startMs + 500, false, false)
  {
    ElapsedAtMost(clock, startMs, startMs);
    ElapsedAtMost(clock, startMs + 500, startMs);
    ElapsedAtMost(clock, startMs + 1500, startMs + 500);
  }

  lemma ToothRun(clock: Clock, es: seq<Event>, j: nat, startMs: int)
    requires j + 3 <= |es| && !High(clock, es, j) && !After(clock, es, j).ongoing
    requires es[j] == Tick(true, startMs) && es[j + 1] == Tick(true, startMs + 500) && es[j + 2] == Tick(false, startMs + 1500)
    ensures !High(clock, es, j + 1) && High(clock, es, j + 2) && !High(clock, es, j + 3)
    ensures !After(clock, es, j + 3).ongoing
  {
    OneTooth(clock, After(clock, es, j), startMs);
    assert After(clock, es, j + 1) == Hysteresis(startMs, startMs, false, true);
    assert After(clock, es, j + 2) == Hysteresis(startMs, startMs + 500, true, true);
  }

  lemma {:induction false} SawtoothFalls(clock: Clock, k: nat, teeth: nat)
    requires teeth <= k
    ensures !High(clock, Sawtooth(k), 3 * teeth)
    ensures !After(clock, Sawtooth(k), 3 * teeth).ongoing
    ensures Falls(Latch(clock, Sawtooth(k)), 3 * teeth) == teeth
  {
    if teeth > 0 {
      SawtoothFalls(clock, k, teeth - 1);
      var es, j, startMs := Sawtooth(k), 3 * teeth - 3, CHATTER_PERIOD_MS * (teeth - 1);
      SawtoothTooth(k, teeth - 1);
      ToothRun(clock, es, j, startMs);
      OneFall(Latch(clock, es), j);
    }
  }

  lemma OneFall(latch: seq<bool>, j: nat)
    requires j + 3 < |latch| && !latch[j] && !latch[j + 1] && latch[j + 2] && !latch[j + 3]
    ensures Falls(latch, j + 3) == Falls(latch, j) + 1
  {
    assert Falls(latch, j + 1) == Falls(latch, j);
    assert Falls(latch, j + 2) == Falls(latch, j);
  }

  // ---------- Monotonicity ----------

  /** fs has a threat wherever es has one; faults and times are the same. */
  ghost predicate ThreatensNoLess(fs: seq<Event>, es: seq<Event>) {
    && |fs| == |es|
    && forall i | 0 <= i < |es| ::
         if es[i].Fault? then fs[i].Fault?
         else fs[i].Tick? && fs[i].atMs == es[i].atMs && (es[i].threat ==> fs[i].threat)
  }

  lemma {:induction false} EarlierOnsetLaterThreat(es: seq<Event>, fs: seq<Event>, n: nat)
    requires n <= |es| && ThreatensNoLess(fs, es)
    ensures ThreatStart(es, n) >= 0 ==> 0 <= ThreatStart(fs, n) <= ThreatStart(es, n)
    ensures LastThreat(es, n) <= LastThreat(fs, n)
  {
    if n > 0 {
      EarlierOnsetLaterThreat(es, fs, n - 1);
    }
  }

  lemma EarlierOnsetLaterThreatTimes(es: seq<Event>, fs: seq<Event>, n: nat)
    requires n < |es| && ThreatensNoLess(fs, es) && Ordered(es)
    ensures ThreatStart(es, n + 1) >= 0 ==>
              && ThreatStart(fs, n + 1) >= 0
              && fs[ThreatStart(fs, n + 1)].atMs <= es[ThreatStart(es, n + 1)].atMs
    ensures LastThreat(es, n) >= 0 ==>
              && LastThreat(fs, n) >= 0
              && fs[LastThreat(fs, n)].atMs >= es[LastThreat(es, n)].atMs
  {
    EarlierOnsetLaterThreat(es, fs, n);
    EarlierOnsetLaterThreat(es, fs, n + 1);
  }

  lemma HighMonotoneStep(es: seq<Event>, fs: seq<Event>, n: nat)
    requires n < |es| && ThreatensNoLess(fs, es) && Ordered(es)
    requires High(Unbounded, es, n) ==> High(Unbounded, fs, n)
    ensures High(Unbounded, es, n + 1) ==> High(Unbounded, fs, n + 1)
  {
    EarlierOnsetLaterThreatTimes(es, fs, n);
    HighStep(Unbounded, es, n);
    HighStep(Unbounded, fs, n);
  }

  /** More threat is never reported lower. */
  lemma {:induction false} HighMonotone(es: seq<Event>, fs: seq<Event>, n: nat)
    requires n <= |es| && ThreatensNoLess(fs, es) && Ordered(es)
    ensures High(Unbounded, es, n) ==> High(Unbounded, fs, n)
  {
    if n > 0 {
      HighMonotone(es, fs, n - 1);
      HighMonotoneStep(es, fs, n - 1);
    }
  }

  // ---------- How long the safe samples behind a clearing really span ----------

  /** Every fall of a latch happens at the end of safe samples spanning at least spanMs. */
  ghost predicate FallsOnlyAfterSafe(es: seq<Event>, latch: seq<bool>, spanMs: int)
    requires |latch| == |es| + 1
  {
    forall c, f, m {:trigger Consecutive(es, c, f), AllSafe(es, c, m)}
      | Consecutive(es, c, f) && es[c].threat && f <= m < |es| && es[m].Tick? && AllSafe(es, c, m)
        && latch[m] && !latch[m + 1] ::
        es[m].atMs - es[f].atMs >= spanMs
  }

  ghost predicate SafeSpanGuaranteed(clock: Clock, gapMs: int, spanMs: int) {
    forall es: seq<Event> | Paced(es, gapMs) :: FallsOnlyAfterSafe(es, Latch(clock, es), spanMs)
  }

  ghost function SafeSpan(gapMs: int): int {
    if gapMs < REAR_RISK_CLEAR_DURATION_MS then REAR_RISK_CLEAR_DURATION_MS - gapMs else 0
  }

  /** The clear timer starts at the last threat, not at the first safe sample. With samples up to gapMs
      apart the safe condition is therefore observed for 1000 - gapMs at the least, never for the full
      1000 ms; from a gap of 1000 ms on, a single safe sample clears. Runs in which no time passes never
      rise. All of this holds on the wrapping clock too, for any gap. */
  lemma SafeSpanIsExact(clock: Clock, gapMs: int, spanMs: int)
    ensures SafeSpanGuaranteed(clock, gapMs, spanMs) <==> gapMs <= 0 || spanMs <= SafeSpan(gapMs)
  {
    if gapMs <= 0 || spanMs <= SafeSpan(gapMs) {
      forall es: seq<Event> | Paced(es, gapMs)
        ensures FallsOnlyAfterSafe(es, Latch(clock, es), spanMs)
      {
        FallSpan(clock, es, gapMs, spanMs);
      }
    } else {
      var es := LongPause(gapMs);
      ShortestSafeSpan(clock, gapMs, spanMs);
      assert Paced(es, gapMs) && !FallsOnlyAfterSafe(es, Latch(clock, es), spanMs);
    }
  }

  lemma {:induction false} NoTimePasses(es: seq<Event>, gapMs: int, i: nat, n: nat)
    requires i <= n < |es| && es[i].Tick? && es[n].Tick?
    requires Paced(es, gapMs) && gapMs <= 0
    ensures es[n].atMs == es[i].atMs
  {
    if i < n {
      NoTimePasses(es, gapMs, i, LastTick(es, n));
      assert Consecutive(es, LastTick(es, n), n);
    }
  }

  lemma FallSpan(clock: Clock, es: seq<Event>, gapMs: int, spanMs: int)
    requires Paced(es, gapMs) && (gapMs <= 0 || spanMs <= SafeSpan(gapMs))
    ensures FallsOnlyAfterSafe(es, Latch(clock, es), spanMs)
  {
    forall c, f, m
      | Consecutive(es, c, f) && es[c].threat && f <= m < |es| && es[m].Tick? && AllSafe(es, c, m)
        && High(clock, es, m) && !High(clock, es, m + 1)
      ensures es[m].atMs - es[f].atMs >= spanMs
    {
      NeverEarly(clock, es, m);
      assert LastThreat(es, m) == c;
      if gapMs <= 0 {
        NoTimePasses(es, gapMs, c, m);
        assert false;
      }
    }
  }

  /** Threat every millisecond for 500 ms, then nothing for gapMs or 1000 ms, then safe every millisecond. */
  ghost function LongPause(gapMs: int): seq<Event> {
    var pauseMs := REAR_RISK_CLEAR_DURATION_MS - SafeSpan(gapMs);
    seq(502 + SafeSpan(gapMs), j => if j <= 500 then Tick(true, j) else Tick(false, pauseMs + j - 1))
  }

  lemma ShortestSafeSpan(clock: Clock, gapMs: int, spanMs: int)
    requires gapMs >= 1 && spanMs > SafeSpan(gapMs)
    ensures Paced(LongPause(gapMs), gapMs) && !FallsOnlyAfterSafe(LongPause(gapMs), Latch(clock, LongPause(gapMs)), spanMs)
  {
    var es := LongPause(gapMs);
    var m := |es| - 1;
    ConsecutiveIsAdjacent(es);
    ThreatStartEarliest(es, 501, 0);
    HighStep(clock, es, 500);
    ElapsedAtMost(clock, 500, 0);
    assert NotClearedSince(es, 500, m) by {
      forall c, m' | Clears(es, c, m')
        ensures !(500 < m' < m)
      {
        assert 500 < m' ==> es[500].threat && c == 500;
      }
    }
    HighKept(clock, es, 500, m);
    HighStep(clock, es, m);
    assert LastThreat(es, m) == 500;
    ElapsedAtMost(clock, es[m].atMs, 500);
    assert Consecutive(es, 500, 501) && AllSafe(es, 500, m);
  }
}

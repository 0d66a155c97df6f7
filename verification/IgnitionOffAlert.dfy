/** F-10, src/F10_IgnitionOffStatusAlert.c: one summary alert for an ignition-off with the lock ON or in
    an unknown state, held back by a latch from then on. */
module IgnitionOffAlert {
  import opened ChildLockTypes

  datatype Message = NoMessage | ClOnSummary | QueryFallback

  datatype Priority = NoPriority | StatusPriority

  datatype AlertOutput = AlertOutput(
    statusSummaryMessage: Message,
    alertPriority: Priority,
    eventLog: bool,
    alertIssued: bool)

  const SILENT: AlertOutput := AlertOutput(NoMessage, NoPriority, false, false)

  datatype AlertInput = AlertInput(ignitionOffEvent: bool, activeHmiAlert: bool, hmiHealthy: bool)

  /** What the query callback would answer: success, and the raw state it delivers. */
  datatype QueryAnswer = QueryAnswer(succeeded: bool, state: RawLockState)

  /** One call of the handler with the answer its query would get. */
  datatype Event = Event(input: AlertInput, answer: QueryAnswer)

  /** Worth an alert: an ignition-off at which the query did not succeed with OFF. */
  predicate Alarming(e: Event) {
    e.input.ignitionOffEvent && !(e.answer.succeeded && e.answer.state == CL_STATE_OFF)
  }

  // ---------- Specification of one event ----------

  /** The latch, and how many times the query callback has been called. */
  datatype AlertState = AlertState(alertAlreadyIssued: bool, queries: nat)

  function AlertFor(answer: QueryAnswer): AlertOutput {
    if !answer.succeeded || !IsLegalLockState(answer.state) then AlertOutput(QueryFallback, StatusPriority, true, true)
    else if answer.state == CL_STATE_ON then AlertOutput(ClOnSummary, StatusPriority, true, true)
    else SILENT
  }

  predicate Queries(s: AlertState, e: Event) {
    e.input.ignitionOffEvent && !s.alertAlreadyIssued
  }

  function Output(s: AlertState, e: Event): AlertOutput {
    if Queries(s, e) then AlertFor(e.answer) else SILENT
  }

  function Step(s: AlertState, e: Event): AlertState {
    AlertState(
      s.alertAlreadyIssued || Output(s, e).alertIssued,
      s.queries + if Queries(s, e) then 1 else 0)
  }

  // ---------- Runs ----------

  function After(events: seq<Event>, n: nat): AlertState
    requires n <= |events|
  {
    if n == 0 then AlertState(false, 0) else Step(After(events, n - 1), events[n - 1])
  }

  function OutputAt(events: seq<Event>, n: nat): AlertOutput
    requires n < |events|
  {
    Output(After(events, n), events[n])
  }

  /** Event i is the first alarming one. */
  predicate FirstAlarm(events: seq<Event>, i: int) {
    0 <= i < |events| && Alarming(events[i]) && forall k | 0 <= k < i :: !Alarming(events[k])
  }

  /** How many of the first n events are ignition-off events. */
  function IgnitionOffs(events: seq<Event>, n: nat): nat
    requires n <= |events|
  {
    if n == 0 then 0 else IgnitionOffs(events, n - 1) + if events[n - 1].input.ignitionOffEvent then 1 else 0
  }

  lemma {:induction false} LatchedOnceAlarmed(events: seq<Event>, n: nat)
    requires n <= |events|
    ensures After(events, n).alertAlreadyIssued <==> exists i | 0 <= i < n :: Alarming(events[i])
  {
    if n > 0 {
      LatchedOnceAlarmed(events, n - 1);
      assert Alarming(events[n - 1]) || !Alarming(events[n - 1]);
    }
  }

  /** An alert is issued at an event exactly when it is the first alarming one, so at most once; it says whether the
      lock is ON or could not be determined, and every other output is silent. */
  lemma AlertExactlyOnce(events: seq<Event>, n: nat)
    requires n < |events|
    ensures OutputAt(events, n).alertIssued <==> FirstAlarm(events, n)
    ensures OutputAt(events, n) ==
            if FirstAlarm(events, n) then
              var known := events[n].answer.succeeded && events[n].answer.state == CL_STATE_ON;
              AlertOutput(if known then ClOnSummary else QueryFallback, StatusPriority, true, true)
            else SILENT
  {
    LatchedOnceAlarmed(events, n);
  }

  /** The same with every condition written out: OFF is 0, ON is 1, and any other delivered state counts as unknown. */
  lemma AlertOnSignals(events: seq<Event>, n: nat)
    requires n < |events|
    ensures var first :=
              && events[n].input.ignitionOffEvent && !(events[n].answer.succeeded && events[n].answer.state == 0)
              && forall k | 0 <= k < n ::
                   events[k].input.ignitionOffEvent ==> events[k].answer.succeeded && events[k].answer.state == 0;
            var on := events[n].answer.succeeded && events[n].answer.state == 1;
            OutputAt(events, n) ==
            if first then AlertOutput(if on then ClOnSummary else QueryFallback, StatusPriority, true, true)
            else AlertOutput(NoMessage, NoPriority, false, false)
  {
    AlertExactlyOnce(events, n);
    if !FirstAlarm(events, n) && Alarming(events[n]) {
      var k :| 0 <= k < n && Alarming(events[k]);
      assert events[k].input.ignitionOffEvent && !(events[k].answer.succeeded && events[k].answer.state == 0);
    }
  }

  lemma AtMostOneAlert(events: seq<Event>, n: nat, m: nat)
    requires n < m < |events| && OutputAt(events, n).alertIssued
    ensures !OutputAt(events, m).alertIssued
  {
    AlertExactlyOnce(events, n);
    AlertExactlyOnce(events, m);
  }

  /** The lock state is queried once for each ignition-off event up to and including the first alarming one, and
      never again; with no alarming event, once for each. */
  lemma {:induction false} QueryCount(events: seq<Event>, n: nat)
    requires n <= |events|
    ensures forall i | FirstAlarm(events, i) && i < n :: After(events, n).queries == IgnitionOffs(events, i + 1)
    ensures (forall k | 0 <= k < n :: !Alarming(events[k])) ==> After(events, n).queries == IgnitionOffs(events, n)
  {
    if n > 0 {
      QueryCount(events, n - 1);
      LatchedOnceAlarmed(events, n - 1);
      AlertExactlyOnce(events, n - 1);
    }
  }

  /** Neither another active alert nor the health of the display has any influence. */
  lemma {:induction false} HmiInputsIgnored(events: seq<Event>, events': seq<Event>, n: nat)
    requires n <= |events| == |events'|
    requires forall i | 0 <= i < n ::
               && events[i].input.ignitionOffEvent == events'[i].input.ignitionOffEvent
               && events[i].answer == events'[i].answer
    ensures After(events, n) == After(events', n)
    ensures forall i | 0 <= i < n :: OutputAt(events, i) == OutputAt(events', i)
  {
    if n > 0 {
      HmiInputsIgnored(events, events', n - 1);
    }
  }

  // ---------- The code ----------

  /** The injected query, with the answer the environment has prepared and a count of the calls. */
  class LockStateSource {
    var answer: QueryAnswer
    var queries: nat

    constructor (answer: QueryAnswer)
      ensures this.answer == answer && queries == 0
    {
      this.answer, queries := answer, 0;
    }

    method Query() returns (succeeded: bool, state: RawLockState)
      modifies this`queries
      ensures queries == old(queries) + 1
      ensures succeeded == answer.succeeded && state == answer.state
    {
      queries := queries + 1;
      succeeded, state := answer.succeeded, answer.state;
    }
  }

  class AlertOutputBuffer {
    var statusSummaryMessage: Message
    var alertPriority: Priority
    var eventLog: bool
    var alertIssued: bool

    constructor () {
      statusSummaryMessage, alertPriority, eventLog, alertIssued := NoMessage, NoPriority, false, false;
    }

    function Value(): AlertOutput
      reads this
    {
      AlertOutput(statusSummaryMessage, alertPriority, eventLog, alertIssued)
    }

    method Clear()
      modifies this
      ensures Value() == SILENT
    {
      statusSummaryMessage := NoMessage;
      alertPriority := NoPriority;
      eventLog := false;
      alertIssued := false;
    }

    method IssueAlert(message: Message)
      modifies this
      ensures Value() == AlertOutput(message, StatusPriority, true, true)
    {
      statusSummaryMessage := message;
      alertPriority := StatusPriority;
      eventLog := true;
      alertIssued := true;
    }
  }

  class IgnitionOffStatusAlert {
    var isInitialized: bool
    var alertAlreadyIssued: bool
    var source: LockStateSource

    /** The source's query count at Init and the events handled since. */
    ghost var queriesAtInit: nat
    ghost var events: seq<Event>

    ghost predicate Valid()
      reads this, source
    {
      isInitialized ==>
        && alertAlreadyIssued == After(events, |events|).alertAlreadyIssued
        && source.queries == queriesAtInit + After(events, |events|).queries
    }

    /** Caller-allocated memory: nothing initialised, the latch and the source arbitrary. */
    constructor (latch: bool, source: LockStateSource)
      ensures Valid() && !isInitialized
    {
      isInitialized, alertAlreadyIssued, this.source := false, latch, source;
      queriesAtInit, events := 0, [];
    }

    method Init(config: LockStateSource?) returns (ok: bool)
      modifies this
      ensures Valid() && isInitialized == ok == (config != null) && !alertAlreadyIssued
      ensures ok ==> source == config && events == [] && queriesAtInit == config.queries
    {
      ok := false;
      isInitialized := false;
      alertAlreadyIssued := false;
      if config != null {
        source := config;
        isInitialized := true;
        alertAlreadyIssued := false;
        queriesAtInit, events := config.queries, [];
        ok := true;
      }
    }

    method IssueLatchedAlert(output: AlertOutputBuffer, message: Message)
      modifies this`alertAlreadyIssued, output
      ensures alertAlreadyIssued && output.Value() == AlertOutput(message, StatusPriority, true, true)
    {
      output.IssueAlert(message);
      alertAlreadyIssued := true;
    }

    /** One event. Since events is the whole run since Init, the output is the run's output at its last event. */
    method HandleEvent(input: AlertInput, output: AlertOutputBuffer) returns (handled: bool)
      requires Valid()
      modifies this`alertAlreadyIssued, this`events, source`queries, output
      ensures Valid() && handled == isInitialized
      ensures isInitialized ==>
                && events == old(events) + [Event(input, source.answer)]
                && output.Value() == OutputAt(events, |events| - 1)
      ensures !isInitialized ==> output.Value() == SILENT && events == old(events) && unchanged(this)
    {
      handled := false;
      output.Clear();
      if isInitialized {
        handled := true;
        ghost var event := Event(input, source.answer);
        AfterAgrees(events, events + [event], |events|);
        if input.ignitionOffEvent && !alertAlreadyIssued {
          var querySucceeded, currentState := source.Query();
          if !querySucceeded || !IsLegalLockState(currentState) {
            IssueLatchedAlert(output, QueryFallback);
          } else if currentState == CL_STATE_ON {
            IssueLatchedAlert(output, ClOnSummary);
          }
        }
        events := events + [event];
      }
    }
  }

  /** A state depends only on the events before it. */
  lemma {:induction false} AfterAgrees(events: seq<Event>, longer: seq<Event>, n: nat)
    requires n <= |events| && n <= |longer|
    requires forall i | 0 <= i < n :: events[i] == longer[i]
    ensures After(events, n) == After(longer, n)
  {
    if n > 0 {
      AfterAgrees(events, longer, n - 1);
    }
  }
}

/** F-05, src/F05_StatePersistenceManager.c: saving the lock state at ignition off and restoring it
    at ignition on or reset, over a non-volatile memory and a Door ECU supplied by the caller.

    The memory is taken to be faithful: a write it accepts replaces the stored value, a write it
    refuses leaves it alone, and what it cannot deliver it reports as missing, flags as invalid, or
    garbles into something that is not a lock state. */
module StatePersistence {
  import opened ChildLockTypes

  datatype RestoreStatus = NotRequested | Restored | Unavailable | Invalid | Error

  datatype PersistResult = PersistResult(
    savedClState: RawLockState,
    restoredClState: RawLockState,
    restoreStatus: RestoreStatus,
    persistSucceeded: bool,
    syncRequested: bool)

  const CLEARED: PersistResult := PersistResult(CL_STATE_OFF, CL_STATE_OFF, NotRequested, false, false)

  /** What the memory does when it is next read. */
  datatype ReadMode = Working | Missing | Flagged(junk: RawLockState) | Garbled(noise: RawLockState)

  /** The three outputs of the read callback. */
  datatype ReadAnswer = ReadAnswer(available: bool, valid: bool, state: RawLockState)

  /** A garbled value is never mistaken for a lock state. */
  type Mode = m: ReadMode | m.Garbled? ==> !IsLegalLockState(m.noise)
    witness Working

  function Answer(cell: Option<RawLockState>, mode: Mode): ReadAnswer {
    match mode
    case Working => (match cell
                     case None => ReadAnswer(false, false, CL_STATE_OFF)
                     case Some(state) => ReadAnswer(true, true, state))
    case Missing => ReadAnswer(false, false, CL_STATE_OFF)
    case Flagged(junk) => ReadAnswer(true, false, junk)
    case Garbled(noise) => ReadAnswer(true, true, noise)
  }

  /** The calls of the interface, each with how the memory behaves during it. */
  datatype Call =
    | IgnitionOffCall(currentClState: RawLockState, accepts: bool)
    | IgnitionOnCall(mode: Mode)
    | ResetCall(mode: Mode)
  {
    predicate Restores() {
      IgnitionOnCall? || ResetCall?
    }
  }

  // ---------- Specification of one call ----------

  /** The memory's content, if anything was ever accepted, and the Door ECU's log of sync requests. */
  datatype World = World(cell: Option<RawLockState>, syncLog: seq<RawLockState>)

  function RestoreResult(answer: ReadAnswer): PersistResult {
    if !answer.available then CLEARED.(restoreStatus := Unavailable)
    else if !answer.valid || !IsLegalLockState(answer.state) then CLEARED.(restoreStatus := Invalid)
    else CLEARED.(restoredClState := answer.state, restoreStatus := Restored, syncRequested := true)
  }

  function ResultOf(w: World, call: Call): PersistResult {
    match call
    case IgnitionOffCall(state, accepts) =>
      if IsLegalLockState(state) then CLEARED.(savedClState := state, persistSucceeded := accepts) else CLEARED
    case IgnitionOnCall(mode) => RestoreResult(Answer(w.cell, mode))
    case ResetCall(mode) => RestoreResult(Answer(w.cell, mode))
  }

  function WorldAfterCall(w: World, call: Call): World {
    match call
    case IgnitionOffCall(state, accepts) =>
      if IsLegalLockState(state) && accepts then w.(cell := Some(state)) else w
    case _ =>
      var result := ResultOf(w, call);
      if result.syncRequested then w.(syncLog := w.syncLog + [result.restoredClState]) else w
  }

  // ---------- Runs ----------

  /** The world after the first n calls, from a memory and a log in any state. */
  function WorldAfter(start: World, calls: seq<Call>, n: nat): World
    requires n <= |calls|
  {
    if n == 0 then start else WorldAfterCall(WorldAfter(start, calls, n - 1), calls[n - 1])
  }

  function ResultAt(start: World, calls: seq<Call>, n: nat): PersistResult
    requires n < |calls|
  {
    ResultOf(WorldAfter(start, calls, n), calls[n])
  }

  /** Call i is an ignition-off whose state the memory accepted. */
  predicate Accepted(calls: seq<Call>, i: int) {
    0 <= i < |calls| && calls[i].IgnitionOffCall? && calls[i].accepts && IsLegalLockState(calls[i].currentClState)
  }

  /** The last accepted save before position n, or -1. */
  function LastAccepted(calls: seq<Call>, n: nat): (i: int)
    requires n <= |calls|
    ensures -1 <= i < n
    ensures i >= 0 ==> Accepted(calls, i)
    ensures forall k | i < k < n :: !Accepted(calls, k)
  {
    if n == 0 then -1 else if Accepted(calls, n - 1) then n - 1 else LastAccepted(calls, n - 1)
  }

  /** The restored states reported by the first n calls, in order. */
  function RestoredStates(start: World, calls: seq<Call>, n: nat): seq<RawLockState>
    requires n <= |calls|
  {
    if n == 0 then []
    else
      var result := ResultAt(start, calls, n - 1);
      RestoredStates(start, calls, n - 1) + if result.restoreStatus == Restored then [result.restoredClState] else []
  }

  lemma {:induction false} CellHoldsLastAccepted(start: World, calls: seq<Call>, n: nat)
    requires n <= |calls|
    ensures WorldAfter(start, calls, n).cell ==
            var i := LastAccepted(calls, n); if i < 0 then start.cell else Some(calls[i].currentClState)
  {
    if n > 0 {
      CellHoldsLastAccepted(start, calls, n - 1);
    }
  }

  /** The Door ECU is synchronised with exactly the restored states, in order. */
  lemma {:induction false} SyncLogIsRestoredStates(start: World, calls: seq<Call>, n: nat)
    requires n <= |calls|
    ensures WorldAfter(start, calls, n).syncLog == start.syncLog + RestoredStates(start, calls, n)
  {
    if n > 0 {
      SyncLogIsRestoredStates(start, calls, n - 1);
    }
  }

  /** What a call reports about saving: success exactly at an accepted save of a legal state, which is OFF or ON
      (0 or 1), and the state handed over at a legal ignition-off; at every other call failure and OFF. */
  lemma SaveIsReported(start: World, calls: seq<Call>, n: nat)
    requires n < |calls|
    ensures var result, call := ResultAt(start, calls, n), calls[n];
            var legal := call.IgnitionOffCall? && call.currentClState in {0, 1};
            && (result.persistSucceeded <==> Accepted(calls, n))
            && (result.persistSucceeded <==> legal && call.accepts)
            && result.savedClState == (if legal then call.currentClState else 0)
  {
  }

  /** Exactly when a call restores, and what: the memory works and holds a lock state, which is the last one it
      accepted. Every other outcome reports OFF and leaves the Door ECU alone, and says whether the memory had
      nothing to offer or something unusable; the status for a dependency error is never reported. */
  lemma RestoreIsExact(start: World, calls: seq<Call>, n: nat)
    requires n < |calls|
    ensures var result := ResultAt(start, calls, n);
            var i := LastAccepted(calls, n);
            var stored := if i < 0 then start.cell else Some(calls[i].currentClState);
            && (result.restoreStatus == Restored <==>
                  && calls[n].Restores() && calls[n].mode == Working
                  && stored.Some? && IsLegalLockState(stored.value))
            && (result.restoreStatus == Restored ==> result.restoredClState == stored.value)
            && (result.restoreStatus != Restored ==>
                  && result.restoredClState == CL_STATE_OFF
                  && WorldAfter(start, calls, n + 1).syncLog == WorldAfter(start, calls, n).syncLog)
            && (result.syncRequested <==> result.restoreStatus == Restored)
            && (result.restoreStatus == NotRequested <==> !calls[n].Restores())
            && (result.restoreStatus == Unavailable <==>
                  calls[n].Restores() && (calls[n].mode == Missing || (calls[n].mode == Working && stored == None)))
            && result.restoreStatus != Error
  {
    CellHoldsLastAccepted(start, calls, n);
  }

  /** Round trip: a state saved at call i comes back at every later restore from a working memory, through any
      refused saves, failed restores and resets in between. */
  lemma PersistenceRoundTrip(start: World, calls: seq<Call>, i: nat, n: nat)
    requires i < n < |calls|
    requires Accepted(calls, i) && forall k | i < k < n :: !Accepted(calls, k)
    requires calls[n].Restores() && calls[n].mode == Working
    ensures ResultAt(start, calls, n).restoreStatus == Restored
    ensures ResultAt(start, calls, n).restoredClState == calls[i].currentClState
  {
    RestoreIsExact(start, calls, n);
    assert LastAccepted(calls, n) == i;
  }

  // ---------- The code ----------

  class NonVolatileMemory {
    var cell: Option<RawLockState>
    /** How the device behaves now; the environment may change both at any time. */
    var accepts: bool
    var mode: Mode

    constructor (cell: Option<RawLockState>)
      ensures this.cell == cell
    {
      this.cell, accepts, mode := cell, true, Working;
    }

    method Write(state: RawLockState) returns (ok: bool)
      modifies this`cell
      ensures ok == accepts
      ensures cell == if accepts then Some(state) else old(cell)
    {
      ok := accepts;
      if ok {
        cell := Some(state);
      }
    }

    method Read() returns (answer: ReadAnswer)
      ensures answer == Answer(cell, mode)
    {
      answer := Answer(cell, mode);
    }
  }

  class DoorEcu {
    var syncLog: seq<RawLockState>

    constructor ()
      ensures syncLog == []
    {
      syncLog := [];
    }

    method RequestSync(state: RawLockState)
      modifies this
      ensures syncLog == old(syncLog) + [state]
    {
      syncLog := syncLog + [state];
    }
  }

  class ResultBuffer {
    var savedClState: RawLockState
    var restoredClState: RawLockState
    var restoreStatus: RestoreStatus
    var persistSucceeded: bool
    var syncRequested: bool

    constructor () {
      savedClState, restoredClState, restoreStatus, persistSucceeded, syncRequested :=
        CL_STATE_OFF, CL_STATE_OFF, NotRequested, false, false;
    }

    function Value(): PersistResult
      reads this
    {
      PersistResult(savedClState, restoredClState, restoreStatus, persistSucceeded, syncRequested)
    }

    method Clear()
      modifies this
      ensures Value() == CLEARED
    {
      savedClState := CL_STATE_OFF;
      restoredClState := CL_STATE_OFF;
      restoreStatus := NotRequested;
      persistSucceeded := false;
      syncRequested := false;
    }
  }

  class StatePersistenceManager {
    var isInitialized: bool
    var nvm: NonVolatileMemory
    var ecu: DoorEcu

    /** The devices' state at Init and the calls handled since. */
    ghost var start: World
    ghost var calls: seq<Call>

    function Devices(): World
      reads this, nvm, ecu
    {
      World(nvm.cell, ecu.syncLog)
    }

    /** Nothing but the handled calls has touched the stored value and the log. */
    ghost predicate Valid()
      reads this, nvm, ecu
    {
      isInitialized ==> Devices() == WorldAfter(start, calls, |calls|)
    }

    constructor (nvm: NonVolatileMemory, ecu: DoorEcu)
      ensures Valid() && !isInitialized && this.nvm == nvm && this.ecu == ecu
    {
      this.nvm, this.ecu, isInitialized := nvm, ecu, false;
      start, calls := World(None, []), [];
    }

    method Init(nvm: NonVolatileMemory, ecu: DoorEcu) returns (ok: bool)
      modifies this
      ensures Valid() && isInitialized && ok
      ensures this.nvm == nvm && this.ecu == ecu && start == Devices() && calls == []
    {
      isInitialized := false;
      this.nvm, this.ecu := nvm, ecu;
      isInitialized := true;
      start, calls := Devices(), [];
      ok := true;
    }

    ghost method Record(call: Call)
      requires isInitialized && Devices() == WorldAfterCall(WorldAfter(start, calls, |calls|), call)
      modifies this`calls
      ensures Valid() && calls == old(calls) + [call]
      ensures ResultAt(start, calls, |calls| - 1) == ResultOf(WorldAfter(start, old(calls), |old(calls)|), call)
    {
      WorldAgrees(start, calls, calls + [call], |calls|);
      calls := calls + [call];
    }

    method HandleIgnitionOff(currentClState: RawLockState, result: ResultBuffer) returns (handled: bool)
      requires Valid()
      modifies this`calls, nvm`cell, result
      ensures Valid() && start == old(start)
      ensures handled == (isInitialized && IsLegalLockState(currentClState))
      ensures isInitialized ==> calls == old(calls) + [IgnitionOffCall(currentClState, nvm.accepts)]
      ensures isInitialized ==> result.Value() == ResultAt(start, calls, |calls| - 1)
      ensures result.persistSucceeded == (handled && nvm.accepts)
      ensures result.savedClState == if handled then currentClState else CL_STATE_OFF
      ensures nvm.cell == if result.persistSucceeded then Some(currentClState) else old(nvm.cell)
      ensures !isInitialized ==> result.Value() == CLEARED && Devices() == old(Devices()) && calls == old(calls)
    {
      handled := false;
      result.Clear();
      if isInitialized {
        if IsLegalLockState(currentClState) {
          result.savedClState := currentClState;
          result.persistSucceeded := nvm.Write(currentClState);
          handled := true;
        }
        Record(IgnitionOffCall(currentClState, nvm.accepts));
      }
    }

    /** The restore path shared by ignition on and reset. */
    method HandleRestore(result: ResultBuffer, ghost call: Call) returns (handled: bool)
      requires Valid() && call.Restores() && call.mode == nvm.mode
      modifies this`calls, ecu, result
      ensures Valid() && start == old(start) && handled == isInitialized
      ensures isInitialized ==> calls == old(calls) + [call]
      ensures isInitialized ==> result.Value() == ResultAt(start, calls, |calls| - 1)
      ensures ecu.syncLog == old(ecu.syncLog) + if result.syncRequested then [result.restoredClState] else []
      ensures !isInitialized ==> result.Value() == CLEARED && Devices() == old(Devices()) && calls == old(calls)
    {
      handled := false;
      result.Clear();
      if isInitialized {
        var answer := nvm.Read();
        if !answer.available {
          result.restoreStatus := Unavailable;
        } else if !answer.valid || !IsLegalLockState(answer.state) {
          result.restoreStatus := Invalid;
        } else {
          result.restoredClState := answer.state;
          result.restoreStatus := Restored;
          ecu.RequestSync(answer.state);
          result.syncRequested := true;
        }
        handled := true;
        Record(call);
      }
    }

    method HandleIgnitionOn(result: ResultBuffer) returns (handled: bool)
      requires Valid()
      modifies this`calls, ecu, result
      ensures Valid() && start == old(start) && handled == isInitialized
      ensures isInitialized ==> calls == old(calls) + [IgnitionOnCall(nvm.mode)]
      ensures isInitialized ==> result.Value() == ResultAt(start, calls, |calls| - 1)
      ensures !isInitialized ==> result.Value() == CLEARED && Devices() == old(Devices()) && calls == old(calls)
    {
      handled := HandleRestore(result, IgnitionOnCall(nvm.mode));
    }

    method HandleReset(result: ResultBuffer) returns (handled: bool)
      requires Valid()
      modifies this`calls, ecu, result
      ensures Valid() && start == old(start) && handled == isInitialized
      ensures isInitialized ==> calls == old(calls) + [ResetCall(nvm.mode)]
      ensures isInitialized ==> result.Value() == ResultAt(start, calls, |calls| - 1)
      ensures !isInitialized ==> result.Value() == CLEARED && Devices() == old(Devices()) && calls == old(calls)
    {
      handled := HandleRestore(result, ResetCall(nvm.mode));
    }
  }

  /** A world depends only on the calls before it. */
  lemma {:induction false} WorldAgrees(start: World, calls: seq<Call>, longer: seq<Call>, n: nat)
    requires n <= |calls| && n <= |longer|
    requires forall i | 0 <= i < n :: calls[i] == longer[i]
    ensures WorldAfter(start, calls, n) == WorldAfter(start, longer, n)
  {
    if n > 0 {
      WorldAgrees(start, calls, longer, n - 1);
    }
  }
}

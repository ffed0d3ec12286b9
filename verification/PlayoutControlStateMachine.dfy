// The playout control state machine as an object: commands and events update
// its fields in place. Each is one step of PlayoutControl.Apply.
module PlayoutControlStateMachine {
  import opened PlayoutControl

  class PlayoutControlStateMachine {
    var state: State
    var processedCommands: set<string>
    var currentPtsUs: int
    var transitions: multiset<Transition>
    var illegalTransitionTotal: nat
    var latencyViolationTotal: nat
    var timeoutTotal: nat
    var queueOverflowTotal: nat
    var recoverTotal: nat
    var lateSeekTotal: nat
    var pauseLatenciesMs: seq<real>
    var resumeLatenciesMs: seq<real>
    var seekLatenciesMs: seq<real>
    var stopLatenciesMs: seq<real>
    var pauseDeviationMs: seq<real>
    ghost var legal: multiset<Transition>
    ghost var illegal: multiset<Transition>
    // Every operation since construction.
    ghost var history: seq<Op>

    ghost function View(): Control
      reads this
    {
      Control(state, processedCommands, currentPtsUs, transitions, legal, illegal,
              illegalTransitionTotal, latencyViolationTotal, timeoutTotal, queueOverflowTotal, recoverTotal,
              lateSeekTotal,
              pauseLatenciesMs, resumeLatenciesMs, seekLatenciesMs, stopLatenciesMs, pauseDeviationMs)
    }

    ghost predicate Valid()
      reads this
    {
      View() == Run(history)
    }

    constructor ()
      ensures Valid() && history == []
    {
      state, processedCommands, currentPtsUs := Idle, {}, 0;
      transitions, legal, illegal := multiset{}, multiset{}, multiset{};
      illegalTransitionTotal, latencyViolationTotal, timeoutTotal := 0, 0, 0;
      queueOverflowTotal, recoverTotal, lateSeekTotal := 0, 0, 0;
      pauseLatenciesMs, resumeLatenciesMs, seekLatenciesMs, stopLatenciesMs, pauseDeviationMs := [], [], [], [], [];
      history := [];
    }

    method TransitionLocked(to: State)
      modifies this`state, this`transitions, this`legal
      ensures View() == MoveTo(old(View()), to)
    {
      if state == to {
        return;
      }
      transitions := transitions + multiset{(state, to)};
      legal := legal + multiset{(state, to)};
      state := to;
    }

    method RecordIllegalTransitionLocked(attempted: State)
      modifies this`illegalTransitionTotal, this`transitions, this`illegal
      ensures View() == Reject(old(View()), attempted)
    {
      illegalTransitionTotal := illegalTransitionTotal + 1;
      transitions := transitions + multiset{(state, attempted)};
      illegal := illegal + multiset{(state, attempted)};
    }

    method RegisterCommandLocked(id: string, ghost op: Op) returns (isNew: bool)
      requires IsCommand(op) && op.id == id
      modifies this`processedCommands
      ensures isNew <==> !Duplicate(old(View()), op)
      ensures View() == if isNew then Register(old(View()), op) else old(View())
    {
      if id == "" {
        return true;
      }
      isNew := id !in processedCommands;
      processedCommands := processedCommands + {id};
      assert !isNew ==> processedCommands == old(processedCommands);
    }

    method RecordPause(latencyMs: real, boundaryDeviationMs: real, ghost op: Op)
      requires op.Pause? && latencyMs == LatencyMs(op) && boundaryDeviationMs == op.deviationMs
      modifies this`pauseLatenciesMs, this`pauseDeviationMs, this`latencyViolationTotal
      ensures View() == Book(old(View()), op)
    {
      pauseLatenciesMs := pauseLatenciesMs + [latencyMs];
      pauseDeviationMs := pauseDeviationMs + [boundaryDeviationMs];
      if latencyMs > PAUSE_THRESHOLD_MS {
        latencyViolationTotal := latencyViolationTotal + 1;
      }
    }

    method RecordResume(latencyMs: real, ghost op: Op)
      requires op.Resume? && latencyMs == LatencyMs(op)
      modifies this`resumeLatenciesMs, this`latencyViolationTotal
      ensures View() == Book(old(View()), op)
    {
      resumeLatenciesMs := resumeLatenciesMs + [latencyMs];
      if latencyMs > RESUME_THRESHOLD_MS {
        latencyViolationTotal := latencyViolationTotal + 1;
      }
    }

    method RecordSeek(latencyMs: real, target: int, ghost op: Op)
      requires op.Seek? && latencyMs == LatencyMs(op) && target == op.target
      modifies this`seekLatenciesMs, this`latencyViolationTotal, this`currentPtsUs
      ensures View() == Book(old(View()), op)
    {
      seekLatenciesMs := seekLatenciesMs + [latencyMs];
      if latencyMs > SEEK_THRESHOLD_MS {
        latencyViolationTotal := latencyViolationTotal + 1;
      }
      currentPtsUs := target;
    }

    method RecordStop(latencyMs: real, ghost op: Op)
      requires op.Stop? && latencyMs == LatencyMs(op)
      modifies this`stopLatenciesMs, this`latencyViolationTotal
      ensures View() == Book(old(View()), op)
    {
      stopLatenciesMs := stopLatenciesMs + [latencyMs];
      if latencyMs > STOP_THRESHOLD_MS {
        latencyViolationTotal := latencyViolationTotal + 1;
      }
    }

    method RecordRecover(ghost op: Op)
      requires op.Recover?
      modifies this`recoverTotal
      ensures View() == Book(old(View()), op)
    {
      recoverTotal := recoverTotal + 1;
    }

    method BeginSession(id: string, request: int) returns (ok: bool)
      requires Valid()
      modifies this
      ensures Valid() && history == old(history) + [Op.BeginSession(id, request)]
      ensures View() == Apply(old(View()), Op.BeginSession(id, request))
      ensures ok <==> Accepted(old(View()), Op.BeginSession(id, request))
    {
      hide Apply, Run, MoveTo, Reject, Register, Duplicate;
      ghost var op := Op.BeginSession(id, request);
      RunSnoc(history, op);
      ApplyCases(View(), op);
      history := history + [op];
      var isNew := RegisterCommandLocked(id, op);
      if !isNew {
        return true;
      }
      if state != Idle {
        RecordIllegalTransitionLocked(Buffering);
        return false;
      }
      TransitionLocked(Buffering);
      return true;
    }

    method Pause(id: string, request: int, effective: int, boundaryDeviationMs: real) returns (ok: bool)
      requires Valid()
      modifies this
      ensures Valid() && history == old(history) + [Op.Pause(id, request, effective, boundaryDeviationMs)]
      ensures View() == Apply(old(View()), Op.Pause(id, request, effective, boundaryDeviationMs))
      ensures ok <==> Accepted(old(View()), Op.Pause(id, request, effective, boundaryDeviationMs))
    {
      hide Apply, Run, Book, MoveTo, Reject, Register, Duplicate;
      ghost var op := Op.Pause(id, request, effective, boundaryDeviationMs);
      RunSnoc(history, op);
      ApplyCases(View(), op);
      history := history + [op];
      var isNew := RegisterCommandLocked(id, op);
      if !isNew {
        return true;
      }
      if state != Playing {
        RecordIllegalTransitionLocked(Paused);
        return false;
      }
      var latencyMs := (effective - request) as real / 1000.0;
      RecordPause(latencyMs, boundaryDeviationMs, op);
      TransitionLocked(Paused);
      return true;
    }

    method Resume(id: string, request: int, effective: int) returns (ok: bool)
      requires Valid()
      modifies this
      ensures Valid() && history == old(history) + [Op.Resume(id, request, effective)]
      ensures View() == Apply(old(View()), Op.Resume(id, request, effective))
      ensures ok <==> Accepted(old(View()), Op.Resume(id, request, effective))
    {
      hide Apply, Run, Book, MoveTo, Reject, Register, Duplicate;
      ghost var op := Op.Resume(id, request, effective);
      RunSnoc(history, op);
      ApplyCases(View(), op);
      history := history + [op];
      var isNew := RegisterCommandLocked(id, op);
      if !isNew {
        return true;
      }
      if state != Paused {
        RecordIllegalTransitionLocked(Playing);
        return false;
      }
      var latencyMs := (effective - request) as real / 1000.0;
      RecordResume(latencyMs, op);
      TransitionLocked(Playing);
      return true;
    }

    method Seek(id: string, request: int, target: int, effective: int) returns (ok: bool)
      requires Valid()
      modifies this
      ensures Valid() && history == old(history) + [Op.Seek(id, request, target, effective)]
      ensures View() == Apply(old(View()), Op.Seek(id, request, target, effective))
      ensures ok <==> Accepted(old(View()), Op.Seek(id, request, target, effective))
    {
      hide Apply, Run, Book, MoveTo, Reject, Register, Duplicate;
      ghost var op := Op.Seek(id, request, target, effective);
      RunSnoc(history, op);
      ApplyCases(View(), op);
      history := history + [op];
      var isNew := RegisterCommandLocked(id, op);
      if !isNew {
        return true;
      }
      if target < currentPtsUs {
        lateSeekTotal := lateSeekTotal + 1;
        return false;
      }
      if state != Playing && state != Paused {
        RecordIllegalTransitionLocked(Buffering);
        return false;
      }
      var latencyMs := (effective - request) as real / 1000.0;
      RecordSeek(latencyMs, target, op);
      TransitionLocked(Buffering);
      TransitionLocked(Ready);
      TransitionLocked(Playing);
      return true;
    }

    method Stop(id: string, request: int, effective: int) returns (ok: bool)
      requires Valid()
      modifies this
      ensures Valid() && history == old(history) + [Op.Stop(id, request, effective)]
      ensures View() == Apply(old(View()), Op.Stop(id, request, effective))
      ensures ok <==> Accepted(old(View()), Op.Stop(id, request, effective))
    {
      hide Apply, Run, Book, MoveTo, Reject, Register, Duplicate;
      ghost var op := Op.Stop(id, request, effective);
      RunSnoc(history, op);
      ApplyCases(View(), op);
      history := history + [op];
      var isNew := RegisterCommandLocked(id, op);
      if !isNew {
        return true;
      }
      if state == Idle {
        RecordIllegalTransitionLocked(Stopping);
        return false;
      }
      var latencyMs := (effective - request) as real / 1000.0;
      RecordStop(latencyMs, op);
      TransitionLocked(Stopping);
      TransitionLocked(Idle);
      return true;
    }

    method Recover(id: string, request: int) returns (ok: bool)
      requires Valid()
      modifies this
      ensures Valid() && history == old(history) + [Op.Recover(id, request)]
      ensures View() == Apply(old(View()), Op.Recover(id, request))
      ensures ok <==> Accepted(old(View()), Op.Recover(id, request))
    {
      hide Apply, Run, Book, MoveTo, Reject, Register, Duplicate;
      ghost var op := Op.Recover(id, request);
      RunSnoc(history, op);
      ApplyCases(View(), op);
      history := history + [op];
      var isNew := RegisterCommandLocked(id, op);
      if !isNew {
        return true;
      }
      if state != Error {
        RecordIllegalTransitionLocked(Buffering);
        return false;
      }
      RecordRecover(op);
      TransitionLocked(Buffering);
      return true;
    }

    method OnBufferDepth(depth: nat, capacity: nat)
      requires Valid()
      modifies this
      ensures Valid() && history == old(history) + [Op.OnBufferDepth(depth, capacity)]
      ensures View() == Apply(old(View()), Op.OnBufferDepth(depth, capacity))
    {
      hide Apply, Run, MoveTo;
      ghost var op := Op.OnBufferDepth(depth, capacity);
      RunSnoc(history, op);
      ApplyCases(View(), op);
      history := history + [op];
      if capacity == 0 {
        return;
      }
      if state == Buffering && depth >= READINESS_THRESHOLD_FRAMES {
        TransitionLocked(Ready);
        TransitionLocked(Playing);
      } else if state == Playing && depth == 0 {
        TransitionLocked(Buffering);
      }
    }

    method OnBackPressureEvent(event: BackPressureEvent)
      requires Valid()
      modifies this
      ensures Valid() && history == old(history) + [Op.OnBackPressureEvent(event)]
      ensures View() == Apply(old(View()), Op.OnBackPressureEvent(event))
    {
      hide Apply, Run, MoveTo;
      ghost var op := Op.OnBackPressureEvent(event);
      RunSnoc(history, op);
      ApplyCases(View(), op);
      history := history + [op];
      if event.Underrun? {
        if state == Playing {
          TransitionLocked(Buffering);
        }
      } else if event.Overrun? {
        queueOverflowTotal := queueOverflowTotal + 1;
      }
    }

    method OnBackPressureCleared()
      requires Valid()
      modifies this
      ensures Valid() && history == old(history) + [Op.OnBackPressureCleared]
      ensures View() == Apply(old(View()), Op.OnBackPressureCleared)
    {
      hide Apply, Run, MoveTo;
      ghost var op := Op.OnBackPressureCleared;
      RunSnoc(history, op);
      ApplyCases(View(), op);
      history := history + [op];
      if state == Buffering {
        TransitionLocked(Ready);
        TransitionLocked(Playing);
      }
    }

    method OnExternalTimeout()
      requires Valid()
      modifies this
      ensures Valid() && history == old(history) + [Op.OnExternalTimeout]
      ensures View() == Apply(old(View()), Op.OnExternalTimeout)
    {
      hide Apply, Run, MoveTo;
      ghost var op := Op.OnExternalTimeout;
      RunSnoc(history, op);
      ApplyCases(View(), op);
      history := history + [op];
      timeoutTotal := timeoutTotal + 1;
      TransitionLocked(Error);
    }

    method OnQueueOverflow()
      requires Valid()
      modifies this
      ensures Valid() && history == old(history) + [Op.OnQueueOverflow]
      ensures View() == Apply(old(View()), Op.OnQueueOverflow)
    {
      hide Apply, Run, MoveTo;
      ghost var op := Op.OnQueueOverflow;
      RunSnoc(history, op);
      ApplyCases(View(), op);
      history := history + [op];
      queueOverflowTotal := queueOverflowTotal + 1;
    }

    // Whatever was called so far, the ledgers balance.
    lemma LedgersBalance()
      requires Valid()
      ensures Ledgers(View())
    {
      LedgersHold(history);
    }
  }
}

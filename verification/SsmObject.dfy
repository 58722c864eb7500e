/**
 FpiSsm as the object the C code updates in place, with its single delayed
 action, the handler calls it makes and the completion callback.
 */
module SsmObject {
  import opened Options
  import M = Ssm

  datatype Delayed = NextLater | CompleteLater | JumpLater(state: nat)

  /** How a handler goes about an operation: at once, through a timeout, or after taking back another delayed action. */
  datatype Way = AtOnce | Later | Instead(dropped: Delayed)

  class FpiSsm {
    var nrStates: nat
    var startCleanup: nat
    var curState: nat
    var completed: bool
    var error: Option<M.Error>
    var timeout: Option<Delayed>
    var handled: seq<nat>                  // states the handler was called for
    var callbacks: seq<Option<M.Error>>    // calls of the completion callback

    function View(): M.Machine
      reads this
    {
      M.Machine(nrStates, startCleanup, curState, completed, error)
    }

    /** A new machine counts as completed until it is started. */
    constructor (nr: nat, cleanup: nat)
      requires 1 <= cleanup <= nr
      ensures completed && timeout.None? && handled == [] && callbacks == []
      ensures nrStates == nr && startCleanup == cleanup
    {
      nrStates, startCleanup, curState, completed := nr, cleanup, 0, true;
      error, timeout, handled, callbacks := None, None, [], [];
    }

    method CallHandler()
      modifies this`handled
      ensures handled == old(handled) + [curState]
    {
      handled := handled + [curState];
    }

    method Start()
      requires completed && timeout.None?
      modifies this
      ensures View() == M.Started(old(nrStates), old(startCleanup))
      ensures timeout.None? && handled == old(handled) + [0] && callbacks == old(callbacks)
    {
      curState, completed, error := 0, false, None;
      CallHandler();
    }

    method MarkCompleted()
      requires !completed && timeout.None?
      modifies this
      ensures View() == M.MarkCompleted(old(View())) && timeout.None?
      ensures handled == old(handled) + (if completed then [] else [curState])
      ensures callbacks == old(callbacks) + (if completed then [error] else [])
    {
      var next := if curState < startCleanup then startCleanup else curState + 1;
      if next < nrStates {
        curState := next;
        CallHandler();
        return;
      }
      completed := true;
      callbacks := callbacks + [error];
    }

    /** A second failure outside the cleanup states is ignored; the first error is kept in any case. */
    method MarkFailed(e: M.Error)
      requires !completed && timeout.None?
      modifies this
      ensures View() == M.MarkFailed(old(View()), e) && timeout.None?
      ensures old(error.Some? && curState < startCleanup) ==> handled == old(handled) && View() == old(View())
      ensures old(error.None? || curState >= startCleanup) ==>
                handled == old(handled) + (if completed then [] else [curState])
      ensures callbacks == old(callbacks) + (if completed then [error] else [])
    {
      if error.Some? && curState < startCleanup { return; }
      if error.None? { error := Some(e); }
      MarkCompleted();
    }

    method NextState()
      requires M.Running(View()) && timeout.None?
      modifies this
      ensures View() == M.NextState(old(View())) && timeout.None?
      ensures handled == old(handled) + (if completed then [] else [curState])
      ensures callbacks == old(callbacks) + (if completed then [error] else [])
    {
      curState := curState + 1;
      if curState == nrStates { MarkCompleted(); } else { CallHandler(); }
    }

    method JumpToState(state: nat)
      requires !completed && timeout.None? && state <= nrStates
      modifies this
      ensures View() == M.JumpToState(old(View()), state) && timeout.None?
      ensures handled == old(handled) + (if completed then [] else [curState])
      ensures callbacks == old(callbacks) + (if completed then [error] else [])
    {
      curState := state;
      if curState == nrStates { MarkCompleted(); } else { CallHandler(); }
    }

    /** At most one action can be waiting; nothing happens until it is due. */
    method SetDelayedAction(action: Delayed)
      requires !completed && timeout.None?
      modifies this`timeout
      ensures timeout == Some(action)
    {
      timeout := Some(action);
    }

    method CancelDelayedStateChange()
      requires !completed && timeout.Some?
      modifies this`timeout
      ensures timeout.None?
    {
      timeout := None;
    }

    /** When the timeout fires, the delayed action has the effect of the immediate one. */
    method OnDeviceTimeout()
      requires M.Running(View()) && timeout.Some?
      requires timeout.value.JumpLater? ==> timeout.value.state <= nrStates
      modifies this
      ensures timeout.None?
      ensures handled == old(handled) + (if completed then [] else [curState])
      ensures callbacks == old(callbacks) + (if completed then [error] else [])
      ensures match old(timeout.value)
              case NextLater => View() == M.NextState(old(View()))
              case CompleteLater => View() == M.MarkCompleted(old(View()))
              case JumpLater(state) => View() == M.JumpToState(old(View()), state)
    {
      var action := timeout.value;
      timeout := None;
      match action {
        case NextLater => NextState();
        case CompleteLater => MarkCompleted();
        case JumpLater(state) => JumpToState(state);
      }
    }

    method Perform(op: M.Op)
      requires M.Sound(View()) && M.Stays(View(), op) && timeout.None?
      modifies this
      ensures View() == M.Apply(old(View()), op) && timeout.None? && (completed || M.Sound(View()))
      ensures handled == old(handled) + (if completed then [] else [curState])
      ensures callbacks == old(callbacks) + (if completed then [error] else [])
    {
      M.StaysSound(View(), op);
      match op {
        case Next => NextState();
        case Finish => MarkCompleted();
        case Fail(e) => MarkFailed(e);
        case Jump(state) => JumpToState(state);
      }
    }

    /** However an operation is gone about, it has the effect of the immediate one; failures cannot be delayed. */
    method PerformBy(op: M.Op, way: Way)
      requires M.Sound(View()) && M.Stays(View(), op) && timeout.None? && (way.Later? ==> !op.Fail?)
      modifies this
      ensures View() == M.Apply(old(View()), op) && timeout.None? && (completed || M.Sound(View()))
      ensures handled == old(handled) + (if completed then [] else [curState])
      ensures callbacks == old(callbacks) + (if completed then [error] else [])
    {
      M.StaysSound(View(), op);
      match way {
        case AtOnce =>
          Perform(op);
        case Later =>
          SetDelayedAction(if op.Next? then NextLater else if op.Jump? then JumpLater(op.state) else CompleteLater);
          OnDeviceTimeout();
        case Instead(dropped) =>
          SetDelayedAction(dropped);
          CancelDelayedStateChange();
          Perform(op);
      }
    }

    /**
     A handler that carries out the given operations, one per call and each in its own way,
     until the machine completes. With tame operations the cleanup states come once each and
     in order after the work states, and without jumps those are in order too.
     */
    method Drive(ops: seq<M.Op>, ways: seq<Way>)
      requires |ways| == |ops| && forall i | 0 <= i < |ops| :: ways[i].Later? ==> !ops[i].Fail?
      requires completed && timeout.None? && 1 <= startCleanup <= nrStates
      requires var m := M.Started(nrStates, startCleanup); M.Completes(m, ops) && M.AllStay(m, ops)
      modifies this
      ensures completed && timeout.None?
      ensures callbacks == old(callbacks) + [M.FirstFailure(ops)]
      ensures var m := M.Started(old(nrStates), old(startCleanup));
              && handled == old(handled) + [0] + M.Trace(0, m.cleanup, m.nr, ops)
              && (M.AllTame(m, ops) ==>
                    handled == old(handled) + [0] + M.WorkVisits(m, ops) + M.Range(m.cleanup, m.nr))
              && (M.NoJumps(ops) ==>
                    handled == old(handled) + M.Range(0, M.LastWorkState(0, m.cleanup, ops) + 1) +
                               M.Range(m.cleanup, m.nr))
    {
      ghost var m := M.Started(nrStates, startCleanup);
      M.FirstErrorKept(m, ops);
      Start();
      var i := 0;
      while i < |ops|
        invariant 0 <= i <= |ops| && timeout.None?
        invariant completed || M.Sound(View())
        invariant M.Completes(View(), ops[i..]) && M.AllStay(View(), ops[i..])
        invariant handled + M.Entered(View(), ops[i..]) == old(handled) + [0] + M.Entered(m, ops)
        invariant M.Last(View(), ops[i..]) == M.Last(m, ops)
        invariant callbacks == old(callbacks) + (if completed then [error] else [])
      {
        assert ops[i..][1..] == ops[i + 1..];
        PerformBy(ops[i], ways[i]);
        i := i + 1;
      }
      assert ops[i..] == [];
      assert handled == handled + M.Entered(View(), ops[i..]);
      M.EnteredIsTrace(m, ops);
      DriveShape(m, ops, old(handled));
    }
  }

  lemma DriveShape(m: M.Machine, ops: seq<M.Op>, before: seq<nat>)
    requires 1 <= m.cleanup <= m.nr && m == M.Started(m.nr, m.cleanup) && M.Completes(m, ops)
    ensures M.AllTame(m, ops) ==>
              before + [0] + M.Entered(m, ops) == before + [0] + M.WorkVisits(m, ops) + M.Range(m.cleanup, m.nr)
    ensures M.NoJumps(ops) ==>
              before + [0] + M.Entered(m, ops) ==
              before + M.Range(0, M.LastWorkState(0, m.cleanup, ops) + 1) + M.Range(m.cleanup, m.nr)
  {
    if M.AllTame(m, ops) { M.JumpsKeepCleanup(m, ops); }
    if M.NoJumps(ops) {
      M.CleanupNeverSkipped(m.nr, m.cleanup, ops);
      assert before + [0] + M.Entered(m, ops) == before + ([0] + M.Entered(m, ops));
    }
  }
}

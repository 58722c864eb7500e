/**
 FpiSsm, the sequential state machine of libfprint: states 0..nr-1 of which the
 ones from `cleanup` on are never skipped by completing or failing the machine.

 After calling a handler the C code returns without touching the machine again,
 so a run is a list of operations, one per handler call.
 */
module Ssm {
  import opened Options

  type Error = nat

  datatype Machine = Machine(nr: nat, cleanup: nat, cur: nat, completed: bool, error: Option<Error>)

  /** What a handler can do. */
  datatype Op = Next | Finish | Fail(error: Error) | Jump(state: nat)

  /** fpi_ssm_new_full() refuses other shapes; the handler runs in states below nr. */
  predicate Running(m: Machine) {
    1 <= m.cleanup <= m.nr && m.cur < m.nr && !m.completed
  }

  function Started(nr: nat, cleanup: nat): Machine {
    Machine(nr, cleanup, 0, false, None)
  }

  function MarkCompleted(m: Machine): Machine {
    var next := if m.cur < m.cleanup then m.cleanup else m.cur + 1;
    if next < m.nr then m.(cur := next) else m.(completed := true)
  }

  function NextState(m: Machine): Machine {
    var moved := m.(cur := m.cur + 1);
    if moved.cur == m.nr then MarkCompleted(moved) else moved
  }

  function MarkFailed(m: Machine, error: Error): Machine {
    if m.error.Some? && m.cur < m.cleanup then m
    else MarkCompleted(m.(error := if m.error.None? then Some(error) else m.error))
  }

  function JumpToState(m: Machine, state: nat): Machine {
    if state == m.nr then MarkCompleted(m.(cur := state)) else m.(cur := state)
  }

  function Apply(m: Machine, op: Op): Machine {
    match op
    case Next => NextState(m)
    case Finish => MarkCompleted(m)
    case Fail(e) => MarkFailed(m, e)
    case Jump(state) => JumpToState(m, state)
  }

  // ----- one machine: which states are entered ----------------------------

  /** The operations take the machine exactly to its completion. */
  predicate Completes(m: Machine, ops: seq<Op>)
    decreases |ops|
  {
    if ops == [] then m.completed else !m.completed && Completes(Apply(m, ops[0]), ops[1..])
  }

  function Last(m: Machine, ops: seq<Op>): Machine
    decreases |ops|
  {
    if ops == [] then m else Last(Apply(m, ops[0]), ops[1..])
  }

  /** The states whose handler is called as the operations are carried out. */
  function Entered(m: Machine, ops: seq<Op>): seq<nat>
    decreases |ops|
  {
    if ops == [] then []
    else
      var after := Apply(m, ops[0]);
      (if after.completed then [] else [after.cur]) + Entered(after, ops[1..])
  }

  function Range(from: nat, to: nat): seq<nat>
    decreases if from < to then to - from else 0
  {
    if from >= to then [] else [from] + Range(from + 1, to)
  }

  function FirstFailure(ops: seq<Op>): Option<Error> {
    if ops == [] then None
    else if ops[0].Fail? then Some(ops[0].error)
    else FirstFailure(ops[1..])
  }

  /** Error bookkeeping never loses sight of the cleanup range. */
  predicate Sound(m: Machine) {
    Running(m) && (m.error.Some? ==> m.cur >= m.cleanup)
  }

  /** A jump has a target the machine accepts, and does not leave the cleanup range once that is reached. */
  predicate Stays(m: Machine, op: Op) {
    op.Jump? ==> op.state <= m.nr && (m.cur >= m.cleanup ==> op.state >= m.cleanup)
  }

  predicate AllStay(m: Machine, ops: seq<Op>)
    decreases |ops|
  {
    ops == [] || (Stays(m, ops[0]) && AllStay(Apply(m, ops[0]), ops[1..]))
  }

  /** Jumps among the work states, at most to the first cleanup state; in the cleanup range to the next state only. */
  predicate Tame(m: Machine, op: Op) {
    op.Jump? ==> if m.cur < m.cleanup then op.state <= m.cleanup else op.state == m.cur + 1
  }

  predicate AllTame(m: Machine, ops: seq<Op>)
    decreases |ops|
  {
    ops == [] || (Tame(m, ops[0]) && AllTame(Apply(m, ops[0]), ops[1..]))
  }

  predicate NoJumps(ops: seq<Op>) {
    forall i | 0 <= i < |ops| :: !ops[i].Jump?
  }

  lemma ApplyAdvances(m: Machine, op: Op)
    requires Sound(m) && !op.Jump?
    ensures var t := Apply(m, op);
            && t.nr == m.nr && t.cleanup == m.cleanup
            && (t.completed || (Sound(t) && t.cur > m.cur))
            && t.error == (if m.error.Some? then m.error else if op.Fail? then Some(op.error) else None)
            && (m.cur >= m.cleanup ==> if m.cur + 1 < m.nr then !t.completed && t.cur == m.cur + 1 else t.completed)
            && (m.cur < m.cleanup && (!op.Next? || m.cur + 1 == m.cleanup) ==>
                  if m.cleanup < m.nr then !t.completed && t.cur == m.cleanup else t.completed)
            && (m.cur + 1 < m.cleanup && op.Next? ==> !t.completed && t.cur == m.cur + 1)
  {
  }

  /** One operation that stays: the first error is kept, and the cleanup range not left. */
  lemma StaysSound(m: Machine, op: Op)
    requires Sound(m) && Stays(m, op)
    ensures var t := Apply(m, op);
            && t.nr == m.nr && t.cleanup == m.cleanup && (t.completed || Sound(t))
            && t.error == (if m.error.Some? then m.error else if op.Fail? then Some(op.error) else None)
            && (m.cur >= m.cleanup && !t.completed ==> t.cur >= m.cleanup)
  {
    if !op.Jump? { ApplyAdvances(m, op); }
  }

  /** Where a tame operation leads: through the work states to the first cleanup state, and there one state on. */
  lemma TameAdvances(m: Machine, op: Op)
    requires Sound(m) && Tame(m, op)
    ensures Stays(m, op)
    ensures var t := Apply(m, op);
            && (m.cur >= m.cleanup ==> if m.cur + 1 < m.nr then !t.completed && t.cur == m.cur + 1 else t.completed)
            && (m.cur < m.cleanup && !t.completed ==> t.cur <= m.cleanup)
            && (m.cur < m.cleanup && t.completed ==> m.cleanup == m.nr)
  {
    if !op.Jump? { ApplyAdvances(m, op); }
  }

  /** Where a jump that stays but is not tame leads: past the state that is due. */
  lemma WildSkips(m: Machine, op: Op)
    requires Sound(m) && Stays(m, op) && !Tame(m, op)
    ensures var t := Apply(m, op);
            var due := if m.cur < m.cleanup then m.cleanup else m.cur + 1;
            if t.completed then due < m.nr else t.cur == op.state >= m.cleanup && t.cur != due
  {
  }

  lemma {:induction false} FirstErrorKept(m: Machine, ops: seq<Op>)
    requires (m.completed || Sound(m)) && Completes(m, ops) && AllStay(m, ops)
    ensures Last(m, ops).error == if m.error.Some? then m.error else FirstFailure(ops)
    decreases |ops|
  {
    if ops != [] {
      StaysSound(m, ops[0]);
      FirstErrorKept(Apply(m, ops[0]), ops[1..]);
    }
  }

  predicate AllFrom(states: seq<nat>, cleanup: nat) {
    forall i | 0 <= i < |states| :: states[i] >= cleanup
  }

  /** In the cleanup range each state follows the one before exactly when every operation is tame. */
  lemma {:induction false} CleanupTailExactly(m: Machine, ops: seq<Op>)
    requires Sound(m) && m.cur >= m.cleanup && Completes(m, ops) && AllStay(m, ops)
    ensures Entered(m, ops) == Range(m.cur + 1, m.nr) <==> AllTame(m, ops)
    ensures AllFrom(Entered(m, ops), m.cleanup)
    decreases |ops|
  {
    var t := Apply(m, ops[0]);
    StaysSound(m, ops[0]);
    if Tame(m, ops[0]) { TameAdvances(m, ops[0]); } else { WildSkips(m, ops[0]); }
    if t.completed {
      assert ops[1..] == [];
    } else {
      CleanupTailExactly(t, ops[1..]);
      HeadAndTail(t.cur, Entered(t, ops[1..]), m.cur + 1, m.nr);
    }
  }

  lemma HeadAndTail(head: nat, tail: seq<nat>, from: nat, to: nat)
    ensures [head] + tail == Range(from, to) <==> from < to && head == from && tail == Range(from + 1, to)
  {
    if [head] + tail == Range(from, to) {
      assert ([head] + tail)[0] == head && ([head] + tail)[1..] == tail;
      assert from < to ==> Range(from, to)[1..] == Range(from + 1, to);
    }
  }

  /** The cleanup states among those entered. */
  function CleanupPart(states: seq<nat>, cleanup: nat): seq<nat> {
    if states == [] then []
    else (if states[0] >= cleanup then [states[0]] else []) + CleanupPart(states[1..], cleanup)
  }

  lemma {:induction false} AllCleanup(states: seq<nat>, cleanup: nat)
    requires AllFrom(states, cleanup)
    ensures CleanupPart(states, cleanup) == states
  {
    if states != [] { AllCleanup(states[1..], cleanup); }
  }

  lemma CleanupPartHead(head: nat, tail: seq<nat>, cleanup: nat)
    ensures CleanupPart([head] + tail, cleanup) ==
            (if head >= cleanup then [head] else []) + CleanupPart(tail, cleanup)
  {
    assert ([head] + tail)[1..] == tail;
  }

  /**
   A machine enters every cleanup state, once each and in order, exactly when all its
   operations are tame; and it ends with the first failure in any case.
   */
  lemma {:induction false} CleanupKeptExactly(m: Machine, ops: seq<Op>)
    requires Sound(m) && m.cur < m.cleanup && Completes(m, ops) && AllStay(m, ops)
    ensures CleanupPart(Entered(m, ops), m.cleanup) == Range(m.cleanup, m.nr) <==> AllTame(m, ops)
    ensures Last(m, ops).error == FirstFailure(ops)
    decreases |ops|
  {
    FirstErrorKept(m, ops);
    StaysSound(m, ops[0]);
    var t := Apply(m, ops[0]);
    if t.completed {
      if Tame(m, ops[0]) { TameAdvances(m, ops[0]); } else { WildSkips(m, ops[0]); }
      assert ops[1..] == [];
    } else if t.cur >= m.cleanup {
      CleanupReached(m, ops);
    } else {
      if !Tame(m, ops[0]) { WildSkips(m, ops[0]); }
      CleanupPartHead(t.cur, Entered(t, ops[1..]), m.cleanup);
      CleanupKeptExactly(t, ops[1..]);
    }
  }

  /** The step into the cleanup range. */
  lemma CleanupReached(m: Machine, ops: seq<Op>)
    requires Sound(m) && m.cur < m.cleanup && ops != [] && Completes(m, ops) && AllStay(m, ops)
    requires var t := Apply(m, ops[0]); !t.completed && t.cur >= m.cleanup
    ensures CleanupPart(Entered(m, ops), m.cleanup) == Range(m.cleanup, m.nr) <==> AllTame(m, ops)
  {
    var t, tail := Apply(m, ops[0]), Entered(Apply(m, ops[0]), ops[1..]);
    StaysSound(m, ops[0]);
    if Tame(m, ops[0]) { TameAdvances(m, ops[0]); } else { WildSkips(m, ops[0]); }
    CleanupTailExactly(t, ops[1..]);
    AllCleanup(tail, m.cleanup);
    CleanupPartHead(t.cur, tail, m.cleanup);
    HeadAndTail(t.cur, tail, m.cleanup, m.nr);
  }

  /** The states entered before the first that is no work state. */
  function WorkVisits(m: Machine, ops: seq<Op>): seq<nat>
    decreases |ops|
  {
    if ops == [] then []
    else
      var after := Apply(m, ops[0]);
      if after.completed || after.cur >= m.cleanup then [] else [after.cur] + WorkVisits(after, ops[1..])
  }

  lemma {:induction false} TameStays(m: Machine, ops: seq<Op>)
    requires (m.completed || Sound(m)) && Completes(m, ops) && AllTame(m, ops)
    ensures AllStay(m, ops)
    decreases |ops|
  {
    if ops != [] {
      TameAdvances(m, ops[0]);
      StaysSound(m, ops[0]);
      TameStays(Apply(m, ops[0]), ops[1..]);
    }
  }

  /**
   However a machine jumps about among its work states, they are followed by every
   cleanup state, once each and in order.
   */
  lemma {:induction false} JumpsKeepCleanup(m: Machine, ops: seq<Op>)
    requires Sound(m) && m.cur < m.cleanup && Completes(m, ops) && AllTame(m, ops)
    ensures Entered(m, ops) == WorkVisits(m, ops) + Range(m.cleanup, m.nr)
    ensures forall s <- WorkVisits(m, ops) :: s < m.cleanup
    decreases |ops|
  {
    var t, rest := Apply(m, ops[0]), ops[1..];
    TameAdvances(m, ops[0]);
    StaysSound(m, ops[0]);
    if t.completed {
      assert rest == [];
    } else if t.cur >= m.cleanup {
      TameStays(t, rest);
      CleanupTailExactly(t, rest);
    } else {
      JumpsKeepCleanup(t, rest);
    }
  }

  /** A jump past the first cleanup state, even to the end, enters exactly the cleanup states from its target on. */
  lemma JumpBypasses(m: Machine, state: nat, ops: seq<Op>)
    requires Sound(m) && m.cur < m.cleanup < state <= m.nr
    requires var t := JumpToState(m, state); Completes(t, ops) && AllTame(t, ops)
    ensures Entered(m, [Jump(state)] + ops) == Range(state, m.nr)
  {
    assert ([Jump(state)] + ops)[1..] == ops;
    var t := JumpToState(m, state);
    if !t.completed {
      TameStays(t, ops);
      CleanupTailExactly(t, ops);
    }
  }

  /**
   Why jumps out of the cleanup range are a matter apart: such a jump is not tame, and yet
   one that comes back to the state that was due skips and repeats nothing.
   */
  lemma DetourKeepsCleanup(m: Machine, leave: Op, back: Op, ops: seq<Op>)
    requires Sound(m) && m.cur >= m.cleanup && m.cur + 1 < m.nr
    requires leave.Jump? && leave.state < m.cleanup && back == Jump(m.cur + 1)
    requires var t := Apply(m, back); Completes(t, ops) && AllTame(t, ops)
    ensures !Tame(m, leave) && !Stays(m, leave)
    ensures CleanupPart(Entered(m, [leave] + ([back] + ops)), m.cleanup) == Range(m.cur + 1, m.nr)
  {
    var t := Apply(m, back);
    TailAsDue(t, ops);
    DetourEntered(m, leave, back, ops);
    CleanupPartHead(t.cur, Entered(t, ops), m.cleanup);
    CleanupPartHead(leave.state, [t.cur] + Entered(t, ops), m.cleanup);
  }

  lemma DetourEntered(m: Machine, leave: Op, back: Op, ops: seq<Op>)
    requires !m.completed && leave.Jump? && back.Jump? && leave.state < m.nr && back.state < m.nr
    ensures Entered(m, [leave] + ([back] + ops)) == [leave.state] + ([back.state] + Entered(Apply(m, back), ops))
  {
    EnteredHead(Apply(m, leave), back, ops);
    EnteredHead(m, leave, [back] + ops);
  }

  lemma TailAsDue(t: Machine, ops: seq<Op>)
    requires Sound(t) && t.cur >= t.cleanup && Completes(t, ops) && AllTame(t, ops)
    ensures Entered(t, ops) == Range(t.cur + 1, t.nr) && CleanupPart(Entered(t, ops), t.cleanup) == Entered(t, ops)
  {
    TameStays(t, ops);
    CleanupTailExactly(t, ops);
    AllCleanup(Entered(t, ops), t.cleanup);
  }

  lemma EnteredHead(m: Machine, op: Op, ops: seq<Op>)
    ensures var t := Apply(m, op); Entered(m, [op] + ops) == (if t.completed then [] else [t.cur]) + Entered(t, ops)
  {
    assert ([op] + ops)[1..] == ops;
  }

  // ----- which states, as numbers ------------------------------------------------

  /** A jump to a state of the machine leaves it there and changes nothing else; a jump to nr completes it. */
  lemma JumpExactly(m: Machine, state: nat)
    requires !m.completed && state <= m.nr
    ensures var t := Apply(m, Jump(state));
            && t.completed == (state == m.nr) && t.cur == state && t.error == m.error
            && t.nr == m.nr && t.cleanup == m.cleanup
  {
  }

  /** The state an operation leads to from state `cur`; a state from nr on is the end. */
  function Leads(cur: nat, cleanup: nat, op: Op): nat {
    match op
    case Next => cur + 1
    case Jump(state) => state
    case _ => if cur < cleanup then cleanup else cur + 1
  }

  /** The states a list of operations goes through, told from the numbers alone. */
  function Trace(cur: nat, cleanup: nat, nr: nat, ops: seq<Op>): seq<nat>
    decreases |ops|
  {
    if ops == [] || Leads(cur, cleanup, ops[0]) >= nr then []
    else
      var to := Leads(cur, cleanup, ops[0]);
      [to] + Trace(to, cleanup, nr, ops[1..])
  }

  /** The handler is called for exactly the successors and jump targets that the operations name. */
  lemma {:induction false} EnteredIsTrace(m: Machine, ops: seq<Op>)
    requires Sound(m) && Completes(m, ops) && AllStay(m, ops)
    ensures Entered(m, ops) == Trace(m.cur, m.cleanup, m.nr, ops)
    decreases |ops|
  {
    StaysSound(m, ops[0]);
    if !ops[0].Jump? { ApplyAdvances(m, ops[0]); } else { JumpExactly(m, ops[0].state); }
    var t := Apply(m, ops[0]);
    if t.completed {
      assert ops[1..] == [];
    } else {
      EnteredIsTrace(t, ops[1..]);
    }
  }

  // ----- machines without jumps ----------------------------------------------

  /** The last non-cleanup state of a run that begins at `cur`: where it first does not just advance. */
  function LastWorkState(cur: nat, cleanup: nat, ops: seq<Op>): nat
    decreases |ops|
  {
    if ops == [] || !ops[0].Next? || cur + 1 >= cleanup then cur
    else LastWorkState(cur + 1, cleanup, ops[1..])
  }

  lemma {:induction false} NoJumpsTame(m: Machine, ops: seq<Op>)
    requires NoJumps(ops)
    ensures AllTame(m, ops)
    decreases |ops|
  {
    if ops != [] { NoJumpsTame(Apply(m, ops[0]), ops[1..]); }
  }

  lemma {:induction false} WorkInOrder(m: Machine, ops: seq<Op>)
    requires Sound(m) && m.cur < m.cleanup && Completes(m, ops) && NoJumps(ops)
    ensures var j := LastWorkState(m.cur, m.cleanup, ops);
            m.cur <= j < m.cleanup && WorkVisits(m, ops) == Range(m.cur + 1, j + 1)
    decreases |ops|
  {
    ApplyAdvances(m, ops[0]);
    var t := Apply(m, ops[0]);
    if !t.completed && t.cur < m.cleanup { WorkInOrder(t, ops[1..]); }
  }

  lemma {:induction false} RangeLength(from: nat, to: nat)
    ensures |Range(from, to)| == (if from <= to then to - from else 0)
    decreases if from < to then to - from else 0
  {
    if from < to { RangeLength(from + 1, to); }
  }

  /**
   A machine without jumps enters states 0..j and then every cleanup state, each
   once and in order, whichever operations its handler chose; it ends with the
   first error, and its handler is called at most nr times.
   */
  lemma CleanupNeverSkipped(nr: nat, cleanup: nat, ops: seq<Op>)
    requires 1 <= cleanup <= nr && Completes(Started(nr, cleanup), ops) && NoJumps(ops)
    ensures var j := LastWorkState(0, cleanup, ops);
            && j < cleanup
            && [0] + Entered(Started(nr, cleanup), ops) == Range(0, j + 1) + Range(cleanup, nr)
            && 1 + |Entered(Started(nr, cleanup), ops)| <= nr
    ensures Last(Started(nr, cleanup), ops).error == FirstFailure(ops)
  {
    var m := Started(nr, cleanup);
    NoJumpsTame(m, ops);
    TameStays(m, ops);
    FirstErrorKept(m, ops);
    JumpsKeepCleanup(m, ops);
    WorkInOrder(m, ops);
    var j := LastWorkState(0, cleanup, ops);
    assert [0] + (Range(1, j + 1) + Range(cleanup, nr)) == ([0] + Range(1, j + 1)) + Range(cleanup, nr);
    RangeLength(1, j + 1);
    RangeLength(cleanup, nr);
  }

  // ----- nested machines ---------------------------------------------------

  /** `stack[0]` is the root; each machine above it was started by the handler of the one below. */
  datatype Nest = Nest(stack: seq<Machine>, recorded: seq<Error>, callbacks: seq<Option<Error>>)

  datatype Move = Do(op: Op) | StartSub(nr: nat, cleanup: nat)

  predicate CanMove(n: Nest, move: Move) {
    n.stack != [] &&
    match move
    case StartSub(nr, cleanup) => 1 <= cleanup <= nr
    case Do(op) => Stays(n.stack[|n.stack| - 1], op)
  }

  /** __subsm_complete() on the parent, or the root's own callback; a completed parent completes in turn. */
  function Unwind(n: Nest): Nest
    decreases |n.stack|
  {
    if n.stack == [] || !n.stack[|n.stack| - 1].completed then n
    else
      var error := n.stack[|n.stack| - 1].error;
      var rest := n.stack[..|n.stack| - 1];
      if rest == [] then n.(stack := [], callbacks := n.callbacks + [error])
      else
        var parent := rest[|rest| - 1];
        var told := if error.Some? then MarkFailed(parent, error.value) else NextState(parent);
        Unwind(n.(stack := rest[|rest| - 1 := told]))
  }

  function MoveNest(n: Nest, move: Move): Nest
    requires CanMove(n, move)
  {
    match move
    case StartSub(nr, cleanup) => n.(stack := n.stack + [Started(nr, cleanup)])
    case Do(op) =>
      var top := n.stack[|n.stack| - 1];
      Unwind(n.(stack := n.stack[|n.stack| - 1 := Apply(top, op)],
                recorded := if op.Fail? then n.recorded + [op.error] else n.recorded))
  }

  predicate RunsNest(n: Nest, moves: seq<Move>)
    decreases |moves|
  {
    moves == [] || (CanMove(n, moves[0]) && RunsNest(MoveNest(n, moves[0]), moves[1..]))
  }

  function AfterMoves(n: Nest, moves: seq<Move>): Nest
    requires RunsNest(n, moves)
    decreases |moves|
  {
    if moves == [] then n else AfterMoves(MoveNest(n, moves[0]), moves[1..])
  }

  /** The error of the machine nearest the root that has one. */
  function LowestError(stack: seq<Machine>): Option<Error> {
    if stack == [] then None
    else if stack[0].error.Some? then stack[0].error
    else LowestError(stack[1..])
  }

  function Earliest(recorded: seq<Error>): Option<Error> {
    if recorded == [] then None else Some(recorded[0])
  }

  ghost predicate AllSound(stack: seq<Machine>) {
    forall i :: 0 <= i < |stack| ==> Sound(stack[i])
  }

  ghost predicate NestInv(n: Nest) {
    && AllSound(n.stack)
    && (if n.stack != [] then n.callbacks == [] && LowestError(n.stack) == Earliest(n.recorded)
        else n.callbacks == [Earliest(n.recorded)])
  }

  lemma {:induction false} LowestErrorAppend(stack: seq<Machine>, m: Machine)
    ensures LowestError(stack + [m]) == if LowestError(stack).Some? then LowestError(stack) else m.error
  {
    if stack == [] {
      assert stack + [m] == [m];
    } else {
      assert (stack + [m])[1..] == stack[1..] + [m];
      LowestErrorAppend(stack[1..], m);
    }
  }

  /** The stack after the completed machine on top has told its parent. */
  lemma ToldStack(n: Nest) returns (below: seq<Machine>, parent: Machine, op: Op)
    requires |n.stack| > 1 && n.stack[|n.stack| - 1].completed
    requires AllSound(n.stack[..|n.stack| - 1])
    ensures n.stack == below + [parent] + [n.stack[|n.stack| - 1]] && AllSound(below) && Sound(parent)
    ensures op == if n.stack[|n.stack| - 1].error.Some? then Fail(n.stack[|n.stack| - 1].error.value) else Next
    ensures Unwind(n) == Unwind(n.(stack := below + [Apply(parent, op)]))
    ensures (below + [Apply(parent, op)])[..|below|] == below
  {
    var top, rest := n.stack[|n.stack| - 1], n.stack[..|n.stack| - 1];
    below, parent := rest[..|rest| - 1], rest[|rest| - 1];
    op := if top.error.Some? then Fail(top.error.value) else Next;
    assert rest[|rest| - 1 := Apply(parent, op)] == below + [Apply(parent, op)];
    assert rest == below + [parent] && n.stack == rest + [top];
  }

  /** Handing a completed machine's result down keeps the earliest error nearest the root. */
  lemma {:induction false} UnwindKeeps(n: Nest)
    requires n.stack != [] && n.callbacks == []
    requires AllSound(n.stack[..|n.stack| - 1])
    requires var top := n.stack[|n.stack| - 1]; top.completed || Sound(top)
    requires LowestError(n.stack) == Earliest(n.recorded)
    ensures NestInv(Unwind(n))
    ensures Unwind(n).recorded == n.recorded
    decreases |n.stack|
  {
    var top := n.stack[|n.stack| - 1];
    var rest := n.stack[..|n.stack| - 1];
    assert n.stack == rest + [top];
    if !top.completed {
      assert forall i :: 0 <= i < |n.stack| ==> n.stack[i] == if i < |rest| then rest[i] else top;
    } else if rest == [] {
      LowestErrorAppend(rest, top);
    } else {
      var below, parent, op := ToldStack(n);
      var told := Apply(parent, op);
      ApplyAdvances(parent, op);
      LowestErrorAppend(below + [parent], top);
      LowestErrorAppend(below, parent);
      LowestErrorAppend(below, told);
      UnwindKeeps(n.(stack := below + [told]));
    }
  }

  lemma OperationKeepsEarliest(n: Nest, op: Op)
    requires NestInv(n) && n.stack != [] && Stays(n.stack[|n.stack| - 1], op)
    ensures var stack := n.stack[|n.stack| - 1 := Apply(n.stack[|n.stack| - 1], op)];
            LowestError(stack) == Earliest(if op.Fail? then n.recorded + [op.error] else n.recorded)
  {
    var top := n.stack[|n.stack| - 1];
    var rest := n.stack[..|n.stack| - 1];
    StaysSound(top, op);
    assert n.stack == rest + [top];
    assert n.stack[|n.stack| - 1 := Apply(top, op)] == rest + [Apply(top, op)];
    LowestErrorAppend(rest, top);
    LowestErrorAppend(rest, Apply(top, op));
  }

  lemma MoveKeepsInv(n: Nest, move: Move)
    requires NestInv(n) && CanMove(n, move)
    ensures NestInv(MoveNest(n, move))
  {
    if move.StartSub? {
      LowestErrorAppend(n.stack, Started(move.nr, move.cleanup));
    } else {
      var top := n.stack[|n.stack| - 1];
      StaysSound(top, move.op);
      OperationKeepsEarliest(n, move.op);
      UnwindKeeps(n.(stack := n.stack[|n.stack| - 1 := Apply(top, move.op)],
                     recorded := if move.op.Fail? then n.recorded + [move.op.error] else n.recorded));
    }
  }

  lemma {:induction false} NestRunsKeepInv(n: Nest, moves: seq<Move>)
    requires NestInv(n) && RunsNest(n, moves)
    ensures NestInv(AfterMoves(n, moves))
    ensures AfterMoves(n, moves).recorded == n.recorded + Failures(moves)
    decreases |moves|
  {
    if moves != [] {
      MoveKeepsInv(n, moves[0]);
      MoveRecords(n, moves[0]);
      NestRunsKeepInv(MoveNest(n, moves[0]), moves[1..]);
    }
  }

  /** The errors handlers anywhere in the nest fail their machines with, in order of time. */
  function Failures(moves: seq<Move>): seq<Error> {
    if moves == [] then []
    else (if moves[0].Do? && moves[0].op.Fail? then [moves[0].op.error] else []) + Failures(moves[1..])
  }

  lemma {:induction false} UnwindRecordsNothing(n: Nest)
    ensures Unwind(n).recorded == n.recorded
    decreases |n.stack|
  {
    if n.stack != [] && n.stack[|n.stack| - 1].completed && |n.stack| > 1 {
      var error := n.stack[|n.stack| - 1].error;
      var rest := n.stack[..|n.stack| - 1];
      var parent := rest[|rest| - 1];
      var told := if error.Some? then MarkFailed(parent, error.value) else NextState(parent);
      UnwindRecordsNothing(n.(stack := rest[|rest| - 1 := told]));
    }
  }

  lemma MoveRecords(n: Nest, move: Move)
    requires CanMove(n, move)
    ensures MoveNest(n, move).recorded == n.recorded + Failures([move])
  {
    assert Failures([move]) == if move.Do? && move.op.Fail? then [move.op.error] else [];
    if move.Do? {
      var top := n.stack[|n.stack| - 1];
      UnwindRecordsNothing(n.(stack := n.stack[|n.stack| - 1 := Apply(top, move.op)],
                              recorded := if move.op.Fail? then n.recorded + [move.op.error] else n.recorded));
    }
  }

  lemma {:induction false} UnwindIgnoresRecord(n: Nest, recorded: seq<Error>)
    ensures Unwind(n.(recorded := recorded)) == Unwind(n).(recorded := recorded)
    decreases |n.stack|
  {
    if n.stack != [] && n.stack[|n.stack| - 1].completed && |n.stack| > 1 {
      var error := n.stack[|n.stack| - 1].error;
      var rest := n.stack[..|n.stack| - 1];
      var parent := rest[|rest| - 1];
      var told := if error.Some? then MarkFailed(parent, error.value) else NextState(parent);
      UnwindIgnoresRecord(n.(stack := rest[|rest| - 1 := told]), recorded);
    }
  }

  /** The error of a machine after an operation: the one it had, or else the one it fails with. */
  function ErrorAfter(m: Machine, op: Op): Option<Error> {
    if m.error.Some? then m.error else if op.Fail? then Some(op.error) else None
  }

  /** One operation on a machine that is not in an error before cleanup, told from the numbers. */
  lemma AppliedExactly(m: Machine, op: Op)
    requires Sound(m) && Stays(m, op)
    ensures var to := Leads(m.cur, m.cleanup, op);
            && Apply(m, op).error == ErrorAfter(m, op)
            && (Apply(m, op).completed <==> to >= m.nr)
            && (to < m.nr ==> Apply(m, op) == m.(cur := to, error := ErrorAfter(m, op)))
  {
  }

  /**
   Where an operation takes a nest. The machine on top moves to its next state; at its end, the root calls back
   with its error, and any other machine acts for its parent as though the parent's handler had
   moved on or had failed with that error.
   */
  lemma NestMoveExactly(n: Nest, op: Op)
    requires NestInv(n) && CanMove(n, Do(op))
    ensures var top, rest := n.stack[|n.stack| - 1], n.stack[..|n.stack| - 1];
            var to, error, t := Leads(top.cur, top.cleanup, op), ErrorAfter(top, op), MoveNest(n, Do(op));
            if to < top.nr then
              t.stack == rest + [top.(cur := to, error := error)] && t.callbacks == n.callbacks
            else if rest == [] then
              t.stack == [] && t.callbacks == n.callbacks + [error]
            else
              var act := if error.Some? then Fail(error.value) else Next;
              var u := MoveNest(n.(stack := rest), Do(act));
              t.stack == u.stack && t.callbacks == u.callbacks
  {
    var top, rest := n.stack[|n.stack| - 1], n.stack[..|n.stack| - 1];
    AppliedExactly(top, op);
    var recorded := if op.Fail? then n.recorded + [op.error] else n.recorded;
    var moved := n.(stack := n.stack[|n.stack| - 1 := Apply(top, op)], recorded := recorded);
    assert moved.stack == rest + [Apply(top, op)];
    if Apply(top, op).completed && rest != [] {
      var below, parent, act := ToldStack(moved);
      var told := n.(stack := below + [Apply(parent, act)]);
      assert rest == below + [parent];
      assert rest[|rest| - 1 := Apply(parent, act)] == told.stack;
      UnwindIgnoresRecord(told, recorded);
      UnwindIgnoresRecord(told, if act.Fail? then n.recorded + [act.error] else n.recorded);
    }
  }

  // ----- progress ------------------------------------------------------------

  /** How many more handler calls the running machines can make. */
  function Remaining(stack: seq<Machine>): nat {
    if stack == [] then 0
    else (if stack[0].completed || stack[0].cur > stack[0].nr then 0 else stack[0].nr - stack[0].cur)
         + Remaining(stack[1..])
  }

  function TotalStates(moves: seq<Move>): nat {
    if moves == [] then 0
    else (if moves[0].StartSub? then moves[0].nr else 0) + TotalStates(moves[1..])
  }

  predicate NoJumpMoves(moves: seq<Move>) {
    forall i | 0 <= i < |moves| :: moves[i].Do? ==> !moves[i].op.Jump?
  }

  function Operations(moves: seq<Move>): nat {
    if moves == [] then 0 else (if moves[0].Do? then 1 else 0) + Operations(moves[1..])
  }

  lemma {:induction false} RemainingAppend(stack: seq<Machine>, m: Machine)
    ensures Remaining(stack + [m]) == Remaining(stack) + Remaining([m])
  {
    if stack == [] {
      assert stack + [m] == [m];
    } else {
      assert (stack + [m])[1..] == stack[1..] + [m];
      RemainingAppend(stack[1..], m);
    }
  }

  lemma {:induction false} UnwindShrinks(n: Nest)
    requires n.stack != [] && AllSound(n.stack[..|n.stack| - 1])
    ensures Remaining(Unwind(n).stack) <= Remaining(n.stack)
    decreases |n.stack|
  {
    var top := n.stack[|n.stack| - 1];
    var rest := n.stack[..|n.stack| - 1];
    assert n.stack == rest + [top];
    RemainingAppend(rest, top);
    if top.completed && rest != [] {
      var below, parent, op := ToldStack(n);
      ApplyAdvances(parent, op);
      assert n.stack == below + [parent] + [top];
      RemainingAppend(below + [parent], top);
      RemainingAppend(below, parent);
      RemainingAppend(below, Apply(parent, op));
      UnwindShrinks(n.(stack := below + [Apply(parent, op)]));
    }
  }

  lemma OperationShrinks(n: Nest, op: Op)
    requires NestInv(n) && n.stack != [] && !op.Jump?
    ensures Remaining(MoveNest(n, Do(op)).stack) < Remaining(n.stack)
  {
    var top := n.stack[|n.stack| - 1];
    var rest := n.stack[..|n.stack| - 1];
    ApplyAdvances(top, op);
    var stack := n.stack[|n.stack| - 1 := Apply(top, op)];
    assert n.stack == rest + [top] && stack == rest + [Apply(top, op)] && stack[..|stack| - 1] == rest;
    RemainingAppend(rest, top);
    RemainingAppend(rest, Apply(top, op));
    UnwindShrinks(n.(stack := stack, recorded := if op.Fail? then n.recorded + [op.error] else n.recorded));
  }

  /**
   No nest without jumps hangs: every operation is carried out while the root is unfinished, and there
   cannot be more of them than the machines ever started have states.
   */
  lemma {:induction false} OperationsBounded(n: Nest, moves: seq<Move>)
    requires NestInv(n) && RunsNest(n, moves) && NoJumpMoves(moves)
    ensures Operations(moves) + Remaining(AfterMoves(n, moves).stack) <= Remaining(n.stack) + TotalStates(moves)
    decreases |moves|
  {
    if moves != [] {
      MoveKeepsInv(n, moves[0]);
      if moves[0].Do? {
        OperationShrinks(n, moves[0].op);
      } else {
        RemainingAppend(n.stack, Started(moves[0].nr, moves[0].cleanup));
      }
      OperationsBounded(MoveNest(n, moves[0]), moves[1..]);
    }
  }

  function Root(nr: nat, cleanup: nat): Nest {
    Nest([Started(nr, cleanup)], [], [])
  }

  /**
   In any nest, jumps that stay included, the root callback is called when the root is
   gone and not before, exactly once, with the earliest error any handler reported; and
   without jumps the operations cannot outnumber the states of the machines started.
   */
  lemma RootCallbackOnce(nr: nat, cleanup: nat, moves: seq<Move>)
    requires 1 <= cleanup <= nr && RunsNest(Root(nr, cleanup), moves)
    ensures var t := AfterMoves(Root(nr, cleanup), moves);
            t.callbacks == if t.stack == [] then [Earliest(Failures(moves))] else []
    ensures NoJumpMoves(moves) ==> Operations(moves) <= nr + TotalStates(moves)
  {
    var n := Root(nr, cleanup);
    assert NestInv(n) by { assert LowestError(n.stack) == None; }
    NestRunsKeepInv(n, moves);
    if NoJumpMoves(moves) {
      OperationsBounded(n, moves);
      assert Remaining(n.stack) == nr;
    }
  }
}

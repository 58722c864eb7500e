/**
 Critical sections of a device driver: while one is open, cancel, suspend and resume
 requests are queued, and an idle source of the main loop delivers them afterwards.
 */
module CriticalSection {
  import opened Options
  import opened Actions

  /**
   What a request led to: a call into the driver, an immediate answer, a wait for the
   running task, or the assertion that a resume never meets a short action.
   */
  datatype Call =
    | Cancel | Suspend | Resume
    | SuspendDone(supported: bool) | ResumeDone(supported: bool) | AwaitTask | NotReached

  /** A call and the number of critical sections open when it was made. */
  datatype Entry = Entry(call: Call, sections: nat)

  datatype Queue = Queue(cancel: bool, suspend: bool, resume: bool)

  /** Requests made so far, and cancellations dropped because the driver was done. */
  datatype Ledger = Ledger(cancels: nat, suspends: nat, resumes: nat, dropped: nat)

  /** Whether the driver has handlers for suspend and resume. */
  datatype Driver = Driver(suspends: bool, resumes: bool)

  /** `returning`: the action is complete and its result waits in an idle source; `asked`: it was cancelled once. */
  datatype Task = Task(action: Action, returning: bool, asked: bool)

  datatype Pending = Nothing | Suspending | Resuming

  /** The request in progress; `waiting`: its answer waits for the running task to end. */
  datatype Power = Power(pending: Pending, waiting: bool, suspended: bool)

  datatype Device = Device(
    task: Task, sections: nat, flush: bool, power: Power, queue: Queue, ledger: Ledger, log: seq<Entry>)

  function Initial(): Device {
    Device(Task(NoAction, false, false), 0, false, Power(Nothing, false, false), Queue(false, false, false),
           Ledger(0, 0, 0, 0), [])
  }

  // ----- the operations ------------------------------------------------------------------

  function Logged(d: Device, call: Call): Device { d.(log := d.log + [Entry(call, d.sections)]) }

  function Enter(d: Device): Device {
    if d.task.action == NoAction then d else d.(sections := d.sections + 1, flush := false)
  }

  function Leave(d: Device): Device {
    if d.task.action == NoAction || d.sections == 0 then d
    else d.(sections := d.sections - 1, flush := d.flush || d.sections == 1)
  }

  function CancelInIdle(d: Device): Device {
    if d.sections > 0 then d.(queue := d.queue.(cancel := true)) else Logged(d, Cancel)
  }

  /** The call a suspend request leads to, or None if it is queued. */
  function SuspendCall(driver: Driver, d: Device): Option<Call> {
    match d.task.action
    case NoAction => Some(SuspendDone(true))
    case Long => if !driver.suspends then Some(SuspendDone(false)) else if d.sections > 0 then None else Some(Suspend)
    case _ => Some(AwaitTask)
  }

  function ResumeCall(driver: Driver, d: Device): Option<Call> {
    match d.task.action
    case NoAction => Some(ResumeDone(true))
    case Long => if !driver.resumes then Some(ResumeDone(false)) else if d.sections > 0 then None else Some(Resume)
    case _ => Some(NotReached)
  }

  /** What a call settles: an unsupported suspend cancels the running task and waits for its end. */
  function Settled(p: Power, call: Call): Power {
    match call
    case SuspendDone(supported) => if supported then Power(Nothing, false, true) else p.(waiting := true, suspended := true)
    case AwaitTask => p.(waiting := true)
    case ResumeDone(_) => Power(Nothing, false, false)
    case NotReached => p.(pending := Nothing)
    case _ => p
  }

  function Answer(d: Device, call: Call): Device { Logged(d, call).(power := Settled(d.power, call)) }

  function DoSuspend(driver: Driver, d: Device): Device {
    match SuspendCall(driver, d)
    case None => d.(queue := d.queue.(suspend := true))
    case Some(call) => Answer(d, call)
  }

  function DoResume(driver: Driver, d: Device): Device {
    match ResumeCall(driver, d)
    case None => d.(queue := d.queue.(resume := true))
    case Some(call) => Answer(d, call)
  }

  /** One run of the idle callback: at most one queued request, cancellation first. */
  function Flush(driver: Driver, d: Device): Device {
    if d.queue.cancel then
      var d1 := if d.task.action != NoAction && !d.task.returning then Logged(d, Cancel)
                else d.(ledger := d.ledger.(dropped := d.ledger.dropped + 1));
      d1.(queue := d.queue.(cancel := false))
    else if d.queue.suspend then DoSuspend(driver, d.(queue := d.queue.(suspend := false)))
    else if d.queue.resume then DoResume(driver, d.(queue := d.queue.(resume := false)))
    else d.(flush := false)
  }

  /** The driver answers a suspend or resume call; a failed suspend waits for the running task to end. */
  function DriverAnswers(d: Device, ok: bool): Device {
    if d.power.pending == Resuming then d.(power := Power(Nothing, false, false))
    else if ok || d.task.action == NoAction then d.(power := Power(Nothing, false, true))
    else d.(power := d.power.(waiting := true, suspended := true))
  }

  /** The result of an action is returned, and with it a suspend request that waited for it. */
  function Returned(d: Device): Device {
    d.(task := Task(NoAction, false, false),
       power := if d.power.waiting then d.power.(pending := Nothing, waiting := false) else d.power)
  }

  // ----- runs --------------------------------------------------------------------------------

  datatype Event =
    | Start(action: Action) | Complete | ReturnInIdle
    | EnterSection | LeaveSection
    | CancelRequest | SuspendRequest | ResumeRequest | Answered(ok: bool)
    | FlushIdle

  /**
   When an event can occur. The flush source has a higher priority than the one that returns
   the result; a task is cancelled once; suspended devices start nothing but the clearing of
   their storage; one suspend or resume request is made at a time, each in its turn.
   */
  predicate MayOccur(d: Device, e: Event) {
    match e
    case Start(action) =>
      d.task.action == NoAction && action != NoAction && (d.power.suspended ==> action == ClearStorage)
    case Complete => d.task.action != NoAction && !d.task.returning
    case ReturnInIdle => d.task.returning && !d.flush
    case CancelRequest => d.task.action != NoAction && !d.task.returning && !d.task.asked
    case SuspendRequest => d.power.pending == Nothing && !d.power.suspended
    case ResumeRequest => d.power.pending == Nothing && d.power.suspended
    case Answered(_) => d.power.pending != Nothing && !d.power.waiting && !d.queue.suspend && !d.queue.resume
    case FlushIdle => d.flush
    case _ => true
  }

  /** What the documentation demands of drivers: all sections are left before an action completes. */
  predicate Careful(d: Device, e: Event) {
    (e == Complete ==> d.sections == 0) && (e == EnterSection ==> !d.task.returning)
  }

  predicate Enabled(d: Device, e: Event) { MayOccur(d, e) && Careful(d, e) }

  function Step(driver: Driver, d: Device, e: Event): Device {
    match e
    case Start(action) => d.(task := Task(action, false, false))
    case Complete => d.(task := d.task.(returning := true))
    case ReturnInIdle => Returned(d)
    case EnterSection => Enter(d)
    case LeaveSection => Leave(d)
    case CancelRequest =>
      CancelInIdle(d.(task := d.task.(asked := true), ledger := d.ledger.(cancels := d.ledger.cancels + 1)))
    case SuspendRequest =>
      DoSuspend(driver, d.(power := d.power.(pending := Suspending),
                           ledger := d.ledger.(suspends := d.ledger.suspends + 1)))
    case ResumeRequest =>
      DoResume(driver, d.(power := d.power.(pending := Resuming),
                          ledger := d.ledger.(resumes := d.ledger.resumes + 1)))
    case Answered(ok) => DriverAnswers(d, ok)
    case FlushIdle => Flush(driver, d)
  }

  predicate Feasible(driver: Driver, d: Device, events: seq<Event>)
    decreases events
  {
    events == [] || (Enabled(d, events[0]) && Feasible(driver, Step(driver, d, events[0]), events[1..]))
  }

  function Run(driver: Driver, d: Device, events: seq<Event>): Device
    decreases events
  {
    if events == [] then d else Run(driver, Step(driver, d, events[0]), events[1..])
  }

  // ----- what every run keeps ------------------------------------------------------------------

  predicate IntoDriver(call: Call) { call == Cancel || call == Suspend || call == Resume }

  /** No call into the driver was made while a critical section was open. */
  predicate Shielded(log: seq<Entry>) {
    forall i | 0 <= i < |log| :: IntoDriver(log[i].call) ==> log[i].sections == 0
  }

  predicate Queued(q: Queue) { q.cancel || q.suspend || q.resume }

  /** The sections, the flush source and the queue agree: whatever is queued will be flushed. */
  predicate Control(driver: Driver, d: Device) {
    (d.sections > 0 ==> !d.flush && d.task.action != NoAction && !d.task.returning) &&
    (d.flush ==> d.task.action != NoAction) &&
    (d.task.returning ==> d.task.action != NoAction) &&
    (Queued(d.queue) ==> d.sections > 0 || d.flush) &&
    (d.queue.cancel ==> d.task.asked) &&
    (d.queue.suspend ==> d.power.pending == Suspending && d.task.action == Long && driver.suspends) &&
    (d.queue.resume ==> d.power.pending == Resuming && d.task.action == Long && driver.resumes) &&
    (d.power.waiting ==> d.power.pending == Suspending && d.task.action != NoAction && !d.queue.suspend)
  }

  predicate Inv(driver: Driver, d: Device) { Control(driver, d) && Shielded(d.log) }

  lemma FlushKeepsControl(driver: Driver, d: Device)
    requires Control(driver, d) && d.flush
    ensures Control(driver, Flush(driver, d))
  {
  }

  lemma StepKeepsControl(driver: Driver, d: Device, e: Event)
    requires Control(driver, d) && Enabled(d, e)
    ensures Control(driver, Step(driver, d, e))
  {
    if e == FlushIdle { FlushKeepsControl(driver, d); }
  }

  /** Requests and the calls that answer them. */
  datatype Request = ToCancel | ToSuspend | ToResume

  function RequestOf(call: Call): Request {
    match call
    case Cancel => ToCancel
    case Suspend => ToSuspend
    case SuspendDone(_) => ToSuspend
    case AwaitTask => ToSuspend
    case _ => ToResume
  }

  function Bit(b: bool): nat { if b then 1 else 0 }

  function Count(log: seq<Entry>, r: Request): nat {
    if log == [] then 0 else Count(log[..|log| - 1], r) + Bit(RequestOf(log[|log| - 1].call) == r)
  }

  function InQueue(q: Queue, r: Request): nat {
    match r
    case ToCancel => Bit(q.cancel)
    case ToSuspend => Bit(q.suspend)
    case ToResume => Bit(q.resume)
  }

  function Asked(l: Ledger, r: Request): int {
    match r
    case ToCancel => l.cancels - l.dropped
    case ToSuspend => l.suspends
    case ToResume => l.resumes
  }

  /** Every request has been answered once, or is queued; a cancellation may have been dropped instead. */
  predicate Balanced(d: Device, r: Request) {
    Count(d.log, r) + InQueue(d.queue, r) == Asked(d.ledger, r)
  }

  lemma LogGrows(log: seq<Entry>, e: Entry, r: Request)
    requires Shielded(log) && (IntoDriver(e.call) ==> e.sections == 0)
    ensures Shielded(log + [e])
    ensures Count(log + [e], r) == Count(log, r) + Bit(RequestOf(e.call) == r)
  {
    assert (log + [e])[..|log|] == log;
  }

  /** The call a step made, if any. */
  function NewCall(d: Device, after: Device): Option<Call> {
    if |after.log| > |d.log| then Some(after.log[|d.log|].call) else None
  }

  /** What holds however careless the driver is. */
  predicate LooseInv(d: Device) {
    (d.sections > 0 ==> !d.flush) &&
    (d.queue.suspend ==> d.power.pending == Suspending && !d.power.waiting) &&
    (d.queue.resume ==> d.power.pending == Resuming) &&
    (d.power.waiting ==> d.power.pending == Suspending)
  }

  lemma LooseStep(driver: Driver, d: Device, e: Event)
    requires MayOccur(d, e) && LooseInv(d)
    ensures LooseInv(Step(driver, d, e))
  {
  }

  /** A step makes at most one call, and none into the driver inside a section. */
  lemma LooseLogs(driver: Driver, d: Device, e: Event)
    requires MayOccur(d, e) && LooseInv(d)
    ensures var after := Step(driver, d, e);
            match NewCall(d, after)
            case None => after.log == d.log
            case Some(call) => after.log == d.log + [Entry(call, d.sections)] && (IntoDriver(call) ==> d.sections == 0)
  {
  }

  /** A cancellation that finds another one queued behind a section. */
  predicate Merges(d: Device, e: Event) { e == CancelRequest && d.queue.cancel && d.sections > 0 }

  /** The bookkeeping of one step: what leaves the queue or is asked for anew is answered, queued or merged. */
  lemma LooseMoves(driver: Driver, d: Device, e: Event, r: Request)
    requires MayOccur(d, e) && LooseInv(d)
    ensures var after := Step(driver, d, e);
            var call := NewCall(d, after);
            InQueue(after.queue, r) - InQueue(d.queue, r) + Bit(call.Some? && RequestOf(call.value) == r) +
            Bit(r == ToCancel && Merges(d, e)) == Asked(after.ledger, r) - Asked(d.ledger, r)
  {
    if e == FlushIdle { LooseFlushMoves(driver, d, r); }
  }

  lemma LooseFlushMoves(driver: Driver, d: Device, r: Request)
    requires d.flush && LooseInv(d)
    ensures var after := Flush(driver, d);
            var call := NewCall(d, after);
            InQueue(after.queue, r) - InQueue(d.queue, r) + Bit(call.Some? && RequestOf(call.value) == r) ==
            Asked(after.ledger, r) - Asked(d.ledger, r)
  {
  }

  lemma StepKeepsInv(driver: Driver, d: Device, e: Event, r: Request)
    requires Inv(driver, d) && Enabled(d, e) && Balanced(d, r)
    ensures Inv(driver, Step(driver, d, e)) && Balanced(Step(driver, d, e), r)
  {
    StepKeepsControl(driver, d, e);
    LooseLogs(driver, d, e);
    LooseMoves(driver, d, e, r);
    var call := NewCall(d, Step(driver, d, e));
    if call.Some? { LogGrows(d.log, Entry(call.value, d.sections), r); }
  }

  /** Over every run no driver call falls into a critical section, and no request is lost or repeated. */
  lemma {:induction false} EveryRunIsShielded(driver: Driver, d: Device, events: seq<Event>, r: Request)
    requires Inv(driver, d) && Balanced(d, r) && Feasible(driver, d, events)
    ensures Inv(driver, Run(driver, d, events)) && Balanced(Run(driver, d, events), r)
    decreases events
  {
    if events != [] {
      StepKeepsInv(driver, d, events[0], r);
      EveryRunIsShielded(driver, Step(driver, d, events[0]), events[1..], r);
    }
  }

  lemma InitialInv(driver: Driver, r: Request)
    ensures Inv(driver, Initial()) && LooseInv(Initial()) && Balanced(Initial(), r)
  {
  }

  lemma RunsFromStart(driver: Driver, events: seq<Event>, r: Request)
    requires Feasible(driver, Initial(), events)
    ensures Inv(driver, Run(driver, Initial(), events)) && Balanced(Run(driver, Initial(), events), r)
  {
    InitialInv(driver, r);
    EveryRunIsShielded(driver, Initial(), events, r);
  }

  // ----- drivers that are not careful ---------------------------------------------------------

  predicate Loose(driver: Driver, d: Device, events: seq<Event>)
    decreases events
  {
    events == [] || (MayOccur(d, events[0]) && Loose(driver, Step(driver, d, events[0]), events[1..]))
  }

  function Merged(driver: Driver, d: Device, events: seq<Event>): nat
    decreases events
  {
    if events == [] then 0 else Bit(Merges(d, events[0])) + Merged(driver, Step(driver, d, events[0]), events[1..])
  }

  function Missing(d: Device, r: Request): int { Asked(d.ledger, r) - Count(d.log, r) - InQueue(d.queue, r) }

  /**
   Every driver, careful or not, is left alone inside its critical sections; and of the
   requests exactly those cancellations are missing that met another one queued.
   */
  lemma {:induction false} LooseRunsExactly(driver: Driver, d: Device, events: seq<Event>, r: Request)
    requires LooseInv(d) && Shielded(d.log) && Loose(driver, d, events)
    ensures var t := Run(driver, d, events);
            && Shielded(t.log)
            && Missing(t, r) == Missing(d, r) + if r == ToCancel then Merged(driver, d, events) else 0
    decreases events
  {
    if events != [] {
      var t := Step(driver, d, events[0]);
      LooseStep(driver, d, events[0]);
      LooseLogs(driver, d, events[0]);
      LooseMoves(driver, d, events[0], r);
      var call := NewCall(d, t);
      if call.Some? { LogGrows(d.log, Entry(call.value, d.sections), r); }
      LooseRunsExactly(driver, t, events[1..], r);
    }
  }

  /** Over every run of any driver: all requests are accounted for exactly when no cancellation met another one queued. */
  lemma BalancedExactly(driver: Driver, d: Device, events: seq<Event>)
    requires LooseInv(d) && Shielded(d.log) && Loose(driver, d, events)
    requires Balanced(d, ToCancel) && Balanced(d, ToSuspend) && Balanced(d, ToResume)
    ensures var t := Run(driver, d, events);
            && Shielded(t.log) && Balanced(t, ToSuspend) && Balanced(t, ToResume)
            && (Balanced(t, ToCancel) <==> Merged(driver, d, events) == 0)
  {
    LooseRunsExactly(driver, d, events, ToCancel);
    LooseRunsExactly(driver, d, events, ToSuspend);
    LooseRunsExactly(driver, d, events, ToResume);
  }

  /** An action completed inside a section can bring that about: two cancellations are queued as one. */
  lemma CarelessLosesRequest(driver: Driver)
    ensures var events := [Start(Long), EnterSection, CancelRequest, Complete, ReturnInIdle, Start(Long), CancelRequest];
            Loose(driver, Initial(), events) && !Balanced(Run(driver, Initial(), events), ToCancel)
  {
    var d0 := Initial();
    var d1 := Step(driver, d0, Start(Long));
    var d2 := Step(driver, d1, EnterSection);
    var d3 := Step(driver, d2, CancelRequest);
    var d4 := Step(driver, d3, Complete);
    var d5 := Step(driver, d4, ReturnInIdle);
    LostInSecondAction(driver, d5);
    var last := [Start(Long), CancelRequest];
    assert Loose(driver, d4, [ReturnInIdle] + last) && Run(driver, d4, [ReturnInIdle] + last) == Run(driver, d5, last) by {
      assert ([ReturnInIdle] + last)[1..] == last;
    }
    var more := [Complete] + ([ReturnInIdle] + last);
    assert Loose(driver, d3, more) && Run(driver, d3, more) == Run(driver, d5, last) by {
      assert more[1..] == [ReturnInIdle] + last;
    }
    assert [Start(Long), EnterSection, CancelRequest, Complete, ReturnInIdle, Start(Long), CancelRequest] ==
           [Start(Long)] + ([EnterSection] + ([CancelRequest] + more));
    assert ([CancelRequest] + more)[1..] == more;
    assert ([EnterSection] + ([CancelRequest] + more))[1..] == [CancelRequest] + more;
    assert ([Start(Long)] + ([EnterSection] + ([CancelRequest] + more)))[1..] == [EnterSection] + ([CancelRequest] + more);
  }

  lemma LostInSecondAction(driver: Driver, d: Device)
    requires d.task.action == NoAction && !d.power.suspended && d.sections == 1
    requires d.queue.cancel && d.ledger == Ledger(1, 0, 0, 0) && d.log == []
    ensures var events := [Start(Long), CancelRequest];
            Loose(driver, d, events) && !Balanced(Run(driver, d, events), ToCancel)
  {
    var d1 := Step(driver, d, Start(Long));
    var d2 := Step(driver, d1, CancelRequest);
    assert Loose(driver, d2, []) && Run(driver, d2, []) == d2;
    assert Loose(driver, d1, [CancelRequest]) && Run(driver, d1, [CancelRequest]) == d2;
  }

  // ----- the assertion at resume -------------------------------------------------------------

  predicate IsShort(action: Action) { action == Short || action == ClearStorage }

  /** The resume's assertion is reached exactly by a resume request during a short action. */
  lemma AssertionExactly(driver: Driver, d: Device, e: Event)
    requires Control(driver, d) && Enabled(d, e)
    ensures NewCall(d, Step(driver, d, e)) == Some(NotReached) <==> e == ResumeRequest && IsShort(d.task.action)
  {
  }

  /** Clearing the storage of a suspended device makes the next resume reach it. */
  lemma ClearStorageReachesAssertion(driver: Driver)
    ensures var events := [SuspendRequest, Start(ClearStorage), ResumeRequest];
            Feasible(driver, Initial(), events) &&
            Run(driver, Initial(), events).log == [Entry(SuspendDone(true), 0), Entry(NotReached, 0)]
  {
    var d0 := Initial();
    var d1 := Step(driver, d0, SuspendRequest);
    var d2 := Step(driver, d1, Start(ClearStorage));
    var d3 := Step(driver, d2, ResumeRequest);
    assert Feasible(driver, d3, []) && Run(driver, d3, []) == d3;
    assert Feasible(driver, d2, [ResumeRequest]) && Run(driver, d2, [ResumeRequest]) == d3;
    assert Feasible(driver, d1, [Start(ClearStorage), ResumeRequest]) &&
           Run(driver, d1, [Start(ClearStorage), ResumeRequest]) == d3;
  }

  /** Which steps change whether the device counts as suspended, and to what. */
  lemma SuspendedExactly(driver: Driver, d: Device, e: Event)
    requires Control(driver, d) && Enabled(d, e)
    ensures Step(driver, d, e).power.suspended ==
            match e
            case SuspendRequest => d.task.action == NoAction || (d.task.action == Long && !driver.suspends)
            case ResumeRequest => !(d.task.action == NoAction || (d.task.action == Long && !driver.resumes))
            case Answered(_) => d.power.pending == Suspending
            case _ => d.power.suspended
  {
  }

  /** When a request is over: at once if it needs no driver, else with the driver's answer or the action's return. */
  lemma PendingExactly(driver: Driver, d: Device, e: Event)
    requires Control(driver, d) && Enabled(d, e)
    ensures Step(driver, d, e).power.pending ==
            match e
            case SuspendRequest => if d.task.action == NoAction then Nothing else Suspending
            case ResumeRequest => if d.task.action == Long && driver.resumes then Resuming else Nothing
            case Answered(ok) => if d.power.pending == Suspending && !ok && d.task.action != NoAction then Suspending else Nothing
            case ReturnInIdle => if d.power.waiting then Nothing else d.power.pending
            case _ => d.power.pending
  {
  }

  /** Whether a step takes up a request: a new one, or the first in the queue of the idle source. */
  predicate TakesUp(d: Device, e: Event, r: Request) {
    match r
    case ToCancel => e == CancelRequest || (e == FlushIdle && d.queue.cancel)
    case ToSuspend => e == SuspendRequest || (e == FlushIdle && !d.queue.cancel && d.queue.suspend)
    case ToResume => e == ResumeRequest || (e == FlushIdle && !d.queue.cancel && !d.queue.suspend && d.queue.resume)
  }

  /** Which calls a step makes: by the request it takes up, the action, the sections and the driver's handlers. */
  lemma CallExactly(driver: Driver, d: Device, e: Event, call: Call)
    requires Control(driver, d) && Enabled(d, e)
    ensures NewCall(d, Step(driver, d, e)) == Some(call) <==>
            TakesUp(d, e, RequestOf(call)) &&
            match call
            case Cancel => d.sections == 0 && !d.task.returning
            case Suspend => d.sections == 0 && d.task.action == Long && driver.suspends
            case Resume => d.sections == 0 && d.task.action == Long && driver.resumes
            case SuspendDone(supported) => if supported then d.task.action == NoAction else d.task.action == Long && !driver.suspends
            case ResumeDone(supported) => if supported then d.task.action == NoAction else d.task.action == Long && !driver.resumes
            case AwaitTask => IsShort(d.task.action)
            case NotReached => IsShort(d.task.action)
  {
  }

  /** A suspend that is refused or put off is answered exactly when the action it waits for returns. */
  lemma WaitingEndsExactly(driver: Driver, d: Device, e: Event)
    requires Control(driver, d) && Enabled(d, e) && d.power.waiting
    ensures Step(driver, d, e).power.pending == Nothing <==> e == ReturnInIdle
    ensures Step(driver, d, e).power.waiting <==> e != ReturnInIdle
  {
  }

  // ----- draining --------------------------------------------------------------------------------

  function Flushes(driver: Driver, d: Device, n: nat): Device
    decreases n
  {
    if n == 0 then d else Flushes(driver, Flush(driver, d), n - 1)
  }

  function Waiting(q: Queue): nat { Bit(q.cancel) + Bit(q.suspend) + Bit(q.resume) }

  /** The calls a queue leads to, in the order they are made. */
  function Delivery(d: Device): seq<Entry> {
    (if d.queue.cancel && !d.task.returning then [Entry(Cancel, 0)] else []) +
    (if d.queue.suspend then [Entry(Suspend, 0)] else []) +
    (if d.queue.resume then [Entry(Resume, 0)] else [])
  }

  lemma FlushKeepsInv(driver: Driver, d: Device)
    requires Inv(driver, d) && d.flush
    ensures Inv(driver, Flush(driver, d))
  {
    FlushKeepsControl(driver, d);
    LooseLogs(driver, d, FlushIdle);
    var call := NewCall(d, Flush(driver, d));
    if call.Some? { LogGrows(d.log, Entry(call.value, d.sections), ToCancel); }
  }

  lemma FlushDelivers(driver: Driver, d: Device)
    requires Inv(driver, d) && d.flush && Queued(d.queue)
    ensures var after := Flush(driver, d);
            Inv(driver, after) && after.flush && Waiting(after.queue) == Waiting(d.queue) - 1 &&
            after.log + Delivery(after) == d.log + Delivery(d)
  {
    FlushKeepsInv(driver, d);
  }

  /** Undisturbed, the idle source hands over every queued request in order, and then goes away. */
  lemma {:induction false} FlushDrains(driver: Driver, d: Device)
    requires Inv(driver, d) && d.flush
    ensures var after := Flushes(driver, d, Waiting(d.queue) + 1);
            !after.flush && !Queued(after.queue) && after.log == d.log + Delivery(d)
    decreases Waiting(d.queue)
  {
    if Queued(d.queue) {
      FlushDelivers(driver, d);
      FlushDrains(driver, Flush(driver, d));
    } else {
      assert Flushes(driver, d, 1) == Flushes(driver, Flush(driver, d), 0);
    }
  }

  /**
   A queued cancellation reaches the driver exactly while its action runs; a queued suspend
   or resume does so all the same after the action has completed.
   */
  lemma DeliveredExactly(driver: Driver, d: Device) returns (made: seq<Entry>)
    requires Inv(driver, d) && d.flush
    ensures Flushes(driver, d, Waiting(d.queue) + 1).log == d.log + made
    ensures Entry(Cancel, 0) in made <==> d.queue.cancel && !d.task.returning
    ensures Entry(Suspend, 0) in made <==> d.queue.suspend
    ensures Entry(Resume, 0) in made <==> d.queue.resume
  {
    FlushDrains(driver, d);
    made := Delivery(d);
  }

  /** A run in which a suspend is delivered after the completion of the action. */
  lemma SuspendAfterCompletion()
    ensures var driver := Driver(true, true);
            var events := [Start(Long), EnterSection, SuspendRequest, LeaveSection, Complete, FlushIdle];
            Feasible(driver, Initial(), events) && Run(driver, Initial(), events).task.returning &&
            Run(driver, Initial(), events).log == [Entry(Suspend, 0)]
  {
    var driver, d0 := Driver(true, true), Initial();
    var d1 := Step(driver, d0, Start(Long));
    var d2 := Step(driver, d1, EnterSection);
    var d3 := Step(driver, d2, SuspendRequest);
    var d4 := Step(driver, d3, LeaveSection);
    var d5 := Step(driver, d4, Complete);
    var d6 := Step(driver, d5, FlushIdle);
    assert Feasible(driver, d6, []) && Run(driver, d6, []) == d6;
    assert Feasible(driver, d5, [FlushIdle]) && Run(driver, d5, [FlushIdle]) == d6;
    assert Feasible(driver, d4, [Complete, FlushIdle]) && Run(driver, d4, [Complete, FlushIdle]) == d6;
    assert Feasible(driver, d3, [LeaveSection, Complete, FlushIdle]) &&
           Run(driver, d3, [LeaveSection, Complete, FlushIdle]) == d6;
    assert Feasible(driver, d2, [SuspendRequest, LeaveSection, Complete, FlushIdle]) &&
           Run(driver, d2, [SuspendRequest, LeaveSection, Complete, FlushIdle]) == d6;
  }
}

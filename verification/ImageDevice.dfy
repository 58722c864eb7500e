/**
 The action machine of libfprint's image devices: one value-level function per
 C function, one event per call that can reach the machine from outside, and
 the safety of every run of such events.
 */
module ImageDevice {
  import opened Options

  datatype Phase =
    | Inactive | Activating | Idle | AwaitFingerOn | Capture | AwaitFingerOff | Deactivating

  datatype Action = NoAction | Enroll | Verify | Identify | TakeImage

  /** Retry stands for the FP_DEVICE_RETRY domain, Cancelled for G_IO_ERROR_CANCELLED. */
  datatype Error = Retry(code: nat) | Cancelled | Fatal(code: nat)

  datatype Completion = Failed(error: Error) | Done(image: Option<nat>)

  /** FpImageDevicePrivate. */
  datatype Image = Image(
    phase: Phase, active: bool, fingerPresent: bool, enrollStage: nat,
    scanActive: bool, actionError: Option<Error>, captureImage: Option<nat>)

  /** The fields of the parent device that the machine touches; prints are named by their scan. */
  datatype Device = Device(
    action: Action, cancelled: bool, returning: bool, resultReported: bool,
    template: seq<nat>, base: nat, stages: nat)

  /** What a caller was told: the device as it was then, and every error handed in before. */
  datatype Report = Report(completion: Completion, dev: Device, errors: seq<Error>)

  /** Running extraction tasks, and the record of what happened. */
  datatype History = History(
    outstanding: nat, scanNumber: nat, errors: seq<Error>,
    started: seq<Action>, reports: seq<Report>,
    warnings: nat, failedAssertions: nat,
    notIdle: nat)   // deactivations outside IDLE that no cancellation explains

  datatype State = State(img: Image, dev: Device, log: History)

  function Init(stages: nat): State {
    State(Image(Inactive, false, false, 0, false, None, None),
          Device(NoAction, false, false, false, [], 0, stages),
          History(0, 0, [], [], [], 0, 0, 0))
  }

  // ----- fpi-image-device.c, static helpers -------------------------------

  predicate ValidTransition(from: Phase, to: Phase) {
    match from
    case Inactive => to == Activating
    case Activating => to == Idle || to == Inactive
    case Idle => to == AwaitFingerOn || to == Capture || to == Deactivating
    case AwaitFingerOn => to == Capture || to == Deactivating
    case Capture => to == AwaitFingerOff || to == Idle || to == Deactivating
    case AwaitFingerOff => to == Idle || to == Deactivating
    case Deactivating => to == Inactive
  }

  function Warn(log: History, bad: bool): History {
    if bad then log.(warnings := log.warnings + 1) else log
  }

  function Assert(log: History, holds: bool): History {
    if holds then log else log.(failedAssertions := log.failedAssertions + 1)
  }

  function ChangeState(s: State, to: Phase): State {
    s.(img := s.img.(phase := to), log := Warn(s.log, !ValidTransition(s.img.phase, to)))
  }

  function EnrollMaybeAwaitFingerOn(s: State): State {
    if s.img.scanActive || s.img.fingerPresent then s else ChangeState(s, AwaitFingerOn)
  }

  /** The error kept when `error` arrives while `kept` is stored. */
  function Keep(kept: Option<Error>, error: Error): Option<Error> {
    if kept.Some? && !kept.value.Retry? then kept else Some(error)
  }

  function NoteError(s: State, error: Option<Error>): State {
    if error.None? then s
    else s.(img := s.img.(actionError := Keep(s.img.actionError, error.value)),
            log := s.log.(errors := s.log.errors + [error.value]))
  }

  /** The fpi_device_*_complete family: refused without a current action. */
  function Complete(s: State, c: Completion): State {
    if s.dev.action == NoAction then s
    else s.(dev := s.dev.(returning := true),
            log := s.log.(reports := s.log.reports + [Report(c, s.dev, s.log.errors)]))
  }

  /** The part of fp_image_device_maybe_complete_action after the early return. */
  function CompleteAction(s: State): State {
    var error := if s.img.actionError.None? && s.dev.cancelled then Some(Cancelled) else s.img.actionError;
    if error.Some? then
      Complete(s, Failed(error.value)).(img := s.img.(actionError := None, captureImage := None))
    else if s.dev.action == NoAction then s.(log := Assert(s.log, false))
    else if s.dev.action == TakeImage then
      Complete(s, Done(s.img.captureImage)).(img := s.img.(captureImage := None))
    else Complete(s, Done(None))
  }

  function MaybeCompleteAction(s: State, error: Option<Error>): State {
    if s.img.active || s.img.scanActive then NoteError(s, error) else CompleteAction(NoteError(s, error))
  }

  function Deactivate(s: State, cancelling: bool): State {
    if !s.img.active || s.img.phase == Deactivating then s
    else
      ChangeState(s.(log := s.log.(notIdle := s.log.notIdle + if !cancelling && s.img.phase != Idle then 1 else 0)),
                  Deactivating)
  }

  // ----- driver entry points ---------------------------------------------

  function ReportFingerStatus(s: State, present: bool): State {
    if s.img.phase == Inactive then s
    else
      var t := s.(img := s.img.(fingerPresent := present));
      if present && s.img.phase == AwaitFingerOn then ChangeState(t, Capture)
      else if !present && s.img.phase == AwaitFingerOff then
        var idle := ChangeState(t, Idle);
        if s.dev.action != Enroll then Deactivate(idle, false) else EnrollMaybeAwaitFingerOn(idle)
      else t
  }

  function ImageCaptured(s: State): State {
    if s.img.phase != Capture || s.dev.action == NoAction then s
    else
      ChangeState(
        s.(img := s.img.(scanActive := true),
           log := s.log.(outstanding := s.log.outstanding + 1, scanNumber := s.log.scanNumber + 1)),
        AwaitFingerOff)
  }

  function ReportResult(s: State): State {
    s.(dev := s.dev.(resultReported := true))
  }

  function RetryScan(s: State, code: nat): State {
    if s.img.phase == Inactive || s.dev.action == NoAction then s
    else if s.dev.action == Enroll then ChangeState(s, AwaitFingerOff)
    else if s.dev.action == TakeImage then Deactivate(MaybeCompleteAction(s, Some(Retry(code))), true)
    else Deactivate(MaybeCompleteAction(ReportResult(s), None), true)
  }

  function ActivateComplete(s: State, error: Option<Error>): State {
    if s.img.active || s.img.phase != Activating || s.dev.action == NoAction then s
    else if error.Some? then Complete(s, Failed(error.value))
    else ChangeState(ChangeState(s.(img := s.img.(active := true)), Idle), AwaitFingerOn)
  }

  function DeactivateComplete(s: State, error: Option<Error>): State {
    if !s.img.active || s.img.phase != Deactivating then s
    else
      MaybeCompleteAction(
        ChangeState(s.(img := s.img.(active := false, fingerPresent := false)), Inactive), error)
  }

  function SessionError(s: State, error: Error): State {
    if !s.img.active && s.dev.action != NoAction then ActivateComplete(s, Some(error))
    else if s.img.active && error == Cancelled && s.dev.cancelled then s
    else if s.img.active && s.img.phase == Inactive then s
    else Deactivate(MaybeCompleteAction(s, Some(error)), true)
  }

  // ----- feature extraction ----------------------------------------------

  /** What the extraction thread, print creation and matching produced. */
  datatype Scan = Scan(detected: bool, addError: Option<Error>, matchError: Option<Error>)

  function AddPrint(s: State): State {
    s.(img := s.img.(enrollStage := s.img.enrollStage + 1),
       dev := s.dev.(template := s.dev.template + [s.log.scanNumber]))
  }

  /** The enroll, verify and identify branches of fpi_image_device_minutiae_detected. */
  function UsePrint(s: State, hasPrint: bool, error: Option<Error>, matchError: Option<Error>): State {
    if s.dev.action == Enroll then
      var t := if hasPrint then AddPrint(s) else s;
      if t.img.enrollStage == t.dev.stages then Deactivate(MaybeCompleteAction(t, error), false)
      else EnrollMaybeAwaitFingerOn(t)
    else if s.dev.action == Verify || s.dev.action == Identify then
      var e := if hasPrint then matchError else error;
      if e.None? || e.value.Retry? then MaybeCompleteAction(ReportResult(s), None)
      else MaybeCompleteAction(s, e)
    else s.(log := Assert(s.log, false))
  }

  const DETECTION_FAILED := Retry(0)

  function EndScan(s: State): State
    requires s.log.outstanding > 0
  {
    s.(img := s.img.(scanActive := false), log := s.log.(outstanding := s.log.outstanding - 1))
  }

  function MinutiaeDetected(s: State, scan: Scan): State
    requires s.log.outstanding > 0
  {
    AfterScan(EndScan(s), scan)
  }

  function AfterScan(t: State, scan: Scan): State {
    var error := if scan.detected then None else Some(DETECTION_FAILED);
    // The finish call reports cancellation whenever the cancellable is cancelled.
    if t.dev.cancelled then Deactivate(MaybeCompleteAction(t, Some(Cancelled)), true)
    else if t.dev.action == TakeImage then
      MaybeCompleteAction(t.(img := t.img.(captureImage := Some(t.log.scanNumber))), error)
    else if scan.detected && scan.addError.Some? then
      if scan.addError.value.Retry? then UsePrint(t, false, scan.addError, None)
      else Deactivate(MaybeCompleteAction(t, scan.addError), true)
    else UsePrint(t, scan.detected, error, scan.matchError)
  }

  // ----- fp-image-device.c and the parent device -------------------------

  const NOT_SUPPORTED := Fatal(0)

  /** fp_device_enroll() and friends followed by fp_image_device_start_capture_action(). */
  function StartAction(s: State, action: Action, waitForFinger: bool, template: seq<nat>): State {
    var t := s.(dev := Device(action, false, false, false, template, |template|, s.dev.stages),
                log := s.log.(errors := [], started := s.log.started + [action]));
    if action == TakeImage && !waitForFinger then
      Complete(t.(log := t.log.(errors := [NOT_SUPPORTED])), Failed(NOT_SUPPORTED))
    else
      var checks := Assert(Assert(Assert(t.log, !s.img.fingerPresent), !s.img.scanActive), !s.img.active);
      ChangeState(t.(img := t.img.(enrollStage := 0), log := checks), Activating)
  }

  function CancelVfunc(s: State): State {
    if s.dev.action == NoAction then s else Deactivate(s, true)
  }

  /** fp_device_task_return_in_idle_cb(). */
  function ReturnInIdle(s: State): State {
    s.(dev := s.dev.(action := NoAction, returning := false, cancelled := false))
  }

  // ----- runs -------------------------------------------------------------

  datatype Event =
    | Start(action: Action, waitForFinger: bool, template: seq<nat>)
    | Activated(error: Option<Error>)
    | Finger(present: bool)
    | ImageTaken
    | RetryRequested(code: nat)
    | SessionFailed(cause: Error)
    | Deactivated(error: Option<Error>)
    | ScanFinished(scan: Scan)
    | UserCancels        // the cancellable becomes cancelled
    | CancelDispatched   // the idle source or the critical-section flush calls the cancel vfunc
    | Returned           // the idle source hands the result to the caller

  /** What libfprint itself guarantees about when an event can occur. */
  predicate Possible(s: State, e: Event) {
    match e
    case Start(a, _, _) => s.dev.action == NoAction && a != NoAction
    case ScanFinished(_) => s.log.outstanding > 0
    case UserCancels => s.dev.action != NoAction
    case CancelDispatched => s.dev.cancelled && s.dev.action != NoAction && !s.dev.returning
    case Returned => s.dev.returning
    case _ => true
  }

  /** What a driver has to respect for the machine to stay inside its own table. */
  predicate DriverContract(s: State, e: Event) {
    match e
    case Activated(error) => s.img.phase == Activating ==> error.None?
    case Finger(present) =>
      !present && s.img.phase == Capture ==> s.dev.action != Enroll || s.dev.cancelled
    case RetryRequested(_) =>
      && s.img.phase != Activating
      && (s.dev.action == Enroll && s.img.phase != Inactive ==> s.img.phase == Capture)
    case SessionFailed(_) =>
      && s.img.phase != Activating
      && (s.dev.action == Enroll && s.img.scanActive ==> s.dev.cancelled)
    case _ => true
  }

  function Step(s: State, e: Event): State
    requires Possible(s, e)
  {
    match e
    case Start(a, wait, template) => StartAction(s, a, wait, template)
    case Activated(error) => ActivateComplete(s, error)
    case Finger(present) => ReportFingerStatus(s, present)
    case ImageTaken => ImageCaptured(s)
    case RetryRequested(code) => RetryScan(s, code)
    case SessionFailed(cause) => SessionError(s, cause)
    case Deactivated(error) => DeactivateComplete(s, error)
    case ScanFinished(scan) => MinutiaeDetected(s, scan)
    case UserCancels => s.(dev := s.dev.(cancelled := true))
    case CancelDispatched => CancelVfunc(s)
    case Returned => ReturnInIdle(s)
  }

  /** Every event of the list can occur in turn and keeps the driver contract. */
  predicate Runs(s: State, events: seq<Event>)
    decreases |events|
  {
    events == [] ||
    (Possible(s, events[0]) && DriverContract(s, events[0]) && Runs(Step(s, events[0]), events[1..]))
  }

  function After(s: State, events: seq<Event>): State
    requires Runs(s, events)
    decreases |events|
  {
    if events == [] then s else After(Step(s, events[0]), events[1..])
  }

  // ----- what every run keeps --------------------------------------------

  function FirstFinal(errors: seq<Error>): Option<Error> {
    if errors == [] then None
    else if !errors[0].Retry? then Some(errors[0])
    else FirstFinal(errors[1..])
  }

  /** The error a list of errors stands for: the first that is no retry, else the last. */
  function Verdict(errors: seq<Error>): Option<Error> {
    if FirstFinal(errors).Some? then FirstFinal(errors)
    else if errors != [] then Some(errors[|errors| - 1])
    else None
  }

  predicate InProgress(dev: Device) { dev.action != NoAction && !dev.returning }

  predicate Down(p: Phase) { p == Deactivating || p == Inactive }

  /** Flags and phases agree; nothing was warned about and no assertion failed. */
  ghost predicate PhasesAgree(s: State) {
    var i := s.img;
    && (i.active <==> i.phase != Inactive && i.phase != Activating)
    && s.log.outstanding == (if i.scanActive then 1 else 0)
    && (i.phase == Activating || i.phase == AwaitFingerOn || i.phase == Capture ==> !i.scanActive)
    && (i.phase == Capture || i.phase == AwaitFingerOff ==>
          i.fingerPresent || s.dev.action != Enroll || s.dev.cancelled)
    && (i.phase == Inactive ==> !i.fingerPresent)
    && (i.phase == Idle ==> s.dev.action == Enroll)
    && s.log.warnings == 0 && s.log.failedAssertions == 0
  }

  /** The started actions have been reported in order, except the one still pending. */
  ghost predicate ReportsAgree(s: State) {
    && |s.log.reports| == (if InProgress(s.dev) then |s.log.started| - 1 else |s.log.started|)
    && (s.dev.action != NoAction ==> s.log.started != [] && s.log.started[|s.log.started| - 1] == s.dev.action)
    && forall i :: 0 <= i < |s.log.reports| ==>
         HonestReport(s.log.reports[i]) && s.log.reports[i].dev.action == s.log.started[i]
  }

  /** While an action is pending the stored error is the verdict; afterwards nothing is left over. */
  ghost predicate ErrorAgrees(s: State) {
    && s.dev.stages > 0
    && (s.dev.returning ==> s.dev.action != NoAction)
    && (s.img.captureImage.Some? ==> s.dev.action == TakeImage)
    && (if InProgress(s.dev) then s.img.actionError == Verdict(s.log.errors)
        else s.img.actionError.None? && s.img.captureImage.None?)
  }

  /** An action is pending exactly until the device is down and no scan is running. */
  ghost predicate CompletionAgrees(s: State) {
    InProgress(s.dev) <==> s.img.phase != Inactive || s.img.scanActive
  }

  /** Why a pending action is on its way down: there is always something to tell the caller. */
  ghost predicate HasOutcome(s: State) {
    s.log.errors != [] || s.dev.cancelled || s.img.scanActive ||
    (match s.dev.action
     case Enroll => s.img.enrollStage == s.dev.stages
     case TakeImage => s.img.captureImage.Some?
     case _ => s.dev.resultReported)
  }

  ghost predicate OutcomeAgrees(s: State) {
    InProgress(s.dev) ==>
      && (Down(s.img.phase) ==> HasOutcome(s))
      && (s.dev.action != Enroll && s.img.phase == AwaitFingerOff ==> HasOutcome(s))
      && (s.dev.action == Enroll && Down(s.img.phase) && s.img.scanActive ==> s.dev.cancelled)
  }

  /** The prints added after the first `base` come from strictly later and later scans. */
  ghost predicate DistinctScans(template: seq<nat>, base: nat) {
    forall i, j :: base <= i < j < |template| ==> template[i] < template[j]
  }

  ghost predicate EnrollAgrees(s: State) {
    s.dev.action == Enroll ==>
      && |s.dev.template| == s.dev.base + s.img.enrollStage
      && s.img.enrollStage <= s.dev.stages
      && (s.img.enrollStage == s.dev.stages ==> Down(s.img.phase) && !s.img.scanActive)
      && DistinctScans(s.dev.template, s.dev.base)
      && (forall i :: s.dev.base <= i < |s.dev.template| ==>
            s.dev.template[i] + (if s.img.scanActive then 1 else 0) <= s.log.scanNumber)
  }

  /** What may be handed to a caller. */
  ghost predicate HonestReport(r: Report) {
    && (r.completion.Failed? <==> r.errors != [] || r.dev.cancelled)
    && (r.completion.Failed? && r.errors != [] ==> Verdict(r.errors) == Some(r.completion.error))
    && (r.completion.Failed? && r.errors == [] ==> r.completion.error == Cancelled)
    && (r.completion.Done? ==>
          match r.dev.action
          case Enroll => |r.dev.template| == r.dev.base + r.dev.stages && DistinctScans(r.dev.template, r.dev.base)
          case TakeImage => r.completion.image.Some?
          case _ => r.dev.resultReported)
  }

  ghost predicate Inv(s: State) {
    && PhasesAgree(s)
    && ReportsAgree(s)
    && ErrorAgrees(s)
    && CompletionAgrees(s)
    && OutcomeAgrees(s)
    && EnrollAgrees(s)
  }

  lemma {:induction false} FirstFinalGrows(errors: seq<Error>, error: Error)
    ensures FirstFinal(errors).Some? ==> !FirstFinal(errors).value.Retry?
    ensures FirstFinal(errors + [error]) ==
            if FirstFinal(errors).Some? then FirstFinal(errors)
            else if error.Retry? then None else Some(error)
  {
    if errors == [] {
      assert errors + [error] == [error];
    } else {
      assert (errors + [error])[1..] == errors[1..] + [error];
      FirstFinalGrows(errors[1..], error);
    }
  }

  lemma {:induction false} FirstFinalRetries(errors: seq<Error>)
    requires FirstFinal(errors).None?
    ensures forall i :: 0 <= i < |errors| ==> errors[i].Retry?
  {
    if errors != [] { FirstFinalRetries(errors[1..]); }
  }

  /** The one-slot rule of fp_image_device_maybe_complete_action computes the verdict. */
  lemma KeepComputesVerdict(errors: seq<Error>, error: Error)
    ensures Keep(Verdict(errors), error) == Verdict(errors + [error])
  {
    FirstFinalGrows(errors, error);
    if FirstFinal(errors).None? { FirstFinalRetries(errors); }
  }

  /** Inv, except that the pending action may be due for completion. */
  ghost predicate Settling(s: State) {
    && PhasesAgree(s) && ReportsAgree(s) && ErrorAgrees(s) && OutcomeAgrees(s) && EnrollAgrees(s)
    && InProgress(s.dev) && s.img.phase != Activating
  }

  lemma NoteErrorKeeps(s: State, error: Error)
    requires PhasesAgree(s) && ReportsAgree(s) && ErrorAgrees(s) && EnrollAgrees(s)
    requires InProgress(s.dev) && s.img.phase != Activating
    requires s.dev.action == Enroll && Down(s.img.phase) && s.img.scanActive ==> s.dev.cancelled
    ensures Settling(NoteError(s, Some(error)))
  {
    KeepComputesVerdict(s.log.errors, error);
  }

  lemma CompleteActionKeeps(s: State)
    requires Settling(s) && s.img.phase == Inactive && !s.img.scanActive
    ensures Inv(CompleteAction(s))
    ensures !InProgress(CompleteAction(s).dev)
  {
    var t := CompleteAction(s);
    var r := t.log.reports[|s.log.reports|];
    assert HonestReport(r);
    assert t.log.reports == s.log.reports + [r];
  }

  lemma MaybeCompleteKeeps(s: State, error: Option<Error>)
    requires PhasesAgree(s) && ReportsAgree(s) && ErrorAgrees(s) && EnrollAgrees(s)
    requires InProgress(s.dev) && s.img.phase != Activating
    requires s.dev.action == Enroll && Down(s.img.phase) && s.img.scanActive ==> s.dev.cancelled
    requires error.None? ==> OutcomeAgrees(s)
    ensures Inv(MaybeCompleteAction(s, error))
  {
    if error.Some? { NoteErrorKeeps(s, error.value); }
    if !s.img.active && !s.img.scanActive { CompleteActionKeeps(NoteError(s, error)); }
  }

  lemma DeactivateKeeps(s: State, cancelling: bool)
    requires Inv(s)
    requires s.img.active ==> HasOutcome(s) && (s.dev.action == Enroll && s.img.scanActive ==> s.dev.cancelled)
    ensures Inv(Deactivate(s, cancelling))
  {
  }

  /** Recording an error and going down, as every fatal path does. */
  lemma FailKeeps(s: State, error: Error)
    requires PhasesAgree(s) && ReportsAgree(s) && ErrorAgrees(s) && EnrollAgrees(s)
    requires InProgress(s.dev) && s.img.phase != Activating
    requires s.dev.action == Enroll && s.img.scanActive ==> s.dev.cancelled
    ensures Inv(Deactivate(MaybeCompleteAction(s, Some(error)), true))
  {
    MaybeCompleteKeeps(s, Some(error));
    DeactivateKeeps(MaybeCompleteAction(s, Some(error)), true);
  }

  lemma StartKeeps(s: State, action: Action, waitForFinger: bool, template: seq<nat>)
    requires Inv(s) && s.dev.action == NoAction && action != NoAction
    ensures Inv(StartAction(s, action, waitForFinger, template))
  {
    var t := StartAction(s, action, waitForFinger, template);
    if action == TakeImage && !waitForFinger {
      var r := t.log.reports[|s.log.reports|];
      assert FirstFinal(r.errors) == Some(NOT_SUPPORTED);
      assert HonestReport(r);
    }
    assert ReportsAgree(t);
  }

  lemma FingerOnKeeps(s: State)
    requires Inv(s) && DriverContract(s, Finger(true))
    ensures Inv(ReportFingerStatus(s, true))
  {
  }

  lemma FingerOffKeeps(s: State)
    requires Inv(s) && DriverContract(s, Finger(false))
    ensures Inv(ReportFingerStatus(s, false))
  {
  }

  lemma FingerKeeps(s: State, present: bool)
    requires Inv(s) && DriverContract(s, Finger(present))
    ensures Inv(ReportFingerStatus(s, present))
  {
    if present { FingerOnKeeps(s); } else { FingerOffKeeps(s); }
  }

  lemma ImageKeeps(s: State)
    requires Inv(s)
    ensures Inv(ImageCaptured(s))
  {
  }

  lemma RetryKeeps(s: State, code: nat)
    requires Inv(s) && DriverContract(s, RetryRequested(code))
    ensures Inv(RetryScan(s, code))
  {
    if s.dev.action == TakeImage && s.img.phase != Inactive {
      FailKeeps(s, Retry(code));
    } else if (s.dev.action == Verify || s.dev.action == Identify) && s.img.phase != Inactive {
      MaybeCompleteKeeps(ReportResult(s), None);
      DeactivateKeeps(MaybeCompleteAction(ReportResult(s), None), true);
    }
  }

  lemma SessionErrorKeeps(s: State, cause: Error)
    requires Inv(s) && DriverContract(s, SessionFailed(cause))
    ensures Inv(SessionError(s, cause))
  {
    if s.img.active { FailKeeps(s, cause); }
  }

  lemma DeactivatedKeeps(s: State, error: Option<Error>)
    requires Inv(s)
    ensures Inv(DeactivateComplete(s, error))
  {
    if s.img.active && s.img.phase == Deactivating {
      MaybeCompleteKeeps(
        ChangeState(s.(img := s.img.(active := false, fingerPresent := false)), Inactive), error);
    }
  }

  lemma EnrollPrintKeeps(s: State)
    requires Inv(s) && s.img.scanActive && !s.dev.cancelled && s.dev.action == Enroll
    ensures Inv(UsePrint(EndScan(s), true, None, None))
  {
    var u := AddPrint(EndScan(s));
    assert s.img.phase == Idle || s.img.phase == AwaitFingerOff;
    if u.img.enrollStage == u.dev.stages {
      assert Deactivate(MaybeCompleteAction(u, None), false).img == ChangeState(u, Deactivating).img;
    }
  }

  lemma EnrollNoPrintKeeps(s: State, error: Option<Error>)
    requires Inv(s) && s.img.scanActive && !s.dev.cancelled && s.dev.action == Enroll
    ensures Inv(UsePrint(EndScan(s), false, error, None))
  {
    assert s.img.phase == Idle || s.img.phase == AwaitFingerOff;
  }

  lemma PrintKeeps(s: State, hasPrint: bool, error: Option<Error>, matchError: Option<Error>)
    requires Inv(s) && s.img.scanActive && !s.dev.cancelled && s.dev.action != TakeImage
    requires hasPrint <==> error.None?
    ensures Inv(UsePrint(EndScan(s), hasPrint, error, matchError))
  {
    var t := EndScan(s);
    if s.dev.action == Enroll {
      if hasPrint { EnrollPrintKeeps(s); } else { EnrollNoPrintKeeps(s, error); }
    } else {
      var e := if hasPrint then matchError else error;
      if e.None? || e.value.Retry? {
        MaybeCompleteKeeps(ReportResult(t), None);
      } else {
        MaybeCompleteKeeps(t, e);
      }
    }
  }

  lemma ScanKeeps(s: State, scan: Scan)
    requires Inv(s) && s.log.outstanding > 0
    ensures Inv(MinutiaeDetected(s, scan))
  {
    var t := EndScan(s);
    var error := if scan.detected then None else Some(DETECTION_FAILED);
    if s.dev.cancelled {
      FailKeeps(t, Cancelled);
    } else if s.dev.action == TakeImage {
      MaybeCompleteKeeps(t.(img := t.img.(captureImage := Some(t.log.scanNumber))), error);
    } else if !scan.detected || scan.addError.None? {
      PrintKeeps(s, scan.detected, error, scan.matchError);
    } else if scan.addError.value.Retry? {
      PrintKeeps(s, false, scan.addError, None);
    } else {
      FailKeeps(t, scan.addError.value);
    }
  }

  /** One event keeps the invariant, whatever the interleaving that led there. */
  lemma StepKeepsInv(s: State, e: Event)
    requires Inv(s) && Possible(s, e) && DriverContract(s, e)
    ensures Inv(Step(s, e))
  {
    match e {
      case Start(a, w, t) => StartKeeps(s, a, w, t);
      case Activated(_) =>
      case Finger(p) => FingerKeeps(s, p);
      case ImageTaken => ImageKeeps(s);
      case RetryRequested(c) => RetryKeeps(s, c);
      case SessionFailed(x) => SessionErrorKeeps(s, x);
      case Deactivated(x) => DeactivatedKeeps(s, x);
      case ScanFinished(x) => ScanKeeps(s, x);
      case UserCancels =>
      case CancelDispatched => DeactivateKeeps(s, true);
      case Returned =>
    }
  }

  lemma {:induction false} RunsKeepInv(s: State, events: seq<Event>)
    requires Inv(s) && Runs(s, events)
    ensures Inv(After(s, events))
    decreases |events|
  {
    if events != [] {
      StepKeepsInv(s, events[0]);
      RunsKeepInv(Step(s, events[0]), events[1..]);
    }
  }

  /** Every run of a contract-keeping driver, from a freshly opened device. */
  lemma EveryRunIsSafe(stages: nat, events: seq<Event>)
    requires stages > 0 && Runs(Init(stages), events)
    ensures var s := After(Init(stages), events);
            // every state change was in the table, and the assertions at action start held
            && s.log.warnings == 0 && s.log.failedAssertions == 0
            && (s.img.active <==> s.img.phase != Inactive && s.img.phase != Activating)
            // at most one scan is outstanding, and none while a finger is awaited or captured
            && s.log.outstanding <= 1
            && (s.img.phase == AwaitFingerOn || s.img.phase == Capture ==> s.log.outstanding == 0)
            // actions are reported once each, in order, and truthfully
            && |s.log.started| - 1 <= |s.log.reports| <= |s.log.started|
            && (forall i :: 0 <= i < |s.log.reports| ==>
                  s.log.reports[i].dev.action == s.log.started[i] && HonestReport(s.log.reports[i]))
            // nothing is left pending once the device is down and no scan runs
            && (s.img.phase == Inactive && s.log.outstanding == 0 ==> |s.log.reports| == |s.log.started|)
            // the enroll template holds its starting prints plus one per stage
            && (s.dev.action == Enroll ==> |s.dev.template| == s.dev.base + s.img.enrollStage)
  {
    RunsKeepInv(Init(stages), events);
  }

  /** The event that leaves the device down with no scan running. */
  predicate LastToFinish(s: State, e: Event) {
    || (e.Deactivated? && s.img.phase == Deactivating && !s.img.scanActive)
    || (e.ScanFinished? && s.img.phase == Inactive)
  }

  lemma OthersReportNothing(s: State, e: Event)
    requires Inv(s) && Possible(s, e) && DriverContract(s, e) && InProgress(s.dev) && !LastToFinish(s, e)
    ensures Step(s, e).log.reports == s.log.reports
    ensures Step(s, e).log.started == s.log.started
  {
  }

  lemma CompletionReports(s: State, error: Option<Error>)
    requires InProgress(s.dev) && !s.img.active && !s.img.scanActive
    ensures var t := MaybeCompleteAction(s, error);
            && |t.log.reports| == |s.log.reports| + 1 && s.log.reports < t.log.reports
            && t.log.started == s.log.started && !t.img.active
  {
  }

  lemma LastReports(s: State, e: Event)
    requires Inv(s) && Possible(s, e) && InProgress(s.dev) && LastToFinish(s, e)
    ensures |Step(s, e).log.reports| == |s.log.reports| + 1 && s.log.reports < Step(s, e).log.reports
    ensures Step(s, e).log.started == s.log.started
  {
    if e.Deactivated? {
      CompletionReports(ChangeState(s.(img := s.img.(active := false, fingerPresent := false)), Inactive), e.error);
    } else {
      var t := EndScan(s);
      forall x ensures var u := MaybeCompleteAction(t, x);
                       && |u.log.reports| == |s.log.reports| + 1 && s.log.reports < u.log.reports
                       && u.log.started == s.log.started && !u.img.active
      {
        CompletionReports(t, x);
      }
      CompletionReports(ReportResult(t), None);
      CompletionReports(t.(img := t.img.(captureImage := Some(t.log.scanNumber))),
                        if e.scan.detected then None else Some(DETECTION_FAILED));
    }
  }

  /** The later of "deactivated" and "scan finished" completes a pending action, and nothing else does. */
  lemma LaterOfTheTwoCompletes(s: State, e: Event)
    requires Inv(s) && Possible(s, e) && DriverContract(s, e) && InProgress(s.dev)
    ensures var t := Step(s, e);
            && (if LastToFinish(s, e) then |t.log.reports| == |s.log.reports| + 1 && s.log.reports < t.log.reports
                else t.log.reports == s.log.reports)
            && (LastToFinish(s, e) <==> t.img.phase == Inactive && !t.img.scanActive)
  {
    StepKeepsInv(s, e);
    if LastToFinish(s, e) { LastReports(s, e); } else { OthersReportNothing(s, e); }
    var t := Step(s, e);
    assert CompletionAgrees(t) && ReportsAgree(t);
  }

  lemma RunsOne(s: State, e: Event)
    requires Possible(s, e) && DriverContract(s, e)
    ensures Runs(s, [e]) && After(s, [e]) == Step(s, e)
  {
    assert Runs(Step(s, e), []);
  }

  lemma RunsThen(s: State, e: Event, rest: seq<Event>)
    requires Possible(s, e) && DriverContract(s, e) && Runs(Step(s, e), rest)
    ensures Runs(s, [e] + rest) && After(s, [e] + rest) == After(Step(s, e), rest)
  {
    assert ([e] + rest)[1..] == rest;
  }

  /** A device left in Activating warns when the next action starts. */
  lemma StuckActivating(s: State) returns (rest: seq<Event>)
    requires s.dev.returning && s.img.phase == Activating
    ensures Runs(s, rest) && After(s, rest).log.warnings > 0
  {
    var start := Start(Verify, true, []);
    RunsOne(Step(s, Returned), start);
    RunsThen(s, Returned, [start]);
    rest := [Returned] + [start];
  }

  /**
   The driver contract is the weakest one: from any state that runs can keep,
   an event outside it lets some contract-keeping continuation leave the table.
   */
  lemma ContractIsNecessary(s: State, e: Event) returns (rest: seq<Event>)
    requires Inv(s) && Possible(s, e) && !DriverContract(s, e)
    ensures Runs(Step(s, e), rest)
    ensures After(Step(s, e), rest).log.warnings > 0
  {
    var t := Step(s, e);
    var noPrint := ScanFinished(Scan(false, None, None));
    if e.Activated? || (s.img.phase == Activating && (e.SessionFailed? || s.dev.action != Enroll)) {
      rest := StuckActivating(t);
    } else if e.Finger? {
      RunsOne(Step(t, ImageTaken), noPrint);
      RunsThen(t, ImageTaken, [noPrint]);
      rest := [ImageTaken] + [noPrint];
    } else if e.SessionFailed? {
      RunsOne(Step(t, Deactivated(None)), noPrint);
      RunsThen(t, Deactivated(None), [noPrint]);
      rest := [Deactivated(None)] + [noPrint];
    } else {
      rest := [];
    }
  }
}

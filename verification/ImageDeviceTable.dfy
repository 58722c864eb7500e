/**
 What each event does to an image device, field by field: tables over the event and the
 fields that decide about it, and the proof that the handlers follow them.
 */
module ImageDeviceTable {
  import opened Options
  import opened ImageDevice

  predicate Fatal(error: Option<Error>) { error.Some? && !error.value.Retry? }

  /** The scan gave a print that can be used. */
  predicate HasPrint(scan: Scan) { scan.detected && scan.addError.None? }

  /** The scan result ends the action by itself. */
  predicate EndsAction(s: State, scan: Scan) {
    || s.dev.cancelled
    || (s.dev.action != TakeImage && scan.detected && Fatal(scan.addError))
    || (s.dev.action == Enroll && HasPrint(scan) && s.img.enrollStage + 1 == s.dev.stages)
  }

  /** The part of the invariant that decides which branch an event takes. */
  ghost predicate Shape(s: State) {
    && PhasesAgree(s) && CompletionAgrees(s)
    && (s.dev.returning ==> s.dev.action != NoAction)
    && (s.dev.action == Enroll ==>
          s.img.enrollStage <= s.dev.stages &&
          (s.img.enrollStage == s.dev.stages ==> Down(s.img.phase) && !s.img.scanActive) &&
          (InProgress(s.dev) && Down(s.img.phase) && s.img.scanActive ==> s.dev.cancelled))
  }

  lemma InvShape(s: State)
    requires Inv(s)
    ensures Shape(s)
  {
  }

  // ----- transitions ---------------------------------------------------------------

  /** The state changes a device may make, in the order of the source's table. */
  const TABLE: seq<(Phase, Phase)> := [
    (Inactive, Activating),
    (Activating, Idle), (Activating, Inactive),
    (Idle, AwaitFingerOn), (Idle, Capture), (Idle, Deactivating),
    (AwaitFingerOn, Capture), (AwaitFingerOn, Deactivating),
    (Capture, AwaitFingerOff), (Capture, Idle), (Capture, Deactivating),
    (AwaitFingerOff, Idle), (AwaitFingerOff, Deactivating),
    (Deactivating, Inactive)]

  /** A change to any state is made, and warned about exactly if the table does not have it. */
  lemma WarnsExactly(s: State, to: Phase)
    ensures var t := ChangeState(s, to);
            && t.img == s.img.(phase := to) && t.dev == s.dev
            && t.log == s.log.(warnings := s.log.warnings + if (s.img.phase, to) in TABLE then 0 else 1)
  {
  }

  // ----- phases -------------------------------------------------------------------

  /** The events that take an active device down. */
  predicate TakesDown(s: State, e: Event) {
    match e
    case RetryRequested(_) => s.dev.action != Enroll
    case SessionFailed(cause) => !(cause == Cancelled && s.dev.cancelled)
    case CancelDispatched => true
    case Finger(present) => !present && s.img.phase == AwaitFingerOff && s.dev.action != Enroll
    case ScanFinished(scan) => EndsAction(s, scan)
    case _ => false
  }

  /** The phase after an event. */
  function NextPhase(s: State, e: Event): Phase {
    var phase := s.img.phase;
    if s.img.active && phase != Deactivating && TakesDown(s, e) then Deactivating
    else
      match e
      case Start(action, wait, _) => if action == TakeImage && !wait then phase else Activating
      case Activated(_) => if phase == Activating then AwaitFingerOn else phase
      case Finger(present) =>
        if present && phase == AwaitFingerOn then Capture
        else if !present && phase == AwaitFingerOff then (if s.img.scanActive then Idle else AwaitFingerOn)
        else phase
      case ImageTaken => if phase == Capture then AwaitFingerOff else phase
      case RetryRequested(_) => if phase == Capture then AwaitFingerOff else phase
      case Deactivated(_) => if phase == Deactivating then Inactive else phase
      case ScanFinished(_) => if phase == Idle && !s.img.fingerPresent then AwaitFingerOn else phase
      case _ => phase
  }

  lemma ScanPhase(s: State, scan: Scan)
    requires Shape(s) && s.log.outstanding > 0
    ensures MinutiaeDetected(s, scan).img.phase == NextPhase(s, ScanFinished(scan))
  {
  }

  lemma FingerPhase(s: State, present: bool)
    requires Shape(s) && DriverContract(s, Finger(present))
    ensures ReportFingerStatus(s, present).img.phase == NextPhase(s, Finger(present))
  {
  }

  lemma DriverPhase(s: State, e: Event)
    requires Shape(s) && Possible(s, e) && DriverContract(s, e) && (e.RetryRequested? || e.SessionFailed? || e.Deactivated?)
    ensures Step(s, e).img.phase == NextPhase(s, e)
  {
  }

  /** The phase after every event of every run is the one the table names. */
  lemma PhaseExactly(s: State, e: Event)
    requires Inv(s) && Possible(s, e) && DriverContract(s, e)
    ensures Step(s, e).img.phase == NextPhase(s, e)
  {
    match e {
      case ScanFinished(scan) => ScanPhase(s, scan);
      case Finger(present) => FingerPhase(s, present);
      case RetryRequested(_) => DriverPhase(s, e);
      case SessionFailed(_) => DriverPhase(s, e);
      case Deactivated(_) => DriverPhase(s, e);
      case _ =>
    }
  }

  /** An active device goes down at exactly these events. */
  lemma GoesDownExactly(s: State, e: Event)
    requires Inv(s) && Possible(s, e) && DriverContract(s, e) && s.img.active && s.img.phase != Deactivating
    ensures Step(s, e).img.phase == Deactivating <==> TakesDown(s, e)
  {
    PhaseExactly(s, e);
  }

  // ----- errors -------------------------------------------------------------------------

  /** The errors an event adds to those of the running action; a session error without an action is noted for nobody. */
  function HandedIn(s: State, e: Event): seq<Error> {
    match e
    case RetryRequested(code) => if s.dev.action == TakeImage && s.img.phase != Inactive then [Retry(code)] else []
    case SessionFailed(cause) =>
      if (s.img.active && !(cause == Cancelled && s.dev.cancelled)) || s.dev.action == NoAction then [cause] else []
    case Deactivated(error) => if s.img.phase == Deactivating && error.Some? then [error.value] else []
    case ScanFinished(scan) =>
      if s.dev.cancelled then [Cancelled]
      else if s.dev.action == TakeImage then (if scan.detected then [] else [DETECTION_FAILED])
      else if scan.detected && Fatal(scan.addError) then [scan.addError.value]
      else if s.dev.action != Enroll && HasPrint(scan) && Fatal(scan.matchError) then [scan.matchError.value]
      else []
    case _ => []
  }

  lemma ScanErrors(s: State, scan: Scan)
    requires Shape(s) && s.log.outstanding > 0
    ensures MinutiaeDetected(s, scan).log.errors == s.log.errors + HandedIn(s, ScanFinished(scan))
  {
  }

  lemma DriverErrors(s: State, e: Event)
    requires Shape(s) && Possible(s, e) && DriverContract(s, e) && (e.RetryRequested? || e.SessionFailed? || e.Deactivated?)
    ensures Step(s, e).log.errors == s.log.errors + HandedIn(s, e)
  {
  }

  /** Every error an action meets is handed in, a fatal match error included, and none is made up. */
  lemma ErrorsExactly(s: State, e: Event)
    requires Inv(s) && Possible(s, e) && DriverContract(s, e) && !e.Start?
    ensures Step(s, e).log.errors == s.log.errors + HandedIn(s, e)
  {
    match e {
      case ScanFinished(scan) => ScanErrors(s, scan);
      case RetryRequested(_) => DriverErrors(s, e);
      case SessionFailed(_) => DriverErrors(s, e);
      case Deactivated(_) => DriverErrors(s, e);
      case _ =>
    }
  }

  /** A fatal match error decides a verification, unless a final error came before it. */
  lemma FatalMatchDecides(s: State, scan: Scan)
    requires Inv(s) && s.log.outstanding > 0 && !s.dev.cancelled && (s.dev.action == Verify || s.dev.action == Identify)
    requires HasPrint(scan) && Fatal(scan.matchError)
    ensures var t := Step(s, ScanFinished(scan));
            var verdict := if FirstFinal(s.log.errors).Some? then FirstFinal(s.log.errors) else scan.matchError;
            && Verdict(t.log.errors) == verdict
            && (s.img.phase == Inactive ==> t.log.reports == s.log.reports + [Report(Failed(verdict.value), s.dev, t.log.errors)])
            && (s.img.phase != Inactive ==> t.img.actionError == verdict)
  {
    ErrorsExactly(s, ScanFinished(scan));
    FirstFinalGrows(s.log.errors, scan.matchError.value);
    KeepComputesVerdict(s.log.errors, scan.matchError.value);
    assert s.img.actionError == Verdict(s.log.errors);
  }

  // ----- prints, results and flags ---------------------------------------------------------

  predicate AddsPrint(s: State, e: Event) {
    e.ScanFinished? && s.dev.action == Enroll && !s.dev.cancelled && HasPrint(e.scan)
  }

  /** A match result, or a retry in its place, reaches the caller of a verification. */
  predicate ReportsResult(s: State, e: Event) {
    && (s.dev.action == Verify || s.dev.action == Identify)
    && match e
       case RetryRequested(_) => s.img.phase != Inactive
       case ScanFinished(scan) =>
         !s.dev.cancelled && !(scan.detected && Fatal(scan.addError)) && !(HasPrint(scan) && Fatal(scan.matchError))
       case _ => false
  }

  lemma ScanPrints(s: State, scan: Scan)
    requires Shape(s) && s.log.outstanding > 0
    ensures MinutiaeDetected(s, scan).dev.template ==
            s.dev.template + if AddsPrint(s, ScanFinished(scan)) then [s.log.scanNumber] else []
  {
  }

  lemma ScanStage(s: State, scan: Scan)
    requires Shape(s) && s.log.outstanding > 0
    ensures MinutiaeDetected(s, scan).img.enrollStage ==
            s.img.enrollStage + if AddsPrint(s, ScanFinished(scan)) then 1 else 0
  {
  }

  lemma ScanResult(s: State, scan: Scan)
    requires Shape(s) && s.log.outstanding > 0
    ensures MinutiaeDetected(s, scan).dev.resultReported == (s.dev.resultReported || ReportsResult(s, ScanFinished(scan)))
  {
  }

  lemma ScanKeepsFinger(s: State, scan: Scan)
    requires Shape(s) && s.log.outstanding > 0
    ensures var t := MinutiaeDetected(s, scan); t.img.fingerPresent == s.img.fingerPresent && !t.img.scanActive
  {
  }

  /** The flags after an event other than a scan result. */
  predicate FlagsFollow(s: State, e: Event, t: State) {
    && t.dev.template == s.dev.template && t.img.enrollStage == s.img.enrollStage
    && t.dev.resultReported == (s.dev.resultReported || ReportsResult(s, e))
    && t.img.scanActive == (s.img.scanActive || (e.ImageTaken? && s.img.phase == Capture))
    && t.img.fingerPresent == (if e.Finger? && s.img.phase != Inactive then e.present
                               else s.img.fingerPresent && !(e.Deactivated? && s.img.phase == Deactivating))
  }

  lemma FingerFlags(s: State, present: bool)
    requires Shape(s) && DriverContract(s, Finger(present))
    ensures FlagsFollow(s, Finger(present), ReportFingerStatus(s, present))
  {
  }

  lemma DriverFlags(s: State, e: Event)
    requires Shape(s) && Possible(s, e) && DriverContract(s, e) && (e.RetryRequested? || e.SessionFailed? || e.Deactivated?)
    ensures FlagsFollow(s, e, Step(s, e))
  {
  }

  lemma OtherFlags(s: State, e: Event)
    requires Inv(s) && Possible(s, e) && DriverContract(s, e) && !e.Start? && !e.ScanFinished?
    ensures FlagsFollow(s, e, Step(s, e))
  {
    if e.Finger? {
      FingerFlags(s, e.present);
    } else if e.RetryRequested? || e.SessionFailed? || e.Deactivated? {
      DriverFlags(s, e);
    }
  }

  /** Prints, results and flags change at exactly the events named. */
  lemma FlagsExactly(s: State, e: Event)
    requires Inv(s) && Possible(s, e) && DriverContract(s, e) && !e.Start?
    ensures var t := Step(s, e);
            && t.dev.template == s.dev.template + (if AddsPrint(s, e) then [s.log.scanNumber] else [])
            && t.img.enrollStage == s.img.enrollStage + (if AddsPrint(s, e) then 1 else 0)
            && t.dev.resultReported == (s.dev.resultReported || ReportsResult(s, e))
            && t.img.scanActive ==
               (if e.ScanFinished? then false else s.img.scanActive || (e.ImageTaken? && s.img.phase == Capture))
            && t.img.fingerPresent == (if e.Finger? && s.img.phase != Inactive then e.present
                                       else s.img.fingerPresent && !(e.Deactivated? && s.img.phase == Deactivating))
  {
    if e.ScanFinished? {
      ScanPrints(s, e.scan);
      ScanStage(s, e.scan);
      ScanResult(s, e.scan);
      ScanKeepsFinger(s, e.scan);
    } else {
      OtherFlags(s, e);
    }
  }

  // ----- start and failed activation ---------------------------------------------------------

  /** A started action has its own template, no errors, results or cancellation, and is refused at once only as an unsupported capture. */
  lemma StartExactly(s: State, action: Action, wait: bool, template: seq<nat>)
    requires Inv(s) && s.dev.action == NoAction && action != NoAction
    ensures var t := Step(s, Start(action, wait, template));
            var refused := action == TakeImage && !wait;
            && t.dev.action == action && t.dev.template == template && t.dev.base == |template| && t.dev.stages == s.dev.stages
            && !t.dev.cancelled && !t.dev.resultReported && t.dev.returning == refused
            && t.log.started == s.log.started + [action]
            && t.log.errors == (if refused then [NOT_SUPPORTED] else [])
            && (refused ==> t.img == s.img && |t.log.reports| == |s.log.reports| + 1 &&
                            t.log.reports[|s.log.reports|].completion == Failed(NOT_SUPPORTED))
            && (!refused ==> t.img == s.img.(phase := Activating, enrollStage := 0) && t.log.reports == s.log.reports)
  {
  }

  /** An activation that fails reports its own error and leaves the device in ACTIVATING. */
  lemma FailedActivation(s: State, error: Error)
    requires Inv(s) && s.img.phase == Activating
    ensures var t := Step(s, Activated(Some(error)));
            && t.img == s.img && |t.log.reports| == |s.log.reports| + 1
            && t.log.reports[|s.log.reports|].completion == Failed(error) && t.dev.returning
  {
  }

  predicate SameTask(s: State, t: State) { t.dev.cancelled == s.dev.cancelled && t.dev.action == s.dev.action }

  lemma ScanTask(s: State, scan: Scan)
    requires s.log.outstanding > 0
    ensures SameTask(s, MinutiaeDetected(s, scan))
  {
  }

  lemma DriverTask(s: State, e: Event)
    requires Possible(s, e) && (e.RetryRequested? || e.SessionFailed? || e.Deactivated?)
    ensures SameTask(s, Step(s, e))
  {
  }

  /** The cancellable is cancelled by the user only, and released when the result is returned. */
  lemma CancelledExactly(s: State, e: Event)
    requires Possible(s, e) && !e.Start?
    ensures Step(s, e).dev.cancelled == (e.UserCancels? || (s.dev.cancelled && !e.Returned?))
    ensures Step(s, e).dev.action == if e.Returned? then NoAction else s.dev.action
  {
    match e {
      case ScanFinished(scan) => ScanTask(s, scan);
      case RetryRequested(_) => DriverTask(s, e);
      case SessionFailed(_) => DriverTask(s, e);
      case Deactivated(_) => DriverTask(s, e);
      case _ =>
    }
  }

  // ----- the captured image --------------------------------------------------------------------

  /** A stored image is that of the latest scan, and no other scan can start before it is handed over. */
  predicate ImageAgrees(s: State) {
    s.img.captureImage.Some? ==>
      && s.img.captureImage == Some(s.log.scanNumber) && !s.img.scanActive
      && (s.img.phase == AwaitFingerOff || Down(s.img.phase))
  }

  lemma ImageStep(s: State, e: Event)
    requires Inv(s) && ImageAgrees(s) && Possible(s, e) && DriverContract(s, e)
    ensures ImageAgrees(Step(s, e))
  {
    if e.ScanFinished? { ScanImage(s, e.scan); } else { OtherImage(s, e); }
  }

  lemma ScanImage(s: State, scan: Scan)
    requires Inv(s) && ImageAgrees(s) && s.log.outstanding > 0
    ensures ImageAgrees(MinutiaeDetected(s, scan))
  {
  }

  lemma OtherImage(s: State, e: Event)
    requires Inv(s) && ImageAgrees(s) && Possible(s, e) && DriverContract(s, e) && !e.ScanFinished?
    ensures ImageAgrees(Step(s, e))
  {
  }

  /** A capture that succeeds hands over the image of its scan. */
  lemma CaptureReportsItsImage(s: State, e: Event)
    requires Inv(s) && ImageAgrees(s) && Possible(s, e) && DriverContract(s, e)
    requires s.dev.action == TakeImage && |Step(s, e).log.reports| == |s.log.reports| + 1
    requires Step(s, e).log.reports[|s.log.reports|].completion.Done?
    ensures Step(s, e).log.reports[|s.log.reports|].completion == Done(Some(s.log.scanNumber))
  {
    if InProgress(s.dev) { LaterOfTheTwoCompletes(s, e); }
  }
}

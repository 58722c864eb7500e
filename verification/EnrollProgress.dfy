/**
 Whether an enrolment goes on: between two stages the device waits in IDLE for the scan
 result and for the finger to be lifted, and a finger reported again too early stalls it.
 */
module EnrollProgress {
  import opened Options
  import opened ImageDevice

  /** An enrolment that waits in IDLE for nothing. */
  predicate Stalled(s: State) {
    s.img.phase == Idle && !s.img.scanActive
  }

  /** The driver does not report a finger in IDLE. */
  predicate Polite(s: State, e: Event) {
    !(e.Finger? && e.present && s.img.phase == Idle)
  }

  /** Only a scan is awaited in IDLE, with the finger lifted. */
  predicate IdleAwaitsScan(s: State) {
    s.img.phase == Idle ==> s.img.scanActive && !s.img.fingerPresent
  }

  /** The scan result lets the enrolment go on: no error ends it and it is not its last print. */
  predicate GoesOn(s: State, scan: Scan) {
    && !s.dev.cancelled
    && (scan.detected && scan.addError.Some? ==> scan.addError.value.Retry?)
    && (scan.detected && scan.addError.None? ==> s.img.enrollStage + 1 != s.dev.stages)
  }

  lemma ScanInIdle(s: State, scan: Scan)
    requires Inv(s) && s.img.phase == Idle && s.log.outstanding > 0
    ensures var t := MinutiaeDetected(s, scan);
            && !t.img.scanActive
            && (t.img.phase == Idle <==> s.img.fingerPresent && GoesOn(s, scan))
            && (t.img.phase == AwaitFingerOn <==> !s.img.fingerPresent && GoesOn(s, scan))
  {
  }

  lemma ScanElsewhere(s: State, scan: Scan)
    requires Inv(s) && s.img.phase != Idle && s.log.outstanding > 0
    ensures MinutiaeDetected(s, scan).img.phase != Idle
  {
  }

  lemma FingerReport(s: State, present: bool)
    requires Inv(s) && DriverContract(s, Finger(present)) && !Stalled(s)
    ensures var t := ReportFingerStatus(s, present);
            && !Stalled(t)
            && (t.img.phase == Idle && s.img.phase != Idle ==> !t.img.fingerPresent)
            && (t.img.phase == Idle && s.img.phase == Idle ==> t.img.fingerPresent == present)
  {
  }

  lemma OtherStepsDoNotStall(s: State, e: Event)
    requires Inv(s) && Possible(s, e) && DriverContract(s, e) && !Stalled(s)
    requires !(e.ScanFinished? && s.img.phase == Idle)
    ensures !Stalled(Step(s, e))
    ensures Step(s, e).img.phase == Idle && s.img.phase != Idle ==> !Step(s, e).img.fingerPresent
    ensures s.img.phase == Idle && Step(s, e).img.phase == Idle && Step(s, e).img.fingerPresent ==>
              s.img.fingerPresent || !Polite(s, e)
  {
    if e.ScanFinished? {
      ScanElsewhere(s, e.scan);
    } else if e.Finger? {
      FingerReport(s, e.present);
    }
  }

  /** An enrolment stalls exactly when a scan that lets it go on ends in IDLE with the finger back on. */
  lemma StallsExactly(s: State, e: Event)
    requires Inv(s) && Possible(s, e) && DriverContract(s, e) && !Stalled(s)
    ensures Stalled(Step(s, e)) <==>
            e.ScanFinished? && s.img.phase == Idle && s.img.fingerPresent && GoesOn(s, e.scan)
  {
    if e.ScanFinished? && s.img.phase == Idle {
      ScanInIdle(s, e.scan);
    } else {
      OtherStepsDoNotStall(s, e);
    }
  }

  lemma PoliteStep(s: State, e: Event)
    requires Inv(s) && Possible(s, e) && DriverContract(s, e) && Polite(s, e) && IdleAwaitsScan(s)
    ensures IdleAwaitsScan(Step(s, e))
  {
    if e.ScanFinished? && s.img.phase == Idle {
      ScanInIdle(s, e.scan);
    } else {
      OtherStepsDoNotStall(s, e);
    }
  }

  predicate AllPolite(s: State, events: seq<Event>)
    requires Runs(s, events)
    decreases |events|
  {
    events == [] || (Polite(s, events[0]) && AllPolite(Step(s, events[0]), events[1..]))
  }

  /** While no finger is reported in IDLE, a device in IDLE always has a scan to wait for. */
  lemma {:induction false} PoliteRunsNeverStall(s: State, events: seq<Event>)
    requires Inv(s) && IdleAwaitsScan(s) && Runs(s, events) && AllPolite(s, events)
    ensures IdleAwaitsScan(After(s, events)) && !Stalled(After(s, events))
    decreases |events|
  {
    if events != [] {
      StepKeepsInv(s, events[0]);
      PoliteStep(s, events[0]);
      PoliteRunsNeverStall(Step(s, events[0]), events[1..]);
    }
  }

  /** And that politeness is needed: after a finger report in IDLE some continuation stalls. */
  lemma PolitenessNeeded(s: State) returns (rest: seq<Event>)
    requires Inv(s) && s.img.phase == Idle && s.img.scanActive && !s.dev.cancelled
    ensures Runs(s, [Finger(true)] + rest) && Stalled(After(s, [Finger(true)] + rest))
  {
    var noPrint := ScanFinished(Scan(false, None, None));
    var t := Step(s, Finger(true));
    StepKeepsInv(s, Finger(true));
    ScanInIdle(t, noPrint.scan);
    RunsOne(t, noPrint);
    RunsThen(s, Finger(true), [noPrint]);
    rest := [noPrint];
  }

  /** A stalled enrolment stays so until a session error or the dispatch of a cancellation. */
  lemma StallEndsExactly(s: State, e: Event)
    requires Inv(s) && Stalled(s) && Possible(s, e) && DriverContract(s, e)
    ensures !Stalled(Step(s, e)) <==>
            e.CancelDispatched? || (e.SessionFailed? && !(e.cause == Cancelled && s.dev.cancelled))
  {
  }

  /** A deactivation outside IDLE that no cancellation explains is the last print arriving before the finger is lifted. */
  lemma NotIdleExactly(s: State, e: Event)
    requires Inv(s) && Possible(s, e) && DriverContract(s, e)
    ensures Step(s, e).log.notIdle > s.log.notIdle <==>
            && e.ScanFinished? && s.dev.action == Enroll && s.img.phase == AwaitFingerOff && !s.dev.cancelled
            && e.scan.detected && e.scan.addError.None? && s.img.enrollStage + 1 == s.dev.stages
  {
  }
}

/**
 The image device as the object the C code updates in place. Each method changes
 the fields step by step as its C counterpart does, and is proved to have the
 effect that module ImageDevice reasons about.
 */
module ImageDeviceObject {
  import opened Options
  import M = ImageDevice

  class FpImageDevice {
    var phase: M.Phase
    var active: bool
    var fingerPresent: bool
    var enrollStage: nat
    var scanActive: bool
    var actionError: Option<M.Error>
    var captureImage: Option<nat>
    var dev: M.Device      // the parent object's fields
    var log: M.History     // running tasks and what was reported

    function View(): M.State
      reads this
    {
      M.State(M.Image(phase, active, fingerPresent, enrollStage, scanActive, actionError, captureImage), dev, log)
    }

    constructor (stages: nat)
      ensures View() == M.Init(stages)
    {
      phase, active, fingerPresent, enrollStage, scanActive := M.Inactive, false, false, 0, false;
      actionError, captureImage := None, None;
      dev := M.Device(M.NoAction, false, false, false, [], 0, stages);
      log := M.History(0, 0, [], [], [], 0, 0, 0);
    }

    method ChangeState(to: M.Phase)
      modifies this
      ensures View() == M.ChangeState(old(View()), to)
    {
      if !M.ValidTransition(phase, to) {
        log := log.(warnings := log.warnings + 1);
      }
      phase := to;
    }

    method Assert(holds: bool)
      modifies this
      ensures View() == old(View()).(log := M.Assert(old(log), holds))
    {
      if !holds {
        log := log.(failedAssertions := log.failedAssertions + 1);
      }
    }

    method Complete(c: M.Completion)
      modifies this
      ensures View() == M.Complete(old(View()), c)
    {
      if dev.action == M.NoAction { return; }
      log := log.(reports := log.reports + [M.Report(c, dev, log.errors)]);
      dev := dev.(returning := true);
    }

    method EnrollMaybeAwaitFingerOn()
      modifies this
      ensures View() == M.EnrollMaybeAwaitFingerOn(old(View()))
    {
      if scanActive || fingerPresent { return; }
      ChangeState(M.AwaitFingerOn);
    }

    method MaybeCompleteAction(error: Option<M.Error>)
      modifies this
      ensures View() == M.MaybeCompleteAction(old(View()), error)
    {
      if error.Some? {
        log := log.(errors := log.errors + [error.value]);
        if !(actionError.Some? && !actionError.value.Retry?) {
          actionError := error;
        }
      }
      if active || scanActive { return; }
      if actionError.None? && dev.cancelled {
        actionError := Some(M.Cancelled);
      }
      if actionError.Some? {
        var stolen := actionError.value;
        actionError := None;
        Complete(M.Failed(stolen));
        captureImage := None;
        return;
      }
      if dev.action == M.NoAction {
        Assert(false);
      } else if dev.action == M.TakeImage {
        var stolen := captureImage;
        captureImage := None;
        Complete(M.Done(stolen));
      } else {
        Complete(M.Done(None));
      }
    }

    method Deactivate(cancelling: bool)
      modifies this
      ensures View() == M.Deactivate(old(View()), cancelling)
    {
      if !active || phase == M.Deactivating { return; }
      if !cancelling && phase != M.Idle { log := log.(notIdle := log.notIdle + 1); }
      ChangeState(M.Deactivating);
    }

    method ReportFingerStatus(present: bool)
      modifies this
      ensures View() == M.ReportFingerStatus(old(View()), present)
    {
      if phase == M.Inactive { return; }
      fingerPresent := present;
      if present && phase == M.AwaitFingerOn {
        ChangeState(M.Capture);
      } else if !present && phase == M.AwaitFingerOff {
        ChangeState(M.Idle);
        if dev.action != M.Enroll { Deactivate(false); } else { EnrollMaybeAwaitFingerOn(); }
      }
    }

    method ImageCaptured()
      modifies this
      ensures View() == M.ImageCaptured(old(View()))
    {
      if phase != M.Capture || dev.action == M.NoAction { return; }
      scanActive := true;
      log := log.(outstanding := log.outstanding + 1, scanNumber := log.scanNumber + 1);
      ChangeState(M.AwaitFingerOff);
    }

    method RetryScan(code: nat)
      modifies this
      ensures View() == M.RetryScan(old(View()), code)
    {
      if phase == M.Inactive || dev.action == M.NoAction { return; }
      if dev.action == M.Enroll {
        ChangeState(M.AwaitFingerOff);
      } else if dev.action == M.TakeImage {
        MaybeCompleteAction(Some(M.Retry(code)));
        Deactivate(true);
      } else {
        dev := dev.(resultReported := true);
        MaybeCompleteAction(None);
        Deactivate(true);
      }
    }

    method ActivateComplete(error: Option<M.Error>)
      modifies this
      ensures View() == M.ActivateComplete(old(View()), error)
    {
      if active || phase != M.Activating || dev.action == M.NoAction { return; }
      if error.Some? {
        Complete(M.Failed(error.value));
        return;
      }
      active := true;
      ChangeState(M.Idle);
      ChangeState(M.AwaitFingerOn);
    }

    method DeactivateComplete(error: Option<M.Error>)
      modifies this
      ensures View() == M.DeactivateComplete(old(View()), error)
    {
      if !active || phase != M.Deactivating { return; }
      active, fingerPresent := false, false;
      ChangeState(M.Inactive);
      MaybeCompleteAction(error);
    }

    method SessionError(error: M.Error)
      modifies this
      ensures View() == M.SessionError(old(View()), error)
    {
      if !active {
        if dev.action != M.NoAction {
          ActivateComplete(Some(error));
          return;
        }
      } else if error == M.Cancelled && dev.cancelled {
        return;
      } else if phase == M.Inactive {
        return;
      }
      MaybeCompleteAction(Some(error));
      Deactivate(true);
    }

    method UsePrint(hasPrint: bool, error: Option<M.Error>, matchError: Option<M.Error>)
      modifies this
      ensures View() == M.UsePrint(old(View()), hasPrint, error, matchError)
    {
      if dev.action == M.Enroll {
        if hasPrint {
          dev := dev.(template := dev.template + [log.scanNumber]);
          enrollStage := enrollStage + 1;
        }
        if enrollStage == dev.stages {
          MaybeCompleteAction(error);
          Deactivate(false);
        } else {
          EnrollMaybeAwaitFingerOn();
        }
      } else if dev.action == M.Verify || dev.action == M.Identify {
        var e := if hasPrint then matchError else error;
        if e.None? || e.value.Retry? {
          dev := dev.(resultReported := true);
          e := None;
        }
        MaybeCompleteAction(e);
      } else {
        Assert(false);
      }
    }

    method MinutiaeDetected(scan: M.Scan)
      requires log.outstanding > 0
      modifies this
      ensures View() == M.MinutiaeDetected(old(View()), scan)
    {
      log := log.(outstanding := log.outstanding - 1);
      scanActive := false;
      AfterScan(scan);
    }

    method AfterScan(scan: M.Scan)
      modifies this
      ensures View() == M.AfterScan(old(View()), scan)
    {
      if dev.cancelled {
        MaybeCompleteAction(Some(M.Cancelled));
        Deactivate(true);
        return;
      }
      var error := if scan.detected then None else Some(M.DETECTION_FAILED);
      if dev.action == M.TakeImage {
        captureImage := Some(log.scanNumber);
        MaybeCompleteAction(error);
        return;
      }
      if error.None? && scan.addError.Some? {
        if !scan.addError.value.Retry? {
          MaybeCompleteAction(scan.addError);
          Deactivate(true);
          return;
        }
        UsePrint(false, scan.addError, None);
      } else {
        UsePrint(error.None?, error, scan.matchError);
      }
    }

    method StartAction(action: M.Action, waitForFinger: bool, template: seq<nat>)
      modifies this
      ensures View() == M.StartAction(old(View()), action, waitForFinger, template)
    {
      dev := M.Device(action, false, false, false, template, |template|, dev.stages);
      log := log.(errors := [], started := log.started + [action]);
      if action == M.TakeImage && !waitForFinger {
        log := log.(errors := [M.NOT_SUPPORTED]);
        Complete(M.Failed(M.NOT_SUPPORTED));
        return;
      }
      enrollStage := 0;
      Assert(!fingerPresent);
      Assert(!scanActive);
      Assert(!active);
      ChangeState(M.Activating);
    }

    method Dispatch(e: M.Event)
      requires M.Possible(View(), e)
      modifies this
      ensures View() == M.Step(old(View()), e)
    {
      match e {
        case Start(a, wait, template) => StartAction(a, wait, template);
        case Activated(error) => ActivateComplete(error);
        case Finger(present) => ReportFingerStatus(present);
        case ImageTaken => ImageCaptured();
        case RetryRequested(code) => RetryScan(code);
        case SessionFailed(cause) => SessionError(cause);
        case Deactivated(error) => DeactivateComplete(error);
        case ScanFinished(scan) => MinutiaeDetected(scan);
        case UserCancels => dev := dev.(cancelled := true);
        case CancelDispatched => if dev.action != M.NoAction { Deactivate(true); }
        case Returned => dev := dev.(action := M.NoAction, returning := false, cancelled := false);
      }
    }

    /** The main loop: any list of events a contract-keeping driver and its user can produce. */
    method Serve(events: seq<M.Event>)
      requires M.Inv(View()) && M.Runs(View(), events)
      modifies this
      ensures M.Inv(View()) && View() == M.After(old(View()), events)
    {
      var i := 0;
      while i < |events|
        invariant 0 <= i <= |events|
        invariant M.Inv(View()) && M.Runs(View(), events[i..])
        invariant M.After(View(), events[i..]) == M.After(old(View()), events)
      {
        assert events[i..][1..] == events[i + 1..];
        M.StepKeepsInv(View(), events[i]);
        Dispatch(events[i]);
        i := i + 1;
      }
    }
  }
}

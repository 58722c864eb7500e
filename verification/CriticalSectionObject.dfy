/** The device fields behind critical sections, updated in place. */
module CriticalSectionObject {
  import opened Actions
  import M = CriticalSection

  class Sections {
    const driver: M.Driver
    var task: M.Task
    var sections: nat
    var flush: bool
    var power: M.Power
    var cancelQueued: bool
    var suspendQueued: bool
    var resumeQueued: bool
    var ledger: M.Ledger
    var log: seq<M.Entry>

    function View(): M.Device
      reads this
    {
      M.Device(task, sections, flush, power, M.Queue(cancelQueued, suspendQueued, resumeQueued), ledger, log)
    }

    constructor (driver: M.Driver)
      ensures View() == M.Initial() && this.driver == driver
    {
      this.driver := driver;
      task, sections, flush, power := M.Task(NoAction, false, false), 0, false, M.Power(M.Nothing, false, false);
      cancelQueued, suspendQueued, resumeQueued := false, false, false;
      ledger, log := M.Ledger(0, 0, 0, 0), [];
    }

    method Call(call: M.Call)
      modifies this`log
      ensures View() == M.Logged(old(View()), call)
    {
      log := log + [M.Entry(call, sections)];
    }

    method CriticalEnter()
      modifies this
      ensures View() == M.Enter(old(View()))
    {
      if task.action == NoAction { return; }
      sections := sections + 1;
      flush := false;
    }

    method CriticalLeave()
      modifies this
      ensures View() == M.Leave(old(View()))
    {
      if task.action == NoAction { return; }
      if sections == 0 { return; }
      sections := sections - 1;
      if sections > 0 { return; }
      if flush { return; }
      flush := true;
    }

    method CancelInIdle()
      modifies this
      ensures View() == M.CancelInIdle(old(View()))
    {
      if sections > 0 {
        cancelQueued := true;
      } else {
        Call(M.Cancel);
      }
    }

    method Suspend()
      requires power.pending != M.Resuming
      modifies this
      ensures View() == M.DoSuspend(driver, old(View()))
    {
      match task.action {
        case NoAction =>
          Call(M.SuspendDone(true));
          SuspendComplete(true);
        case Long =>
          if driver.suspends {
            if sections > 0 {
              suspendQueued := true;
            } else {
              Call(M.Suspend);
            }
          } else {
            Call(M.SuspendDone(false));
            SuspendComplete(false);
          }
        case _ =>
          Call(M.AwaitTask);
          power := power.(waiting := true);
      }
    }

    /** The driver's answer to a suspend: a failed one cancels the running task and is handed on when that ends. */
    method SuspendComplete(ok: bool)
      requires power.pending != M.Resuming
      modifies this`power
      ensures View() == M.DriverAnswers(old(View()), ok)
    {
      power := power.(suspended := true);
      if ok || task.action == NoAction {
        power := power.(pending := M.Nothing, waiting := false);
        return;
      }
      power := power.(waiting := true);
    }

    /** The driver's answer to a resume, failed or not, ends the suspension. */
    method ResumeComplete(ok: bool)
      requires power.pending == M.Resuming
      modifies this`power
      ensures View() == M.DriverAnswers(old(View()), ok)
    {
      power := power.(suspended := false);
      power := power.(pending := M.Nothing, waiting := false);
    }

    /** During a short action the assertion is reached that this cannot happen; what follows it answers the request. */
    method Resume()
      requires power.pending == M.Resuming
      modifies this
      ensures View() == M.DoResume(driver, old(View()))
    {
      match task.action {
        case NoAction =>
          Call(M.ResumeDone(true));
          ResumeComplete(true);
        case Long =>
          if driver.resumes {
            if sections > 0 {
              resumeQueued := true;
            } else {
              Call(M.Resume);
            }
          } else {
            Call(M.ResumeDone(false));
            ResumeComplete(false);
          }
        case _ =>
          Call(M.NotReached);
          power := power.(pending := M.Nothing);
      }
    }

    /** The idle callback; whether the source stays is `again`. */
    method FlushIdle() returns (again: bool)
      requires M.Inv(driver, View()) && flush
      modifies this
      ensures View() == M.Flush(driver, old(View())) && M.Inv(driver, View())
      ensures again == old(M.Queued(View().queue)) && flush == again
    {
      M.FlushKeepsInv(driver, View());
      if cancelQueued {
        if task.action != NoAction && !task.returning {
          Call(M.Cancel);
        } else {
          ledger := ledger.(dropped := ledger.dropped + 1);
        }
        cancelQueued := false;
        return true;
      }
      if suspendQueued {
        suspendQueued := false;
        Suspend();
        return true;
      }
      if resumeQueued {
        resumeQueued := false;
        Resume();
        return true;
      }
      flush := false;
      return false;
    }

    /** The main loop runs the idle source until it is removed: everything queued is delivered in order. */
    method Drain()
      requires M.Inv(driver, View()) && flush
      modifies this
      ensures M.Inv(driver, View()) && !flush && !M.Queued(View().queue)
      ensures log == old(log) + M.Delivery(old(View()))
    {
      var again := true;
      while again
        invariant M.Inv(driver, View()) && flush == again
        invariant !again ==> !M.Queued(View().queue)
        invariant log + M.Delivery(View()) == old(log) + M.Delivery(old(View()))
        decreases M.Waiting(View().queue), again
      {
        if M.Queued(View().queue) { M.FlushDelivers(driver, View()); }
        again := FlushIdle();
      }
      assert M.Delivery(View()) == [];
    }
  }
}

# Verified models of the gxfp5130 fingerprint stack

Dafny models of the parts of this repository that keep state across asynchronous
events or do bounded arithmetic, and proofs of what every run of them keeps. Two
halves are covered: libfprint's device layer (image-device actions, sequential state
machines, critical sections, temperature, image assembly, byte reader/writer, SPI
transfers) and the eSPI kernel driver (framings, command exchange, interrupt-driven
reassembly, record FIFO).

`dafny verify dfyconfig.toml` checks the whole project.

| module | models |
|---|---|
| `ImageDevice`, `ImageDeviceObject` | the action machine of image devices; events of driver, extraction thread, user and main loop in any order |
| `ImageDeviceTable` | what each event does to phase, errors, prints, results and flags |
| `EnrollProgress` | when an enrolment stalls between two stages |
| `Ssm`, `SsmObject` | FpiSsm: cleanup states, first error wins, nested machines, one delayed action |
| `CriticalSection`, `CriticalSectionObject` | queued cancel, suspend and resume requests and the idle source that flushes them |
| `Temperature` | the warm-up model with hysteresis over an abstract exponential decay |
| `Overlap`, `Movement`, `Frames` | overlap search, movement estimation and the blitting of stripes |
| `Opposite`, `Swipe` | which frames the search cannot place, and a swipe from frames to image |
| `Median`, `Lines` | search offsets, median filter and 16.16 fixed-point resampling of lines |
| `ByteScan` | the skipping start-code scan (start code prefix of Annex B of ITU-T H.264) and the generic scan |
| `ByteCodec`, `ByteWriter` | little- and big-endian values, the growable writer and its reader |
| `SpiChunk` | the split of a two-buffer SPI transfer into ioctl calls |
| `EspiProto`, `EspiLink` | the three nested framings and the exchange of commands with retries |
| `EspiRx`, `EspiRxObject` | window-by-window reassembly, the read-done line and the embedded controller |
| `RxFifo`, `RxFifoObject` | the byte FIFO shared by interrupt thread, readers and flush |
| `EspiPath` | the way of a packet from the controller through both to a record |
| `Bytes`, `Options`, `Actions`, `Products` | shared definitions and the few nonlinear facts |

Where the source updates fields in place, a class in the `...Object` module (or beside
the functions) carries them, and each method ensures that its new state is a function
of the old one; the theorems are about those functions. Time, allocation results,
ioctl answers, mailbox contents, extraction results and signals are parameters.

## Where the code and its promises differ

Each of these is a lemma or a contract below; the model follows the code.

- The image-device table only holds for drivers that keep a contract the code does not
  enforce. `ImageDevice.DriverContract` is exactly the weakest one: an event outside it
  lets a contract-keeping continuation leave the table (`ContractIsNecessary`). It rules
  out a failed activation (the state stays ACTIVATING), `retry_scan` outside CAPTURE during
  an enrolment although the code accepts any state but INACTIVE, finger-off reports during
  an enrolment capture, and session errors while an enrolment scan is outstanding.
- That contract keeps the table, not progress: an enrolment stalls in IDLE exactly when a scan
  that lets it go on ends there with the finger back on (`StallsExactly`), and then only a
  session error or a cancellation ends it (`StallEndsExactly`). Drivers that report no finger
  in IDLE never stall (`PoliteRunsNeverStall`), and that is needed (`PolitenessNeeded`).
- The warning about deactivating while not idle is given in a normal run: when the last print
  of an enrolment arrives before the finger is lifted (`NotIdleExactly`).
- `fpi_do_movement_estimation` can leave deltas of both signs: a stripe that only the
  reverse pass can place keeps its negated delta through the last forward pass
  (`OneDirectionExactly`, `BothDirections`), and frame assembly then clips it
  (`EstimatedSwipeIsClipped`). In terms of the frames: such a stripe is black against white
  under every forward shift and not under every reverse one (`FramesMoveOneWayExactly`).
- The overlap search reads outside frames narrower than 8 pixels (`ReadsInsideExactly`).
- Line assembly writes outside its output exactly when `max_height` is 0 and the sum of the
  steps is positive: the guard `line_ind > max_height - 1` then compares with the largest
  unsigned value (`PastEndExactly`, `Resample`). A median filter size of 0 overruns its sort
  buffer from four lines on (`MedianFilter`, `AssembleLines`).
- The start-code fast path narrows the match offset to `gint`: the value of a first match at or
  beyond 2 GiB is read at a negative index, while a caller that does not ask for the value gets
  the right offset (`MaskedScan`, `LateStartCode`).
- A refused reallocation leaves the writer's recorded size above its buffer, and the same
  request is then granted without room for it (`EnsureFreeSpace`, `AskTwice`); writes report that
  as `Overrun`.
- `transfer_chunk` compares the wrong way round, so the split warning and chip-select flag
  are never set (`SpiChunk.TransferChunk`).
- The MP builder accepts a payload of 0x6c00 bytes that the MP parser refuses
  (`MpRoundTripExactly`); command payloads of 497 to 504 bytes pass both builders, do not fit
  the mailbox and are reported as a timeout (`EspiLink.Link.Transfer`).
- The body's length bytes are not safe: a changed length is accepted exactly when the payload
  carries a fitting checksum at the new end, and changes of sequence number and padding are never
  noticed (`ChangeDetectedExactly`, `LengthByteNotProtected`).
- A packet with a bad header gets no read-done edge, so a controller that waits for one
  shows it forever (`AdvancesExactlyOnValidHead`). A failed read in the middle of a packet drops
  what was assembled: the next window is taken for a head (`FailedReadDropsPacket`), and if it does
  not look like one, receiver and controller stand still (`StandsStill`). Reads that fail between
  packets are harmless (`IdleFailuresHarmless`).
- A queued cancellation is dropped once the action has completed, a queued suspend or resume is
  delivered all the same (`DeliveredExactly`, `SuspendAfterCompletion`).
- A resume reaches the assertion that it never meets a short action exactly when it meets one
  (`AssertionExactly`), and clearing the storage of a suspended device brings that about
  (`ClearStorageReachesAssertion`).
- Requests queued behind a critical section are all accounted for exactly when no cancellation meets
  another one queued there (`BalancedExactly`); a driver that completes an action inside a section,
  against its documentation, can bring that about (`CarelessLosesRequest`).
- An FpiSsm that jumps enters each cleanup state once and in order exactly when every jump is tame:
  from a work state at most to the first cleanup state, and in the cleanup range to the next state
  (`CleanupKeptExactly`; `JumpBypasses` for what a wilder jump leaves out). Jumps back out of the
  cleanup range are a matter apart, as one may be undone by another (`DetourKeepsCleanup`).

## Model

| member | source | states |
|---|---|---|
| `ImageDevice.EveryRunIsSafe` | libfprint/libfprint/fpi-image-device.c:88-234 | over every run of a contract-keeping driver: all state changes are in the table, the assertions at action start hold, `active` matches the phase, at most one scan is outstanding and none in AWAIT_FINGER_ON or CAPTURE, each action is reported at most once and in order with a truthful result, nothing stays pending when the device is down, and an enrolment template holds its base plus one print per stage |
| `ImageDevice.StepKeepsInv` | libfprint/libfprint/fpi-image-device.c:236-714 | each event, in whatever interleaving, keeps the invariant that links phase, flags, stored error, reports, outcome and template (prints of strictly later scans) |
| `ImageDevice.LaterOfTheTwoCompletes` | libfprint/libfprint/fpi-image-device.c:172-234 | the later of "deactivated" and "scan finished" completes a pending action, no other event does, and it leaves the device inactive with no scan |
| `ImageDevice.KeepComputesVerdict` | libfprint/libfprint/fpi-image-device.c:172-195 | the one-slot rule for errors computes the first non-retry error of all handed in, else the last retry |
| `ImageDevice.ContractIsNecessary` | libfprint/libfprint/fpi-image-device.c:295-318 | from any state that satisfies the invariant, an event outside the driver contract has a continuation within it that makes an invalid transition |
| `ImageDevice.StuckActivating` | libfprint/libfprint/fpi-image-device.c:658-687 | a device left in ACTIVATING by a failed activation makes an invalid transition when the next action starts |
| `ImageDevice.ScanKeeps` | libfprint/libfprint/fpi-image-device.c:236-386 | a scan result, cancelled or not, for any action and any outcome of extraction, print creation and matching, keeps the invariant |
| `ImageDeviceTable.WarnsExactly` | libfprint/libfprint/fpi-image-device.c:91-143 | every state change is made, and warned about exactly if the transition table lacks it |
| `ImageDeviceTable.PhaseExactly` | libfprint/libfprint/fpi-image-device.c:236-714 | the phase after every event is the one a table over the event and its guards names |
| `ImageDeviceTable.GoesDownExactly` | libfprint/libfprint/fpi-image-device.c:421-648 | an active device goes to DEACTIVATING at exactly these events: a retry of any action but ENROLL, a session error other than an expected cancellation, a dispatched cancellation, finger-off in AWAIT_FINGER_OFF of any action but ENROLL, and a scan that ends the action |
| `ImageDeviceTable.ErrorsExactly` | libfprint/libfprint/fpi-image-device.c:172-386 | which error, if any, each event hands in to the running action |
| `ImageDeviceTable.FatalMatchDecides` | libfprint/libfprint/fpi-image-device.c:320-345 | a fatal match error is what a verification ends with, unless a final error came before it, at once if the device is already down |
| `ImageDeviceTable.FlagsExactly` | libfprint/libfprint/fpi-image-device.c:236-589 | prints, stage, reported result, scan and finger flags change at exactly the events named |
| `ImageDeviceTable.StartExactly` | libfprint/libfprint/fp-image-device.c:96-138 | what a started action begins with, and which is refused at once |
| `ImageDeviceTable.FailedActivation` | libfprint/libfprint/fpi-image-device.c:657-687 | a failed activation reports its error and changes nothing of the device |
| `ImageDeviceTable.CancelledExactly` | libfprint/libfprint/fp-image-device.c:79-94 | only the user cancels, and only the return of the result ends an action |
| `ImageDeviceTable.CaptureReportsItsImage` | libfprint/libfprint/fpi-image-device.c:196-234 | a capture that succeeds hands over the image of its own scan |
| `EnrollProgress.StallsExactly` | libfprint/libfprint/fpi-image-device.c:159-170 | an enrolment comes to wait in IDLE for nothing exactly when a scan that lets it go on ends there with the finger present |
| `EnrollProgress.PoliteRunsNeverStall` | libfprint/libfprint/fpi-image-device.c:421-480 | over every run without finger-on reports in IDLE, a device in IDLE has a scan outstanding and the finger lifted |
| `EnrollProgress.PolitenessNeeded` | libfprint/libfprint/fpi-image-device.c:421-480 | a finger-on report in IDLE has a continuation that stalls |
| `EnrollProgress.StallEndsExactly` | libfprint/libfprint/fpi-image-device.c:421-714 | a stalled enrolment is ended by a session error or the dispatch of a cancellation and by no other event |
| `EnrollProgress.NotIdleExactly` | libfprint/libfprint/fpi-image-device.c:63-83 | the not-idle warning is given exactly when the last print of an enrolment arrives in AWAIT_FINGER_OFF |
| `ImageDeviceObject.FpImageDevice.MaybeCompleteAction` | libfprint/libfprint/fpi-image-device.c:172-234 | the in-place completion logic equals the function the theorems are about |
| `ImageDeviceObject.FpImageDevice.MinutiaeDetected` | libfprint/libfprint/fpi-image-device.c:236-386 | the same for the scan callback |
| `ImageDeviceObject.FpImageDevice.ReportFingerStatus` | libfprint/libfprint/fpi-image-device.c:421-480 | the same for finger reports |
| `ImageDeviceObject.FpImageDevice.StartAction` | libfprint/libfprint/fp-image-device.c:96-138 | the same for action start, with its assertions recorded |
| `ImageDeviceObject.FpImageDevice.ChangeState` | libfprint/libfprint/fpi-image-device.c:88-157 | a state change takes effect and is recorded when it is outside the table |
| `ImageDeviceObject.FpImageDevice.EnrollMaybeAwaitFingerOn` | libfprint/libfprint/fpi-image-device.c:159-170 | the next enrolment stage waits for finger-off and scan result, in either order |
| `ImageDeviceObject.FpImageDevice.Deactivate` | libfprint/libfprint/fpi-image-device.c:63-83 | deactivation is asked for once and only of an active device, and the not-idle warning is recorded |
| `ImageDeviceObject.FpImageDevice.ImageCaptured` | libfprint/libfprint/fpi-image-device.c:496-532 | an image starts one scan, in CAPTURE only |
| `ImageDeviceObject.FpImageDevice.RetryScan` | libfprint/libfprint/fpi-image-device.c:543-589 | a retry request, by action |
| `ImageDeviceObject.FpImageDevice.SessionError` | libfprint/libfprint/fpi-image-device.c:601-648 | a session error, before and after activation |
| `ImageDeviceObject.FpImageDevice.ActivateComplete` | libfprint/libfprint/fpi-image-device.c:657-687 | activation, failed activation included |
| `ImageDeviceObject.FpImageDevice.DeactivateComplete` | libfprint/libfprint/fpi-image-device.c:696-714 | deactivation completes the action unless a scan is pending |
| `ImageDeviceObject.FpImageDevice.Serve` | libfprint/libfprint/fpi-image-device.c:88-714 | a loop over any feasible list of events keeps the invariant and ends in the state the run theorems speak of |
| `Ssm.CleanupNeverSkipped` | libfprint/libfprint/fpi-ssm.c:330-370 | without jumps, any completing list of operations enters the work states in order up to the last one, then every cleanup state exactly once in order, within `nr_states` handler calls, and ends with the first failure |
| `Ssm.ApplyAdvances` | libfprint/libfprint/fpi-ssm.c:416-466 | each operation but a jump moves a sound machine forward or completes it, keeps the first error, and moves exactly one state in the cleanup range |
| `Ssm.CleanupKeptExactly` | libfprint/libfprint/fpi-ssm.c:330-543 | over every completing run whose jumps do not leave the cleanup range, the cleanup states are entered once each and in order exactly when every operation is tame; the first failure is kept in any case |
| `Ssm.JumpsKeepCleanup` | libfprint/libfprint/fpi-ssm.c:527-543 | however a machine jumps among its work states and to the first cleanup state, every cleanup state follows once in order, and it ends with the first failure |
| `Ssm.JumpBypasses` | libfprint/libfprint/fpi-ssm.c:527-543 | a jump past the first cleanup state, to `nr_states` included, enters exactly the cleanup states from its target on |
| `Ssm.DetourKeepsCleanup` | libfprint/libfprint/fpi-ssm.c:527-543 | a jump out of the cleanup range that is followed by one to the state that was due skips and repeats nothing |
| `Ssm.JumpExactly` | libfprint/libfprint/fpi-ssm.c:527-543 | a jump to a state leaves the machine there with its error, and a jump to `nr_states` completes it |
| `Ssm.EnteredIsTrace` | libfprint/libfprint/fpi-ssm.c:270-543 | the states entered in a run are the successors and jump targets that the operations name, as numbers |
| `Ssm.RootCallbackOnce` | libfprint/libfprint/fpi-ssm.c:283-319 | in any nest, with jumps that do not leave the cleanup range, the root callback is made exactly when the root is gone, once, with the earliest error of any handler anywhere; without jumps operations are bounded by the states of the machines started |
| `Ssm.NestRunsKeepInv` | libfprint/libfprint/fpi-ssm.c:283-319 | at every point of a run the error nearest the root is the earliest one recorded |
| `Ssm.UnwindKeeps` | libfprint/libfprint/fpi-ssm.c:283-293 | handing a completed sub-machine's result down any number of levels keeps that |
| `Ssm.NestMoveExactly` | libfprint/libfprint/fpi-ssm.c:283-319 | where an operation takes a nest: the next state of the top machine, the root callback with its error, or what the parent's own next-state or failure would do |
| `Ssm.OperationsBounded` | libfprint/libfprint/fpi-ssm.c:330-466 | without jumps every operation lowers the number of handler calls left, so no nest runs on |
| `SsmObject.FpiSsm.MarkFailed` | libfprint/libfprint/fpi-ssm.c:416-441 | new state, handler calls and callbacks; a second failure before cleanup changes nothing |
| `SsmObject.FpiSsm.Start` | libfprint/libfprint/fpi-ssm.c:270-281 | a started machine has called its handler for state 0 |
| `SsmObject.FpiSsm.MarkCompleted` | libfprint/libfprint/fpi-ssm.c:330-370 | the next cleanup state is entered, or the machine completes and calls back once |
| `SsmObject.FpiSsm.NextState` | libfprint/libfprint/fpi-ssm.c:451-466 | the next state is entered, or the machine completes |
| `SsmObject.FpiSsm.JumpToState` | libfprint/libfprint/fpi-ssm.c:527-543 | the effect of one jump |
| `SsmObject.FpiSsm.OnDeviceTimeout` | libfprint/libfprint/fpi-ssm.c:372-559 | when the single delayed action fires it has the effect of the immediate one |
| `SsmObject.FpiSsm.PerformBy` | libfprint/libfprint/fpi-ssm.c:206-559 | an operation done at once, through a timeout, or after another delayed action was set and cancelled has the same effect, and no timeout is left |
| `SsmObject.FpiSsm.Drive` | libfprint/libfprint/fpi-ssm.c:206-593 | the object, driven to completion by any mix of immediate, delayed, and cancelled and reissued operations, jumps included, has called its handler for exactly the states the operations name, which with tame jumps end with every cleanup state in order, and its callback once with the first failure |
| `CriticalSection.RunsFromStart` | libfprint/libfprint/fpi-device.c:819-909 | over every run no driver call falls inside a critical section, whatever is queued is covered by an open section or an armed flush, and each request is answered once, queued, or (a cancellation after completion) dropped |
| `CriticalSection.EveryRunIsShielded` | libfprint/libfprint/fpi-device.c:819-909 | the same from any state that satisfies the invariant |
| `CriticalSection.LooseRunsExactly` | libfprint/libfprint/fpi-device.c:819-909 | over every run of any driver, also one that completes inside a section, no driver call falls inside a section, and the requests missing are exactly the cancellations that met another one queued |
| `CriticalSection.BalancedExactly` | libfprint/libfprint/fpi-device.c:819-909 | all requests are accounted for exactly when there was no such cancellation; suspends and resumes always are |
| `CriticalSection.CarelessLosesRequest` | libfprint/libfprint/fpi-device.c:815-817 | a run in which completing inside a section loses a cancellation |
| `CriticalSection.FlushDrains` | libfprint/libfprint/fpi-device.c:834-870 | undisturbed, the idle source delivers cancel, suspend, resume in this order, one per run, then removes itself |
| `CriticalSection.SuspendAfterCompletion` | libfprint/libfprint/fpi-device.c:851-857 | a run in which a queued suspend reaches the driver after its action completed |
| `CriticalSection.DeliveredExactly` | libfprint/libfprint/fpi-device.c:834-870 | a drained queue has reached the driver with its cancellation exactly if the action was still running, and with suspend and resume in any case |
| `CriticalSection.AssertionExactly` | libfprint/libfprint/fpi-device.c:1675-1685 | the assertion in resume is reached exactly by a resume request during a short action |
| `CriticalSection.ClearStorageReachesAssertion` | libfprint/libfprint/fp-device.c:1803-1850 | a suspended device that clears its storage reaches it at the next resume |
| `CriticalSection.WaitingEndsExactly` | libfprint/libfprint/fpi-device.c:1806-1827 | a suspend that has to wait for the running action is answered exactly when that action returns |
| `CriticalSection.SuspendedExactly` | libfprint/libfprint/fpi-device.c:1598-1855 | which steps set and clear the suspended state |
| `CriticalSection.PendingExactly` | libfprint/libfprint/fpi-device.c:1598-1855 | which steps begin and end a suspend or resume request |
| `CriticalSection.CallExactly` | libfprint/libfprint/fpi-device.c:834-870 | a step makes a given call exactly when it takes up such a request and the action, the sections and the driver's handlers are as named |
| `CriticalSectionObject.Sections.Suspend` | libfprint/libfprint/fpi-device.c:1598-1645 | the suspend dispatch by running action: answered, handed on, queued, or waiting for the task |
| `CriticalSectionObject.Sections.SuspendComplete` | libfprint/libfprint/fpi-device.c:1793-1827 | the driver's answer step of the run theorems, for a suspend |
| `CriticalSectionObject.Sections.ResumeComplete` | libfprint/libfprint/fpi-device.c:1836-1855 | the same step for a resume |
| `CriticalSectionObject.Sections.Resume` | libfprint/libfprint/fpi-device.c:1647-1687 | the resume dispatch, with the assertion for short actions recorded |
| `CriticalSectionObject.Sections.CancelInIdle` | libfprint/libfprint/fp-device.c:84-106 | a cancellation is queued or delivered |
| `CriticalSectionObject.Sections.CriticalEnter` | libfprint/libfprint/fpi-device.c:819-832 | one more section and no flush, only during an action |
| `CriticalSectionObject.Sections.CriticalLeave` | libfprint/libfprint/fpi-device.c:882-909 | leaving the last section arms the flush; refused without action or section |
| `CriticalSectionObject.Sections.FlushIdle` | libfprint/libfprint/fpi-device.c:834-870 | one run of the idle callback, and that the source stays exactly while something was queued |
| `CriticalSectionObject.Sections.Drain` | libfprint/libfprint/fpi-device.c:834-909 | the loop over the idle callback ends with an empty queue and the deliveries in order |
| `Temperature.RunsKeepInv` | libfprint/libfprint/fpi-device.c:2169-2228 | over every run of updates the ratio stays in (0, 1), HOT means at least 0.5, WARM means below the hot threshold |
| `Temperature.TemperatureExactly` | libfprint/libfprint/fpi-device.c:2205-2228 | cold is below its threshold and nothing else, hot is entered at the upper threshold only and left below the lower one only |
| `Temperature.RatioExactly` | libfprint/libfprint/fpi-device.c:2188-2200 | activity shrinks the distance to one by the hot decay, rest shrinks the ratio by the cold decay |
| `Temperature.NextThresholdExactly` | libfprint/libfprint/fpi-device.c:2206-2228 | the next threshold is the nearest one ahead in the direction of the drift |
| `Temperature.ResamplingLeavesNoTrace` | libfprint/libfprint/fpi-device.c:2188-2228 | while the activity is constant, any number of intermediate updates leaves ratio and temperature of the next update unchanged |
| `Temperature.ThresholdAhead` | libfprint/libfprint/fpi-device.c:2205-2268 | the next threshold is never behind the drift, so the logarithm's argument is in (0, 1] |
| `Temperature.DelayNotNegative` | libfprint/libfprint/fpi-device.c:2264-2270 | a decay factor of at most one belongs exactly to a delay that is not negative |
| `Temperature.TimerReaches` | libfprint/libfprint/fpi-device.c:2264-2268 | the timer's delay is not negative and takes the ratio exactly to the threshold |
| `Temperature.TimerMovesTemperature` | libfprint/libfprint/fpi-device.c:2264-2275 | with the extra delay the threshold is passed: cold is left, warm becomes hot, hot is left, low warm becomes cold |
| `Temperature.Thermometer.UpdateTemp` | libfprint/libfprint/fpi-device.c:2169-2276 | the in-place update equals the function, arms the timer exactly when a threshold is ahead, cancels exactly long actions of a hot device, and does nothing when switched off |
| `Temperature.Thermometer.Timeout` | libfprint/libfprint/fpi-device.c:2153-2159 | the timer's own update is invisible to every later one |
| `Temperature.Thermometer.constructor` | libfprint/libfprint/fp-device.c:196-207 | the initial model satisfies the invariant |
| `Overlap.CalcError` | libfprint/libfprint/fpi-assembling.c:42-93 | with 255 * (W * H)^2 below 2^32 the 32-bit result is the exact normalised sum of pixel differences |
| `Overlap.NothingOverflows` | libfprint/libfprint/fpi-assembling.c:86-109 | no sum, product or bound of the search leaves 32 bits then |
| `Overlap.ReadsInsideExactly` | libfprint/libfprint/fpi-assembling.c:52-86 | all reads are inside both frames exactly when they are at least 8 wide or at most 2 high |
| `Overlap.ErrorBound` | libfprint/libfprint/fpi-assembling.c:88-92 | a normalised error never exceeds 255 times the area |
| `Overlap.ErrorExactly` | libfprint/libfprint/fpi-assembling.c:42-93 | the error of a shift (dx, dy) is the sum of the differences between pixel (x, y) of the first and (x - dx, y + dy) of the second frame, scaled from their number to the area, rounded down |
| `Overlap.FindOverlap` | libfprint/libfprint/fpi-assembling.c:98-130 | the result is the first minimum in scan order over dy in [2, H) and dx in [-8, 8), or the caller's deltas with 255 * W * H when no shift is below that |
| `Overlap.FirstMinimumUnique` | libfprint/libfprint/fpi-assembling.c:116-129 | that first minimum is unique |
| `Movement.SearchedIs` | libfprint/libfprint/fpi-assembling.c:98-130 | a recursive scan over the shifts yields the first minimum, the reference the passes are stated with |
| `Movement.Search` | libfprint/libfprint/fpi-assembling.c:98-130 | the search method agrees with that scan |
| `Movement.EstimatePass` | libfprint/libfprint/fpi-assembling.c:132-180 | every stripe's delta and the average error after one pass; a search without result keeps the old delta |
| `Movement.EstimateMovement` | libfprint/libfprint/fpi-assembling.c:194-205 | every delta after the two or three passes |
| `Movement.AverageFits` | libfprint/libfprint/fpi-assembling.c:170-200 | the averages do not exceed the error limit, so they fit the signed variables that compare them |
| `Movement.AverageExactly` | libfprint/libfprint/fpi-assembling.c:145-179 | the average is the sum of the errors by the number of stripes, rounded down |
| `Movement.EstimatedExactly` | libfprint/libfprint/fpi-assembling.c:132-205 | the delta a stripe ends with, case by case |
| `Movement.OneDirectionExactly` | libfprint/libfprint/fpi-assembling.c:194-205 | from zero deltas, all movements have one direction exactly when forward loses or no stripe is placed by the reverse search alone |
| `Movement.BothDirections` | libfprint/libfprint/fpi-assembling.c:194-205 | four concrete frames whose estimated movements have both signs |
| `Opposite.SearchedNoneExactly` | libfprint/libfprint/fpi-assembling.c:98-130 | the search finds nothing exactly when, under every shift that leaves pixels to compare, every compared pair differs by 255 |
| `Opposite.StaleExactly` | libfprint/libfprint/fpi-assembling.c:132-205 | on the frames themselves: which stripes only the reverse search can place |
| `Opposite.FramesMoveOneWayExactly` | libfprint/libfprint/fpi-assembling.c:194-205 | the movements estimated for any frames have one direction exactly when forward loses or no stripe is of that kind |
| `Frames.BlitStripe` | libfprint/libfprint/fpi-assembling.c:207-243 | for any position exactly the image pixels the stripe covers change, to the stripe's pixels |
| `Frames.BlitRow` | libfprint/libfprint/fpi-assembling.c:241-242 | one clipped row: exactly its covered pixels change |
| `Frames.AssembleFrames` | libfprint/libfprint/fpi-assembling.c:255-313 | for any deltas: height, direction flag, reset of the first delta, and every pixel equal to the composite of the stripes |
| `Frames.CompositeIsLast` | libfprint/libfprint/fpi-assembling.c:302-310 | a composite pixel is that of the last stripe covering it |
| `Frames.CompositeIsZero` | libfprint/libfprint/fpi-assembling.c:292-310 | a pixel no stripe covers is zero |
| `Frames.StripesPlaced` | libfprint/libfprint/fpi-assembling.c:299-307 | the first stripe is centred up to a pixel, and each further one is moved by its delta |
| `Frames.RowsInsideExactly` | libfprint/libfprint/fpi-assembling.c:273-310 | every stripe row is inside the image exactly when the running sums of delta_y stay between zero and their total |
| `Frames.OneDirectionFits` | libfprint/libfprint/fpi-assembling.c:273-310 | when all delta_y share a sign, forward or reversed, every stripe row is inside |
| `Frames.EstimatedSwipeIsClipped` | libfprint/libfprint/fpi-assembling.c:194-310 | the movements estimated for the frames of BothDirections put a stripe outside |
| `Swipe.OneWaySwipeFits` | libfprint/libfprint/fpi-assembling.c:194-310 | for such frames the estimated deltas put every stripe row inside the image |
| `Swipe.AssembleSwipe` | libfprint/libfprint/fpi-assembling.c:194-313 | estimation followed by assembly: every pixel is that of the stripes at their estimated places |
| `Median.UpperMedianCorrect` | libfprint/libfprint/fpi-assembling.c:345-346 | the middle of the sorted window has at most half of the values below it and more than half not above, and is one of them |
| `Median.UpperMedianUnique` | libfprint/libfprint/fpi-assembling.c:345-346 | that rank property determines the value |
| `Median.WindowExactly` | libfprint/libfprint/fpi-assembling.c:338-344 | the window of an entry holds exactly the entries at most (filtersize - 1) / 2 places away |
| `Median.MedianFilter` | libfprint/libfprint/fpi-assembling.c:329-351 | every entry becomes the upper median of its clipped window of original values, entries past the size stay; the sort buffer is overrun exactly for filter size 0 and some data |
| `Lines.FindOffset` | libfprint/libfprint/fpi-assembling.c:416-438 | the offset found is the first line of least deviation within the searched range |
| `Lines.LastRowExactly` | libfprint/libfprint/fpi-assembling.c:422-426 | which lines are compared with a line |
| `Lines.SearchOffsets` | libfprint/libfprint/fpi-assembling.c:415-443 | all offsets are found, each for every second line |
| `Lines.Offsets` | libfprint/libfprint/fpi-assembling.c:415-445 | offsets before and after the filter lie in [1, max_search_offset] (all zero when that is 0), all but the last are upper medians; overrun exactly for filter size 0 and four lines |
| `Lines.InterpolatedBetween` | libfprint/libfprint/fpi-assembling.c:366-374 | an interpolated pixel lies between its two sources, and its unscaled sum in [0, 255 * distance] |
| `Lines.InterpolatedExactly` | libfprint/libfprint/fpi-assembling.c:366-374 | the pixel is the mean weighted by the distances, rounded down: the first pixel on the first line, the second on the second |
| `Lines.InterpolatedMonotone` | libfprint/libfprint/fpi-assembling.c:366-374 | from one line to the next the pixel moves steadily from the first value to the second |
| `Lines.InterpolateLines` | libfprint/libfprint/fpi-assembling.c:353-375 | one output row is the interpolation of two lines, other rows stay |
| `Lines.ResampleStep` | libfprint/libfprint/fpi-assembling.c:456-470 | keeps y_f <= line_ind << 16 < y_f + 2^16 and fills rows up to the next line or the end of the buffer, or shows that there is no buffer |
| `Lines.Resample` | libfprint/libfprint/fpi-assembling.c:450-478 | without 32-bit overflow for resolution <= 128 and max_height + resolution < 2^15, the height is min(max_height, ceil(total / 2^16)) and every row interpolates the two lines it lies between; a row is written outside exactly if max_height is 0 and total positive |
| `Lines.LineGap` | libfprint/libfprint/fpi-assembling.c:453-456 | the distance between lines is the resolution divided by the offset of their pair, in 16.16 fixed point, rounded down |
| `Lines.CeilingExactly` | libfprint/libfprint/fpi-assembling.c:457-474 | the number of rows is the least that reaches the sum of the distances |
| `Lines.PastEndExactly` | libfprint/libfprint/fpi-assembling.c:459-460 | the unsigned test for a full buffer is right for every row exactly when max_height is at least 1 |
| `Lines.SourceUnique` | libfprint/libfprint/fpi-assembling.c:450-472 | a row lies between one pair of neighbouring lines only |
| `Lines.AssembleLines` | libfprint/libfprint/fpi-assembling.c:391-482 | the whole assembly, no image for fewer than two lines, and exactly when it overruns which buffer |
| `Lines.PixelBetween` | libfprint/libfprint/fpi-assembling.c:366-374 | every pixel of the assembled image lies between those of its two source lines |
| `Lines.PixelExactly` | libfprint/libfprint/fpi-assembling.c:366-374 | every pixel of the assembled image is the mean of its two source pixels weighted by the distances of its row, rounded down |
| `ByteScan.ScanForStartCode` | libfprint/libfprint/fpi-byte-reader.c:824-844 | the skipping scan finds the least match or that there is none |
| `ByteScan.GenericScan` | libfprint/libfprint/fpi-byte-reader.c:877-896 | the shift-register scan finds the least match of any pattern and mask with its four bytes |
| `ByteScan.MaskedScan` | libfprint/libfprint/fpi-byte-reader.c:846-897 | on either path, with or without a place for the value, the answer is the least match with its bytes exactly unless the fast path fetches the value of a match at or beyond 2 GiB, which it reads at a negative index |
| `ByteScan.LeastMatchUnique` | libfprint/libfprint/fpi-byte-reader.c:824-897 | two scans that find the least match find the same |
| `ByteScan.LateStartCode` | libfprint/libfprint/fpi-byte-reader.c:864-876 | an input whose first start code is at 2 GiB |
| `ByteCodec.RoundTripExactly` | libfprint/libfprint/fpi-byte-utils.h:32-315 | a value of any width, sign and byte order survives writing and reading exactly when it is in the range its name promises |
| `ByteCodec.CastExactly` | libfprint/libfprint/fpi-byte-reader.h:292-335 | the cast and the 24-bit sign fix-up undo the cast to unsigned exactly on that range |
| `ByteCodec.EncodedDigit` | libfprint/libfprint/fpi-byte-utils.h:32-315 | byte i of a written value is the base-256 digit at its place from the low end, or in big endian from the high end |
| `ByteCodec.DecodedDigit` | libfprint/libfprint/fpi-byte-utils.h:32-160 | the same for what is read unsigned |
| `ByteCodec.DecodedSigned` | libfprint/libfprint/fpi-byte-reader.h:292-335 | what is read signed, the 24-bit values included |
| `ByteCodec.ListRoundTripExactly` | libfprint/libfprint/fpi-byte-reader.h:404-430 | the same for any list of values, whatever bytes follow |
| `ByteWriter.NextPow2` | libfprint/libfprint/fpi-byte-writer.h:220-231 | at least n even after shift overflow; the least power of two of at least 16 and n up to 2^31, and n beyond |
| `ByteWriter.ByteWriter.EnsureFreeSpace` | libfprint/libfprint/fpi-byte-writer.h:233-254 | from any state: granted exactly when the recorded size or a served growth allows it; contents and cursor kept; there is room for a granted request exactly unless it overruns the buffer; valid exactly after growth or if it was and no growth was refused |
| `ByteWriter.ByteWriter.AskTwice` | libfprint/libfprint/fpi-byte-writer.h:233-254 | asked twice while the allocator serves nothing, a request is granted without room exactly if its growth was refused |
| `ByteWriter.ByteWriter.Put` | libfprint/libfprint/fpi-byte-writer.h:256-280 | the contents are overwritten or extended at the cursor by the value's bytes, or nothing changes for want of room; a write past the buffer is reported exactly where it would happen |
| `ByteWriter.ByteWriter.PutData` | libfprint/libfprint/fpi-byte-writer.h:308-328 | the same for a block |
| `ByteWriter.ByteWriter.Fill` | libfprint/libfprint/fpi-byte-writer.h:330-349 | the same for a repeated byte |
| `ByteWriter.ByteWriter.SetPos` | libfprint/libfprint/fpi-byte-reader.c:163-174 | the cursor moves exactly within the size |
| `ByteWriter.ByteWriter.PutAll` | libfprint/libfprint/fpi-byte-writer.h:256-280 | a list of values is written up to the first that is not stored, wholly while allocation succeeds, and never past the buffer of a valid writer |
| `ByteWriter.OverwriteAt` | libfprint/libfprint/fpi-byte-writer.h:308-315 | which bytes an overwrite changes and which it keeps |
| `ByteWriter.ByteReader.Get` | libfprint/libfprint/fpi-byte-reader.h:404-430 | a value is read exactly when enough bytes remain, and the cursor moves past it |
| `ByteWriter.ByteReader.GetAll` | libfprint/libfprint/fpi-byte-reader.h:404-430 | values of given kinds are read one after the other, or none when the bytes run out |
| `ByteWriter.WriteThenRead` | libfprint/libfprint/fpi-byte-writer.h:256-280 | any list written and read back from position 0 is unchanged exactly when every value is in range |
| `SpiChunk.FillSegments` | libfprint/libfprint/fpi-spi-transfer.c:313-357 | the segments of a call despite the wrap of `skip`: a write part, then a read part only once the write buffer is finished |
| `SpiChunk.TransferChunk` | libfprint/libfprint/fpi-spi-transfer.c:313-383 | a call moves the places from `transferred` on without gap, at least one, each segment at most a block, never past the end; the split check never holds |
| `SpiChunk.Transfer` | libfprint/libfprint/fpi-spi-transfer.c:385-427 | the acknowledged segments are the write buffer then the read buffer, all of them on success and a prefix on failure, within ceil(length / block) calls |
| `SpiChunk.IntervalAt` | libfprint/libfprint/fpi-spi-transfer.c:405-412 | place k of a job is byte k of the write buffer, then of the read buffer |
| `EspiProto.ProtoChecksum` | kernel/proto/gxfp_goodix_proto.c:43-53 | the summing loop computes the byte that completes the body's sum to 0xAA |
| `EspiProto.BodySum` | kernel/proto/gxfp_goodix_proto.c:43-84 | the byte sum of every built body is 0xAA modulo 256 |
| `EspiProto.GoodixBuildFrame` | kernel/proto/gxfp_goodix_proto.c:55-84 | the buffer holds the body or an error says why not |
| `EspiProto.MpBuildFrame` | kernel/proto/gxfp_mp_proto.c:63-96 | the buffer holds the frame or an error says why not |
| `EspiProto.BodyRoundTrip` | kernel/proto/gxfp_goodix_proto.c:8-84 | parsing a built body gives back command and payload with a good checksum |
| `EspiProto.MpRoundTripExactly` | kernel/proto/gxfp_mp_proto.c:9-96 | parsing a built frame gives the payload back exactly below 0x6c00 bytes |
| `EspiProto.UnwrapRoundTrip` | kernel/transport/gxfp_espi_tx.c:51-74 | the mailbox wrapper with sequence number and padding carries its frame |
| `EspiProto.DecodeRecoversCommand` | kernel/cmd/gxfp_cmd.c:52-66 | undoing the three layers of a transmitted command gives its command byte and payload |
| `EspiProto.FitsExactly` | kernel/transport/gxfp_espi_tx.c:51-74 | the message is 8-aligned, and fits 0x200 bytes exactly for payloads of at most 496 |
| `EspiProto.WireLayout` | kernel/transport/gxfp_espi_tx.c:51-74 | every byte of a transmitted command at its place: magic, lengths low byte first, check bytes, sequence number, type, command, payload and zeros |
| `EspiProto.HeadAcceptedExactly` | kernel/proto/gxfp_mp_proto.c:33-61 | exactly which four bytes are accepted as a packet head |
| `EspiProto.SingleByteChangeDetected` | kernel/proto/gxfp_mp_proto.c:33-61 | changing any one header, command, payload or checksum byte of a message makes some layer refuse it |
| `EspiProto.ChangeDetectedExactly` | kernel/proto/gxfp_mp_proto.c:9-61 | for every byte of a message, whether its change is noticed: protected bytes always, length bytes exactly unless the payload carries a fitting checksum at the new end, sequence number and padding never |
| `EspiProto.LengthChangeExactly` | kernel/proto/gxfp_goodix_proto.c:8-41 | a body with another declared length is accepted, as a shorter payload, exactly under that condition |
| `EspiProto.LengthByteNotProtected` | kernel/proto/gxfp_goodix_proto.c:8-41 | a body whose changed length byte goes unnoticed |
| `EspiLink.Link.Write` | kernel/transport/gxfp_espi_tx.c:36-88 | the message written and the sequence number, which a failed mailbox write uses up too, or an error and no change |
| `EspiLink.Link.BuildMessage` | kernel/transport/gxfp_espi_tx.c:59-72 | the buffer filled in place is the wrapped frame |
| `EspiLink.Link.Exchange` | kernel/transport/gxfp_espi_tx.c:18-34 | one write, and one read only after a successful write |
| `EspiLink.Link.BuildCommand` | kernel/cmd/gxfp_cmd.c:17-66 | the two builders succeed exactly up to 504 payload bytes, with the nested frame |
| `EspiLink.Link.Attempt` | kernel/cmd/gxfp_cmd.c:66-137 | the retry loop: the first valid answer decides, one copy with a new number per successful write |
| `EspiLink.AnswerExactly` | kernel/cmd/gxfp_cmd.c:75-104 | a reply answers a request exactly when it parses as a frame of the expected command, with a good checksum where that is asked for |
| `EspiLink.Link.Transfer` | kernel/cmd/gxfp_cmd.c:17-137 | a success is the payload that the first reply to answer the request carries, a timeout means that none of the attempts, at least one, was answered; the copies sent, and each error case |
| `EspiLink.SentConsecutively` | kernel/transport/gxfp_espi_tx.c:66-68 | without failed writes the copies sent are numbered consecutively |
| `EspiRx.InterruptKeepsInv` | kernel/transport/gxfp_espi_rx_irq.c:33-119 | an interrupt gives one rising edge, uses up one window, keeps `copied` a positive multiple of 0xe00 below the total while active with the buffer prefix equal to the packet's, and loses, doubles or reorders no packet |
| `EspiRx.FinishedAtLastWindow` | kernel/driver/gxfp_irq.c:28-54 | a packet is pushed at exactly interrupt ceil(total / 0xe00) and not before |
| `EspiRx.PacketsConserved` | kernel/driver/gxfp_irq.c:28-54 | after any number of interrupts, packets pushed and packets still to show make up the packets given, with one edge per window |
| `EspiRx.PacketAccepted` | kernel/transport/gxfp_espi_common.c:45-80 | every such packet is accepted by the MP parser with its own payload |
| `EspiRx.AdvancesExactlyOnValidHead` | kernel/transport/gxfp_espi_common.c:45-80 | an idle receiver moves the controller on exactly for a valid header |
| `EspiRx.OutcomeExactly` | kernel/transport/gxfp_espi_rx_irq.c:33-119 | when a step fails and with which error, when it ends a packet, the length it tells and what it does to the line |
| `EspiRx.OutOfStep` | kernel/transport/gxfp_espi_rx_irq.c:61-83 | assembly fields that fit no packet are cleared without a read; the step fails, or is done if all was copied |
| `EspiRx.FailedReadDropsPacket` | kernel/transport/gxfp_espi_rx_irq.c:33-105 | a failed read pushes nothing and gives no edge; receiver and controller stay in step exactly when no packet was being assembled, and otherwise the controller moves on at the next interrupt exactly if its window starts like a head |
| `EspiRx.StandsStill` | kernel/transport/gxfp_espi_common.c:45-80 | an idle receiver that is shown no head stands still with the controller for any number of interrupts |
| `EspiRx.IdleFailuresHarmless` | kernel/driver/gxfp_irq.c:28-54 | with reads that fail only between packets, packets are conserved with one edge and one window per good read |
| `EspiRxObject.Receiver.ReadStep` | kernel/transport/gxfp_espi_rx_irq.c:10-120 | the in-place step, with failed reads and its defensive branches, equals the function |
| `EspiRxObject.Receiver.Interrupt` | kernel/driver/gxfp_irq.c:17-57 | step, read-done line and push of the interrupt thread |
| `RxFifo.EveryInterleavingKeepsRecords` | kernel/driver/gxfp_uapi_fifo.c:26-224 | in every interleaving of pushes, peek-then-pop reads, flushes and unregistration the FIFO is the concatenation of the whole records accepted since the last flush and not yet popped, and no reader sees -EIO |
| `RxFifo.PushAllOrNothing` | kernel/driver/gxfp_uapi_fifo.c:26-66 | a push appends one whole record, with length, type, time stamp, first bytes and payload where user space finds them, or nothing, and the former exactly when the frame parses and there is room |
| `RxFifo.HeadRecord` | kernel/driver/gxfp_uapi_fifo.c:111-167 | what a peek announces is the record the pop takes |
| `RxFifo.PopKeepsInv` | kernel/driver/gxfp_uapi_fifo.c:148-224 | a pop, also one whose copy fails, removes exactly the oldest record |
| `RxFifo.ToldExactly` | kernel/driver/gxfp_uapi_fifo.c:85-224 | which result each step of a reader ends with, and that the oldest record is taken exactly when there is memory for it |
| `RxFifo.StepKeepsInv` | kernel/driver/gxfp_uapi_ctrl.c:119-131 | every step of any party, the flush ioctl included, keeps the records whole |
| `EspiPath.StepDelivers` | kernel/driver/gxfp_irq.c:28-54 | a finished packet becomes one accepted record with its payload exactly when the FIFO is registered and has room; no other step adds one |
| `EspiPath.PacketsBecomeRecords` | kernel/driver/gxfp_irq.c:28-54 | whatever readers and flushers do meanwhile, the payloads of all records accepted are, in order, those of the packets shown, as long as there is room |
| `EspiPath.DeliveredExactly` | kernel/driver/gxfp_irq.c:28-54 | for every run, the payloads delivered are, in order, those of exactly the finished packets for which the FIFO was registered and had room, and packets are finished in the order shown |
| `RxFifoObject.RxQueue.Push` | kernel/driver/gxfp_uapi_fifo.c:26-66 | the in-place push equals the function |
| `RxFifoObject.RxQueue.WaitNonempty` | kernel/driver/gxfp_uapi_fifo.c:85-109 | one pass of the wait |
| `RxFifoObject.RxQueue.PeekNeed` | kernel/driver/gxfp_uapi_fifo.c:111-146 | the peek and its error cases |
| `RxFifoObject.RxQueue.PopRecord` | kernel/driver/gxfp_uapi_fifo.c:148-167 | the pop and its error cases |
| `RxFifoObject.RxQueue.Flush` | kernel/driver/gxfp_uapi_fifo.c:19-24 | the flush |
| `RxFifoObject.RxQueue.Read` | kernel/driver/gxfp_uapi_fifo.c:169-224 | an undisturbed non-blocking read returns the oldest record, or the reason there is none (unregistered, no bytes asked for, empty, too small) and changes nothing |

## Left out

- GObject properties, signals, GTask, GVariant, reference counting and main-loop plumbing: only the flags and source orders they give rise to are kept.
- Print serialisation, NBIS minutiae extraction, Bozorth3 and SIGFM matching: their results are inputs of the image-device model.
- Open and close of image devices and the replacement of a cancellation by its reason.
- Re-entrant driver callbacks: a driver reacts to a state change in a later event, and a user cancels between events.
- The synchronous multi-window read (kernel/transport/gxfp_espi_rx_sync.c): the model covers the interrupt path; a reply of a command exchange is an input.
- Allocation failures of the three buffers of gxfp_xfer, mailboxes that are missing or too small, memory barriers, ACPI, GPIO timing, DKMS, udev, demos and tools.
- What chip select does between SPI chunks: only the guard of its flag is modelled.
- Jumps of an FpiSsm back out of its cleanup range, apart from the detour above.
- Floating-point values, strings, sub-readers and block reads of the byte reader, and the `scan_string` macro: they would add only easy members.
- Integer overflow of positions and heights in frame assembly and images above 65535 rows: deltas and sums are unbounded integers.
- Rounding and the clock resolution of the temperature model: real numbers, and a decay known only by its laws.
- The order in which readers, flushers and unregistration wake up: safety of the FIFO only.
- Suspend errors other than their wait for the running task, wake-up configuration and removed devices.
- Individual USB drivers: register tables and simple clamps.
- Lines.AssembleLines: resolution above 128 or max_height + resolution from 2^15 on, where the source's signed 32-bit values may overflow.
- Lines.Resample: the same bounds.
- CriticalSection.RunsFromStart: assumes the documented duty of drivers to leave all sections before an action completes; LooseRunsExactly does not.
- CriticalSection.EveryRunIsShielded: the same duty.

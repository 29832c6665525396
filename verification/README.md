# A verified model of the GPU driver lab

The repository is a simulated GPU driver: a device that must be given firmware and
started, buffers handed out by number, commands that are validated and queued, two
interchangeable queue backends, drivers that tie these together, wrappers that put the
lifecycle into the type, a register block, and a loop that polls the device until it is
ready.  This project models that pipeline in Dafny and proves what it promises over every
call, every run and every state it can reach.

## How it is organised

Each stateful part of the program is a class with the same fields, whose methods change
them in place, and each is proved against a function that gives the method's meaning on
values.  The guarantees over whole runs are lemmas about those functions.  Methods that
run an object through any sequence of calls carry them over to the object: `Run` on queues,
drivers and the device, and the methods of `DriverGuarantees` and `DeviceRuns`, which start
from a new one.

| files | part |
|---|---|
| `Words`, `Results` | machine integers with a symbolic pointer width, `Option` and `Result` |
| `Command`, `Submission`, `SubmissionCheck` | structural validation and pairing with a buffer |
| `BufferStore`, `BufferLaws`, `DeviceMemory`, `BufferHistory`, `DeviceRuns` | the buffer table as a value, what each operation on it must do, the device that holds it in place, the runs of the table, and of the device |
| `Lifecycle` | firmware images and the device state |
| `QueueSpec`, `Ring`, `StaticQueue`, `DynamicQueue`, `QueueBackend` | the bounded queue, the ring arithmetic, the two backends, and both behind one interface |
| `DriverSpec`, `DriverLaws`, `DriverRuns`, `DriverData` | the driver as a state machine, what each call must do, its runs, and the bytes its submissions refer to |
| `GenericDriver`, `SimulatedDriver`, `DriverEquivalence`, `DriverGuarantees` | the two driver objects, their agreement, and what any run of a new one ends in |
| `Typestate`, `TypedGenericDriver`, `TypedSimulatedDriver` | the lifecycle in the type |
| `RegisterFields`, `Polling` | control and status registers, the polling loop |

What an operation must do is also written down as a law: a relation between state before,
state after and answer that names every error and every byte outright, without the
functions.  The functions are proved to obey the laws, and the methods of the objects
promise them directly.

A run is a start state and a sequence of calls; `After(s, calls, k)` is the state after the
first `k` of them and `ReplyAt`/`AnswerAt` what call `k` answers.  A statement for every
sequence and every `k` is a statement about every reachable state.

`usize` is bounded by a constant of which only `0xFFFF <= USIZE_MAX` is known, so the
overflow checks of the code are real and no result depends on the pointer width.  Plain
`+` on `usize` is `Words.Plus`, which may only be used where the sum cannot overflow.

## Where the code and its comments differ

* `src/lib.rs:55` and `src/lib.rs:222` call `used` the number of bytes that hold valid data.
  An offset write that starts beyond `used` raises it over bytes nobody wrote, or that were
  written before `clear_buffer` (`src/lib.rs:147-155`) declared them gone.  The model follows
  the code: `BufferHistory.ClearedByteReappears` is the smallest case, and
  `BufferHistory.GaplessRunsAreDense` shows that a run keeps to the reading of the comment if
  and only if it makes no such write.  The drivers offer no offset writes, so there it holds
  (`DriverData.DriverBuffersAreGapless`).
* A queued submission was checked against `used`, and a later shorter `write_buffer` may
  shrink `used` below its range.  `DriverRuns.UsedBoundKeptByRuns` says for every run
  when the range bound by `used` is kept throughout; the bound that every call keeps is
  the capacity (`DriverRuns.AcceptedStayBacked`).
* `GenericGpuDriver::new` accepts a queue that already holds submissions, for which no
  buffer can exist.  `DriverRuns.BackedAlwaysIffStartedEmpty` gives the exact condition.

## Model

| member | source | states |
|---|---|---|
| Command.ValidationRoundTrip | src/command.rs:121-130 | a raw command is accepted as a given validated command exactly when that command is well formed and says what the client said |
| Command.ValidationObeysLaw | src/command.rs:4-130 | the five checks in code order, each with its error and the values it carries |
| Submission.ValidateSubmission | src/submission.rs:69-89 | whatever is accepted is well formed, unaltered, and ends within the initialized length the buffer reports |
| Submission.SubmissionObeysLaw | src/submission.rs:69-89 | for any source of buffer information: command before buffer before range, each with its error; the lookup's own error is passed on |
| SubmissionCheck.ValidateAgainst | src/submission.rs:69-89 | the same validation and the same errors, carried out step by step against the live device |
| DeviceMemory.GpuBuffer.CopyFrom | src/lib.rs:115 | the in-place copy overlays exactly the addressed bytes |
| DeviceMemory.GpuDevice.AllocateBuffer | src/lib.rs:158-180 | size zero and identifier 2^32 - 1 are refused in this order; otherwise the next number, a zeroed and empty buffer of the size, all others kept; the new buffer shares no bytes with another |
| DeviceMemory.GpuDevice.WriteBuffer | src/lib.rs:185-202 | refused exactly for a dead buffer or, then, data longer than its capacity, with both lengths in the error; otherwise its first bytes are the data, the rest and all other buffers keep theirs, and the fill level is the length |
| DeviceMemory.GpuDevice.WriteBufferAt | src/lib.rs:95-118 | likewise at an offset: dead buffer, overflowing end and end beyond the capacity are refused in this order; the level is only ever raised |
| DeviceMemory.GpuDevice.ClearBuffer | src/lib.rs:150-155 | succeeds exactly on a live buffer, with its level then zero and its bytes and all other buffers as before; otherwise UnknownBuffer of that id |
| DeviceMemory.GpuDevice.ReleaseBuffer | src/lib.rs:213-217 | succeeds exactly on a live buffer, which is handed over with its contents and leaves the device; all other buffers stay |
| DeviceMemory.GpuDevice.ReadBufferRange | src/lib.rs:121-145 | the bytes of the range within the initialized prefix, or its three errors in order with the values they carry |
| DeviceMemory.GpuDevice.ReadBuffer | src/lib.rs:205-210 | the whole initialized prefix of a live buffer, otherwise UnknownBuffer of that id |
| BufferHistory.WritesSucceedExactlyInBounds | src/lib.rs:106-114 | a write succeeds exactly when its buffer is live and its end is within the capacity; the overflow check only picks the error |
| BufferHistory.ClearsSucceedExactlyWhenLive | src/lib.rs:150-155 | in every run a clear succeeds if and only if its buffer is live, whatever its level |
| BufferHistory.RunsAreLawful | src/lib.rs:84-229 | in every run each call answers and changes the table as it must, errors included |
| BufferHistory.AfterIsValid | src/lib.rs:158-180 | in every run each key is its buffer's id and below the counter, capacities are positive and `used` never exceeds them |
| BufferHistory.IdsCountAllocations | src/lib.rs:164-170 | the n-th successful allocation returns id n; a non-empty allocation fails exactly when 2^32 - 1 have succeeded |
| BufferHistory.IdsAreNeverReused | src/lib.rs:164-179 | two successful allocations of a run never return the same id, releases notwithstanding |
| BufferHistory.ReleasedIsGone | src/lib.rs:213-217 | a released buffer is returned as it was and its id is never live again |
| BufferHistory.BytesAreLastTouched | src/lib.rs:95-118 | in every run each byte of a live buffer is what the last successful call covering its index stored, or the zero of its allocation |
| BufferHistory.RangeReadsSeeLastTouched | src/lib.rs:121-145 | a range read succeeds exactly within the initialized prefix and returns the last stored bytes |
| BufferHistory.ReadsSeeLastTouched | src/lib.rs:205-210 | a plain read succeeds exactly on a live buffer and returns its whole initialized prefix, each byte as last stored |
| BufferHistory.UsedIsLevelSinceReset | src/lib.rs:95-118 | `used` is the level set by the last allocation, clear or whole write, raised to the largest end of the offset writes since |
| BufferHistory.GapsComeFromSparseWrites | src/lib.rs:111-117 | a call keeps all readable bytes written since the last reset if and only if it is not an offset write starting beyond `used` |
| BufferHistory.DenseRunsAreGapless | src/lib.rs:147-155 | runs without such writes only ever show data written since the last reset |
| BufferHistory.GaplessRunsAreDense | src/lib.rs:111-117 | a buffer shows only bytes written since its last reset throughout a run if and only if the run makes no offset write to it that starts beyond `used` |
| BufferHistory.ClearedByteReappears | src/lib.rs:147-155 | a concrete run in which a cleared byte becomes readable again |
| DeviceRuns.Run | src/lib.rs:84-229 | every sequence of calls on the device object gives the table and replies of the value model, and each released buffer keeps the value it was released with |
| DeviceRuns.RunNewDeviceAndRead | src/lib.rs:84-145 | on a new device, after any calls, a range read succeeds exactly within the initialized prefix and returns what was last stored; `used` is the level since the last reset |
| Lifecycle.CheckImage | src/device_state.rs:64-79 | accepts exactly the images of the documented format |
| Lifecycle.DeviceController.LoadFirmware | src/device_state.rs:92-110 | the state is checked first, then length, magic and version of the image, each with its error; an acceptable image moves an offline controller on, anything else changes nothing |
| Lifecycle.DeviceController.Start | src/device_state.rs:115-132 | starts exactly from FirmwareLoaded; the state swapped out is put back on every refusal, which names the operation and the state |
| Lifecycle.DeviceController.EnsureReady | src/device_state.rs:135-143 | the firmware version exactly in Ready, otherwise a refusal that names the operation and the state |
| QueueSpec.Conservation | src/queue_backend.rs:11-19 | in every run, initial contents plus accepted submissions are the handed-out ones followed by the pending ones, in order |
| QueueSpec.ReuseNeedsHandOut | src/queue.rs:38-40 | between two acceptances of one command id a dequeue returned it |
| QueueSpec.PeekForetellsDequeue | src/queue.rs:55-67 | what `peek` shows is what the next `dequeue` returns, whatever is enqueued in between |
| QueueSpec.AfterIsValid | src/queue.rs:35-61 | pending ids stay pairwise distinct and the length within the capacity |
| QueueSpec.RunsAreLawful | src/queue_backend.rs:11-19 | in every run a dequeue or peek answers with the first pending submission exactly when there is one, and an enqueue refuses a pending id, then a full queue, and otherwise appends |
| Ring.SlotAndDistance | src/static_queue.rs:45-53 | window positions and physical slots correspond one to one across the wrap-around |
| Ring.ScanSeesWindow | src/static_queue.rs:73-77 | a scan of all physical slots finds exactly what is logically in the queue |
| Ring.PutAppends | src/static_queue.rs:87-90 | filling the tail slot appends and keeps occupied exactly the window |
| Ring.TakeDropsFirst | src/static_queue.rs:107-109 | emptying the head slot drops the first element; the head of a non-empty ring is never unoccupied |
| StaticQueue.StaticCommandQueue.New | src/static_queue.rs:34-44 | refuses exactly capacity zero; a new ring is empty |
| StaticQueue.StaticCommandQueue.TailIndex | src/static_queue.rs:45-53 | the slot just past the window, computed without an overflowing sum |
| StaticQueue.StaticCommandQueue.HoldsId | src/static_queue.rs:73-77 | the scan loop answers whether the id is pending |
| StaticQueue.StaticCommandQueue.Enqueue | src/static_queue.rs:70-93 | a pending id is refused with that id, before a full ring is refused with its capacity; anything else is appended |
| StaticQueue.StaticCommandQueue.Dequeue | src/static_queue.rs:103-111 | every non-empty ring hands out its oldest submission and keeps the rest in order; an empty one answers None |
| StaticQueue.StaticCommandQueue.Peek | src/static_queue.rs:95-101 | every non-empty ring shows its oldest submission; an empty one answers None |
| DynamicQueue.FirstIdIsAlone | src/queue.rs:55-61 | removing the id of the dequeued submission drops no other queued id |
| DynamicQueue.IdsAreOnePerSubmission | src/queue.rs:81-87 | the id set is as large as the queue |
| DynamicQueue.CommandQueue.Enqueue | src/queue.rs:35-52 | the same refusals and the same append for the deque, whose id set stays exactly the pending ids |
| DynamicQueue.CommandQueue.Dequeue | src/queue.rs:55-61 | every non-empty deque hands out its oldest submission and keeps the rest in order; the id set stays exactly the pending ids |
| DynamicQueue.CommandQueue.Peek | src/queue.rs:63-67 | every non-empty deque shows its oldest submission |
| DynamicQueue.CommandQueue.IsFull | src/queue.rs:81-83 | the equality test is exact in every state, for the deque and for the id set |
| DynamicQueue.CommandQueue.ContainsCommand | src/queue.rs:85-87 | membership in the id set is membership in the queue |
| QueueBackend.SubmissionQueue.Run | src/queue_backend.rs:22-65 | every sequence of interface calls on either backend gives the replies and contents of the bounded queue, and every call of it obeys its law in the backend's own error words |
| QueueBackend.RunBothBackends | src/queue_backend.rs:22-65 | ring and deque of equal capacity agree on every sequence of calls up to the wording of errors |
| QueueBackend.WordingIsFaithful | src/queue_backend.rs:12-12 | rewording an error loses no information |
| DriverLaws.SubmitDecision | src/generic_driver.rs:80-92 | `submit` succeeds exactly when all ten checks pass, and otherwise some check is the first to fail |
| DriverLaws.FirstFailingIsReported | src/generic_driver.rs:80-92 | a refused submission reports the error of the first failing check in code order, with the values it carries, and changes nothing |
| DriverLaws.PassingIsAccepted | src/generic_driver.rs:80-92 | an accepted submission is appended field for field as requested |
| DriverLaws.SubmitObeysLaw | src/generic_driver.rs:80-92 | the same in the error type of any backend: validation, state and buffer errors reach the client unchanged, only the two queue refusals are worded by the queue |
| DriverLaws.CallObeysLaw | src/generic_driver.rs:55-107 | each of the ten calls changes the driver and answers as it must, errors included |
| DriverRuns.RunsAreLawful | src/generic_driver.rs:45-107 | so does every call of every run; handing out and showing answer with the first pending submission exactly when there is one |
| DriverSpec.FailureChangesNothing | src/generic_driver.rs:55-92 | every failing call leaves lifecycle, buffers, id counter and queue unchanged |
| DriverRuns.AllocationIsNew | src/generic_driver.rs:63-70 | an allocation adds one zeroed, empty buffer of the requested size under an unused id |
| DriverRuns.LifecycleIsExplained | src/device_state.rs:92-132 | a loaded or ready driver got there by exactly one accepted image, whose version it carries, and a ready one by exactly one later start; Faulted is unreachable |
| DriverRuns.LifecycleOnlyAdvances | src/generic_driver.rs:55-62 | the lifecycle never goes back and is fixed once ready |
| DriverRuns.WorkNeedsReady | src/generic_driver.rs:67-85 | before the device is ready nothing is allocated and nothing accepted |
| DriverRuns.SubmissionsAreConserved | src/generic_driver.rs:80-95 | in every run the requested and accepted submissions are handed out or pending, unchanged and in order |
| DriverRuns.AcceptedStayBacked | src/generic_driver.rs:71-92 | every accepted submission stays well formed and within a live buffer's capacity for the rest of the run |
| DriverRuns.PendingIsBackedOrInitial | src/generic_driver.rs:45-51 | whatever the queue held at first, anything else pending or handed out is so backed |
| DriverRuns.BackedAlwaysIffStartedEmpty | src/generic_driver.rs:45-51 | all pending submissions are backed in every reachable state if and only if the driver was given an empty queue |
| DriverRuns.UsedBoundKeptByRuns | src/lib.rs:197-198 | a run keeps all pending ranges within `used` in every state if and only if none of its writes is shorter than a range pending on its buffer |
| DriverRuns.NewDriverKeepsUsedBound | src/generic_driver.rs:45-51 | the same for every run of a new driver around an empty queue |
| DriverRuns.LaterWriteUndercuts | src/lib.rs:197-198 | a concrete run in which a later shorter write leaves a pending range beyond `used` |
| DriverRuns.ReuseNeedsHandOut | src/generic_driver.rs:88-95 | a command id is accepted again only after its submission was handed out |
| DriverData.TableFollowsCalls | src/generic_driver.rs:63-79 | the driver's buffer table is the outcome of the table operations its calls reached |
| DriverData.DriverBuffersAreGapless | src/generic_driver.rs:63-79 | in every driver state the initialized prefix of each buffer was written since its last reset |
| DriverData.AcceptedRangeHoldsClientData | src/submission.rs:80-84 | when a submission is accepted, every byte of its range is the one the last covering write stored, after the buffer's last reset |
| GenericDriver.GenericGpuDriver.Submit | src/generic_driver.rs:80-92 | accepts exactly what passes all ten checks and appends it as requested; otherwise the literal error of the first failing check, the last two in the backend's words, and nothing changes |
| GenericDriver.GenericGpuDriver.WriteBuffer | src/generic_driver.rs:71-79 | succeeds exactly when the device is ready, the buffer live and the data no longer than its capacity; otherwise the error of the first of these that fails |
| GenericDriver.GenericGpuDriver.AllocateBuffer | src/generic_driver.rs:63-70 | on a ready device the table's allocation with its errors, otherwise a refusal that names the state |
| GenericDriver.GenericGpuDriver.NextSubmission | src/generic_driver.rs:93-95 | hands out the oldest pending submission exactly when there is one |
| GenericDriver.GenericGpuDriver.Perform | src/generic_driver.rs:55-107 | any one call of the object refines the state machine and obeys the law of that call, errors included; a refused one leaves the whole driver as it was |
| GenericDriver.GenericGpuDriver.Run | src/generic_driver.rs:45-107 | so does every sequence of its calls, from the state before to the state after |
| SimulatedDriver.SimulatedGpuDriver.New | src/driver.rs:50-57 | refuses exactly capacity zero, with the queue's error |
| SimulatedDriver.SimulatedGpuDriver.Submit | src/driver.rs:92-104 | the same decision, errors and append for the driver with its own deque |
| SimulatedDriver.SimulatedGpuDriver.Perform | src/driver.rs:63-117 | each call it offers obeys the same law with the deque's errors |
| SimulatedDriver.SimulatedGpuDriver.Run | src/driver.rs:49-118 | so does every sequence of the calls it offers |
| DriverEquivalence.RunOverBothBackends | src/generic_driver.rs:45-107 | from equal states the generic driver over a ring and over a deque agree call by call and stay in equal states |
| DriverEquivalence.RunSimulatedAndGeneric | src/driver.rs:49-118 | from equal states the simulated driver agrees with the generic one on the calls it offers |
| DriverGuarantees.RunNewGenericDriver | src/generic_driver.rs:45-107 | a new driver object around any queue, after any calls: conservation, an explained lifecycle, and every pending submission initial or backed, all of them backed if the queue was empty |
| DriverGuarantees.RunNewSimulatedDriver | src/driver.rs:49-118 | a new simulated driver, after any calls: the same, with all pending submissions backed |
| Typestate.MarkerTellsTheState | src/typed_generic_driver.rs:81-131 | every typed driver a client can obtain has a marker matching its runtime state |
| Typestate.CompilingCallsAreNotRefused | src/typed_driver.rs:143-206 | no call that compiles is refused for the state, `start` never fails, a load fails exactly on an unacceptable image |
| Typestate.FailedLoadsCanBeRetried | src/typed_driver.rs:87-109 | failed loads give back an equal driver, from which an acceptable image still reaches Ready |
| TypedGenericDriver.TypedGenericGpuDriver.LoadFirmware | src/typed_generic_driver.rs:103-114 | succeeds exactly on acceptable images; a failure hands back the same driver in the same state, with the error of the first check the image fails |
| TypedGenericDriver.TypedGenericGpuDriver.Start | src/typed_generic_driver.rs:121-131 | always succeeds and keeps the firmware version |
| TypedGenericDriver.TypedGenericGpuDriver.Submit | src/typed_generic_driver.rs:157-163 | the decision and errors of the driver's `submit`, never a refusal for the state |
| TypedSimulatedDriver.TypedDriver.LoadFirmware | src/typed_driver.rs:146-157 | the same for the wrapper around the simulated driver |
| TypedSimulatedDriver.TypedDriver.Start | src/typed_driver.rs:164-172 | the same for the wrapper around the simulated driver |
| RegisterFields.SetterWritesOneField | src/register_fields.rs:61-83 | a setter writes its own field and no other |
| RegisterFields.FieldsAreLastSet | src/register_fields.rs:61-83 | after any list of setters each field reads as last set, or as at first |
| RegisterFields.ReservedBitsAreKept | src/register_fields.rs:61-83 | and all reserved bits are the original ones |
| RegisterFields.SettersWriteTheirBits | src/register_fields.rs:61-83 | the literal control word after each setter: bit 0, bit 3, or bits 1 and 2 replaced |
| RegisterFields.FieldsAreTheirBits | src/register_fields.rs:49-59 | enable reads bit 0, interrupt enable bit 3, and each power mode its value of bits 1 and 2 |
| RegisterFields.ListsWriteTheirBits | src/register_fields.rs:61-83 | the literal control word after any list of setters |
| RegisterFields.GpuRegisterBlock.ModifyControl | src/register_fields.rs:97-105 | read, update and write back the control word; all other registers keep theirs; it cannot fail on a block of required size |
| RegisterFields.ApplySettings | src/register_fields.rs:97-105 | any list of setters through repeated `modify_control`: the control word is the original with the setters' bits replaced, each field reads as last set, reserved bits and all other registers are kept |
| RegisterFields.PowerModeFrom | src/register_fields.rs:12-22 | decodes any word to the mode of its two low bits; the fifth case cannot occur |
| Polling.NewConfig | src/polling.rs:28-36 | refuses exactly a zero interval |
| Polling.RoundsCoverTimeout | src/polling.rs:121-130 | the number of rounds is the least number of intervals that cover the timeout |
| Polling.WaitUntilReady | src/polling.rs:99-132 | with any monotone timer the wait ends after at most ceil(T/I) + 1 reads.  The last sample decides: a source error is passed on, the fault bit gives Fault with the capped number of reads, else the ready bit gives Ok, else the timeout has been reached; each delay is I or what was left of T when it was asked for |
| Polling.ExactTimerOutcome | src/polling.rs:99-132 | with an exact timer the first decisive sample k <= ceil(T/I) is reported, fault before ready, after k+1 reads and min(k*I, T); without one the wait times out after exactly ceil(T/I) + 1 reads and T, the reported polls capped at the largest u64 |
| Polling.WaitWithExactTimer | src/polling.rs:99-132 | the loop run under an exact timer has that outcome, number of reads and total delay |

## Left out

* Queue types of other crates: the open trait `SubmissionQueue` is modelled as a choice between the two backends of this repository.
* Third-party `BufferInfo` implementations only appear as the function argument of the validation.
* Moves and exclusive borrows: an owned value is an object here, so the model does not show that a consumed driver can no longer be used; the phantom type parameter is a field that preconditions test.
* The capacity of the ring is a constructor argument instead of a type parameter.
* Memory exhaustion and the panics of `Vec` and `VecDeque` on capacities beyond the address space.
* `DeviceController::reset` and `Faulted`: no driver operation resets or faults the device.
* `buffer_count`, `id`, `capacity`, `state`, `state_name`, `StateKind` texts: accessors.
* `HostPollTimer` and wall-clock time: a timer is any sequence of delays at least as long as requested; durations are unbounded nanoseconds, without the limit of `Duration`.
* `busy`, `CommandWord`, `issue_command` (src/register_fields.rs:148-195): decoding of single words.
* Raw-pointer access, volatile reads and lifetimes of src/mmio.rs: registers are an array of words with the same index check.
* src/interrupts.rs and src/submission_session.rs: masks over four bits, and pure forwarding.
* Error conversions and `Debug` output; an `InvalidState` error names its operation by a constructor instead of a string.

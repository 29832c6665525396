/** The driver with its own deque (src/driver.rs). */
module SimulatedDriver {
  import opened Results
  import opened Words
  import opened Command
  import opened BufferStore
  import opened Submission
  import opened Lifecycle
  import opened DeviceMemory
  import opened DynamicQueue
  import opened SubmissionCheck
  import DriverSpec
  import DriverLaws
  import DriverRuns

  type DriverApiError = DriverSpec.GenericDriverError<QueueError>
  type Answer = DriverSpec.Answer<QueueError>

  /** The calls this driver offers: it has no way to peek or to ask for emptiness. */
  predicate Offered(call: DriverSpec.Call) {
    call != DriverSpec.PeekCall && call != DriverSpec.IsEmptyCall
  }

  class SimulatedGpuDriver {
    const controller: DeviceController
    const device: GpuDevice
    const queue: CommandQueue

    ghost function Repr(): set<object>
      reads device
    {
      {controller} + device.Repr + {queue}
    }

    ghost predicate Valid()
      reads Repr(), device
    {
      && device.Valid() && queue.Valid()
      && controller !in device.Repr && queue !in device.Repr
    }

    ghost function View(): DriverSpec.Driver
      requires Valid()
      reads Repr(), device
    {
      DriverSpec.Driver(controller.state, device.View(), queue.pending, queue.capacity)
    }

    /** Every reachable driver object denotes a valid abstract driver. */
    lemma ViewIsValid()
      requires Valid()
      ensures View().Valid()
    {
    }

    /** Calls that modify nothing leave the whole driver as it was. */
    twostate lemma NothingChanged()
      requires old(Valid()) && unchanged(old(Repr()))
      ensures Valid() && Repr() == old(Repr()) && View() == old(View())
    {
      device.NothingChanged();
    }

    /** A queue operation leaves lifecycle and device alone. */
    twostate lemma OnlyQueueChanged()
      requires old(Valid()) && queue.Valid()
      requires unchanged(controller) && unchanged(old(device.Repr))
      ensures Valid() && Repr() == old(Repr())
      ensures View() == old(View()).(pending := queue.pending)
    {
      device.NothingChanged();
    }

    constructor Around(queue: CommandQueue)
      requires queue.Valid()
      ensures Valid() && this.queue == queue && fresh(Repr() - {queue})
      ensures View() == DriverSpec.Initial(queue.pending, queue.capacity)
      ensures View() == DriverSpec.Driver(Offline, Store(0, map[]), queue.pending, queue.capacity)
    {
      controller := new DeviceController();
      device := new GpuDevice();
      this.queue := queue;
    }

    /** The source's `new`: the queue's refusal becomes the driver's. */
    static method New(capacity: usize) returns (r: Result<SimulatedGpuDriver, DriverApiError>)
      ensures r.Err? <==> capacity == 0
      ensures r.Err? ==> r.error == DriverSpec.QueueFailure(ZeroCapacity)
      ensures r.Ok? ==>
                && fresh(r.value) && r.value.Valid() && fresh(r.value.Repr())
                && r.value.View() == DriverSpec.Initial([], capacity)
                && r.value.View() == DriverSpec.Driver(Offline, Store(0, map[]), [], capacity)
    {
      var queue := CommandQueue.New(capacity);
      if queue.Err? {
        return Err(DriverSpec.QueueFailure(queue.error));
      }
      var driver := new SimulatedGpuDriver.Around(queue.value);
      r := Ok(driver);
    }

    method LoadFirmware(image: Bytes) returns (r: Result<(), DriverApiError>)
      requires Valid()
      modifies Repr()
      ensures Valid() && fresh(Repr() - old(Repr()))
      ensures View() == DriverSpec.LoadFirmware(old(View()), image).0
      ensures r == DriverSpec.RewordResult(DriverSpec.LoadFirmware(old(View()), image).1, Express)
      ensures DriverLaws.LoadFirmwareLaw(old(View()), image, View(), r)
    {
      DriverLaws.LoadFirmwareObeysLaw(View(), image, Express);
      var outcome := controller.LoadFirmware(image);
      r := if outcome.Ok? then Ok(()) else Err(DriverSpec.StateFailure(outcome.error));
    }

    method Start() returns (r: Result<(), DriverApiError>)
      requires Valid()
      modifies Repr()
      ensures Valid() && fresh(Repr() - old(Repr()))
      ensures View() == DriverSpec.Start(old(View())).0
      ensures r == DriverSpec.RewordResult(DriverSpec.Start(old(View())).1, Express)
      ensures DriverLaws.StartDeviceLaw(old(View()), View(), r)
    {
      DriverLaws.StartDeviceObeysLaw(View(), Express);
      var outcome := controller.Start();
      r := if outcome.Ok? then Ok(()) else Err(DriverSpec.StateFailure(outcome.error));
    }

    method AllocateBuffer(capacity: usize) returns (r: Result<BufferId, DriverApiError>)
      requires Valid()
      modifies Repr()
      ensures Valid() && fresh(Repr() - old(Repr()))
      ensures View() == DriverSpec.AllocateBuffer(old(View()), capacity).0
      ensures r == DriverSpec.RewordResult(DriverSpec.AllocateBuffer(old(View()), capacity).1, Express)
      ensures DriverLaws.AllocateBufferLaw(old(View()), capacity, View(), r)
    {
      DriverLaws.AllocateBufferObeysLaw(View(), capacity, Express);
      var ready := controller.EnsureReady();
      if ready.Err? {
        return Err(DriverSpec.StateFailure(ready.error));
      }
      NothingChanged();
      var outcome := device.AllocateBuffer(capacity);
      r := if outcome.Ok? then Ok(outcome.value) else Err(DriverSpec.BufferFailure(outcome.error));
    }

    method WriteBuffer(id: BufferId, data: Bytes) returns (r: Result<(), DriverApiError>)
      requires Valid()
      modifies Repr()
      ensures Valid() && fresh(Repr() - old(Repr()))
      ensures View() == DriverSpec.WriteBuffer(old(View()), id, data).0
      ensures r == DriverSpec.RewordResult(DriverSpec.WriteBuffer(old(View()), id, data).1, Express)
      ensures DriverLaws.WriteBufferLaw(old(View()), id, data, View(), r)
    {
      DriverLaws.WriteBufferObeysLaw(View(), id, data, Express);
      var ready := controller.EnsureReady();
      if ready.Err? {
        return Err(DriverSpec.StateFailure(ready.error));
      }
      NothingChanged();
      var outcome := device.WriteBuffer(id, data);
      r := if outcome.Ok? then Ok(()) else Err(DriverSpec.BufferFailure(outcome.error));
    }

    lemma SubmitObeysLaw(id: BufferId, raw: RawCommand)
      requires Valid()
      ensures var (d', r) := DriverSpec.Submit(View(), id, raw);
              DriverLaws.SubmitLaw(
                View(), id, raw, d', DriverSpec.RewordResult(r, Express),
                DuplicateCommandId(CommandId(raw.id)), QueueFull(View().capacity))
    {
      DriverLaws.SubmitObeysLaw(View(), id, raw, Express);
    }

    method Submit(id: BufferId, raw: RawCommand) returns (r: Result<(), DriverApiError>)
      requires Valid()
      modifies Repr()
      ensures Valid() && fresh(Repr() - old(Repr()))
      ensures View() == DriverSpec.Submit(old(View()), id, raw).0
      ensures r == DriverSpec.RewordResult(DriverSpec.Submit(old(View()), id, raw).1, Express)
      ensures DriverLaws.SubmitLaw(
                old(View()), id, raw, View(), r,
                DuplicateCommandId(CommandId(raw.id)), QueueFull(View().capacity))
    {
      SubmitObeysLaw(id, raw);
      r := ValidateAndAdmit(id, raw);
    }

    /** The body of `Submit`.  This and `Admit` are apart from it only to split the proof. */
    method ValidateAndAdmit(id: BufferId, raw: RawCommand) returns (r: Result<(), DriverApiError>)
      requires Valid()
      modifies Repr()
      ensures Valid() && fresh(Repr() - old(Repr()))
      ensures View() == DriverSpec.Submit(old(View()), id, raw).0
      ensures r == DriverSpec.RewordResult(DriverSpec.Submit(old(View()), id, raw).1, Express)
    {
      var ready := controller.EnsureReady();
      if ready.Err? {
        return Err(DriverSpec.StateFailure(ready.error));
      }
      var submission := ValidateAgainst(device, id, raw);
      NothingChanged();
      r := Admit(submission);
    }

    /** The last step of `Submit`. */
    method Admit(validated: Result<ValidatedSubmission, SubmissionError>) returns (r: Result<(), DriverApiError>)
      requires Valid()
      modifies Repr()
      ensures Valid() && fresh(Repr() - old(Repr()))
      ensures View() == DriverSpec.Admit(old(View()), validated).0
      ensures r == DriverSpec.RewordResult(DriverSpec.Admit(old(View()), validated).1, Express)
    {
      if validated.Err? {
        return Err(DriverSpec.SubmissionFailure(validated.error));
      }
      var outcome := queue.Enqueue(validated.value);
      OnlyQueueChanged();
      r := if outcome.Ok? then Ok(()) else Err(DriverSpec.QueueFailure(outcome.error));
    }

    method NextSubmission() returns (r: Option<ValidatedSubmission>)
      requires Valid()
      modifies Repr()
      ensures Valid() && fresh(Repr() - old(Repr()))
      ensures (View(), r) == DriverSpec.NextSubmission(old(View()))
      ensures old(View().pending) != [] ==>
                && r == Some(old(View().pending)[0])
                && View() == old(View()).(pending := old(View().pending)[1..])
      ensures old(View().pending) == [] ==> r == None && View() == old(View())
    {
      r := queue.Dequeue();
      OnlyQueueChanged();
    }

    method QueuedLen() returns (n: usize)
      requires Valid()
      ensures n == |View().pending|
    {
      n := |queue.pending|;
    }

    method IsQueueFull() returns (r: bool)
      requires Valid()
      ensures r <==> |View().pending| == View().capacity
    {
      r := queue.IsFull();
    }

    /**
     One call of the driver's interface; a refused one leaves the whole driver as it was.
     `Advance`, `FillBuffers`, `MoveSubmissions` and `Inspect` are groups of calls and only
     split the proof.
     */
    method Perform(call: DriverSpec.Call) returns (answer: Answer)
      requires Valid() && Offered(call)
      modifies Repr()
      ensures Valid() && fresh(Repr() - old(Repr()))
      ensures View() == DriverSpec.Step(old(View()), call).0
      ensures answer == DriverSpec.RewordAnswer(DriverSpec.Step(old(View()), call).1, Express)
      ensures answer.Failed? ==> View() == old(View())
      ensures DriverLaws.CallLaw(
                old(View()), call, View(), answer, DuplicateError, FullError)
    {
      DriverLaws.CallObeysLaw(View(), call, Express, DuplicateError, FullError);
      DriverSpec.FailureChangesNothing(View(), call);
      if call.LoadFirmwareCall? || call.StartCall? {
        answer := Advance(call);
      } else if call.AllocateCall? || call.WriteCall? {
        answer := FillBuffers(call);
      } else if call.SubmitCall? || call.NextCall? {
        answer := MoveSubmissions(call);
      } else {
        answer := Inspect(call);
      }
    }

    /** One call that works on the buffers. */
    method FillBuffers(call: DriverSpec.Call) returns (answer: Answer)
      requires Valid()
      requires call.AllocateCall? || call.WriteCall?
      modifies Repr()
      ensures Valid() && fresh(Repr() - old(Repr()))
      ensures View() == DriverSpec.Step(old(View()), call).0
      ensures answer == DriverSpec.RewordAnswer(DriverSpec.Step(old(View()), call).1, Express)
    {
      match call {
        case AllocateCall(size) =>
          var r := AllocateBuffer(size);
          answer := if r.Ok? then DriverSpec.Allocated(r.value) else DriverSpec.Failed(r.error);
        case WriteCall(id, data) =>
          var r := WriteBuffer(id, data);
          answer := DriverSpec.Settled(r);
      }
    }

    /** One call that accepts or hands out a submission. */
    method MoveSubmissions(call: DriverSpec.Call) returns (answer: Answer)
      requires Valid()
      requires call.SubmitCall? || call.NextCall?
      modifies Repr()
      ensures Valid() && fresh(Repr() - old(Repr()))
      ensures View() == DriverSpec.Step(old(View()), call).0
      ensures answer == DriverSpec.RewordAnswer(DriverSpec.Step(old(View()), call).1, Express)
    {
      match call {
        case SubmitCall(id, raw) =>
          var r := Submit(id, raw);
          answer := DriverSpec.Settled(r);
        case NextCall =>
          var r := NextSubmission();
          answer := DriverSpec.Taken(r);
      }
    }

    /** One call that moves the lifecycle on. */
    method Advance(call: DriverSpec.Call) returns (answer: Answer)
      requires Valid()
      requires call.LoadFirmwareCall? || call.StartCall?
      modifies Repr()
      ensures Valid() && fresh(Repr() - old(Repr()))
      ensures View() == DriverSpec.Step(old(View()), call).0
      ensures answer == DriverSpec.RewordAnswer(DriverSpec.Step(old(View()), call).1, Express)
    {
      match call {
        case LoadFirmwareCall(image) =>
          var r := LoadFirmware(image);
          answer := DriverSpec.Settled(r);
        case StartCall =>
          var r := Start();
          answer := DriverSpec.Settled(r);
      }
    }

    /** One call that only looks at the queue. */
    method Inspect(call: DriverSpec.Call) returns (answer: Answer)
      requires Valid()
      requires call.LenCall? || call.IsFullCall?
      ensures View() == DriverSpec.Step(View(), call).0
      ensures answer == DriverSpec.RewordAnswer(DriverSpec.Step(View(), call).1, Express)
    {
      match call {
        case LenCall =>
          var n := QueuedLen();
          answer := DriverSpec.Count(n);
        case IsFullCall =>
          var r := IsQueueFull();
          answer := DriverSpec.Flag(r);
      }
    }

    /** Any finite sequence of calls. */
    method Run(calls: seq<DriverSpec.Call>) returns (answers: seq<Answer>)
      requires Valid() && forall call <- calls :: Offered(call)
      modifies Repr()
      ensures Valid() && fresh(Repr() - old(Repr()))
      ensures View() == DriverSpec.After(old(View()), calls, |calls|)
      ensures |answers| == |calls| && DriverSpec.AnswersAsSpecified(Express, old(View()), calls, answers)
      ensures DriverLaws.LawfulRun(
                old(View()), calls, answers, View(), DuplicateError, FullError)
    {
      ghost var start, footprint := View(), Repr();
      answers := [];
      while |answers| < |calls|
        invariant Valid() && fresh(Repr() - footprint)
        invariant |answers| <= |calls| && View() == DriverSpec.After(start, calls, |answers|)
        invariant DriverSpec.AnswersAsSpecified(Express, start, calls, answers)
      {
        var answer := PerformNext(start, calls, answers);
        answers := answers + [answer];
      }
      DriverRuns.RunsAreLawful(start, calls, answers, Express, DuplicateError, FullError);
    }

    /** The next call of a run that has been answered so far: the body of the loop in `Run`. */
    method PerformNext(ghost start: DriverSpec.Driver, calls: seq<DriverSpec.Call>, answers: seq<Answer>)
      returns (answer: Answer)
      requires Valid() && |answers| < |calls| && Offered(calls[|answers|])
      requires View() == DriverSpec.After(start, calls, |answers|)
      requires DriverSpec.AnswersAsSpecified(Express, start, calls, answers)
      modifies Repr()
      ensures Valid() && fresh(Repr() - old(Repr()))
      ensures View() == DriverSpec.After(start, calls, |answers| + 1)
      ensures DriverSpec.AnswersAsSpecified(Express, start, calls, answers + [answer])
    {
      answer := Perform(calls[|answers|]);
      DriverSpec.OneMoreAnswer(Express, start, calls, answers, old(View()), answer);
    }
  }
}

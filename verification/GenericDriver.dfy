/** The driver over either queue backend (src/generic_driver.rs). */
module GenericDriver {
  import opened Results
  import opened Words
  import opened Command
  import opened BufferStore
  import opened Submission
  import opened Lifecycle
  import opened DeviceMemory
  import opened QueueBackend
  import opened SubmissionCheck
  import DriverSpec
  import DriverLaws
  import DriverRuns
  import QueueSpec

  type GenericDriverError = DriverSpec.GenericDriverError<BackendError>
  type Answer = DriverSpec.Answer<BackendError>

  class GenericGpuDriver {
    const controller: DeviceController
    const device: GpuDevice
    const queue: SubmissionQueue

    ghost function Repr(): set<object>
      reads device
    {
      {controller} + device.Repr + queue.Repr()
    }

    ghost predicate Valid()
      reads Repr(), device
    {
      && device.Valid() && queue.Valid()
      && controller !in device.Repr && controller !in queue.Repr()
      && device.Repr !! queue.Repr()
    }

    ghost function View(): DriverSpec.Driver
      requires Valid()
      reads Repr(), device
    {
      DriverSpec.Driver(controller.state, device.View(), queue.Contents(), queue.Capacity())
    }

    /** Every reachable driver object denotes a valid abstract driver. */
    lemma ViewIsValid()
      requires Valid()
      ensures View().Valid()
    {
    }

    /** Calls that modify nothing leave the whole driver as it was. */
    twostate lemma NothingChanged()
      requires old(Valid()) && unchanged(old(Repr()))
      ensures Valid() && Repr() == old(Repr()) && View() == old(View())
    {
      device.NothingChanged();
    }

    /** A queue operation leaves lifecycle and device alone. */
    twostate lemma OnlyQueueChanged()
      requires old(Valid()) && queue.Valid() && queue.Capacity() == old(queue.Capacity())
      requires unchanged(controller) && unchanged(old(device.Repr))
      ensures Valid() && Repr() == old(Repr())
      ensures View() == old(View()).(pending := queue.Contents())
    {
      device.NothingChanged();
    }

    constructor (queue: SubmissionQueue)
      requires queue.Valid()
      ensures Valid() && this.queue == queue && fresh(Repr() - queue.Repr())
      ensures View() == DriverSpec.Initial(queue.Contents(), queue.Capacity())
      ensures View() == DriverSpec.Driver(Offline, Store(0, map[]), queue.Contents(), queue.Capacity())
    {
      controller := new DeviceController();
      device := new GpuDevice();
      this.queue := queue;
    }

    method LoadFirmware(image: Bytes) returns (r: Result<(), GenericDriverError>)
      requires Valid()
      modifies Repr()
      ensures Valid() && fresh(Repr() - old(Repr()))
      ensures View() == DriverSpec.LoadFirmware(old(View()), image).0
      ensures r == DriverSpec.RewordResult(DriverSpec.LoadFirmware(old(View()), image).1, Wording(queue.Kind()))
      ensures DriverLaws.LoadFirmwareLaw(old(View()), image, View(), r)
    {
      DriverLaws.LoadFirmwareObeysLaw(View(), image, Wording(queue.Kind()));
      var outcome := controller.LoadFirmware(image);
      r := if outcome.Ok? then Ok(()) else Err(DriverSpec.StateFailure(outcome.error));
    }

    method Start() returns (r: Result<(), GenericDriverError>)
      requires Valid()
      modifies Repr()
      ensures Valid() && fresh(Repr() - old(Repr()))
      ensures View() == DriverSpec.Start(old(View())).0
      ensures r == DriverSpec.RewordResult(DriverSpec.Start(old(View())).1, Wording(queue.Kind()))
      ensures DriverLaws.StartDeviceLaw(old(View()), View(), r)
    {
      DriverLaws.StartDeviceObeysLaw(View(), Wording(queue.Kind()));
      var outcome := controller.Start();
      r := if outcome.Ok? then Ok(()) else Err(DriverSpec.StateFailure(outcome.error));
    }

    method AllocateBuffer(capacity: usize) returns (r: Result<BufferId, GenericDriverError>)
      requires Valid()
      modifies Repr()
      ensures Valid() && fresh(Repr() - old(Repr()))
      ensures View() == DriverSpec.AllocateBuffer(old(View()), capacity).0
      ensures r == DriverSpec.RewordResult(DriverSpec.AllocateBuffer(old(View()), capacity).1, Wording(queue.Kind()))
      ensures DriverLaws.AllocateBufferLaw(old(View()), capacity, View(), r)
    {
      DriverLaws.AllocateBufferObeysLaw(View(), capacity, Wording(queue.Kind()));
      var ready := controller.EnsureReady();
      if ready.Err? {
        return Err(DriverSpec.StateFailure(ready.error));
      }
      NothingChanged();
      var outcome := device.AllocateBuffer(capacity);
      r := if outcome.Ok? then Ok(outcome.value) else Err(DriverSpec.BufferFailure(outcome.error));
    }

    method WriteBuffer(id: BufferId, data: Bytes) returns (r: Result<(), GenericDriverError>)
      requires Valid()
      modifies Repr()
      ensures Valid() && fresh(Repr() - old(Repr()))
      ensures View() == DriverSpec.WriteBuffer(old(View()), id, data).0
      ensures r == DriverSpec.RewordResult(DriverSpec.WriteBuffer(old(View()), id, data).1, Wording(queue.Kind()))
      ensures DriverLaws.WriteBufferLaw(old(View()), id, data, View(), r)
    {
      DriverLaws.WriteBufferObeysLaw(View(), id, data, Wording(queue.Kind()));
      var ready := controller.EnsureReady();
      if ready.Err? {
        return Err(DriverSpec.StateFailure(ready.error));
      }
      NothingChanged();
      var outcome := device.WriteBuffer(id, data);
      r := if outcome.Ok? then Ok(()) else Err(DriverSpec.BufferFailure(outcome.error));
    }

    lemma SubmitObeysLaw(id: BufferId, raw: RawCommand)
      requires Valid()
      ensures var (d', r) := DriverSpec.Submit(View(), id, raw);
              DriverLaws.SubmitLaw(
                View(), id, raw, d', DriverSpec.RewordResult(r, Wording(queue.Kind())),
                DuplicateError(queue.Kind())(raw.id), FullError(queue.Kind())(View().capacity))
    {
      DriverLaws.SubmitObeysLaw(View(), id, raw, Wording(queue.Kind()));
    }

    method Submit(id: BufferId, raw: RawCommand) returns (r: Result<(), GenericDriverError>)
      requires Valid()
      modifies Repr()
      ensures Valid() && fresh(Repr() - old(Repr()))
      ensures View() == DriverSpec.Submit(old(View()), id, raw).0
      ensures r == DriverSpec.RewordResult(DriverSpec.Submit(old(View()), id, raw).1, Wording(queue.Kind()))
      ensures DriverLaws.SubmitLaw(
                old(View()), id, raw, View(), r,
                DuplicateError(queue.Kind())(raw.id), FullError(queue.Kind())(View().capacity))
    {
      SubmitObeysLaw(id, raw);
      r := ValidateAndAdmit(id, raw);
    }

    /** The body of `Submit`.  This and `Admit` are apart from it only to split the proof. */
    method ValidateAndAdmit(id: BufferId, raw: RawCommand) returns (r: Result<(), GenericDriverError>)
      requires Valid()
      modifies Repr()
      ensures Valid() && fresh(Repr() - old(Repr()))
      ensures View() == DriverSpec.Submit(old(View()), id, raw).0
      ensures r == DriverSpec.RewordResult(DriverSpec.Submit(old(View()), id, raw).1, Wording(queue.Kind()))
    {
      var ready := controller.EnsureReady();
      if ready.Err? {
        return Err(DriverSpec.StateFailure(ready.error));
      }
      var submission := ValidateAgainst(device, id, raw);
      NothingChanged();
      r := Admit(submission);
    }

    /** The last step of `Submit`. */
    method Admit(validated: Result<ValidatedSubmission, SubmissionError>) returns (r: Result<(), GenericDriverError>)
      requires Valid()
      modifies Repr()
      ensures Valid() && fresh(Repr() - old(Repr()))
      ensures View() == DriverSpec.Admit(old(View()), validated).0
      ensures r == DriverSpec.RewordResult(DriverSpec.Admit(old(View()), validated).1, Wording(queue.Kind()))
    {
      if validated.Err? {
        return Err(DriverSpec.SubmissionFailure(validated.error));
      }
      var outcome := queue.Enqueue(validated.value);
      OnlyQueueChanged();
      r := if outcome.Ok? then Ok(()) else Err(DriverSpec.QueueFailure(outcome.error));
    }

    method NextSubmission() returns (r: Option<ValidatedSubmission>)
      requires Valid()
      modifies Repr()
      ensures Valid() && fresh(Repr() - old(Repr()))
      ensures (View(), r) == DriverSpec.NextSubmission(old(View()))
      ensures old(View().pending) != [] ==>
                && r == Some(old(View().pending)[0])
                && View() == old(View()).(pending := old(View().pending)[1..])
      ensures old(View().pending) == [] ==> r == None && View() == old(View())
    {
      r := queue.Dequeue();
      OnlyQueueChanged();
    }

    method PeekSubmission() returns (r: Option<ValidatedSubmission>)
      requires Valid()
      ensures r == QueueSpec.Peek(View().pending)
      ensures View().pending != [] ==> r == Some(View().pending[0])
      ensures View().pending == [] ==> r == None
    {
      r := queue.Peek();
    }

    method QueuedLen() returns (n: usize)
      requires Valid()
      ensures n == |View().pending|
    {
      n := queue.Len();
    }

    method IsQueueEmpty() returns (r: bool)
      requires Valid()
      ensures r <==> |View().pending| == 0
    {
      r := queue.IsEmpty();
    }

    method IsQueueFull() returns (r: bool)
      requires Valid()
      ensures r <==> |View().pending| == View().capacity
    {
      r := queue.IsFull();
    }

    /**
     One call of the driver's interface; a refused one leaves the whole driver as it was.
     `Advance`, `FillBuffers`, `MoveSubmissions` and `Inspect` are groups of calls and only
     split the proof.
     */
    method Perform(call: DriverSpec.Call) returns (answer: Answer)
      requires Valid()
      modifies Repr()
      ensures Valid() && fresh(Repr() - old(Repr()))
      ensures View() == DriverSpec.Step(old(View()), call).0
      ensures answer == DriverSpec.RewordAnswer(DriverSpec.Step(old(View()), call).1, Wording(queue.Kind()))
      ensures answer.Failed? ==> View() == old(View())
      ensures DriverLaws.CallLaw(
                old(View()), call, View(), answer, DuplicateError(queue.Kind()), FullError(queue.Kind()))
    {
      DriverLaws.CallObeysLaw(
        View(), call, Wording(queue.Kind()), DuplicateError(queue.Kind()), FullError(queue.Kind()));
      DriverSpec.FailureChangesNothing(View(), call);
      if call.LoadFirmwareCall? || call.StartCall? {
        answer := Advance(call);
      } else if call.AllocateCall? || call.WriteCall? {
        answer := FillBuffers(call);
      } else if call.SubmitCall? || call.NextCall? {
        answer := MoveSubmissions(call);
      } else {
        answer := Inspect(call);
      }
    }

    /** One call that works on the buffers. */
    method FillBuffers(call: DriverSpec.Call) returns (answer: Answer)
      requires Valid()
      requires call.AllocateCall? || call.WriteCall?
      modifies Repr()
      ensures Valid() && fresh(Repr() - old(Repr()))
      ensures View() == DriverSpec.Step(old(View()), call).0
      ensures answer == DriverSpec.RewordAnswer(DriverSpec.Step(old(View()), call).1, Wording(queue.Kind()))
    {
      match call {
        case AllocateCall(size) =>
          var r := AllocateBuffer(size);
          answer := if r.Ok? then DriverSpec.Allocated(r.value) else DriverSpec.Failed(r.error);
        case WriteCall(id, data) =>
          var r := WriteBuffer(id, data);
          answer := DriverSpec.Settled(r);
      }
    }

    /** One call that accepts or hands out a submission. */
    method MoveSubmissions(call: DriverSpec.Call) returns (answer: Answer)
      requires Valid()
      requires call.SubmitCall? || call.NextCall?
      modifies Repr()
      ensures Valid() && fresh(Repr() - old(Repr()))
      ensures View() == DriverSpec.Step(old(View()), call).0
      ensures answer == DriverSpec.RewordAnswer(DriverSpec.Step(old(View()), call).1, Wording(queue.Kind()))
    {
      match call {
        case SubmitCall(id, raw) =>
          var r := Submit(id, raw);
          answer := DriverSpec.Settled(r);
        case NextCall =>
          var r := NextSubmission();
          answer := DriverSpec.Taken(r);
      }
    }

    /** One call that moves the lifecycle on. */
    method Advance(call: DriverSpec.Call) returns (answer: Answer)
      requires Valid()
      requires call.LoadFirmwareCall? || call.StartCall?
      modifies Repr()
      ensures Valid() && fresh(Repr() - old(Repr()))
      ensures View() == DriverSpec.Step(old(View()), call).0
      ensures answer == DriverSpec.RewordAnswer(DriverSpec.Step(old(View()), call).1, Wording(queue.Kind()))
    {
      match call {
        case LoadFirmwareCall(image) =>
          var r := LoadFirmware(image);
          answer := DriverSpec.Settled(r);
        case StartCall =>
          var r := Start();
          answer := DriverSpec.Settled(r);
      }
    }

    /** One call that only looks at the queue. */
    method Inspect(call: DriverSpec.Call) returns (answer: Answer)
      requires Valid()
      requires call.PeekCall? || call.LenCall? || call.IsEmptyCall? || call.IsFullCall?
      ensures View() == DriverSpec.Step(View(), call).0
      ensures answer == DriverSpec.RewordAnswer(DriverSpec.Step(View(), call).1, Wording(queue.Kind()))
    {
      match call {
        case PeekCall =>
          var r := PeekSubmission();
          answer := DriverSpec.Taken(r);
        case LenCall =>
          var n := QueuedLen();
          answer := DriverSpec.Count(n);
        case IsEmptyCall =>
          var r := IsQueueEmpty();
          answer := DriverSpec.Flag(r);
        case IsFullCall =>
          var r := IsQueueFull();
          answer := DriverSpec.Flag(r);
      }
    }

    /** Any finite sequence of calls. */
    method Run(calls: seq<DriverSpec.Call>) returns (answers: seq<Answer>)
      requires Valid()
      modifies Repr()
      ensures Valid() && fresh(Repr() - old(Repr()))
      ensures View() == DriverSpec.After(old(View()), calls, |calls|)
      ensures |answers| == |calls| && DriverSpec.AnswersAsSpecified(Wording(queue.Kind()), old(View()), calls, answers)
      ensures DriverLaws.LawfulRun(
                old(View()), calls, answers, View(), DuplicateError(queue.Kind()), FullError(queue.Kind()))
    {
      ghost var start, footprint := View(), Repr();
      answers := [];
      while |answers| < |calls|
        invariant Valid() && fresh(Repr() - footprint)
        invariant |answers| <= |calls| && View() == DriverSpec.After(start, calls, |answers|)
        invariant DriverSpec.AnswersAsSpecified(Wording(queue.Kind()), start, calls, answers)
      {
        var answer := PerformNext(start, calls, answers);
        answers := answers + [answer];
      }
      DriverRuns.RunsAreLawful(
        start, calls, answers, Wording(queue.Kind()), DuplicateError(queue.Kind()), FullError(queue.Kind()));
    }

    /** The next call of a run that has been answered so far: the body of the loop in `Run`. */
    method PerformNext(ghost start: DriverSpec.Driver, calls: seq<DriverSpec.Call>, answers: seq<Answer>)
      returns (answer: Answer)
      requires Valid() && |answers| < |calls|
      requires View() == DriverSpec.After(start, calls, |answers|)
      requires DriverSpec.AnswersAsSpecified(Wording(queue.Kind()), start, calls, answers)
      modifies Repr()
      ensures Valid() && fresh(Repr() - old(Repr()))
      ensures View() == DriverSpec.After(start, calls, |answers| + 1)
      ensures DriverSpec.AnswersAsSpecified(Wording(queue.Kind()), start, calls, answers + [answer])
    {
      answer := Perform(calls[|answers|]);
      DriverSpec.OneMoreAnswer(Wording(queue.Kind()), start, calls, answers, old(View()), answer);
    }
  }
}

/**
 The typed wrapper around the generic driver (src/typed_generic_driver.rs).  Methods
 that the source offers for one type parameter only require the marker; nothing else
 is asked of the caller.
 */
module TypedGenericDriver {
  import opened Results
  import opened Words
  import opened Command
  import opened BufferStore
  import opened Submission
  import opened Lifecycle
  import opened QueueBackend
  import opened GenericDriver
  import opened Typestate
  import DriverLaws
  import DriverSpec

  /** The refusal of a transition together with the driver it was refused to. */
  datatype GenericTransitionError =
    GenericTransitionError(driver: TypedGenericGpuDriver, error: GenericDriverError)

  datatype TypedGenericGpuDriver = TypedGenericGpuDriver(inner: GenericGpuDriver, marker: Marker) {

    ghost predicate Valid()
      reads inner.Repr(), inner.device
    {
      inner.Valid() && Matches(marker, inner.controller.state)
    }

    static method New(queue: SubmissionQueue) returns (d: TypedGenericGpuDriver)
      requires queue.Valid()
      ensures d.Valid() && d.marker == OfflineMarker && d.inner.queue == queue
      ensures fresh(d.inner) && fresh(d.inner.Repr() - queue.Repr())
      ensures d.inner.View() == DriverSpec.Initial(queue.Contents(), queue.Capacity())
    {
      var inner := new GenericGpuDriver(queue);
      d := TypedGenericGpuDriver(inner, OfflineMarker);
    }

    function ChangeState(marker: Marker): TypedGenericGpuDriver {
      TypedGenericGpuDriver(inner, marker)
    }

    method LoadFirmware(image: Bytes) returns (r: Result<TypedGenericGpuDriver, GenericTransitionError>)
      requires marker == OfflineMarker && Valid()
      modifies inner.Repr()
      ensures fresh(inner.Repr() - old(inner.Repr()))
      ensures r.Ok? <==> Acceptable(image)
      ensures r.Ok? ==>
                && r.value.inner == inner && r.value.marker == FirmwareLoadedMarker && r.value.Valid()
                && inner.View() == old(inner.View()).(
                     lifecycle := FirmwareLoaded(FirmwareInfo(image[4], image[5])))
      ensures r.Err? ==> r.error.driver == this && Valid() && inner.View() == old(inner.View())
      ensures DriverLaws.LoadFirmwareLaw(
                old(inner.View()), image, inner.View(), if r.Ok? then Ok(()) else Err(r.error.error))
    {
      var outcome := inner.LoadFirmware(image);
      match outcome {
        case Ok(_) => r := Ok(ChangeState(FirmwareLoadedMarker));
        case Err(error) => r := Err(GenericTransitionError(this, error));
      }
    }

    /** A driver with the FirmwareLoaded marker always starts. */
    method Start() returns (r: Result<TypedGenericGpuDriver, GenericTransitionError>)
      requires marker == FirmwareLoadedMarker && Valid()
      modifies inner.Repr()
      ensures fresh(inner.Repr() - old(inner.Repr()))
      ensures r.Ok? && r.value.inner == inner && r.value.marker == ReadyMarker && r.value.Valid()
      ensures inner.View() == old(inner.View()).(lifecycle := Ready(old(inner.View()).lifecycle.info))
    {
      var outcome := inner.Start();
      match outcome {
        case Ok(_) => r := Ok(ChangeState(ReadyMarker));
        case Err(error) => r := Err(GenericTransitionError(this, error));
      }
    }

    method AllocateBuffer(capacity: usize) returns (r: Result<BufferId, GenericDriverError>)
      requires marker == ReadyMarker && Valid()
      modifies inner.Repr()
      ensures Valid() && fresh(inner.Repr() - old(inner.Repr()))
      ensures inner.View() == DriverSpec.AllocateBuffer(old(inner.View()), capacity).0
      ensures r == DriverSpec.RewordResult(
                     DriverSpec.AllocateBuffer(old(inner.View()), capacity).1, Wording(inner.queue.Kind()))
      ensures DriverLaws.AllocateBufferLaw(old(inner.View()), capacity, inner.View(), r)
      ensures r.Err? ==> !r.error.StateFailure?
    {
      r := inner.AllocateBuffer(capacity);
    }

    method WriteBuffer(id: BufferId, data: Bytes) returns (r: Result<(), GenericDriverError>)
      requires marker == ReadyMarker && Valid()
      modifies inner.Repr()
      ensures Valid() && fresh(inner.Repr() - old(inner.Repr()))
      ensures inner.View() == DriverSpec.WriteBuffer(old(inner.View()), id, data).0
      ensures r == DriverSpec.RewordResult(
                     DriverSpec.WriteBuffer(old(inner.View()), id, data).1, Wording(inner.queue.Kind()))
      ensures DriverLaws.WriteBufferLaw(old(inner.View()), id, data, inner.View(), r)
      ensures r.Err? ==> !r.error.StateFailure?
    {
      r := inner.WriteBuffer(id, data);
    }

    method Submit(id: BufferId, raw: RawCommand) returns (r: Result<(), GenericDriverError>)
      requires marker == ReadyMarker && Valid()
      modifies inner.Repr()
      ensures Valid() && fresh(inner.Repr() - old(inner.Repr()))
      ensures inner.View() == DriverSpec.Submit(old(inner.View()), id, raw).0
      ensures r == DriverSpec.RewordResult(
                     DriverSpec.Submit(old(inner.View()), id, raw).1, Wording(inner.queue.Kind()))
      ensures DriverLaws.SubmitLaw(
                old(inner.View()), id, raw, inner.View(), r,
                DuplicateError(inner.queue.Kind())(raw.id), FullError(inner.queue.Kind())(inner.View().capacity))
      ensures r.Err? ==> !r.error.StateFailure?
    {
      ReadySubmitsFitState(inner.View(), id, raw);
      r := inner.Submit(id, raw);
    }

    method NextSubmission() returns (r: Option<ValidatedSubmission>)
      requires marker == ReadyMarker && Valid()
      modifies inner.Repr()
      ensures Valid() && fresh(inner.Repr() - old(inner.Repr()))
      ensures (inner.View(), r) == DriverSpec.NextSubmission(old(inner.View()))
      ensures old(inner.View().pending) != [] ==>
                && r == Some(old(inner.View().pending)[0])
                && inner.View() == old(inner.View()).(pending := old(inner.View().pending)[1..])
      ensures old(inner.View().pending) == [] ==> r == None && inner.View() == old(inner.View())
    {
      r := inner.NextSubmission();
    }
  }
}

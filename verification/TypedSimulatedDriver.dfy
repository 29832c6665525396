/**
 The typed wrapper around the simulated driver (src/typed_driver.rs).  As in the generic
 wrapper, a method offered for one type parameter only requires the marker.
 */
module TypedSimulatedDriver {
  import opened Results
  import opened Words
  import opened Command
  import opened BufferStore
  import opened Submission
  import opened Lifecycle
  import opened SimulatedDriver
  import opened Typestate
  import DriverLaws
  import DriverSpec
  import DynamicQueue

  /** The refusal of a transition together with the driver it was refused to. */
  datatype TransitionError =
    TransitionError(driver: TypedDriver, error: DriverApiError)

  datatype TypedDriver = TypedDriver(inner: SimulatedGpuDriver, marker: Marker) {

    ghost predicate Valid()
      reads inner.Repr(), inner.device
    {
      inner.Valid() && Matches(marker, inner.controller.state)
    }

    static method New(capacity: usize) returns (r: Result<TypedDriver, DriverApiError>)
      ensures r.Err? <==> capacity == 0
      ensures r.Err? ==> r.error == DriverSpec.QueueFailure(DynamicQueue.ZeroCapacity)
      ensures r.Ok? ==>
                && r.value.Valid() && r.value.marker == OfflineMarker
                && fresh(r.value.inner) && fresh(r.value.inner.Repr())
                && r.value.inner.View() == DriverSpec.Initial([], capacity)
    {
      var outcome := SimulatedGpuDriver.New(capacity);
      match outcome {
        case Ok(inner) => r := Ok(TypedDriver(inner, OfflineMarker));
        case Err(error) => r := Err(error);
      }
    }

    function ChangeState(marker: Marker): TypedDriver {
      TypedDriver(inner, marker)
    }

    method LoadFirmware(image: Bytes) returns (r: Result<TypedDriver, TransitionError>)
      requires marker == OfflineMarker && Valid()
      modifies inner.Repr()
      ensures fresh(inner.Repr() - old(inner.Repr()))
      ensures r.Ok? <==> Acceptable(image)
      ensures r.Ok? ==>
                && r.value.inner == inner && r.value.marker == FirmwareLoadedMarker && r.value.Valid()
                && inner.View() == old(inner.View()).(
                     lifecycle := FirmwareLoaded(FirmwareInfo(image[4], image[5])))
      ensures r.Err? ==> r.error.driver == this && Valid() && inner.View() == old(inner.View())
      ensures DriverLaws.LoadFirmwareLaw(
                old(inner.View()), image, inner.View(), if r.Ok? then Ok(()) else Err(r.error.error))
    {
      var outcome := inner.LoadFirmware(image);
      match outcome {
        case Ok(_) => r := Ok(ChangeState(FirmwareLoadedMarker));
        case Err(error) => r := Err(TransitionError(this, error));
      }
    }

    /** A driver with the FirmwareLoaded marker always starts. */
    method Start() returns (r: Result<TypedDriver, TransitionError>)
      requires marker == FirmwareLoadedMarker && Valid()
      modifies inner.Repr()
      ensures fresh(inner.Repr() - old(inner.Repr()))
      ensures r.Ok? && r.value.inner == inner && r.value.marker == ReadyMarker && r.value.Valid()
      ensures inner.View() == old(inner.View()).(lifecycle := Ready(old(inner.View()).lifecycle.info))
    {
      var outcome := inner.Start();
      match outcome {
        case Ok(_) => r := Ok(ChangeState(ReadyMarker));
        case Err(error) => r := Err(TransitionError(this, error));
      }
    }

    method AllocateBuffer(capacity: usize) returns (r: Result<BufferId, DriverApiError>)
      requires marker == ReadyMarker && Valid()
      modifies inner.Repr()
      ensures Valid() && fresh(inner.Repr() - old(inner.Repr()))
      ensures inner.View() == DriverSpec.AllocateBuffer(old(inner.View()), capacity).0
      ensures r == DriverSpec.RewordResult(
                     DriverSpec.AllocateBuffer(old(inner.View()), capacity).1, DynamicQueue.Express)
      ensures DriverLaws.AllocateBufferLaw(old(inner.View()), capacity, inner.View(), r)
      ensures r.Err? ==> !r.error.StateFailure?
    {
      r := inner.AllocateBuffer(capacity);
    }

    method WriteBuffer(id: BufferId, data: Bytes) returns (r: Result<(), DriverApiError>)
      requires marker == ReadyMarker && Valid()
      modifies inner.Repr()
      ensures Valid() && fresh(inner.Repr() - old(inner.Repr()))
      ensures inner.View() == DriverSpec.WriteBuffer(old(inner.View()), id, data).0
      ensures r == DriverSpec.RewordResult(
                     DriverSpec.WriteBuffer(old(inner.View()), id, data).1, DynamicQueue.Express)
      ensures DriverLaws.WriteBufferLaw(old(inner.View()), id, data, inner.View(), r)
      ensures r.Err? ==> !r.error.StateFailure?
    {
      r := inner.WriteBuffer(id, data);
    }

    method Submit(id: BufferId, raw: RawCommand) returns (r: Result<(), DriverApiError>)
      requires marker == ReadyMarker && Valid()
      modifies inner.Repr()
      ensures Valid() && fresh(inner.Repr() - old(inner.Repr()))
      ensures inner.View() == DriverSpec.Submit(old(inner.View()), id, raw).0
      ensures r == DriverSpec.RewordResult(
                     DriverSpec.Submit(old(inner.View()), id, raw).1, DynamicQueue.Express)
      ensures DriverLaws.SubmitLaw(
                old(inner.View()), id, raw, inner.View(), r,
                DynamicQueue.DuplicateCommandId(CommandId(raw.id)), DynamicQueue.QueueFull(inner.View().capacity))
      ensures r.Err? ==> !r.error.StateFailure?
    {
      ReadySubmitsFitState(inner.View(), id, raw);
      r := inner.Submit(id, raw);
    }

    method NextSubmission() returns (r: Option<ValidatedSubmission>)
      requires marker == ReadyMarker && Valid()
      modifies inner.Repr()
      ensures Valid() && fresh(inner.Repr() - old(inner.Repr()))
      ensures (inner.View(), r) == DriverSpec.NextSubmission(old(inner.View()))
      ensures old(inner.View().pending) != [] ==>
                && r == Some(old(inner.View().pending)[0])
                && inner.View() == old(inner.View()).(pending := old(inner.View().pending)[1..])
      ensures old(inner.View().pending) == [] ==> r == None && inner.View() == old(inner.View())
    {
      r := inner.NextSubmission();
    }
  }
}

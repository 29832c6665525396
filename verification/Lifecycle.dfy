/** Firmware loading and start-up (src/device_state.rs). */
module Lifecycle {
  import opened Results
  import opened Words

  datatype FirmwareInfo = FirmwareInfo(major: byte, minor: byte)

  datatype StateKind = OfflineKind | FirmwareLoadedKind | ReadyKind | FaultedKind

  datatype DeviceState =
    | Offline
    | FirmwareLoaded(info: FirmwareInfo)
    | Ready(info: FirmwareInfo)
    | Faulted
  {
    function Kind(): StateKind {
      match this
      case Offline => OfflineKind
      case FirmwareLoaded(_) => FirmwareLoadedKind
      case Ready(_) => ReadyKind
      case Faulted => FaultedKind
    }
  }

  /** The operation named by an `InvalidState` error. */
  datatype Operation = LoadFirmwareOperation | StartOperation | EnsureReadyOperation

  datatype StateError =
    | InvalidState(operation: Operation, actual: StateKind)
    | FirmwareTooShort(length: usize)
    | InvalidFirmwareMagic
    | UnsupportedFirmwareMajor(found: byte)

  /** The bytes of "RGPU". */
  const MAGIC: Bytes := [0x52, 0x47, 0x50, 0x55]
  const HEADER_LENGTH: usize := 6
  const SUPPORTED_MAJOR: byte := 1

  /** An image of the documented format, whatever payload follows the header. */
  predicate Acceptable(image: Bytes) {
    HEADER_LENGTH <= |image| && MAGIC <= image && image[4] == SUPPORTED_MAJOR
  }

  function CheckImage(image: Bytes): (r: Result<(), StateError>)
    ensures r.Ok? <==> Acceptable(image)
  {
    if |image| < HEADER_LENGTH then
      Err(FirmwareTooShort(|image|))
    else if image[0..4] != MAGIC then
      Err(InvalidFirmwareMagic)
    else if image[4] != SUPPORTED_MAJOR then
      Err(UnsupportedFirmwareMajor(image[4]))
    else
      Ok(())
  }

  function Load(state: DeviceState, image: Bytes): (DeviceState, Result<(), StateError>) {
    if state != Offline then
      (state, Err(InvalidState(LoadFirmwareOperation, state.Kind())))
    else
      match CheckImage(image)
      case Err(error) => (state, Err(error))
      case Ok(_) => (FirmwareLoaded(FirmwareInfo(image[4], image[5])), Ok(()))
  }

  function StartUp(state: DeviceState): (DeviceState, Result<(), StateError>) {
    match state
    case FirmwareLoaded(info) => (Ready(info), Ok(()))
    case _ => (state, Err(InvalidState(StartOperation, state.Kind())))
  }

  function ReadyInfo(state: DeviceState): Result<FirmwareInfo, StateError> {
    match state
    case Ready(info) => Ok(info)
    case _ => Err(InvalidState(EnsureReadyOperation, state.Kind()))
  }

  // ----- What each operation must do, errors included -----

  predicate NamesState(kind: StateKind, state: DeviceState) {
    && (kind == OfflineKind <==> state.Offline?)
    && (kind == FirmwareLoadedKind <==> state.FirmwareLoaded?)
    && (kind == ReadyKind <==> state.Ready?)
    && (kind == FaultedKind <==> state.Faulted?)
  }

  /** The error that refuses an operation in a state. */
  predicate RefusedIn(error: StateError, operation: Operation, state: DeviceState) {
    error.InvalidState? && error.operation == operation && NamesState(error.actual, state)
  }

  /** The state is checked before the image, and the image for length, magic and version in this order. */
  predicate LoadLaw(state: DeviceState, image: Bytes, state': DeviceState, r: Result<(), StateError>) {
    if !state.Offline? then
      state' == state && r.Err? && RefusedIn(r.error, LoadFirmwareOperation, state)
    else if |image| < 6 then
      state' == state && r == Err(FirmwareTooShort(|image|))
    else if image[0..4] != ['R' as byte, 'G' as byte, 'P' as byte, 'U' as byte] then
      state' == state && r == Err(InvalidFirmwareMagic)
    else if image[4] != 1 then
      state' == state && r == Err(UnsupportedFirmwareMajor(image[4]))
    else
      r == Ok(()) && state' == FirmwareLoaded(FirmwareInfo(1, image[5]))
  }

  predicate StartLaw(state: DeviceState, state': DeviceState, r: Result<(), StateError>) {
    if state.FirmwareLoaded? then r == Ok(()) && state' == Ready(state.info)
    else state' == state && r.Err? && RefusedIn(r.error, StartOperation, state)
  }

  lemma LoadObeysLaw(state: DeviceState, image: Bytes)
    ensures var (state', r) := Load(state, image); LoadLaw(state, image, state', r)
  {
  }

  lemma StartObeysLaw(state: DeviceState)
    ensures var (state', r) := StartUp(state); StartLaw(state, state', r)
  {
  }

  class DeviceController {
    var state: DeviceState

    constructor ()
      ensures state == Offline
    {
      state := Offline;
    }

    method LoadFirmware(image: Bytes) returns (r: Result<(), StateError>)
      modifies this
      ensures (state, r) == Load(old(state), image)
      ensures LoadLaw(old(state), image, state, r)
    {
      LoadObeysLaw(state, image);
      var actual := state.Kind();
      if actual != OfflineKind {
        return Err(InvalidState(LoadFirmwareOperation, actual));
      }
      var _ :- CheckImage(image);
      state := FirmwareLoaded(FirmwareInfo(image[4], image[5]));
      r := Ok(());
    }

    /** The state is swapped out first, so a refused start has to put it back. */
    method Start() returns (r: Result<(), StateError>)
      modifies this
      ensures (state, r) == StartUp(old(state))
      ensures StartLaw(old(state), state, r)
    {
      StartObeysLaw(state);
      var previous := state;
      state := Offline;
      match previous {
        case FirmwareLoaded(info) =>
          state := Ready(info);
          r := Ok(());
        case other =>
          var actual := other.Kind();
          state := other;
          r := Err(InvalidState(StartOperation, actual));
      }
    }

    method EnsureReady() returns (r: Result<FirmwareInfo, StateError>)
      ensures r == ReadyInfo(state)
      ensures if state.Ready? then r == Ok(state.info) else r.Err? && RefusedIn(r.error, EnsureReadyOperation, state)
    {
      match state {
        case Ready(info) => r := Ok(info);
        case other => r := Err(InvalidState(EnsureReadyOperation, other.Kind()));
      }
    }
  }
}

/**
 The lifecycle in the type (src/typed_driver.rs, src/typed_generic_driver.rs).  A marker
 stands for the phantom type parameter: it decides which calls the compiler lets
 through, and `change_state` is the only thing that changes it.
 */
module Typestate {
  import opened Command
  import opened BufferStore
  import opened Lifecycle
  import opened DriverSpec

  datatype Marker = OfflineMarker | FirmwareLoadedMarker | ReadyMarker

  /** The calls for which a driver with this marker has a method. */
  predicate Compiles(marker: Marker, call: Call) {
    match marker
    case OfflineMarker => call.LoadFirmwareCall?
    case FirmwareLoadedMarker => call.StartCall?
    case ReadyMarker => !call.LoadFirmwareCall? && !call.StartCall?
  }

  /** The marker of the driver that the call gives back: a failed transition keeps it. */
  function MarkerAfter<QE>(marker: Marker, call: Call, answer: Answer<QE>): Marker {
    if answer.Failed? then marker
    else match call
      case LoadFirmwareCall(_) => FirmwareLoadedMarker
      case StartCall => ReadyMarker
      case _ => marker
  }

  function MarkerAt(d: Driver, calls: seq<Call>, k: nat): Marker
    requires k <= |calls|
  {
    if k == 0 then OfflineMarker
    else MarkerAfter(MarkerAt(d, calls, k - 1), calls[k - 1], AnswerAt(d, calls, k - 1))
  }

  /** The call sequences a client of the typed driver can write. */
  ghost predicate WellTyped(d: Driver, calls: seq<Call>) {
    forall k | 0 <= k < |calls| :: Compiles(MarkerAt(d, calls, k), calls[k])
  }

  predicate Matches(marker: Marker, lifecycle: DeviceState) {
    match marker
    case OfflineMarker => lifecycle.Offline?
    case FirmwareLoadedMarker => lifecycle.FirmwareLoaded?
    case ReadyMarker => lifecycle.Ready?
  }

  /** The call was refused because of the state the device is in. */
  predicate RefusedForState<QE>(answer: Answer<QE>) {
    answer.Failed? && answer.error.StateFailure? && answer.error.state.InvalidState?
  }

  /** One call: what compiles cannot fail for the state, and leaves a matching marker. */
  lemma CompilingCallFitsState(d: Driver, marker: Marker, call: Call)
    requires Matches(marker, d.lifecycle) && Compiles(marker, call)
    ensures var (d', answer) := Step(d, call);
            && Matches(MarkerAfter(marker, call, answer), d'.lifecycle)
            && !RefusedForState(answer)
            && (call.StartCall? ==> answer == Done)
            && (call.LoadFirmwareCall? ==> (answer == Done <==> Acceptable(call.image)))
  {
  }

  lemma ReadySubmitsFitState(d: Driver, id: BufferId, raw: RawCommand)
    requires d.lifecycle.Ready?
    ensures var r := Submit(d, id, raw).1;
            r.Err? ==> !r.error.StateFailure?
  {
  }

  /** Every typed driver that the public interface can produce has a marker matching its runtime state. */
  lemma MarkerTellsTheState(d: Driver, calls: seq<Call>, k: nat)
    requires k <= |calls| && d.lifecycle == Offline && WellTyped(d, calls)
    ensures Matches(MarkerAt(d, calls, k), After(d, calls, k).lifecycle)
  {
    for j := 0 to k
      invariant Matches(MarkerAt(d, calls, j), After(d, calls, j).lifecycle)
    {
      MatchIsKept(d, calls, j);
    }
  }

  lemma MatchIsKept(d: Driver, calls: seq<Call>, k: nat)
    requires k < |calls| && Compiles(MarkerAt(d, calls, k), calls[k])
    requires Matches(MarkerAt(d, calls, k), After(d, calls, k).lifecycle)
    ensures Matches(MarkerAt(d, calls, k + 1), After(d, calls, k + 1).lifecycle)
  {
    CompilingCallFitsState(After(d, calls, k), MarkerAt(d, calls, k), calls[k]);
  }

  /**
   So no call that compiles is ever refused for the state, `start` succeeds wherever it
   can be written, and a load succeeds exactly on an acceptable image.
   */
  lemma CompilingCallsAreNotRefused(d: Driver, calls: seq<Call>, k: nat)
    requires k < |calls| && d.lifecycle == Offline && WellTyped(d, calls)
    ensures var answer := AnswerAt(d, calls, k);
            && !RefusedForState(answer)
            && (calls[k].StartCall? ==> answer == Done)
            && (calls[k].LoadFirmwareCall? ==> (answer == Done <==> Acceptable(calls[k].image)))
  {
    MarkerTellsTheState(d, calls, k);
    CompilingCallFitsState(After(d, calls, k), MarkerAt(d, calls, k), calls[k]);
  }

  /**
   Failed loads hand back an equal driver: after any number of them an acceptable image
   and a start lead to the same Ready driver as if nothing had failed.
   */
  lemma FailedLoadsCanBeRetried(d: Driver, calls: seq<Call>, n: nat)
    requires d.lifecycle == Offline && |calls| == n + 2
    requires forall i | 0 <= i < n :: calls[i].LoadFirmwareCall? && !Acceptable(calls[i].image)
    requires calls[n].LoadFirmwareCall? && Acceptable(calls[n].image) && calls[n + 1] == StartCall
    ensures forall k | 0 <= k <= n :: After(d, calls, k) == d
    ensures After(d, calls, n + 2) ==
            d.(lifecycle := Ready(FirmwareInfo(calls[n].image[4], calls[n].image[5])))
  {
    for k := 0 to n
      invariant forall j | 0 <= j <= k :: After(d, calls, j) == d
    {
      assert After(d, calls, k + 1) == Step(d, calls[k]).0;
    }
    assert After(d, calls, n + 1) == Step(d, calls[n]).0;
    assert After(d, calls, n + 2) == Step(After(d, calls, n + 1), calls[n + 1]).0;
  }
}

/** The three ways to run a driver agree call by call. */
module DriverEquivalence {
  import opened GenericDriver
  import opened SimulatedDriver
  import opened QueueBackend
  import DynamicQueue
  import DriverSpec

  /**
   From equal states, the generic driver over a ring and over a deque answer every
   finite sequence of calls alike up to the wording of queue errors, and stay in equal
   states: same lifecycle, same buffers, same pending submissions.
   */
  method RunOverBothBackends(ring: GenericGpuDriver, deque: GenericGpuDriver, calls: seq<DriverSpec.Call>)
    returns (ringAnswers: seq<GenericDriver.Answer>, dequeAnswers: seq<GenericDriver.Answer>)
    requires ring.Valid() && deque.Valid() && ring.Repr() !! deque.Repr()
    requires ring.queue.Static? && deque.queue.Dynamic? && ring.View() == deque.View()
    modifies ring.Repr(), deque.Repr()
    ensures ring.Valid() && deque.Valid() && ring.View() == deque.View()
    ensures |ringAnswers| == |dequeAnswers| == |calls|
    ensures DriverSpec.AnswersAsSpecified(Wording(StaticKind), old(ring.View()), calls, ringAnswers)
    ensures DriverSpec.AnswersAsSpecified(Wording(DynamicKind), old(ring.View()), calls, dequeAnswers)
  {
    ringAnswers := ring.Run(calls);
    deque.NothingChanged();
    label Between:
    dequeAnswers := deque.Run(calls);
    ring.NothingChanged@Between();
  }

  /** On the calls it offers, the simulated driver answers like the generic one over a deque. */
  method RunSimulatedAndGeneric(simulated: SimulatedGpuDriver, deque: GenericGpuDriver, calls: seq<DriverSpec.Call>)
    returns (simulatedAnswers: seq<SimulatedDriver.Answer>, dequeAnswers: seq<GenericDriver.Answer>)
    requires simulated.Valid() && deque.Valid() && simulated.Repr() !! deque.Repr()
    requires deque.queue.Dynamic? && simulated.View() == deque.View()
    requires forall call <- calls :: Offered(call)
    modifies simulated.Repr(), deque.Repr()
    ensures simulated.Valid() && deque.Valid() && simulated.View() == deque.View()
    ensures |simulatedAnswers| == |dequeAnswers| == |calls|
    ensures DriverSpec.AnswersAsSpecified(DynamicQueue.Express, old(simulated.View()), calls, simulatedAnswers)
    ensures DriverSpec.AnswersAsSpecified(Wording(DynamicKind), old(simulated.View()), calls, dequeAnswers)
  {
    simulatedAnswers := simulated.Run(calls);
    deque.NothingChanged();
    label Between:
    dequeAnswers := deque.Run(calls);
    simulated.NothingChanged@Between();
  }
}

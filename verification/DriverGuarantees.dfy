/** What a client gets from the driver objects: the run theorems read off a driver that was just created. */
module DriverGuarantees {
  import opened Results
  import opened GenericDriver
  import opened SimulatedDriver
  import opened QueueBackend
  import opened Words
  import DriverLaws
  import DriverSpec
  import DynamicQueue
  import DriverRuns
  import QueueSpec

  /** What every run of a new driver around queue contents `q` ends in. */
  ghost predicate Guaranteed(
    q: QueueSpec.Pending, capacity: usize, calls: seq<DriverSpec.Call>, now: DriverSpec.Driver)
  {
    var start := DriverSpec.Initial(q, capacity);
    && now == DriverSpec.After(start, calls, |calls|)
    && DriverRuns.Explained(start, calls, |calls|)
    && (forall x <- now.pending :: x in q || DriverRuns.Backed(now.store, x))
    && q + DriverRuns.Accepted(start, calls, |calls|) == DriverRuns.HandedOut(start, calls, |calls|) + now.pending
    && (q == [] ==> DriverRuns.AllBacked(now))
  }

  lemma RunsAreGuaranteed(q: QueueSpec.Pending, capacity: usize, calls: seq<DriverSpec.Call>)
    requires DriverSpec.Initial(q, capacity).Valid()
    ensures Guaranteed(q, capacity, calls, DriverSpec.After(DriverSpec.Initial(q, capacity), calls, |calls|))
  {
    var start := DriverSpec.Initial(q, capacity);
    DriverRuns.LifecycleIsExplained(q, capacity, calls, |calls|);
    DriverRuns.PendingIsBackedOrInitial(start, calls, |calls|);
    DriverRuns.SubmissionsAreConserved(start, calls, |calls|);
  }

  /** A generic driver around any queue, whatever it is asked to do. */
  method RunNewGenericDriver(queue: SubmissionQueue, calls: seq<DriverSpec.Call>)
    returns (driver: GenericGpuDriver, answers: seq<GenericDriver.Answer>)
    requires queue.Valid()
    modifies queue.Repr()
    ensures driver.Valid() && driver.queue == queue
    ensures Guaranteed(old(queue.Contents()), old(queue.Capacity()), calls, driver.View())
    ensures DriverLaws.LawfulRun(
              DriverSpec.Initial(old(queue.Contents()), old(queue.Capacity())), calls, answers, driver.View(),
              DuplicateError(queue.Kind()), FullError(queue.Kind()))
  {
    driver := new GenericGpuDriver(queue);
    driver.ViewIsValid();
    RunsAreGuaranteed(queue.Contents(), queue.Capacity(), calls);
    answers := driver.Run(calls);
  }

  /** A simulated driver always starts with an empty queue, so all its pending submissions are backed. */
  method RunNewSimulatedDriver(capacity: usize, calls: seq<DriverSpec.Call>)
    returns (r: Result<SimulatedGpuDriver, DriverApiError>, answers: seq<SimulatedDriver.Answer>)
    requires forall call <- calls :: Offered(call)
    ensures r.Ok? <==> capacity > 0
    ensures r.Ok? ==> r.value.Valid() && Guaranteed([], capacity, calls, r.value.View())
    ensures r.Ok? ==>
              DriverLaws.LawfulRun(
                DriverSpec.Initial([], capacity), calls, answers, r.value.View(),
                DynamicQueue.DuplicateError, DynamicQueue.FullError)
  {
    r := SimulatedGpuDriver.New(capacity);
    answers := [];
    match r {
      case Err(_) =>
      case Ok(driver) =>
        driver.ViewIsValid();
        RunsAreGuaranteed([], capacity, calls);
        answers := driver.Run(calls);
    }
  }
}

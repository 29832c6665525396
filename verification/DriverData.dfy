/**
 Driver runs seen from the buffer table: which table run a driver run performs, and what
 that says about the bytes a submission refers to.
 */
module DriverData {
  import opened Words
  import opened BufferStore
  import DriverSpec
  import DriverLaws
  import DriverRuns
  import BufferHistory
  import QueueSpec

  /** The table operation that a call reaches, if the device is ready for it. */
  function TableOp(d: DriverSpec.Driver, call: DriverSpec.Call): seq<BufferHistory.Op> {
    if !d.lifecycle.Ready? then []
    else match call
      case AllocateCall(size) => [BufferHistory.AllocateOp(size)]
      case WriteCall(id, data) => [BufferHistory.WriteOp(id, data)]
      case _ => []
  }

  /** The table operations that the first `k` calls reach. */
  function TableOps(d: DriverSpec.Driver, calls: seq<DriverSpec.Call>, k: nat): seq<BufferHistory.Op>
    requires k <= |calls|
  {
    if k == 0 then []
    else TableOps(d, calls, k - 1) + TableOp(DriverSpec.After(d, calls, k - 1), calls[k - 1])
  }

  /** A run does not depend on what comes after it. */
  lemma {:induction false} PrefixDecides(s: Store, ops: seq<BufferHistory.Op>, more: seq<BufferHistory.Op>, k: nat)
    requires k <= |ops|
    ensures BufferHistory.After(s, ops + more, k) == BufferHistory.After(s, ops, k)
  {
    if k > 0 {
      PrefixDecides(s, ops, more, k - 1);
    }
  }

  lemma OneCallIsAtMostOneOp(d: DriverSpec.Driver, call: DriverSpec.Call)
    ensures var ops := TableOp(d, call);
            && |ops| <= 1
            && DriverSpec.Step(d, call).0.store ==
               if ops == [] then d.store else BufferHistory.Perform(d.store, ops[0]).0
  {
  }

  /** The buffer table of a driver is the outcome of the table operations its calls reached. */
  lemma TableFollowsCalls(d: DriverSpec.Driver, calls: seq<DriverSpec.Call>, k: nat)
    requires k <= |calls|
    ensures TableMatches(d, calls, k)
  {
    for n := 0 to k
      invariant TableMatches(d, calls, n)
    {
      TableFollowsOneCall(d, calls, n);
    }
  }

  ghost predicate TableMatches(d: DriverSpec.Driver, calls: seq<DriverSpec.Call>, k: nat)
    requires k <= |calls|
  {
    var ops := TableOps(d, calls, k);
    DriverSpec.After(d, calls, k).store == BufferHistory.After(d.store, ops, |ops|)
  }

  lemma TableFollowsOneCall(d: DriverSpec.Driver, calls: seq<DriverSpec.Call>, k: nat)
    requires k < |calls| && TableMatches(d, calls, k)
    ensures TableMatches(d, calls, k + 1)
  {
    var before := DriverSpec.After(d, calls, k);
    var ops, more := TableOps(d, calls, k), TableOp(before, calls[k]);
    OneCallIsAtMostOneOp(before, calls[k]);
    PrefixDecides(d.store, ops, more, |ops|);
    assert TableOps(d, calls, k + 1) == ops + more;
  }

  /** The driver offers no offset writes, so none of its operations can leave a gap. */
  lemma {:induction false} NoSparseWrites(d: DriverSpec.Driver, calls: seq<DriverSpec.Call>, k: nat)
    requires k <= |calls|
    ensures forall op <- TableOps(d, calls, k) :: !op.WriteAtOp?
  {
    if k > 0 {
      NoSparseWrites(d, calls, k - 1);
    }
  }

  /** In every driver state the initialized prefix of every live buffer was written by clients since its last reset. */
  lemma DriverBuffersAreGapless(
    q: QueueSpec.Pending, capacity: usize, calls: seq<DriverSpec.Call>, k: nat, id: BufferId)
    requires k <= |calls|
    requires id in DriverSpec.After(DriverSpec.Initial(q, capacity), calls, k).store.buffers
    ensures var ops := TableOps(DriverSpec.Initial(q, capacity), calls, k);
            id in BufferHistory.After(Fresh, ops, |ops|).buffers && BufferHistory.Gapless(Fresh, ops, |ops|, id)
  {
    var d := DriverSpec.Initial(q, capacity);
    var ops := TableOps(d, calls, k);
    TableFollowsCalls(d, calls, k);
    NoSparseWrites(d, calls, k);
    BufferHistory.DenseRunsAreGapless(ops, |ops|, id);
  }

  /**
   When a submission is accepted, every byte of its range holds client data: the byte
   that the last write covering it stored, and that write came after the buffer's last
   reset.
   */
  lemma AcceptedRangeHoldsClientData(
    q: QueueSpec.Pending, capacity: usize, calls: seq<DriverSpec.Call>, k: nat, i: nat)
    requires QueueSpec.Valid(q, capacity) && k < |calls| && calls[k].SubmitCall?
    requires DriverSpec.AnswerAt(DriverSpec.Initial(q, capacity), calls, k) == DriverSpec.Done
    requires calls[k].raw.offset <= i < calls[k].raw.offset + calls[k].raw.length
    ensures var d := DriverSpec.Initial(q, capacity);
            var ops, store := TableOps(d, calls, k), DriverSpec.After(d, calls, k).store;
            && calls[k].id in store.buffers && i < |store.buffers[calls[k].id].storage|
            && BufferHistory.LastStored(ops, |ops|, calls[k].id, i, store.buffers[calls[k].id].storage[i])
            && exists r :: BufferHistory.LastReset(Fresh, ops, r, |ops|, calls[k].id)
                           && BufferHistory.WrittenSince(Fresh, ops, r, |ops|, calls[k].id, i)
  {
    var d := DriverSpec.Initial(q, capacity);
    var before, id, raw := DriverSpec.After(d, calls, k), calls[k].id, calls[k].raw;
    var ops := TableOps(d, calls, k);
    var n := |ops|;
    DriverRuns.AfterIsValid(d, calls, k);
    DriverLaws.SubmitDecision(before, id, raw);
    assert DriverLaws.Passes(before, id, raw, DriverLaws.CHECKS[6]);
    assert DriverLaws.Passes(before, id, raw, DriverLaws.CHECKS[7]);
    TableFollowsCalls(d, calls, k);
    DriverBuffersAreGapless(q, capacity, calls, k, id);
    BufferHistory.BytesAreLastTouched(ops, n, id, i);
    var r :| BufferHistory.WrittenFrom(Fresh, ops, r, n, id);
    assert BufferHistory.LastReset(Fresh, ops, r, n, id);
    assert BufferHistory.WrittenSince(Fresh, ops, r, n, id, i);
  }
}

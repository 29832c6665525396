/** Runs of the device object: the bridge from the in-place buffers to `BufferHistory`. */
module DeviceRuns {
  import opened Results
  import opened Words
  import opened BufferStore
  import opened DeviceMemory
  import BufferHistory

  /** The buffer that a call handed over to the client, if it was a release. */
  type Departed = Option<GpuBuffer>

  ghost function Footprint(departed: Departed): set<object> {
    if departed.Some? then {departed.value, departed.value.storage} else {}
  }

  ghost function Footprints(departed: seq<Departed>): set<object> {
    set k, o | 0 <= k < |departed| && o in Footprint(departed[k]) :: o
  }

  /** A departed buffer holds the value it was released with, out of the device's reach. */
  ghost predicate KeptAside(device: GpuDevice, departed: Departed, reply: BufferHistory.Reply)
    reads device, Footprint(departed)
  {
    && (departed.Some? <==> reply.Released?)
    && (departed.Some? ==> departed.value.Valid() && departed.value.Value() == reply.buffer)
    && Footprint(departed) !! device.Repr
  }

  ghost predicate AllKeptAside(device: GpuDevice, departed: seq<Departed>, replies: seq<BufferHistory.Reply>)
    reads device, Footprints(departed)
  {
    |departed| == |replies| && forall k | 0 <= k < |departed| :: KeptAside(device, departed[k], replies[k])
  }

  /** One call of the device's interface. */
  method Perform(device: GpuDevice, op: BufferHistory.Op) returns (reply: BufferHistory.Reply, departed: Departed)
    requires device.Valid()
    modifies device.Repr
    ensures device.Valid() && fresh(device.Repr - old(device.Repr))
    ensures (device.View(), reply) == BufferHistory.Perform(old(device.View()), op)
    ensures BufferHistory.Lawful(old(device.View()), op, device.View(), reply)
    ensures KeptAside(device, departed, reply)
  {
    BufferHistory.PerformIsLawful(device.View(), op);
    departed := None;
    match op {
      case AllocateOp(capacity) =>
        var r := device.AllocateBuffer(capacity);
        reply := if r.Ok? then BufferHistory.Allocated(r.value) else BufferHistory.Failed(r.error);
      case WriteOp(id, data) =>
        var r := device.WriteBuffer(id, data);
        reply := BufferHistory.Outcome(r);
      case WriteAtOp(id, offset, data) =>
        var r := device.WriteBufferAt(id, offset, data);
        reply := BufferHistory.Outcome(r);
      case ClearOp(id) =>
        var r := device.ClearBuffer(id);
        reply := BufferHistory.Outcome(r);
      case ReleaseOp(id) =>
        var r := device.ReleaseBuffer(id);
        match r {
          case Ok(buffer) =>
            departed := Some(buffer);
            reply := BufferHistory.Released(Buffer(buffer.id, buffer.storage[..], buffer.used));
          case Err(error) =>
            reply := BufferHistory.Failed(error);
        }
    }
  }

  /**
   Any finite sequence of calls ends in the table that `BufferHistory` describes, with its
   replies; and every buffer released on the way still holds what it held at its release.
   */
  method Run(device: GpuDevice, ops: seq<BufferHistory.Op>)
    returns (replies: seq<BufferHistory.Reply>, departed: seq<Departed>)
    requires device.Valid()
    modifies device.Repr
    ensures device.Valid() && fresh(device.Repr - old(device.Repr))
    ensures device.View() == BufferHistory.After(old(device.View()), ops, |ops|)
    ensures |replies| == |ops| && AllKeptAside(device, departed, replies)
    ensures forall k | 0 <= k < |ops| :: replies[k] == BufferHistory.ReplyAt(old(device.View()), ops, k)
  {
    ghost var start, footprint := device.View(), device.Repr;
    replies, departed := [], [];
    for n := 0 to |ops|
      invariant device.Valid() && fresh(device.Repr - footprint)
      invariant device.View() == BufferHistory.After(start, ops, n)
      invariant |replies| == n && AllKeptAside(device, departed, replies)
      invariant forall k | 0 <= k < n :: replies[k] == BufferHistory.ReplyAt(start, ops, k)
    {
      var reply, buffer := Perform(device, ops[n]);
      replies, departed := replies + [reply], departed + [buffer];
    }
  }

  /**
   A new device, any calls, then a range read: it succeeds exactly within the initialized
   prefix of a live buffer, and each byte it returns is what the last call covering it
   stored there.
   */
  method RunNewDeviceAndRead(ops: seq<BufferHistory.Op>, id: BufferId, offset: usize, length: usize)
    returns (device: GpuDevice, r: Result<Bytes, DriverError>)
    ensures device.Valid() && device.View() == BufferHistory.After(Fresh, ops, |ops|)
    ensures r.Ok? <==> id in device.View().buffers && offset + length <= device.View().buffers[id].used
    ensures r.Ok? ==>
              && |r.value| == length
              && forall i | 0 <= i < length :: BufferHistory.LastStored(ops, |ops|, id, offset + i, r.value[i])
    ensures id in device.View().buffers ==>
              exists t :: BufferHistory.LevelSince(Fresh, ops, t, |ops|, id, device.View().buffers[id].used)
  {
    device := new GpuDevice();
    var _, _ := Run(device, ops);
    r := device.ReadBufferRange(id, offset, length);
    BufferHistory.RangeReadsSeeLastTouched(ops, |ops|, id, offset, length);
    if id in device.View().buffers {
      BufferHistory.UsedIsLevelSinceReset(ops, |ops|, id);
    }
  }
}

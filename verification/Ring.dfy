/**
 Circular windows: the arithmetic behind `StaticCommandQueue`, on the slots as a value.
 A window of `len` slots starts at `head` and wraps around the end of the array.
 */
module Ring {
  import opened Results

  /** The physical slot of position `i` of the window. */
  function Slot(head: nat, i: nat, n: nat): nat
    requires 0 < n
  {
    (head + i) % n
  }

  /** How far slot `p` lies from `head`, going round. */
  function Distance(head: nat, p: nat, n: nat): nat
    requires head < n && p < n
  {
    if head <= p then p - head else p + n - head
  }

  /** Positions of the window and slots correspond one to one. */
  lemma SlotAndDistance(head: nat, i: nat, n: nat)
    requires head < n && i < n
    ensures Slot(head, i, n) == if head + i < n then head + i else head + i - n
    ensures Distance(head, Slot(head, i, n), n) == i
    ensures Slot(head, Distance(head, i, n), n) == i
  {
    ModuloOnce(head + i, n);
    ModuloOnce(head + Distance(head, i, n), n);
  }

  lemma ModuloOnce(x: nat, n: nat)
    requires 0 < n && x < 2 * n
    ensures x % n == if x < n then x else x - n
  {
    if n <= x {
      assert x == n * 1 + (x - n);
    }
  }

  /** A slot is occupied exactly when it lies in the window. */
  ghost predicate Tight<T>(slots: seq<Option<T>>, head: nat, len: nat) {
    && head < |slots|
    && len <= |slots|
    && forall p | 0 <= p < |slots| :: slots[p].Some? <==> Distance(head, p, |slots|) < len
  }

  /** The occupied slots read in window order. */
  ghost function Window<T>(slots: seq<Option<T>>, head: nat, len: nat): (w: seq<T>)
    requires Tight(slots, head, len)
    ensures |w| == len
    ensures forall i | 0 <= i < len :: slots[Slot(head, i, |slots|)] == Some(w[i])
  {
    OccupiedInOrder(slots, head, len);
    seq(len, i requires 0 <= i < len && slots[Slot(head, i, |slots|)].Some? => slots[Slot(head, i, |slots|)].value)
  }

  lemma OccupiedInOrder<T>(slots: seq<Option<T>>, head: nat, len: nat)
    requires Tight(slots, head, len)
    ensures forall i | 0 <= i < len :: slots[Slot(head, i, |slots|)].Some?
  {
    forall i | 0 <= i < len
      ensures slots[Slot(head, i, |slots|)].Some?
    {
      SlotAndDistance(head, i, |slots|);
    }
  }

  /** Each occupied slot holds the element at its distance from the head. */
  lemma SlotHoldsWindow<T>(slots: seq<Option<T>>, head: nat, len: nat, p: nat)
    requires Tight(slots, head, len) && p < |slots| && slots[p].Some?
    ensures slots[p].value == Window(slots, head, len)[Distance(head, p, |slots|)]
  {
    SlotAndDistance(head, p, |slots|);
  }

  /**
   A scan over all physical slots sees exactly the logical contents: no element is
   missed behind the wrap-around, and none survives in a slot the head has passed.
   */
  lemma ScanSeesWindow<T>(slots: seq<Option<T>>, head: nat, len: nat, wanted: T -> bool)
    requires Tight(slots, head, len)
    ensures (exists p | 0 <= p < |slots| :: slots[p].Some? && wanted(slots[p].value)) <==>
            (exists i | 0 <= i < len :: wanted(Window(slots, head, len)[i]))
  {
    var w := Window(slots, head, len);
    if p :| 0 <= p < |slots| && slots[p].Some? && wanted(slots[p].value) {
      SlotHoldsWindow(slots, head, len, p);
      assert wanted(w[Distance(head, p, |slots|)]);
    }
    if i :| 0 <= i < len && wanted(w[i]) {
      assert slots[Slot(head, i, |slots|)] == Some(w[i]);
    }
  }

  /** Filling the slot just past the window appends. */
  lemma PutAppends<T>(slots: seq<Option<T>>, head: nat, len: nat, x: T)
    requires Tight(slots, head, len) && len < |slots|
    ensures var slots' := slots[Slot(head, len, |slots|) := Some(x)];
            && Tight(slots', head, len + 1)
            && Window(slots', head, len + 1) == Window(slots, head, len) + [x]
  {
    var n := |slots|;
    var tail := Slot(head, len, n);
    var slots' := slots[tail := Some(x)];
    SlotAndDistance(head, len, n);
    forall p | 0 <= p < n
      ensures slots'[p].Some? <==> Distance(head, p, n) < len + 1
    {
      SlotAndDistance(head, p, n);
    }
    forall i | 0 <= i < len + 1
      ensures Window(slots', head, len + 1)[i] == (Window(slots, head, len) + [x])[i]
    {
      SlotAndDistance(head, i, n);
      assert slots'[Slot(head, i, n)] == Some(Window(slots', head, len + 1)[i]);
    }
  }

  /** Emptying the head slot and stepping over it drops the first element. */
  lemma TakeDropsFirst<T>(slots: seq<Option<T>>, head: nat, len: nat)
    requires Tight(slots, head, len) && 0 < len
    ensures slots[head] == Some(Window(slots, head, len)[0])
    ensures var slots', head' := slots[head := None], (head + 1) % |slots|;
            && Tight(slots', head', len - 1)
            && Window(slots', head', len - 1) == Window(slots, head, len)[1..]
  {
    var n := |slots|;
    var slots', head' := slots[head := None], (head + 1) % n;
    SlotAndDistance(head, 0, n);
    ModuloOnce(head + 1, n);
    forall p | 0 <= p < n
      ensures slots'[p].Some? <==> Distance(head', p, n) < len - 1
    {
      assert p != head ==> Distance(head', p, n) == Distance(head, p, n) - 1;
    }
    var before, now := Window(slots, head, len), Window(slots', head', len - 1);
    forall i | 0 <= i < len - 1
      ensures now[i] == before[1..][i]
    {
      SlotAndDistance(head', i, n);
      SlotAndDistance(head, i + 1, n);
      assert Slot(head', i, n) == Slot(head, i + 1, n);
      assert slots'[Slot(head', i, n)] == Some(now[i]);
    }
  }
}

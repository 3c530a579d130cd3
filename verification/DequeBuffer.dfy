/**
 Ring storage of the work-stealing deque: index arithmetic, the doubling copy of `resize`,
 the batch copy of `push` and the copy-out of `steal_batch`.

 Capacities are powers of two in the deque, where masking with `cap - 1` is the remainder
 modulo `cap`; the remainder is what is written here, so nothing below needs the power of two.
 */
module DequeBuffer {
  import opened Modular
  import opened Wrappers

  datatype Segment = Segment(offset: nat, length: nat)

  /** The slot that holds logical index `i`. */
  function At(cap: nat, i: nat): (slot: nat)
    requires cap > 0
    ensures slot < cap
  {
    i % cap
  }

  /** The at most two contiguous segments of slots occupied by the logical range `start..end`. */
  function SplitRange(cap: nat, start: nat, end: nat): (Option<Segment>, Option<Segment>)
    requires cap > 0
  {
    if end <= start then
      (None, None)
    else
      var len := end - start;
      var i := At(cap, start);
      if i + len <= cap then
        (Some(Segment(i, len)), None)
      else
        var l1 := cap - i;
        (Some(Segment(i, l1)), Some(Segment(0, len - l1)))
  }

  /** The k-th slot reached by walking the segments of `SplitRange` in order. */
  function Walk(segments: (Option<Segment>, Option<Segment>), k: nat): (slot: nat)
  {
    match segments
    case (Some(a), Some(b)) => if k < a.length then a.offset + k else b.offset + (k - a.length)
    case (Some(a), None) => a.offset + k
    case _ => 0
  }

  /** Stepping `k < cap` logical indices ahead moves the slot by `k`, wrapping at most once. */
  lemma AtStep(cap: nat, start: nat, k: nat)
    requires cap > 0 && k < cap
    ensures At(cap, start + k)
         == if At(cap, start) + k < cap then At(cap, start) + k else At(cap, start) + k - cap
  {
    var q, r := start / cap, start % cap;
    assert start == q * cap + r;
    if r + k < cap {
      RemainderUnique(start + k, q, r + k, cap);
    } else {
      assert (q + 1) * cap == q * cap + cap;
      RemainderUnique(start + k, q + 1, r + k - cap, cap);
    }
  }

  /** Two distinct logical indices less than `cap` apart never share a slot. */
  lemma AtInjective(cap: nat, i: nat, j: nat)
    requires cap > 0 && i < j < i + cap
    ensures At(cap, i) != At(cap, j)
  {
    AtStep(cap, i, j - i);
  }

  /** Walking the two segments visits the slots of the logical range in order. */
  lemma SplitRangeWalksInOrder(cap: nat, start: nat, end: nat)
    requires cap > 0 && start <= end <= start + cap
    ensures forall i :: start <= i < end ==> Walk(SplitRange(cap, start, end), i - start) == At(cap, i)
  {
    forall i | start <= i < end
      ensures Walk(SplitRange(cap, start, end), i - start) == At(cap, i)
    {
      AtStep(cap, start, i - start);
    }
  }

  /** `to` holds at every logical index of `cons..prod` what `from` holds there. */
  ghost predicate Carries<T>(from: seq<T>, to: seq<T>, cons: nat, prod: nat)
    requires |from| > 0 && |to| > 0
  {
    forall i :: cons <= i < prod ==> to[At(|to|, i)] == from[At(|from|, i)]
  }

  /** `slot` holds none of the logical indices `start..end`. */
  ghost predicate Outside(cap: nat, slot: nat, start: nat, end: nat)
    requires cap > 0
  {
    forall i :: start <= i < end ==> slot != At(cap, i)
  }

  /** The buffer after the items of `task` are written at logical indices `prod..prod + |task|`. */
  ghost function Written<T>(slots: seq<T>, prod: nat, task: seq<T>): (r: seq<T>)
    requires |slots| > 0
    ensures |r| == |slots|
  {
    if task == [] then slots
    else
      var n := |task| - 1;
      Written(slots, prod, task[..n])[At(|slots|, prod + n) := task[n]]
  }

  /** A batch no longer than the ring is read back in full, and no slot outside it changes. */
  lemma {:induction false} WrittenContents<T>(slots: seq<T>, prod: nat, task: seq<T>)
    requires 0 < |slots| && |task| <= |slots|
    ensures forall i :: prod <= i < prod + |task| ==>
      Written(slots, prod, task)[At(|slots|, i)] == task[i - prod]
    ensures forall slot :: 0 <= slot < |slots| && Outside(|slots|, slot, prod, prod + |task|) ==>
      Written(slots, prod, task)[slot] == slots[slot]
  {
    if task != [] {
      var n := |task| - 1;
      WrittenContents(slots, prod, task[..n]);
      forall i | prod <= i < prod + n
        ensures At(|slots|, i) != At(|slots|, prod + n)
      {
        AtInjective(|slots|, i, prod + n);
      }
      forall slot | 0 <= slot < |slots| && Outside(|slots|, slot, prod, prod + |task|)
        ensures Written(slots, prod, task)[slot] == slots[slot]
      {
        assert slot != At(|slots|, prod + n);
        assert Outside(|slots|, slot, prod, prod + n);
      }
    }
  }

  /** The items at logical indices `cons..end`. */
  ghost function Contents<T>(slots: seq<T>, cons: nat, end: nat): (r: seq<T>)
    requires |slots| > 0 && cons <= end
  {
    seq(end - cons, k requires 0 <= k < end - cons => slots[At(|slots|, cons + k)])
  }

  /** A batch that fits leaves every unconsumed slot as it was. */
  lemma FittingBatchSparesLive<T>(slots: seq<T>, cons: nat, prod: nat, task: seq<T>)
    requires 0 < |slots| && cons <= prod && prod - cons + |task| <= |slots|
    ensures forall i :: cons <= i < prod ==> Written(slots, prod, task)[At(|slots|, i)] == slots[At(|slots|, i)]
  {
    WrittenContents(slots, prod, task);
    forall i | cons <= i < prod
      ensures Written(slots, prod, task)[At(|slots|, i)] == slots[At(|slots|, i)]
    {
      forall j | prod <= j < prod + |task| ensures At(|slots|, i) != At(|slots|, j) {
        AtInjective(|slots|, i, j);
      }
      assert Outside(|slots|, At(|slots|, i), prod, prod + |task|);
    }
  }

  /** A batch that fits is appended to the unconsumed items. */
  lemma FittingBatchAppends<T>(slots: seq<T>, cons: nat, prod: nat, task: seq<T>)
    requires 0 < |slots| && cons <= prod && prod - cons + |task| <= |slots|
    ensures Contents(Written(slots, prod, task), cons, prod + |task|) == Contents(slots, cons, prod) + task
  {
    WrittenContents(slots, prod, task);
    FittingBatchSparesLive(slots, cons, prod, task);
  }

  lemma ContentsSplit<T>(slots: seq<T>, from: nat, mid: nat, to: nat)
    requires |slots| > 0 && from <= mid <= to
    ensures Contents(slots, from, to) == Contents(slots, from, mid) + Contents(slots, mid, to)
  {
  }

  /** A batch that does not fit overwrites the oldest unconsumed item. */
  lemma OverfullBatchLosesOldest<T>(slots: seq<T>, cons: nat, prod: nat, task: seq<T>)
    requires 0 < |slots| && |task| <= |slots| && cons <= prod <= cons + |slots|
    requires prod - cons + |task| > |slots|
    ensures cons < prod
    ensures Written(slots, prod, task)[At(|slots|, cons)] == task[cons + |slots| - prod]
  {
    WrittenContents(slots, prod, task);
    var q, r := cons / |slots|, cons % |slots|;
    assert cons + |slots| == (q + 1) * |slots| + r;
    RemainderUnique(cons + |slots|, q + 1, r, |slots|);
    assert At(|slots|, cons + |slots|) == At(|slots|, cons);
  }

  /**
   When a push is safe. `push` compares only the current occupancy with the capacity, so nothing
   stops a batch from running into the oldest unconsumed item. For items that differ from the old
   ones, the ring holds old and new items together exactly when occupancy plus batch fits.
   */
  lemma PushKeepsEverythingIffItFits<T>(slots: seq<T>, cons: nat, prod: nat, task: seq<T>)
    requires 0 < |slots| && |task| <= |slots|
    requires cons <= prod <= cons + |slots|
    requires forall i :: cons <= i < prod ==> slots[At(|slots|, i)] !in task
    ensures Contents(Written(slots, prod, task), cons, prod + |task|) == Contents(slots, cons, prod) + task
       <==> prod - cons + |task| <= |slots|
  {
    var after := Contents(Written(slots, prod, task), cons, prod + |task|);
    var wanted := Contents(slots, cons, prod) + task;
    if prod - cons + |task| <= |slots| {
      FittingBatchAppends(slots, cons, prod, task);
    } else {
      OverfullBatchLosesOldest(slots, cons, prod, task);
      assert after[0] == task[cons + |slots| - prod];
      assert wanted[0] == slots[At(|slots|, cons)];
    }
  }

  /** One contiguous copy between two buffers. */
  method CopySegment<T>(src: array<T>, srcStart: nat, dest: array<T>, destStart: nat, count: nat)
    requires src != dest
    requires srcStart + count <= src.Length && destStart + count <= dest.Length
    modifies dest
    ensures forall i :: destStart <= i < destStart + count ==> dest[i] == src[srcStart + (i - destStart)]
    ensures forall i :: 0 <= i < dest.Length && !(destStart <= i < destStart + count) ==> dest[i] == old(dest[i])
  {
    forall i | 0 <= i < count {
      dest[destStart + i] := src[srcStart + i];
    }
  }

  /** `segments` are `len` slots of a ring of `cap` slots, the second one starting at slot 0. */
  ghost predicate Segments(segments: (Option<Segment>, Option<Segment>), cap: nat, len: nat)
  {
    match segments
    case (Some(a), Some(b)) =>
      a.offset + a.length == cap && b.offset == 0 && b.length <= a.offset && a.length + b.length == len
    case (Some(a), None) => a.offset + a.length <= cap && a.length == len
    case _ => len == 0
  }

  /** The four-case copy between two segment layouts of one logical range. */
  method CopyLayout<T>(src: array<T>, from: (Option<Segment>, Option<Segment>),
                       dest: array<T>, to: (Option<Segment>, Option<Segment>), ghost len: nat)
    requires src != dest
    requires Segments(from, src.Length, len) && Segments(to, dest.Length, len)
    modifies dest
    ensures forall k :: 0 <= k < len ==>
      Walk(from, k) < src.Length && Walk(to, k) < dest.Length && dest[Walk(to, k)] == src[Walk(from, k)]
  {
    match (from, to) {
      case ((Some(a), Some(b)), (Some(c), Some(d))) =>
        if a.length <= c.length {
          CopySegment(src, a.offset, dest, c.offset, a.length);
          var rem := c.length - a.length;
          CopySegment(src, b.offset, dest, c.offset + a.length, rem);
          CopySegment(src, b.offset + rem, dest, d.offset, b.length - rem);
        } else {
          CopySegment(src, a.offset, dest, c.offset, c.length);
          var rem := a.length - c.length;
          CopySegment(src, a.offset + c.length, dest, d.offset, rem);
          CopySegment(src, b.offset, dest, d.offset + rem, b.length);
        }
      case ((Some(a), Some(b)), (Some(c), None)) =>
        CopySegment(src, a.offset, dest, c.offset, a.length);
        CopySegment(src, b.offset, dest, c.offset + a.length, b.length);
      case ((Some(a), None), (Some(c), Some(d))) =>
        CopySegment(src, a.offset, dest, c.offset, c.length);
        CopySegment(src, a.offset + c.length, dest, d.offset, d.length);
      case ((Some(a), None), (Some(c), None)) =>
        CopySegment(src, a.offset, dest, c.offset, a.length);
      case _ =>
    }
  }

  /** The doubling copy: the live range reads the same from the larger buffer. */
  method Resize<T(0)>(old': array<T>, cons: nat, prod: nat, newCap: nat) returns (new': array<T>)
    requires 0 < old'.Length <= newCap
    requires cons <= prod <= cons + old'.Length
    ensures fresh(new') && new'.Length == newCap
    ensures Carries(old'[..], new'[..], cons, prod)
  {
    new' := new T[newCap];
    var from := SplitRange(old'.Length, cons, prod);
    var to := SplitRange(newCap, cons, prod);
    CopyLayout(old', from, new', to, prod - cons);
    SplitRangeWalksInOrder(old'.Length, cons, prod);
    SplitRangeWalksInOrder(newCap, cons, prod);
    forall i | cons <= i < prod
      ensures new'[..][At(newCap, i)] == old'[..][At(old'.Length, i)]
    {
      assert Walk(from, i - cons) == At(old'.Length, i);
      assert Walk(to, i - cons) == At(newCap, i);
    }
  }

  /** The copy of a batch along the segments of a range: what lands where, and what stays. */
  method CopyBatch<T>(task: array<T>, buffer: array<T>, to: (Option<Segment>, Option<Segment>))
    requires task != buffer && Segments(to, buffer.Length, task.Length)
    modifies buffer
    ensures forall k :: 0 <= k < task.Length ==> Walk(to, k) < buffer.Length && buffer[Walk(to, k)] == task[k]
    ensures forall slot :: 0 <= slot < buffer.Length && (forall k :: 0 <= k < task.Length ==> slot != Walk(to, k)) ==>
      buffer[slot] == old(buffer[slot])
  {
    match to {
      case (Some(a), Some(b)) =>
        CopySegment(task, 0, buffer, a.offset, a.length);
        CopySegment(task, a.length, buffer, b.offset, b.length);
        assert forall k :: 0 <= k < a.length ==> Walk(to, k) == a.offset + k;
      case (Some(a), None) =>
        CopySegment(task, 0, buffer, a.offset, a.length);
      case _ =>
    }
    forall slot | 0 <= slot < buffer.Length && (forall k :: 0 <= k < task.Length ==> slot != Walk(to, k))
      ensures buffer[slot] == old(buffer[slot])
    {
      match to
      case (Some(a), Some(b)) =>
        assert a.offset <= slot ==> Walk(to, slot - a.offset) == slot;
        assert slot < b.length ==> Walk(to, a.length + slot) == slot;
      case (Some(a), None) =>
        assert a.offset <= slot < a.offset + a.length ==> Walk(to, slot - a.offset) == slot;
      case _ =>
    }
  }

  /** The copy of a pushed batch into the ring. */
  method WriteBatch<T>(buffer: array<T>, prod: nat, task: array<T>)
    requires task != buffer && 0 < buffer.Length && task.Length <= buffer.Length
    modifies buffer
    ensures buffer[..] == Written(old(buffer[..]), prod, task[..])
  {
    ghost var before := buffer[..];
    var to := SplitRange(buffer.Length, prod, prod + task.Length);
    CopyBatch(task, buffer, to);
    SplitRangeWalksInOrder(buffer.Length, prod, prod + task.Length);
    WrittenContents(before, prod, task[..]);
    forall slot | 0 <= slot < buffer.Length
      ensures buffer[slot] == Written(before, prod, task[..])[slot]
    {
      if i :| prod <= i < prod + task.Length && slot == At(buffer.Length, i) {
        assert slot == Walk(to, i - prod);
      } else {
        assert Outside(buffer.Length, slot, prod, prod + task.Length);
        forall k | 0 <= k < task.Length ensures slot != Walk(to, k) {
          assert k == (prod + k) - prod;
          assert slot != At(buffer.Length, prod + k);
        }
      }
    }
  }

  /** The copy of the slots of a range, in order, out of the ring. */
  method CopyOutSegments<T>(buffer: array<T>, from: (Option<Segment>, Option<Segment>), dest: array<T>)
    requires dest != buffer && Segments(from, buffer.Length, dest.Length)
    modifies dest
    ensures forall k :: 0 <= k < dest.Length ==> Walk(from, k) < buffer.Length && dest[k] == buffer[Walk(from, k)]
  {
    match from {
      case (Some(a), Some(b)) =>
        CopySegment(buffer, a.offset, dest, 0, a.length);
        CopySegment(buffer, b.offset, dest, a.length, b.length);
      case (Some(a), None) =>
        CopySegment(buffer, a.offset, dest, 0, a.length);
      case _ =>
    }
  }

  /** The two-segment copy of `steal_batch`. */
  method CopyOut<T(0)>(buffer: array<T>, front: nat, count: nat) returns (dest: array<T>)
    requires 0 < buffer.Length && count <= buffer.Length
    ensures fresh(dest) && dest[..] == Contents(buffer[..], front, front + count)
  {
    dest := new T[count];
    var from := SplitRange(buffer.Length, front, front + count);
    CopyOutSegments(buffer, from, dest);
    SplitRangeWalksInOrder(buffer.Length, front, front + count);
    forall k | 0 <= k < count ensures dest[k] == Contents(buffer[..], front, front + count)[k] {
      assert Walk(from, (front + k) - front) == At(buffer.Length, front + k);
    }
  }

  /** The slot offset `steal_batch` copies its j-th item from; past the end when `count` exceeds the capacity. */
  function StealOffset(cap: nat, front: nat, count: nat, j: nat): (offset: nat)
    requires cap > 0
  {
    var i := At(cap, front);
    if i + count > cap && j >= cap - i then j - (cap - i) else i + j
  }

  /** A batch no larger than the ring is copied from the slots of its logical indices. */
  lemma StealOffsetIsSlot(cap: nat, front: nat, count: nat, j: nat)
    requires 0 < cap && j < count <= cap
    ensures StealOffset(cap, front, count, j) == At(cap, front + j)
  {
    AtStep(cap, front, j);
  }
}

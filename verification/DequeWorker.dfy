/**
 The deque's operations as they update the ring in place, without interference: `push` with its
 cached counter and doubling, `steal` and `steal_batch`. The interleavings are in module `Deque`.
 */
module DequeWorker {
  import opened Wrappers
  import opened DequeBuffer
  import Deque

  class Worker<T(0)> {
    var buffer: array<T>
    var consumed: nat
    var produced: nat
    var cachedCons: nat

    ghost predicate Valid()
      reads this
    {
      && cachedCons <= consumed <= produced
      && buffer.Length > 0 && produced - consumed <= buffer.Length
    }

    /** The items pushed and not yet stolen, oldest first. */
    ghost function Items(): (items: seq<T>)
      requires Valid()
      reads this, buffer
    {
      Contents(buffer[..], consumed, produced)
    }

    constructor ()
      ensures Valid() && Items() == [] && fresh(buffer) && buffer.Length == Deque.MIN_CAP
    {
      buffer := new T[Deque.MIN_CAP];
      consumed, produced, cachedCons := 0, 0, 0;
    }

    /** Appends a batch that fits the ring after at most one doubling. */
    method Push(task: array<T>)
      requires Valid() && task != buffer
      requires produced - consumed + task.Length
            <= if produced - consumed < buffer.Length then buffer.Length else 2 * buffer.Length
      modifies this, buffer
      ensures Valid() && (buffer == old(buffer) || fresh(buffer))
      ensures Items() == old(Items()) + old(task[..])
      ensures consumed == old(consumed)
      ensures buffer.Length == if |old(Items())| < old(buffer.Length) then old(buffer.Length) else 2 * old(buffer.Length)
    {
      ghost var before, batch := Items(), task[..];
      if produced - cachedCons >= buffer.Length {
        cachedCons := consumed;
        if produced - consumed >= buffer.Length {
          var larger := Resize(buffer, consumed, produced, 2 * buffer.Length);
          assert Contents(larger[..], consumed, produced) == before;
          buffer := larger;
        }
      }
      FittingBatchAppends(buffer[..], consumed, produced, batch);
      WriteBatch(buffer, produced, task);
      produced := produced + task.Length;
    }

    /** Takes the oldest item, if there is one. */
    method Steal() returns (item: Option<T>)
      requires Valid()
      modifies this`consumed
      ensures Valid()
      ensures old(Items()) == match item { case Some(x) => [x] + Items() case None => [] }
    {
      if produced == consumed {
        return None;
      }
      ghost var before := Items();
      item := Some(buffer[At(buffer.Length, consumed)]);
      consumed := consumed + 1;
      assert Items() == before[1..];
    }

    /** Takes half of the items, rounded up, at most `capacity` of them. */
    method StealBatch(capacity: nat) returns (dest: array<T>)
      requires Valid()
      modifies this`consumed
      ensures Valid() && fresh(dest)
      ensures old(Items()) == dest[..] + Items()
      ensures dest.Length <= capacity && dest.Length <= |Items()| + 1 && (dest.Length == capacity || |Items()| <= dest.Length)
    {
      var half := (produced - consumed + 1) / 2;
      var count := if half <= capacity then half else capacity;
      dest := CopyOut(buffer, consumed, count);
      ContentsSplit(buffer[..], consumed, consumed + count, produced);
      consumed := consumed + count;
    }
  }
}

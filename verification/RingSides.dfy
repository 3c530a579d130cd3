/**
 The two ends of a ring as the program holds them: cached counters of their own, and the memory they
 share. Each call is proved to be the step of the ring's state machine, and to mean what it means there.
 */
module RingSides {
  import opened Modular
  import opened Wrappers
  import opened Ring

  /** The mapped memory: the slots and the two published counters. */
  class Memory<T> {
    const slots: array<T>
    var prod: Word
    var cons: Word

    constructor (slots: array<T>)
      ensures this.slots == slots && prod == 0 && cons == 0
    {
      this.slots := slots;
      prod, cons := 0, 0;
    }

    ghost predicate Shows(s: State<T>)
      reads this, slots
    {
      slots[..] == s.slots && prod == s.prod && cons == s.cons
    }
  }

  class Producer<T> {
    const memory: Memory<T>
    var cachedProd: Word
    var cachedCons: Word

    ghost predicate Shows(s: State<T>)
      reads this, memory, memory.slots
    {
      memory.slots.Length < TWO_32 && memory.Shows(s) && Side(cachedProd, cachedCons) == s.p
    }

    constructor (memory: Memory<T>)
      requires memory.prod == 0 && memory.cons == 0 && Sized(memory.slots.Length)
      ensures this.memory == memory
      ensures exists s :: Init(s) && Shows(s)
    {
      this.memory := memory;
      cachedProd, cachedCons := 0, memory.slots.Length;
      new;
      ghost var s := State(memory.slots[..], 0, 0, Side(0, memory.slots.Length), Side(0, 0), [], [], 0, 0, 0, 0, 0);
      assert Init(s) && Shows(s);
    }

    /** The room the producer knows of: never more than there is, and enough for the batch whenever there is enough. */
    method Free(batch: Word, ghost s: State<T>) returns (room: Word)
      requires Shows(s)
      modifies this`cachedCons
      ensures Side(cachedProd, cachedCons) == Refreshed(s.p, s.cons, s.Size(), batch)
      ensures room == Wrap(cachedCons - cachedProd)
      ensures Inv(s) ==> s.reserved + room <= s.released + s.Size()
      ensures Inv(s) ==> (room >= batch <==> s.reserved + batch <= s.released + s.Size())
    {
      if Inv(s) {
        FreeIsRoom(s, batch);
      }
      room := Wrap(cachedCons - cachedProd);
      if room >= batch {
        return;
      }
      cachedCons := Wrap(memory.cons + memory.slots.Length);
      room := Wrap(cachedCons - cachedProd);
    }

    method Reserve(batch: Word, ghost s: State<T>) returns (index: Option<Word>)
      requires Shows(s)
      modifies this
      ensures Shows(Ring.Reserve(s, batch)) && index == ReserveSpec(s.p, s.cons, s.Size(), batch).1
      ensures Inv(s) ==> (index.Some? <==> s.reserved + batch <= s.released + s.Size())
      ensures Inv(s) && index.Some? ==> index.value == Wrap(s.reserved)
    {
      if Inv(s) {
        ReserveIffRoom(s, batch);
      }
      var room := Free(batch, s);
      if room < batch {
        return None;
      }
      index := Some(cachedProd);
      cachedProd := Wrap(cachedProd + batch);
    }

    method Write(index: Word, x: T, ghost i: nat, ghost s: State<T>)
      requires Shows(s) && s.Size() > 0 && index == Wrap(i)
      modifies memory.slots
      ensures Shows(Ring.Write(s, i, x))
    {
      memory.slots[index % memory.slots.Length] := x;
    }

    method Submit(n: Word, ghost s: State<T>)
      requires Shows(s) && s.Size() > 0
      modifies memory
      ensures Shows(Ring.Submit(s, n))
    {
      memory.prod := Wrap(memory.prod + n);
    }
  }

  class Consumer<T> {
    const memory: Memory<T>
    var cachedProd: Word
    var cachedCons: Word

    ghost predicate Shows(s: State<T>)
      reads this, memory, memory.slots
    {
      memory.Shows(s) && Side(cachedProd, cachedCons) == s.c
    }

    constructor (memory: Memory<T>)
      requires memory.prod == 0 && memory.cons == 0 && Sized(memory.slots.Length)
      ensures this.memory == memory
      ensures exists s :: Init(s) && Shows(s)
    {
      this.memory := memory;
      cachedProd, cachedCons := memory.prod, memory.cons;
      new;
      ghost var s := State(memory.slots[..], 0, 0, Side(0, memory.slots.Length), Side(0, 0), [], [], 0, 0, 0, 0, 0);
      assert Init(s) && Shows(s);
    }

    method Available(batch: Word) returns (entries: Word)
      modifies this`cachedProd
      ensures Side(cachedProd, cachedCons) == Looked(old(Side(cachedProd, cachedCons)), memory.prod, batch)
      ensures entries <= batch && entries <= Wrap(cachedProd - cachedCons)
      ensures entries == batch || entries == Wrap(cachedProd - cachedCons)
    {
      entries := Wrap(cachedProd - cachedCons);
      if entries < batch {
        cachedProd := memory.prod;
        entries := Wrap(cachedProd - cachedCons);
      }
      if entries > batch {
        entries := batch;
      }
    }

    method Peek(batch: Word, ghost s: State<T>) returns (window: Option<Window>)
      requires Shows(s)
      modifies this
      ensures Shows(Ring.Peek(s, batch)) && window == PeekSpec(s.c, s.prod, batch).1
      ensures Inv(s) ==> (window.None? <==> batch == 0 || |s.log| == s.peeked)
      ensures Inv(s) && window.Some? ==> window.value.index == Wrap(s.peeked)
      ensures Inv(s) && window.Some? ==> window.value.entries == if |s.log| - s.peeked < batch then |s.log| - s.peeked else batch
    {
      if Inv(s) {
        PeekTakesWhatIsThere(s, batch);
      }
      var entries := Available(batch);
      if entries == 0 {
        return None;
      }
      window := Some(Window(cachedCons, entries));
      cachedCons := Wrap(cachedCons + entries);
    }

    /** Reading a peeked slot gives the entry that was submitted there. */
    method Read(index: Word, ghost i: nat, ghost s: State<T>) returns (x: T)
      requires Shows(s) && s.Size() > 0 && index == Wrap(i)
      ensures x == s.slots[SlotOf(s.Size(), i)]
      ensures Inv(s) && s.released <= i < s.peeked ==> x == s.log[i]
    {
      x := memory.slots[index % memory.slots.Length];
    }

    method Unpeek(entries: Word, ghost s: State<T>)
      requires Shows(s) && entries <= s.peeked
      modifies this
      ensures Shows(Ring.Unpeek(s, entries))
    {
      cachedCons := Wrap(cachedCons - entries);
    }

    method Release(n: Word, ghost s: State<T>)
      requires Shows(s) && s.Size() > 0
      modifies memory
      ensures Shows(Ring.Release(s, n))
      ensures Inv(s) && s.released + n <= s.peeked ==>
        Ring.Release(s, n).taken == s.taken + s.log[s.released..s.released + n]
    {
      if Inv(s) && s.released + n <= s.peeked {
        ReleaseKeepsInv(s, n);
      }
      memory.cons := Wrap(memory.cons + n);
    }
  }
}

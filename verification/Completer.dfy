/**
 The completer: a token bucket in front of the completion ring. Time and tokens are real numbers;
 completions are taken in whole batches, and tokens not used for a completion are kept.
 */
module Completer {
  import opened Modular
  import opened Ring
  import opened RingSides
  import opened Wrappers

  /** The bucket, and how many completions it has let through. */
  datatype Bucket = Bucket(rate: real, batchSize: Word, tokens: real, lastRefill: real, completed: nat)

  datatype Tick = Tick(now: real, available: nat)

  function Min(a: real, b: real): real
  {
    if a <= b then a else b
  }

  /** What a rate gives in a time. */
  function Income(time: real, rate: real): real
  {
    time * rate
  }

  /** The tokens at time `now`: what was left and what has come in since, up to a full bucket. */
  function Refilled(b: Bucket, now: real): real
  {
    Min(b.tokens + Income(now - b.lastRefill, b.rate), b.batchSize as real)
  }

  /** The whole tokens. */
  function Whole(tokens: real): (n: int)
    ensures 1.0 <= tokens ==> 1 <= n && n as real <= tokens < n as real + 1.0
    ensures tokens < 1.0 ==> n == 0
  {
    if tokens < 1.0 then 0 else tokens.Floor
  }

  lemma WholeIsUnique(tokens: real, n: int)
    requires tokens >= 0.0 && n as real <= tokens < n as real + 1.0
    ensures n == Whole(tokens)
  {
  }

  /** How many of the available completions a tick lets through. */
  function Let(b: Bucket, t: Tick): (n: int)
    ensures n <= t.available
  {
    var take := Whole(Refilled(b, t.now));
    if t.available < take then t.available else take
  }

  function TickSpec(b: Bucket, t: Tick): Bucket
    requires Let(b, t) >= 0
  {
    b.(tokens := Refilled(b, t.now) - Let(b, t) as real, lastRefill := t.now, completed := b.completed + Let(b, t))
  }

  // ---------------------------------------------------------------- whole runs

  ghost predicate Valid(b: Bucket)
  {
    b.rate >= 0.0 && 0.0 <= b.tokens <= b.batchSize as real
  }

  lemma Earned(time: real, rate: real)
    requires time >= 0.0 && rate >= 0.0
    ensures Income(time, rate) >= 0.0
  {
  }

  lemma RefilledInRange(b: Bucket, now: real)
    requires Valid(b) && b.lastRefill <= now
    ensures 0.0 <= Refilled(b, now) <= b.batchSize as real && Refilled(b, now) <= b.tokens + Income(now - b.lastRefill, b.rate)
  {
    Earned(now - b.lastRefill, b.rate);
  }

  /** Everything there was and everything that came in since, or a full bucket if that is less. */
  ghost function AllOrFull(b: Bucket, now: real): real
  {
    var have := b.tokens + (now - b.lastRefill) * b.rate;
    if have <= b.batchSize as real then have else b.batchSize as real
  }

  lemma RefilledIsAllOrFull(b: Bucket, now: real)
    ensures Refilled(b, now) == AllOrFull(b, now)
  {
  }

  /** One tick: the bucket stays between empty and full, and completions are paid for in tokens. */
  lemma TickPays(b: Bucket, t: Tick)
    requires Valid(b) && b.lastRefill <= t.now
    ensures Let(b, t) >= 0 && Valid(TickSpec(b, t))
    ensures var b' := TickSpec(b, t);
      b'.completed as real + b'.tokens <= b.completed as real + b.tokens + Income(t.now - b.lastRefill, b.rate)
  {
    RefilledInRange(b, t.now);
    var refilled := Refilled(b, t.now);
    assert 0.0 <= Let(b, t) as real <= Whole(refilled) as real <= refilled;
  }

  /** A tick withholds nothing it could pay for: it stops for want of completions, or of a whole token. */
  lemma TickIsGreedy(b: Bucket, t: Tick)
    requires Valid(b) && b.lastRefill <= t.now
    ensures Let(b, t) >= 0
    ensures Let(b, t) == t.available || TickSpec(b, t).tokens < 1.0
  {
    RefilledInRange(b, t.now);
  }

  /** A tick turns all of that into completions and tokens left. */
  ghost predicate Conserves(b: Bucket, now: real, b': Bucket)
  {
    (b'.completed - b.completed) as real + b'.tokens == AllOrFull(b, now)
  }

  lemma TickConserves(b: Bucket, t: Tick)
    requires Valid(b) && b.lastRefill <= t.now
    ensures Let(b, t) >= 0 && Conserves(b, t.now, TickSpec(b, t))
  {
    TickPays(b, t);
    RefilledIsAllOrFull(b, t.now);
  }

  /** The buckets of a run of ticks, at times that do not go back. */
  ghost predicate IsRun(buckets: seq<Bucket>, ticks: seq<Tick>)
  {
    && |buckets| == |ticks| + 1 && Valid(buckets[0])
    && forall i :: 0 <= i < |ticks| ==> IsTick(buckets[i], ticks[i], buckets[i + 1])
  }

  ghost predicate IsTick(b: Bucket, t: Tick, b': Bucket)
  {
    b.lastRefill <= t.now && Let(b, t) >= 0 && b' == TickSpec(b, t)
  }

  lemma {:induction false} RunIsValid(buckets: seq<Bucket>, ticks: seq<Tick>, n: nat)
    requires IsRun(buckets, ticks) && n <= |ticks|
    ensures Valid(buckets[n]) && buckets[n].rate == buckets[0].rate && buckets[n].batchSize == buckets[0].batchSize
  {
    if n > 0 {
      RunIsValid(buckets, ticks, n - 1);
      assert IsTick(buckets[n - 1], ticks[n - 1], buckets[n]);
      TickPays(buckets[n - 1], ticks[n - 1]);
    }
  }

  lemma Elapsed(a: real, b: real, c: real, rate: real)
    ensures Income(b - a, rate) + Income(c - b, rate) == Income(c - a, rate)
  {
  }

  lemma {:induction false} RunPays(buckets: seq<Bucket>, ticks: seq<Tick>, i: nat, j: nat)
    requires IsRun(buckets, ticks) && i <= j <= |ticks|
    ensures buckets[j].completed as real + buckets[j].tokens
         <= buckets[i].completed as real + buckets[i].tokens + Income(buckets[j].lastRefill - buckets[i].lastRefill, buckets[0].rate)
    decreases j - i
  {
    if i < j {
      RunPays(buckets, ticks, i, j - 1);
      RunIsValid(buckets, ticks, j - 1);
      assert IsTick(buckets[j - 1], ticks[j - 1], buckets[j]);
      TickPays(buckets[j - 1], ticks[j - 1]);
      Elapsed(buckets[i].lastRefill, buckets[j - 1].lastRefill, buckets[j].lastRefill, buckets[0].rate);
    } else {
      Earned(buckets[j].lastRefill - buckets[i].lastRefill, buckets[0].rate);
    }
  }

  /** The ticks `i..j` happen at times from `from` to `from + length`. */
  ghost predicate Within(ticks: seq<Tick>, i: nat, j: nat, from: real, length: real)
    requires i <= j <= |ticks|
  {
    forall k :: i <= k < j ==> from <= ticks[k].now <= from + length
  }

  /** After one tick, however long the wait before it, no more than a full bucket has been let through or is left. */
  lemma FirstTickIsBounded(b: Bucket, t: Tick, b': Bucket)
    requires Valid(b) && IsTick(b, t, b')
    ensures b'.completed as real + b'.tokens <= b.completed as real + b.batchSize as real
  {
    RefilledInRange(b, t.now);
  }

  lemma StampIsTick(buckets: seq<Bucket>, ticks: seq<Tick>, k: nat)
    requires IsRun(buckets, ticks) && k < |ticks|
    ensures buckets[k + 1].lastRefill == ticks[k].now
  {
    assert IsTick(buckets[k], ticks[k], buckets[k + 1]);
  }

  lemma IncomeGrows(a: real, b: real, rate: real)
    requires a <= b && rate >= 0.0
    ensures Income(a, rate) <= Income(b, rate)
  {
    Earned(b - a, rate);
    Elapsed(0.0, a, b, rate);
  }

  /** Any window of any run, whatever happened before it, lets through at most a full bucket and what comes in during it. */
  lemma WindowBound(buckets: seq<Bucket>, ticks: seq<Tick>, i: nat, j: nat, from: real, length: real)
    requires IsRun(buckets, ticks) && i <= j <= |ticks| && length >= 0.0 && Within(ticks, i, j, from, length)
    ensures (buckets[j].completed - buckets[i].completed) as real <= buckets[0].batchSize as real + Income(length, buckets[0].rate)
  {
    var rate := buckets[0].rate;
    Earned(length, rate);
    if i < j {
      RunIsValid(buckets, ticks, i);
      RunIsValid(buckets, ticks, j);
      assert IsTick(buckets[i], ticks[i], buckets[i + 1]);
      FirstTickIsBounded(buckets[i], ticks[i], buckets[i + 1]);
      RunPays(buckets, ticks, i + 1, j);
      StampIsTick(buckets, ticks, i);
      StampIsTick(buckets, ticks, j - 1);
      IncomeGrows(buckets[j].lastRefill - buckets[i + 1].lastRefill, length, rate);
    }
  }

  /** A run that starts empty never lets through more than the rate allows for the time elapsed. */
  lemma RateBound(buckets: seq<Bucket>, ticks: seq<Tick>, n: nat)
    requires IsRun(buckets, ticks) && n <= |ticks| && buckets[0].tokens == 0.0 && buckets[0].completed == 0
    ensures 0.0 <= buckets[n].tokens <= buckets[n].batchSize as real
    ensures buckets[n].completed as real <= Income(buckets[n].lastRefill - buckets[0].lastRefill, buckets[0].rate)
  {
    RunPays(buckets, ticks, 0, n);
    RunIsValid(buckets, ticks, n);
  }

  /** What comes in before the ticks `i..j` never overflows the bucket. */
  ghost predicate NeverOverflows(buckets: seq<Bucket>, ticks: seq<Tick>, i: nat, j: nat)
    requires i <= j <= |ticks| == |buckets| - 1
  {
    forall k :: i <= k < j ==> HasRoom(buckets[k], ticks[k])
  }

  ghost predicate HasRoom(b: Bucket, t: Tick)
  {
    b.tokens + (t.now - b.lastRefill) * b.rate <= b.batchSize as real
  }

  lemma TickAddsIncome(b: Bucket, t: Tick, b': Bucket)
    requires Valid(b) && IsTick(b, t, b') && HasRoom(b, t)
    ensures b'.completed as real + b'.tokens == b.completed as real + b.tokens + Income(b'.lastRefill - b.lastRefill, b.rate)
  {
    TickConserves(b, t);
  }

  /** Nothing is lost while the bucket does not overflow: all that came in was let through or is left. */
  lemma {:induction false} RunConserves(buckets: seq<Bucket>, ticks: seq<Tick>, i: nat, j: nat)
    requires IsRun(buckets, ticks) && i <= j <= |ticks| && NeverOverflows(buckets, ticks, i, j)
    ensures buckets[j].completed as real + buckets[j].tokens
         == buckets[i].completed as real + buckets[i].tokens + Income(buckets[j].lastRefill - buckets[i].lastRefill, buckets[0].rate)
    decreases j - i
  {
    if i < j {
      RunConserves(buckets, ticks, i, j - 1);
      RunIsValid(buckets, ticks, j - 1);
      assert IsTick(buckets[j - 1], ticks[j - 1], buckets[j]);
      assert HasRoom(buckets[j - 1], ticks[j - 1]);
      TickAddsIncome(buckets[j - 1], ticks[j - 1], buckets[j]);
      Elapsed(buckets[i].lastRefill, buckets[j - 1].lastRefill, buckets[j].lastRefill, buckets[0].rate);
    } else {
      assert Income(0.0, buckets[0].rate) == 0.0;
    }
  }

  /** A tick with more completions waiting than it can let through leaves less than one token. */
  lemma BusyTickSpends(buckets: seq<Bucket>, ticks: seq<Tick>, k: nat)
    requires IsRun(buckets, ticks) && k < |ticks| && ticks[k].available > buckets[0].batchSize
    ensures buckets[k + 1].tokens < 1.0
  {
    RunIsValid(buckets, ticks, k);
    assert IsTick(buckets[k], ticks[k], buckets[k + 1]);
    TickIsGreedy(buckets[k], ticks[k]);
    RefilledInRange(buckets[k], ticks[k].now);
  }

  /** The rate is reached: with completions waiting and no overflow, less than one token's worth is withheld. */
  lemma RateIsReached(buckets: seq<Bucket>, ticks: seq<Tick>, i: nat, j: nat)
    requires IsRun(buckets, ticks) && i < j <= |ticks| && NeverOverflows(buckets, ticks, i, j)
    requires ticks[j - 1].available > buckets[0].batchSize
    ensures (buckets[j].completed - buckets[i].completed) as real
          > buckets[i].tokens + Income(buckets[j].lastRefill - buckets[i].lastRefill, buckets[0].rate) - 1.0
  {
    RunConserves(buckets, ticks, i, j);
    BusyTickSpends(buckets, ticks, j - 1);
  }

  // ---------------------------------------------------------------- the program

  class Completer {
    const cr: Consumer<nat>
    const rate: real
    const batchSize: Word
    var completed: nat
    var tokens: real
    var lastRefill: real

    constructor (cr: Consumer<nat>, rate: real, batchSize: Word, now: real)
      requires rate >= 0.0
      ensures this.cr == cr && View() == Bucket(rate, batchSize, 0.0, now, 0) && Valid(View())
    {
      this.cr, this.rate, this.batchSize := cr, rate, batchSize;
      completed, tokens, lastRefill := 0, 0.0, now;
    }

    ghost function View(): Bucket
      reads this
    {
      Bucket(rate, batchSize, tokens, lastRefill, completed)
    }

    method NextBatch(now: real) returns (batch: Word)
      requires Valid(View()) && lastRefill <= now
      modifies this`tokens, this`lastRefill
      ensures lastRefill == now && 0.0 <= tokens < 1.0
      ensures tokens + batch as real == Refilled(old(View()), now) == AllOrFull(old(View()), now)
    {
      RefilledInRange(View(), now);
      RefilledIsAllOrFull(View(), now);
      var elapsed := now - lastRefill;
      lastRefill := now;
      tokens := Min(tokens + Income(elapsed, rate), batchSize as real);
      assert tokens == Refilled(old(View()), now);
      if tokens < 1.0 {
        return 0;
      }
      var take := tokens.Floor;
      tokens := tokens - take as real;
      batch := take;
    }

    /** Takes up to `batch` completions off the ring. */
    method TakeCompletions(batch: Word, ghost s: State<nat>) returns (count: Word, ghost s': State<nat>)
      requires cr.Shows(s) && Inv(s)
      modifies cr, cr.memory
      ensures count == if |s.log| - s.peeked < batch then |s.log| - s.peeked else batch
      ensures cr.Shows(s') && Inv(s') && s'.log == s.log
      ensures s'.released == s.released + count && s'.peeked == s.peeked + count
    {
      var window := cr.Peek(batch, s);
      PeekTakesWhatIsThere(s, batch);
      s' := Peek(s, batch);
      count := 0;
      if window.Some? {
        count := window.value.entries;
        ReleaseKeepsInv(s', count);
        cr.Release(count, s');
        s' := Release(s', count);
      }
    }

    /** Lets through as many completions as there are tokens for; tokens without a completion go back. */
    method DoTick(now: real, ghost s: State<nat>) returns (any: bool, ghost s': State<nat>)
      requires Valid(View()) && lastRefill <= now && cr.Shows(s) && Inv(s)
      modifies this, cr, cr.memory
      ensures Let(old(View()), Tick(now, |s.log| - s.peeked)) >= 0
      ensures View() == TickSpec(old(View()), Tick(now, |s.log| - s.peeked)) && Valid(View())
      ensures Conserves(old(View()), now, View()) && (completed - old(completed) == |s.log| - s.peeked || tokens < 1.0)
      ensures any <==> completed > old(completed)
      ensures cr.Shows(s') && Inv(s') && s'.log == s.log
      ensures s'.released - s.released == s'.peeked - s.peeked == completed - old(completed)
    {
      TickPays(View(), Tick(now, |s.log| - s.peeked));
      TickConserves(View(), Tick(now, |s.log| - s.peeked));
      TickIsGreedy(View(), Tick(now, |s.log| - s.peeked));
      ghost var refilled := Refilled(View(), now);
      var batch := NextBatch(now);
      WholeIsUnique(refilled, batch);
      var count;
      count, s' := TakeCompletions(batch, s);
      completed := completed + count;
      tokens := tokens + (batch - count) as real;
      any := count > 0;
    }
  }
}

/**
 The per-address state of the port engine: which ports were tried, the personal heap of candidate
 probabilities, the position in the global ranking, the budget, and the catch-all counters.
 */
module PortState {
  import opened Wrappers
  import opened Sets
  import opened PortGraph
  import LazyHeap

  /** One-byte counter; the verifier checks that it never overflows. */
  newtype u8 = x: int | 0 <= x < 256

  // ---------------------------------------------------------------- the score a port deserves

  function Max(a: real, b: real): real { if a >= b then a else b }

  /** The probability of `port` from scratch: its prior, or the best conditional given a port that answered. */
  function Score(g: Graph, hits: seq<Port>, port: Port): (score: real)
    requires g.total >= 1
    ensures score >= 0.0
  {
    if hits == [] then BaseProb(g, port)
    else Max(Score(g, hits[..|hits| - 1], port), Conditional(g, hits[|hits| - 1], port))
  }

  /** `Score` is the least upper bound of the prior and of the conditionals of every hit. */
  lemma {:induction false} ScoreIsMaximum(g: Graph, hits: seq<Port>, port: Port)
    requires g.total >= 1
    ensures Score(g, hits, port) >= BaseProb(g, port)
    ensures forall p :: p in hits ==> Score(g, hits, port) >= Conditional(g, p, port)
    ensures Score(g, hits, port) == BaseProb(g, port)
         || exists p :: p in hits && Score(g, hits, port) == Conditional(g, p, port)
  {
    if hits != [] {
      var n := |hits| - 1;
      ScoreIsMaximum(g, hits[..n], port);
      assert hits == hits[..n] + [hits[n]];
    }
  }

  /** What the personal heap, falling back on the prior, says about a port. */
  function Known(g: Graph, values: map<nat, real>, port: Port): real
    requires g.total >= 1
  {
    if port in values then values[port] else BaseProb(g, port)
  }

  /** `port` is untried and no untried port scores higher. */
  ghost predicate IsBest(g: Graph, hits: seq<Port>, tried: set<Port>, port: Port)
    requires g.total >= 1
  {
    port !in tried && forall q: Port {:trigger Score(g, hits, q)} :: q !in tried ==> Score(g, hits, q) <= Score(g, hits, port)
  }

  /** What `explore` may return: an untried port from 1 up, or nothing when 65535 ports were tried. */
  ghost predicate Explored(tried: set<Port>, pick: Option<Port>)
  {
    match pick
    case None => |tried| >= 65535
    case Some(p) => |tried| < 65535 && 1 <= p && p !in tried
  }

  /** The ports that answered with `hash`. */
  ghost function Answers(answers: map<Port, nat>, hash: nat): set<Port>
  {
    set p | p in answers && answers[p] == hash
  }

  /** With this answer, a threshold's worth of distinct ports have answered with one hash. */
  ghost predicate CatchAll(g: Graph, answers: map<Port, nat>, port: Port, hash: Option<nat>)
  {
    hash.Some? && |Answers(answers[port := hash.value], hash.value)| >= g.threshold
  }

  /** The heap's values and the prior together know the score of every port still worth trying. */
  ghost predicate KnowsScores(g: Graph, tried: set<Port>, hits: seq<Port>, values: map<nat, real>)
    requires g.total >= 1
  {
    && (forall k :: k in values ==> k < 0x1_0000)
    && (forall q: Port {:trigger Known(g, values, q)} :: q !in tried ==> Known(g, values, q) == Score(g, hits, q))
  }

  /** Each counter holds the number of distinct ports with that hash and is below the threshold. */
  ghost predicate CountsAnswers(g: Graph, tried: set<Port>, seen: map<nat, u8>, answers: map<Port, nat>)
  {
    && answers.Keys <= tried
    && (forall h :: h in seen ==> 1 <= seen[h] as int < g.threshold)
    && (forall h :: |Answers(answers, h)| == if h in seen then seen[h] as int else 0)
  }

  /** Every probe but the first used up one unit of the budget, and of a positive budget one unit is left. */
  ghost predicate WithinBudget(probes: seq<Port>, remaining: nat, budget: nat)
  {
    probes != [] && |probes| + remaining == 1 + budget && (budget >= 1 ==> remaining >= 1)
  }

  /** Hence an address never receives more than `max(1, budget)` probes. */
  lemma BudgetBoundsProbes(probes: seq<Port>, remaining: nat, budget: nat)
    requires WithinBudget(probes, remaining, budget)
    ensures |probes| <= if budget >= 1 then budget else 1
  {
  }

  /** Every port before the ranking position has been tried. */
  ghost predicate Swept(g: Graph, tried: set<Port>, index: nat)
  {
    forall i :: 0 <= i < index && i < |g.recommendations| ==> g.recommendations[i] in tried
  }

  /** So far every result answered the probe in flight, the last one; no port was probed twice. */
  ghost predicate InStep(g: Graph, probes: seq<Port>, tried: set<Port>, index: nat)
    requires probes != []
  {
    Distinct(probes) && tried == ToSet(probes[..|probes| - 1]) && Swept(g, ToSet(probes), index)
  }

  /** `port` is the probe in flight, and so it was with every result before. */
  ghost predicate AnswersProbe(g: Graph, probes: seq<Port>, tried: set<Port>, index: nat, port: Port)
    requires probes != []
  {
    InStep(g, probes, tried, index) && port == probes[|probes| - 1]
  }

  /** The probe in flight has been answered too: exactly the probed ports have been tried. */
  ghost predicate Completed(g: Graph, probes: seq<Port>, tried: set<Port>, index: nat)
  {
    Distinct(probes) && tried == ToSet(probes) && Swept(g, tried, index)
  }

  /** What becomes of a result. */
  datatype Outcome = Ignored | Retired | Probe(port: Port)

  class State {
    var triedPorts: set<Port>
    const heap: LazyHeap.Heap
    var recommendationIndex: nat
    var budgetRemaining: nat
    var seenResponses: map<nat, u8>

    // history since the last `Generate`
    ghost var budget: nat
    ghost var probes: seq<Port>          // every template sent, in order
    ghost var hits: seq<Port>            // the ports whose answers were taken into account
    ghost var answers: map<Port, nat>    // the hash each port answered with

    ghost predicate Valid(g: Graph)
      reads this, heap
    {
      && Ranked(g) && heap.Valid()
      && KnowsScores(g, triedPorts, hits, heap.values)
      && CountsAnswers(g, triedPorts, seenResponses, answers)
      && WithinBudget(probes, budgetRemaining, budget)
    }

    constructor ()
      ensures fresh(heap) && heap.Valid()
    {
      heap := new LazyHeap.Heap();
      triedPorts, recommendationIndex, budgetRemaining, seenResponses := {}, 0, 0, map[];
    }

    /** Starts over for a new address and picks its first port. */
    method Generate(g: Graph, budgetPerAddress: nat, exploit: bool, random: Port) returns (port: Port)
      requires Ranked(g)
      modifies this, heap
      ensures Valid(g) && InStep(g, probes, triedPorts, recommendationIndex)
      ensures budget == budgetPerAddress && probes == [port] && triedPorts == {} && hits == []
      ensures exploit && g.recommendations != [] ==> IsBest(g, hits, triedPorts, port)
      ensures !exploit || g.recommendations == [] ==> port == random
    {
      triedPorts := {};
      heap.Clear();
      recommendationIndex := if exploit then 1 else 0;
      budgetRemaining := budgetPerAddress;
      seenResponses := map[];
      port := if exploit && 0 < |g.recommendations| then g.recommendations[0] else random;
      budget, probes, hits, answers := budgetPerAddress, [port], [], map[];
      FreshStateIsValid(g, port, budgetPerAddress);
    }

    /** Walks past the tried ports at the front of the ranking. */
    method SkipTried(g: Graph)
      modifies this`recommendationIndex
      ensures recommendationIndex >= old(recommendationIndex)
      ensures forall i :: old(recommendationIndex) <= i < recommendationIndex && i < |g.recommendations| ==>
        g.recommendations[i] in triedPorts
      ensures recommendationIndex < |g.recommendations| ==> g.recommendations[recommendationIndex] !in triedPorts
    {
      while recommendationIndex < |g.recommendations| && g.recommendations[recommendationIndex] in triedPorts
        invariant recommendationIndex >= old(recommendationIndex)
        invariant forall i :: old(recommendationIndex) <= i < recommendationIndex && i < |g.recommendations| ==>
          g.recommendations[i] in triedPorts
      {
        recommendationIndex := recommendationIndex + 1;
      }
    }

    /** Pops tried ports off the heap; what it knows about untried ports stays. */
    method PopTried(g: Graph) returns (top: Option<nat>)
      requires g.total >= 1 && heap.Valid() && KnowsScores(g, triedPorts, hits, heap.values)
      modifies heap
      ensures heap.Valid() && KnowsScores(g, triedPorts, hits, heap.values)
      ensures top.None? <==> heap.values == map[]
      ensures top.Some? ==> LazyHeap.IsArgMax(heap.values, top.value) && top.value !in triedPorts
    {
      top := heap.Top();
      while top.Some? && top.value in triedPorts
        invariant heap.Valid() && KnowsScores(g, triedPorts, hits, heap.values)
        invariant top.None? <==> heap.values == map[]
        invariant top.Some? ==> LazyHeap.IsArgMax(heap.values, top.value)
        decreases |heap.values|
      {
        ghost var before := heap.values;
        ghost var key := heap.Pop();
        LazyHeap.ArgMaxUnique(before, key, top.value);
        ForgettingTriedIsHarmless(g, triedPorts, hits, before, key);
        assert |heap.values| < |before| by { assert heap.values.Keys == before.Keys - {key}; }
        top := heap.Top();
      }
    }

    /**
     The greedy choice. It returns an untried port, and if the ranking position has skipped no untried
     port, one of maximal score among all untried ports; then it gives up only when they all score zero.
     */
    method NextPort(g: Graph) returns (next: Option<Port>)
      requires Ranked(g) && heap.Valid() && KnowsScores(g, triedPorts, hits, heap.values)
      modifies this`recommendationIndex, heap
      ensures heap.Valid() && KnowsScores(g, triedPorts, hits, heap.values)
      ensures next.Some? ==> next.value !in triedPorts
      ensures Swept(g, triedPorts, old(recommendationIndex)) ==>
        && Swept(g, triedPorts, recommendationIndex)
        && (next.Some? ==> IsBest(g, hits, triedPorts, next.value))
        && (next.None? ==> forall q: Port :: q !in triedPorts ==> Score(g, hits, q) == 0.0)
    {
      ghost var swept := Swept(g, triedPorts, recommendationIndex);
      SkipTried(g);
      var fromHeap := PopTried(g);
      var fromList := if recommendationIndex < |g.recommendations| then Some(g.recommendations[recommendationIndex]) else None;
      if fromHeap.Some? && fromList.Some? {
        var a: Port, b := fromHeap.value, fromList.value;
        var probA := heap.Query(a);
        var probB := heap.Query(b);
        next := if probA.value > (if probB.Some? then probB.value else BaseProb(g, b)) then Some(a) else Some(b);
        assert Known(g, heap.values, a) == Score(g, hits, a) && Known(g, heap.values, b) == Score(g, hits, b);
      } else if fromHeap.Some? {
        next := Some(fromHeap.value);
      } else {
        next := fromList;
      }
      if swept {
        ChoiceIsBest(g, hits, triedPorts, heap.values, if fromHeap.Some? then Some(fromHeap.value) else None, recommendationIndex);
      }
    }

    /** Raises every port that co-occurs with `port` to its conditional probability, if that is higher. */
    method RaiseCandidates(g: Graph, port: Port)
      requires g.total >= 1 && heap.Valid() && forall k :: k in heap.values ==> k < 0x1_0000
      modifies heap
      ensures heap.Valid() && forall k :: k in heap.values ==> k < 0x1_0000
      ensures forall q: Port ::
        Known(g, heap.values, q) == Max(Known(g, old(heap.values), q), Conditional(g, port, q))
        || (Conditional(g, port, q) == 0.0 && Known(g, heap.values, q) == Known(g, old(heap.values), q))
    {
      ghost var before := heap.values;
      if port !in g.doubles || OpenCount(g, port) == 0 {
        return;
      }
      var row := g.doubles[port];
      var rest := row.Keys;
      while rest != {}
        invariant rest <= row.Keys && heap.Valid()
        invariant forall k :: k in heap.values ==> k < 0x1_0000
        invariant forall q: Port :: (q in row && q !in rest ==>
          Known(g, heap.values, q) == Max(Known(g, before, q), Conditional(g, port, q)))
        invariant forall q: Port :: (q !in row || q in rest ==> Known(g, heap.values, q) == Known(g, before, q))
        decreases rest
      {
        var other :| other in rest;
        var conditional := row[other] as real / OpenCount(g, port) as real;
        assert conditional == Conditional(g, port, other);
        var known := heap.Query(other);
        assert Known(g, heap.values, other) == Known(g, before, other);
        if conditional > (if known.Some? then known.value else BaseProb(g, other)) {
          heap.Update(other, conditional);
        }
        rest := rest - {other};
      }
    }

    /** Takes the answer of `port` into account in what is known about the others. */
    method Propagate(g: Graph, port: Port)
      requires g.total >= 1 && heap.Valid() && KnowsScores(g, triedPorts, hits, heap.values)
      modifies heap, this`hits
      ensures heap.Valid() && KnowsScores(g, triedPorts, hits, heap.values)
      ensures hits == old(hits) + [port]
    {
      ghost var before := heap.values;
      RaiseCandidates(g, port);
      forall q: Port | q !in triedPorts
        ensures Known(g, heap.values, q) == Score(g, hits + [port], q)
      {
        assert Known(g, before, q) == Score(g, hits, q);
        assert (hits + [port])[..|hits|] == hits;
      }
      hits := hits + [port];
    }

    /** A port answered. Abandons the address at the threshold-th distinct port with the same hash. */
    method RecordHit(g: Graph, port: Port, hash: nat) returns (abandon: bool)
      requires Ranked(g) && heap.Valid()
      requires KnowsScores(g, triedPorts, hits, heap.values) && CountsAnswers(g, triedPorts, seenResponses, answers)
      requires port !in triedPorts
      modifies heap, this`triedPorts, this`seenResponses, this`hits, this`answers
      ensures triedPorts == old(triedPorts) + {port} && answers == old(answers)[port := hash]
      ensures heap.Valid()
      ensures abandon <==> |Answers(answers, hash)| >= g.threshold
      ensures abandon ==> |Answers(answers, hash)| == if g.threshold >= 1 then g.threshold else 1
      ensures !abandon ==>
        && KnowsScores(g, triedPorts, hits, heap.values) && CountsAnswers(g, triedPorts, seenResponses, answers)
        && hits == old(hits) + [port]
    {
      triedPorts := triedPorts + {port};
      AnswersGrow(answers, port, hash);
      answers := answers[port := hash];
      var count: u8 := if hash in seenResponses then seenResponses[hash] else 0;
      count := count + 1;
      seenResponses := seenResponses[hash := count];
      if count as int >= g.threshold {
        return true;
      }
      Propagate(g, port);
      abandon := false;
    }

    method RecordEmpty(g: Graph, port: Port)
      requires Ranked(g) && heap.Valid()
      requires KnowsScores(g, triedPorts, hits, heap.values) && CountsAnswers(g, triedPorts, seenResponses, answers)
      modifies this`triedPorts
      ensures triedPorts == old(triedPorts) + {port}
      ensures KnowsScores(g, triedPorts, hits, heap.values) && CountsAnswers(g, triedPorts, seenResponses, answers)
    {
      triedPorts := triedPorts + {port};
    }

    /** Takes a result into account; the state is given up when the outcome is `Retired`. */
    method Record(g: Graph, port: Port, hash: Option<nat>) returns (retire: bool)
      requires Valid(g) && port !in triedPorts
      modifies heap, this`triedPorts, this`seenResponses, this`hits, this`answers, this`budgetRemaining
      ensures triedPorts == old(triedPorts) + {port}
      ensures answers == match hash { case Some(h) => old(answers)[port := h] case None => old(answers) }
      ensures retire <==> CatchAll(g, old(answers), port, hash) || old(budgetRemaining) <= 1
      ensures !retire ==>
        && heap.Valid() && KnowsScores(g, triedPorts, hits, heap.values) && CountsAnswers(g, triedPorts, seenResponses, answers)
        && budgetRemaining == old(budgetRemaining) - 1 >= 1
        && hits == match hash { case Some(_) => old(hits) + [port] case None => old(hits) }
    {
      if hash.Some? {
        var abandon := RecordHit(g, port, hash.value);
        if abandon {
          return true;
        }
      } else {
        RecordEmpty(g, port);
      }
      budgetRemaining := if budgetRemaining >= 1 then budgetRemaining - 1 else 0;
      retire := budgetRemaining == 0;
    }

    /** The port for the next probe: random if `explore`, else greedy with the random port to fall back on. */
    method PickNext(g: Graph, explore: bool, pick: Option<Port>) returns (next: Option<Port>)
      requires Ranked(g) && heap.Valid() && KnowsScores(g, triedPorts, hits, heap.values) && Explored(triedPorts, pick)
      modifies this`recommendationIndex, heap
      ensures heap.Valid() && KnowsScores(g, triedPorts, hits, heap.values)
      ensures next.Some? ==> next.value !in triedPorts
      ensures next.None? ==> |triedPorts| >= 65535
      ensures explore ==> next == pick
      ensures Swept(g, triedPorts, old(recommendationIndex)) ==>
        && Swept(g, triedPorts, recommendationIndex)
        && (!explore && next.Some? ==> IsBest(g, hits, triedPorts, next.value))
    {
      if explore {
        return pick;
      }
      next := NextPort(g);
      if next.None? {
        next := pick;
      }
    }

    /** Sends the next probe, if a port is left. */
    method Advance(g: Graph, explore: bool, pick: Option<Port>) returns (outcome: Outcome)
      requires Ranked(g) && heap.Valid() && KnowsScores(g, triedPorts, hits, heap.values) && Explored(triedPorts, pick)
      modifies this`recommendationIndex, this`probes, heap
      ensures heap.Valid() && KnowsScores(g, triedPorts, hits, heap.values)
      ensures outcome.Probe? || (outcome.Retired? && probes == old(probes) && |triedPorts| >= 65535)
      ensures outcome.Probe? ==> probes == old(probes) + [outcome.port] && outcome.port !in triedPorts
      ensures outcome.Probe? && explore ==> pick == Some(outcome.port)
      ensures outcome.Probe? && Completed(g, old(probes), triedPorts, old(recommendationIndex)) ==>
        && InStep(g, probes, triedPorts, recommendationIndex)
        && (!explore ==> IsBest(g, hits, triedPorts, outcome.port))
    {
      var next := PickNext(g, explore, pick);
      if next.None? {
        return Retired;
      }
      if Completed(g, probes, triedPorts, old(recommendationIndex)) {
        NewProbeIsInStep(g, probes, triedPorts, recommendationIndex, next.value);
      }
      probes := probes + [next.value];
      outcome := Probe(next.value);
    }

    /**
     The reaction to one result. `explore` is the coin that decides for a random port and `pick` the
     port it would draw. A port that was tried before changes nothing. An exploring probe goes to the port drawn. While
     results answer the probe in flight, probes never repeat a port and every greedy probe is a best one.
     */
    method OnResult(g: Graph, port: Port, hash: Option<nat>, explore: bool, pick: Option<Port>) returns (outcome: Outcome)
      requires Valid(g) && Explored(triedPorts + {port}, pick)
      modifies this, heap
      ensures outcome.Ignored? <==> port in old(triedPorts)
      ensures outcome.Ignored? ==> unchanged(this) && unchanged(heap)
      ensures port !in old(triedPorts) && (old(budgetRemaining) <= 1 || CatchAll(g, old(answers), port, hash)) ==> outcome.Retired?
      ensures outcome.Retired? ==>
        || old(budgetRemaining) <= 1
        || CatchAll(g, old(answers), port, hash)
        || |old(triedPorts) + {port}| >= 65535
      ensures budget == old(budget)
      ensures !outcome.Probe? ==> probes == old(probes)
      ensures outcome.Probe? ==>
        && Valid(g)
        && probes == old(probes) + [outcome.port]
        && triedPorts == old(triedPorts) + {port} && outcome.port !in triedPorts
      ensures outcome.Probe? && explore ==> pick == Some(outcome.port)
      ensures outcome.Probe? && AnswersProbe(g, old(probes), old(triedPorts), old(recommendationIndex), port) ==>
        InStep(g, probes, triedPorts, recommendationIndex) && (!explore ==> IsBest(g, hits, triedPorts, outcome.port))
    {
      if port in triedPorts {
        return Ignored;
      }
      AnswerCompletesStep(g, probes, triedPorts, recommendationIndex, port);
      var retire := Record(g, port, hash);
      if retire {
        return Retired;
      }
      outcome := Advance(g, explore, pick);
    }
  }

  /** Once the probe in flight is answered, exactly the probed ports have been tried. */
  lemma AnswerCompletesStep(g: Graph, probes: seq<Port>, tried: set<Port>, index: nat, port: Port)
    requires probes != []
    ensures AnswersProbe(g, probes, tried, index, port) ==> Completed(g, probes, tried + {port}, index)
  {
    assert probes == probes[..|probes| - 1] + [probes[|probes| - 1]];
  }

  lemma NewProbeIsInStep(g: Graph, probes: seq<Port>, tried: set<Port>, index: nat, next: Port)
    requires Completed(g, probes, tried, index) && next !in tried
    ensures InStep(g, probes + [next], tried, index)
  {
    assert Swept(g, tried, index);
    assert (probes + [next])[..|probes|] == probes;
    assert forall p :: p in tried ==> p in ToSet(probes + [next]);
  }

  lemma ForgettingTriedIsHarmless(g: Graph, tried: set<Port>, hits: seq<Port>, values: map<nat, real>, key: nat)
    requires g.total >= 1 && KnowsScores(g, tried, hits, values) && key in tried
    ensures KnowsScores(g, tried, hits, values - {key})
  {
    forall q: Port | q !in tried ensures Known(g, values - {key}, q) == Score(g, hits, q) {
      assert Known(g, values, q) == Score(g, hits, q);
    }
  }

  lemma FreshStateIsValid(g: Graph, port: Port, budget: nat)
    requires Ranked(g)
    ensures KnowsScores(g, {}, [], map[]) && CountsAnswers(g, {}, map[], map[]) && WithinBudget([port], budget, budget)
    ensures InStep(g, [port], {}, 0)
    ensures g.recommendations == [] || port == g.recommendations[0] ==> InStep(g, [port], {}, 1)
    ensures g.recommendations != [] && port == g.recommendations[0] ==> IsBest(g, [], {}, port)
  {
    if g.recommendations != [] && port == g.recommendations[0] {
      FirstOfRankingIsBest(g, [], {}, 0);
    }
    assert [port][..0] == [];
    assert forall h: nat :: Answers(map[], h) == {};
  }

  lemma AnswersGrow(answers: map<Port, nat>, port: Port, hash: nat)
    requires port !in answers
    ensures |Answers(answers[port := hash], hash)| == |Answers(answers, hash)| + 1
    ensures forall h :: h != hash ==> Answers(answers[port := hash], h) == Answers(answers, h)
  {
    assert Answers(answers[port := hash], hash) == Answers(answers, hash) + {port};
  }

  /** The first untried port of the ranking has the largest prior of all untried ports. */
  lemma FirstOfRankingIsBest(g: Graph, hits: seq<Port>, tried: set<Port>, i: nat)
    requires Ranked(g) && i < |g.recommendations| && g.recommendations[i] !in tried
    requires forall j :: 0 <= j < i ==> g.recommendations[j] in tried
    ensures forall q: Port :: q !in tried ==> BaseProb(g, q) <= BaseProb(g, g.recommendations[i])
    ensures hits == [] ==> IsBest(g, hits, tried, g.recommendations[i])
  {
    var b := g.recommendations[i];
    forall q: Port | q !in tried
      ensures BaseProb(g, q) <= BaseProb(g, b)
    {
      if OpenCount(g, q) > 0 {
        var j :| 0 <= j < |g.recommendations| && g.recommendations[j] == q;
        assert j >= i;
        DivideMonotone(OpenCount(g, q), OpenCount(g, b), g.total);
      }
    }
  }

  lemma DivideMonotone(a: nat, b: nat, c: nat)
    requires a <= b && c >= 1
    ensures a as real / c as real <= b as real / c as real
  {
  }

  /** The larger of the heap's top and the ranking's first untried port beats every untried port. */
  lemma ChoiceIsBest(g: Graph, hits: seq<Port>, tried: set<Port>, values: map<nat, real>, top: Option<Port>, i: nat)
    requires Ranked(g)
    requires forall q: Port :: q !in tried ==> Known(g, values, q) == Score(g, hits, q)
    requires forall k :: k in values ==> k < 0x1_0000
    requires forall j :: 0 <= j < i && j < |g.recommendations| ==> g.recommendations[j] in tried
    requires i < |g.recommendations| ==> g.recommendations[i] !in tried
    requires top.None? ==> values == map[]
    requires top.Some? ==> LazyHeap.IsArgMax(values, top.value) && top.value !in tried
    ensures forall q: Port :: q !in tried ==>
      || (top.Some? && Score(g, hits, q) <= Score(g, hits, top.value))
      || (i < |g.recommendations| && Score(g, hits, q) <= Score(g, hits, g.recommendations[i]))
      || Score(g, hits, q) == 0.0
  {
    forall q: Port | q !in tried
      ensures || (top.Some? && Score(g, hits, q) <= Score(g, hits, top.value))
              || (i < |g.recommendations| && Score(g, hits, q) <= Score(g, hits, g.recommendations[i]))
              || Score(g, hits, q) == 0.0
    {
      assert Known(g, values, q) == Score(g, hits, q);
      if q in values {
        assert LazyHeap.Below(LazyHeap.Entry(values[q], q), LazyHeap.Entry(values[top.value], top.value));
        assert Known(g, values, top.value) == Score(g, hits, top.value);
      } else if i < |g.recommendations| {
        FirstOfRankingIsBest(g, hits, tried, i);
        ScoreIsMaximum(g, hits, g.recommendations[i]);
      } else {
        assert OpenCount(g, q) == 0;
      }
    }
  }
}

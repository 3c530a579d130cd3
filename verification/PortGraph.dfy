/** The port correlation graph: counts, their probabilities, and the global ranking of ports. */
module PortGraph {
  import opened Sets

  type Port = p: nat | p < 0x1_0000

  datatype Graph = Graph(
    singles: map<Port, nat>,
    doubles: map<Port, map<Port, nat>>,
    total: nat,
    recommendations: seq<Port>,
    threshold: nat)

  function OpenCount(g: Graph, port: Port): nat
  {
    if port in g.singles then g.singles[port] else 0
  }

  function BaseProb(g: Graph, port: Port): (prob: real)
    requires g.total >= 1
    ensures prob >= 0.0 && (prob == 0.0 <==> OpenCount(g, port) == 0)
    ensures prob * g.total as real == OpenCount(g, port) as real
  {
    OpenCount(g, port) as real / g.total as real
  }

  /** The share of the addresses with `hit` open that also have `port` open; 0 where nothing is known. */
  function Conditional(g: Graph, hit: Port, port: Port): (prob: real)
    ensures prob >= 0.0
    ensures hit in g.doubles && port in g.doubles[hit] && OpenCount(g, hit) != 0 ==>
      prob * OpenCount(g, hit) as real == g.doubles[hit][port] as real
    ensures !(hit in g.doubles && port in g.doubles[hit]) || OpenCount(g, hit) == 0 ==> prob == 0.0
  {
    if hit in g.doubles && port in g.doubles[hit] && OpenCount(g, hit) != 0
    then g.doubles[hit][port] as real / OpenCount(g, hit) as real
    else 0.0
  }

  /** The ranking is in order of decreasing probability and misses no port with a positive one. */
  ghost predicate Ranked(g: Graph)
  {
    && g.total >= 1 && g.threshold < 256
    && (forall i, j {:trigger OpenCount(g, g.recommendations[i]), OpenCount(g, g.recommendations[j])} ::
          0 <= i < j < |g.recommendations| ==>
            OpenCount(g, g.recommendations[i]) >= OpenCount(g, g.recommendations[j]))
    && (forall p: Port :: OpenCount(g, p) > 0 ==> p in g.recommendations)
  }

  /** A port of maximal count among `ports`. */
  method MostCounted(counts: map<Port, nat>, ports: set<Port>) returns (best: Port)
    requires ports <= counts.Keys && ports != {}
    ensures best in ports && forall p :: p in ports ==> counts[p] <= counts[best]
  {
    best :| best in ports;
    var rest := ports - {best};
    while rest != {}
      invariant best in ports && rest <= ports
      invariant forall p :: p in ports ==> p in rest || counts[p] <= counts[best]
      decreases rest
    {
      var p :| p in rest;
      rest := rest - {p};
      if counts[p] > counts[best] {
        best := p;
      }
    }
  }

  /** `ordered` lists the keys of `counts` once each, by decreasing count. */
  ghost predicate SortedByCount(counts: map<Port, nat>, ordered: seq<Port>)
  {
    && (forall p :: p in ordered <==> p in counts)
    && Distinct(ordered)
    && (forall i, j :: 0 <= i < j < |ordered| ==> counts[ordered[i]] >= counts[ordered[j]])
  }

  /** Any order among equal counts is possible in the original; only the sorting matters. */
  method SortByCount(counts: map<Port, nat>) returns (ordered: seq<Port>)
    ensures SortedByCount(counts, ordered)
  {
    ordered := [];
    var rest := counts.Keys;
    while rest != {}
      invariant rest <= counts.Keys
      invariant forall p :: p in ordered <==> p in counts && p !in rest
      invariant Distinct(ordered)
      invariant forall i, j :: 0 <= i < j < |ordered| ==> counts[ordered[i]] >= counts[ordered[j]]
      invariant forall i, p :: 0 <= i < |ordered| && p in rest ==> counts[ordered[i]] >= counts[p]
      decreases rest
    {
      var best := MostCounted(counts, rest);
      assert best !in ordered;
      ordered := ordered + [best];
      rest := rest - {best};
    }
  }

  /** The seed ports without history, in the order given. */
  function Unseen(singles: map<Port, nat>, seeds: seq<Port>): (r: seq<Port>)
    ensures forall p :: p in r ==> p !in singles && p in seeds
    ensures forall p :: p in seeds && p !in singles ==> p in r
  {
    if seeds == [] then []
    else
      var before := Unseen(singles, seeds[..|seeds| - 1]);
      var last := seeds[|seeds| - 1];
      assert seeds == seeds[..|seeds| - 1] + [last];
      if last in singles then before else before + [last]
  }

  /** Groups the pair counts by their first port. */
  method GroupPairs(pairs: map<(Port, Port), nat>) returns (doubles: map<Port, map<Port, nat>>)
    ensures forall i, j ::
      ((i, j) in pairs <==> i in doubles && j in doubles[i]) && ((i, j) in pairs ==> doubles[i][j] == pairs[(i, j)])
  {
    doubles := map[];
    var rest := pairs.Keys;
    while rest != {}
      invariant rest <= pairs.Keys
      invariant forall i, j ::
        ((i, j) in pairs && (i, j) !in rest <==> i in doubles && j in doubles[i])
        && ((i, j) in pairs && (i, j) !in rest ==> doubles[i][j] == pairs[(i, j)])
      decreases rest
    {
      var pair :| pair in rest;
      var (i, j) := pair;
      var row := if i in doubles then doubles[i] else map[];
      doubles := doubles[i := row[j := pairs[pair]]];
      rest := rest - {pair};
    }
  }

  /** Appends the seed ports without history to the ranking. */
  method AppendUnseen(singles: map<Port, nat>, ordered: seq<Port>, seedPorts: seq<Port>) returns (recommendations: seq<Port>)
    ensures recommendations == ordered + Unseen(singles, seedPorts)
  {
    recommendations := ordered;
    for i := 0 to |seedPorts|
      invariant recommendations == ordered + Unseen(singles, seedPorts[..i])
    {
      assert seedPorts[..i + 1][..i] == seedPorts[..i];
      if seedPorts[i] !in singles {
        recommendations := recommendations + [seedPorts[i]];
      }
    }
    assert seedPorts[..|seedPorts|] == seedPorts;
  }

  method FromCounts(singles: map<Port, nat>, coBannerCounts: map<(Port, Port), nat>, totalAddresses: nat,
                    seedPorts: seq<Port>, threshold: nat) returns (g: Graph)
    requires threshold < 256
    ensures Ranked(g)
    ensures g.singles == singles && g.threshold == threshold
    ensures g.total == if totalAddresses >= 1 then totalAddresses else 1
    ensures forall i, j ::
      ((i, j) in coBannerCounts <==> i in g.doubles && j in g.doubles[i])
      && ((i, j) in coBannerCounts ==> g.doubles[i][j] == coBannerCounts[(i, j)])
    ensures exists ordered :: SortedByCount(singles, ordered) && g.recommendations == ordered + Unseen(singles, seedPorts)
  {
    var doubles := GroupPairs(coBannerCounts);
    var ordered := SortByCount(singles);
    var recommendations := AppendUnseen(singles, ordered, seedPorts);
    g := Graph(singles, doubles, if totalAddresses >= 1 then totalAddresses else 1, recommendations, threshold);
    RankingIsSorted(g, ordered, seedPorts);
  }

  lemma RankingIsSorted(g: Graph, ordered: seq<Port>, seedPorts: seq<Port>)
    requires g.total >= 1 && g.threshold < 256
    requires SortedByCount(g.singles, ordered)
    requires g.recommendations == ordered + Unseen(g.singles, seedPorts)
    ensures Ranked(g)
  {
    forall i, j | 0 <= i < j < |g.recommendations|
      ensures OpenCount(g, g.recommendations[i]) >= OpenCount(g, g.recommendations[j])
    {
      if j >= |ordered| {
        assert g.recommendations[j] in Unseen(g.singles, seedPorts);
      }
    }
  }

  /** Fewer than `last` tried ports leave one of the ports 1 to `last` untried, so drawing from them can succeed. */
  lemma DrawingCanSucceed(tried: set<Port>, last: Port)
    requires |tried| < last
    ensures exists p: Port :: 1 <= p <= last && p !in tried
  {
    if forall p: Port :: 1 <= p <= last ==> p in tried {
      var ports := Below(last + 1) - {0};
      assert ports <= tried;
      SubsetSize(ports, tried);
    }
  }
}

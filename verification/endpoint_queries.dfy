/**
 * The endpoint queries of the analytics service: `getBoundEndpoints` with
 * `obtainEndpoints`, and `doGetUnboundEndpoints` with `obtainProducerEndpoints`,
 * the business-transaction filter removal, optional compression and the sort.
 */
module EndpointQueries {
  import opened Wrappers
  import opened Ordering
  import opened JavaStrings
  import opened ApmModel
  import opened EndpointMetadata
  import opened EndpointTree
  import opened EndpointCompression
  import opened SeqFacts

  /** The endpoints a list of records names. */
  function Endpoints(es: seq<EndpointInfo>): set<string>
  {
    set i | 0 <= i < |es| :: es[i].endpoint
  }

  /** `endpoints.contains(info)`: two endpoint records are equal when their endpoints are. */
  predicate HasEndpoint(es: seq<EndpointInfo>, endpoint: string)
  {
    exists i :: 0 <= i < |es| && es[i].endpoint == endpoint
  }

  /** No endpoint is named twice. */
  predicate DistinctEndpoints(es: seq<EndpointInfo>)
  {
    forall i, j :: 0 <= i < j < |es| ==> es[i].endpoint != es[j].endpoint
  }

  function EndpointOf(e: EndpointInfo): string
  {
    e.endpoint
  }

  /** `EndpointUtil.encodeEndpoint(node.getUri(), node.getOperation())`. */
  function EncodedEndpoint(n: Node, codec: EndpointCodec): string
  {
    codec.encode(n.uri, n.operation)
  }

  lemma EndpointsSnoc(es: seq<EndpointInfo>, e: EndpointInfo)
    ensures Endpoints(es + [e]) == Endpoints(es) + {e.endpoint}
    ensures HasEndpoint(es, e.endpoint) <==> e.endpoint in Endpoints(es)
  {
    var all := es + [e];
    assert all[|es|] == e;
    forall x | x in Endpoints(es)
      ensures x in Endpoints(all)
    {
      var i :| 0 <= i < |es| && es[i].endpoint == x;
      assert all[i] == es[i];
    }
  }

  lemma DistinctSnoc(es: seq<EndpointInfo>, e: EndpointInfo)
    requires DistinctEndpoints(es) && e.endpoint !in Endpoints(es)
    ensures DistinctEndpoints(es + [e])
  {
    var all := es + [e];
    forall i, j | 0 <= i < j < |all|
      ensures all[i].endpoint != all[j].endpoint
    {
      assert all[i] == es[i];
      if j == |es| {
        assert es[i].endpoint in Endpoints(es);
      } else {
        assert all[j] == es[j];
      }
    }
  }

  // ---- obtainEndpoints ----

  /** What `obtainEndpoints` adds for one node and, for a container, the nodes below it. */
  function ObtainedNode(n: Node, acc: seq<EndpointInfo>, codec: EndpointCodec): seq<EndpointInfo>
    decreases n, 1
  {
    var acc1 := NodeStep(n, acc, codec);
    if IsContainer(n) then Obtained(n.nodes, acc1, codec) else acc1
  }

  /** What `obtainEndpoints(nodes, endpoints)` leaves in `endpoints`, starting from `acc`. */
  function Obtained(nodes: seq<Node>, acc: seq<EndpointInfo>, codec: EndpointCodec): seq<EndpointInfo>
    decreases nodes, 0
  {
    if nodes == [] then acc else Obtained(nodes[1..], ObtainedNode(nodes[0], acc, codec), codec)
  }

  /** `obtainEndpoints(List<Node>, List<EndpointInfo>)`. */
  method ObtainEndpoints(nodes: seq<Node>, endpoints: seq<EndpointInfo>, codec: EndpointCodec)
    returns (r: seq<EndpointInfo>)
    ensures r == Obtained(nodes, endpoints, codec)
    decreases nodes
  {
    r := endpoints;
    assert nodes[0..] == nodes;
    for i := 0 to |nodes|
      invariant Obtained(nodes[i..], r, codec) == Obtained(nodes, endpoints, codec)
    {
      var node := nodes[i];
      assert nodes[i..][0] == node && nodes[i..][1..] == nodes[i + 1..];
      if node.uri.Some? {
        var ei := NewEndpointInfo(codec.encode(node.uri, node.operation), None);
        if !HasEndpoint(r, ei.endpoint) {
          ei := InitEndpointInfo(ei, codec);
          r := r + [ei];
        }
      }
      if IsContainer(node) {
        r := ObtainEndpoints(node.nodes, r, codec);
      }
    }
  }

  /** The encoded endpoints of every node with a URI, at any depth. */
  function NodeUris(n: Node, codec: EndpointCodec): set<string>
    decreases n, 1
  {
    (if n.uri.Some? then {EncodedEndpoint(n, codec)} else {})
      + (if IsContainer(n) then Uris(n.nodes, codec) else {})
  }

  function Uris(nodes: seq<Node>, codec: EndpointCodec): set<string>
    decreases nodes, 0
  {
    if nodes == [] then {} else NodeUris(nodes[0], codec) + Uris(nodes[1..], codec)
  }

  /** Records appended for a node: its endpoint with no type, initialised. */
  predicate AddedUntyped(r: seq<EndpointInfo>, from: nat, codec: EndpointCodec)
  {
    forall i :: from <= i < |r| ==> r[i] == Initialised(NewEndpointInfo(r[i].endpoint, None), codec)
  }

  /** The node step appends at most the node's own record to `acc`. */
  function NodeStep(n: Node, acc: seq<EndpointInfo>, codec: EndpointCodec): seq<EndpointInfo>
  {
    var endpoint := EncodedEndpoint(n, codec);
    if n.uri.Some? && !HasEndpoint(acc, endpoint) then acc + [Initialised(NewEndpointInfo(endpoint, None), codec)]
    else acc
  }

  lemma NodeStepFacts(n: Node, acc: seq<EndpointInfo>, codec: EndpointCodec)
    ensures var r := NodeStep(n, acc, codec);
      |acc| <= |r| && r[..|acc|] == acc && AddedUntyped(r, |acc|, codec) &&
      Endpoints(r) == Endpoints(acc) + (if n.uri.Some? then {EncodedEndpoint(n, codec)} else {}) &&
      (DistinctEndpoints(acc) ==> DistinctEndpoints(r))
  {
    var endpoint := EncodedEndpoint(n, codec);
    var added := Initialised(NewEndpointInfo(endpoint, None), codec);
    InitialisedFacts(NewEndpointInfo(endpoint, None), codec);
    EndpointsSnoc(acc, added);
    if n.uri.Some? && !HasEndpoint(acc, endpoint) && DistinctEndpoints(acc) {
      DistinctSnoc(acc, added);
    }
  }

  /** `obtainEndpoints` only appends, and what it appends is untyped and initialised. */
  lemma {:induction false} ObtainedNodeExtends(n: Node, acc: seq<EndpointInfo>, codec: EndpointCodec)
    ensures var r := ObtainedNode(n, acc, codec);
      |acc| <= |r| && r[..|acc|] == acc && AddedUntyped(r, |acc|, codec)
    decreases n, 1
  {
    var acc1 := NodeStep(n, acc, codec);
    NodeStepFacts(n, acc, codec);
    if IsContainer(n) {
      ObtainedExtends(n.nodes, acc1, codec);
      var r := Obtained(n.nodes, acc1, codec);
      assert r[..|acc|] == r[..|acc1|][..|acc|];
    }
  }

  lemma {:induction false} ObtainedExtends(nodes: seq<Node>, acc: seq<EndpointInfo>, codec: EndpointCodec)
    ensures var r := Obtained(nodes, acc, codec);
      |acc| <= |r| && r[..|acc|] == acc && AddedUntyped(r, |acc|, codec)
    decreases nodes, 0
  {
    if nodes != [] {
      var acc1 := ObtainedNode(nodes[0], acc, codec);
      ObtainedNodeExtends(nodes[0], acc, codec);
      ObtainedExtends(nodes[1..], acc1, codec);
      var r := Obtained(nodes[1..], acc1, codec);
      assert r[..|acc|] == r[..|acc1|][..|acc|];
    }
  }

  /** `obtainEndpoints` adds the endpoint of every node with a URI, at any depth, and no other. */
  lemma {:induction false} ObtainedNodeEndpoints(n: Node, acc: seq<EndpointInfo>, codec: EndpointCodec)
    ensures Endpoints(ObtainedNode(n, acc, codec)) == Endpoints(acc) + NodeUris(n, codec)
    decreases n, 1
  {
    NodeStepFacts(n, acc, codec);
    if IsContainer(n) {
      ObtainedEndpoints(n.nodes, NodeStep(n, acc, codec), codec);
    }
  }

  lemma {:induction false} ObtainedEndpoints(nodes: seq<Node>, acc: seq<EndpointInfo>, codec: EndpointCodec)
    ensures Endpoints(Obtained(nodes, acc, codec)) == Endpoints(acc) + Uris(nodes, codec)
    decreases nodes, 0
  {
    if nodes != [] {
      ObtainedNodeEndpoints(nodes[0], acc, codec);
      ObtainedEndpoints(nodes[1..], ObtainedNode(nodes[0], acc, codec), codec);
    }
  }

  /** `obtainEndpoints` never lists an endpoint twice. */
  lemma {:induction false} ObtainedNodeDistinct(n: Node, acc: seq<EndpointInfo>, codec: EndpointCodec)
    requires DistinctEndpoints(acc)
    ensures DistinctEndpoints(ObtainedNode(n, acc, codec))
    decreases n, 1
  {
    NodeStepFacts(n, acc, codec);
    if IsContainer(n) {
      ObtainedDistinct(n.nodes, NodeStep(n, acc, codec), codec);
    }
  }

  lemma {:induction false} ObtainedDistinct(nodes: seq<Node>, acc: seq<EndpointInfo>, codec: EndpointCodec)
    requires DistinctEndpoints(acc)
    ensures DistinctEndpoints(Obtained(nodes, acc, codec))
    decreases nodes, 0
  {
    if nodes != [] {
      ObtainedNodeDistinct(nodes[0], acc, codec);
      ObtainedDistinct(nodes[1..], ObtainedNode(nodes[0], acc, codec), codec);
    }
  }

  // ---- getBoundEndpoints ----

  /** What `getBoundEndpoints` returns for the fragments of the business transaction. */
  function BoundEndpoints(fragments: seq<Trace>, codec: EndpointCodec): seq<EndpointInfo>
  {
    if fragments == [] then []
    else Obtained(fragments[|fragments| - 1].nodes, BoundEndpoints(fragments[..|fragments| - 1], codec), codec)
  }

  /** `getBoundEndpoints(tenant, businessTransaction, start, end)`, after `getFragments` delivered `fragments`. */
  method GetBoundEndpoints(fragments: seq<Trace>, codec: EndpointCodec) returns (ret: seq<EndpointInfo>)
    ensures ret == BoundEndpoints(fragments, codec)
  {
    ret := [];
    for i := 0 to |fragments|
      invariant ret == BoundEndpoints(fragments[..i], codec)
    {
      assert fragments[..i + 1][..i] == fragments[..i];
      ret := ObtainEndpoints(fragments[i].nodes, ret, codec);
    }
    assert fragments[..|fragments|] == fragments;
  }

  /** Every endpoint used by some node of some fragment. */
  function FragmentUris(fragments: seq<Trace>, codec: EndpointCodec): set<string>
  {
    if fragments == [] then {}
    else FragmentUris(fragments[..|fragments| - 1], codec) + Uris(fragments[|fragments| - 1].nodes, codec)
  }

  /** The bound endpoints are exactly the endpoints of the nodes with a URI. */
  lemma {:induction false} BoundEndpointsCover(fragments: seq<Trace>, codec: EndpointCodec)
    ensures Endpoints(BoundEndpoints(fragments, codec)) == FragmentUris(fragments, codec)
  {
    if fragments != [] {
      var init := fragments[..|fragments| - 1];
      BoundEndpointsCover(init, codec);
      ObtainedEndpoints(fragments[|fragments| - 1].nodes, BoundEndpoints(init, codec), codec);
    }
  }

  /** Each bound endpoint is listed once, untyped and initialised. */
  lemma {:induction false} BoundEndpointsDistinct(fragments: seq<Trace>, codec: EndpointCodec)
    ensures DistinctEndpoints(BoundEndpoints(fragments, codec))
    ensures AddedUntyped(BoundEndpoints(fragments, codec), 0, codec)
  {
    if fragments != [] {
      var init := fragments[..|fragments| - 1];
      var acc := BoundEndpoints(init, codec);
      BoundEndpointsDistinct(init, codec);
      ObtainedDistinct(fragments[|fragments| - 1].nodes, acc, codec);
      ObtainedExtends(fragments[|fragments| - 1].nodes, acc, codec);
      var r := BoundEndpoints(fragments, codec);
      forall i | 0 <= i < |r|
        ensures r[i] == Initialised(NewEndpointInfo(r[i].endpoint, None), codec)
      {
        if i < |acc| {
          assert r[i] == r[..|acc|][i];
        }
      }
    }
  }

  // ---- obtainProducerEndpoints ----

  /** The list of unbound endpoints being built and the map from endpoint to record beside it. */
  datatype Collected = Collected(endpoints: seq<EndpointInfo>, known: map<string, EndpointInfo>)

  /** The map knows exactly the listed endpoints, and the list names none twice. */
  predicate Consistent(c: Collected)
  {
    c.known.Keys == Endpoints(c.endpoints) && DistinctEndpoints(c.endpoints)
  }

  /** Records `info` in both the list and the map. */
  function Record(c: Collected, info: EndpointInfo): Collected
  {
    Collected(c.endpoints + [info], c.known[info.endpoint := info])
  }

  lemma RecordFacts(c: Collected, info: EndpointInfo)
    requires Consistent(c) && info.endpoint !in c.known
    ensures Consistent(Record(c, info))
    ensures Endpoints(Record(c, info).endpoints) == Endpoints(c.endpoints) + {info.endpoint}
  {
    EndpointsSnoc(c.endpoints, info);
    DistinctSnoc(c.endpoints, info);
  }

  /** What `obtainProducerEndpoints` records for one node and, for a container, the nodes below it. */
  function ProducerNode(n: Node, c: Collected, codec: EndpointCodec): Collected
    decreases n, 1
  {
    var endpoint := EncodedEndpoint(n, codec);
    var c1 :=
      if n.kind.Producer? && endpoint !in c.known then Record(c, NewEndpointInfo(endpoint, n.endpointType))
      else c;
    if IsContainer(n) then Producers(n.nodes, c1, codec) else c1
  }

  /** What `obtainProducerEndpoints(nodes, endpoints, map)` leaves in `endpoints` and `map`. */
  function Producers(nodes: seq<Node>, c: Collected, codec: EndpointCodec): Collected
    decreases nodes, 0
  {
    if nodes == [] then c else Producers(nodes[1..], ProducerNode(nodes[0], c, codec), codec)
  }

  /** `obtainProducerEndpoints(List<Node>, List<EndpointInfo>, Map<String, EndpointInfo>)`. */
  method ObtainProducerEndpoints(nodes: seq<Node>, endpoints: seq<EndpointInfo>, known: map<string, EndpointInfo>,
                                 codec: EndpointCodec)
    returns (endpoints': seq<EndpointInfo>, known': map<string, EndpointInfo>)
    ensures Collected(endpoints', known') == Producers(nodes, Collected(endpoints, known), codec)
    decreases nodes
  {
    endpoints', known' := endpoints, known;
    assert nodes[0..] == nodes;
    for i := 0 to |nodes|
      invariant Producers(nodes[i..], Collected(endpoints', known'), codec) == Producers(nodes, Collected(endpoints, known), codec)
    {
      var node := nodes[i];
      assert nodes[i..][0] == node && nodes[i..][1..] == nodes[i + 1..];
      if node.kind.Producer? {
        var endpoint := codec.encode(node.uri, node.operation);
        if endpoint !in known' {
          var info := NewEndpointInfo(endpoint, node.endpointType);
          endpoints' := endpoints' + [info];
          known' := known'[endpoint := info];
        }
      }
      if IsContainer(node) {
        endpoints', known' := ObtainProducerEndpoints(node.nodes, endpoints', known', codec);
      }
    }
  }

  /** The encoded endpoints of every producer, at any depth. */
  function NodeProducerUris(n: Node, codec: EndpointCodec): set<string>
    decreases n, 1
  {
    (if n.kind.Producer? then {EncodedEndpoint(n, codec)} else {})
      + (if IsContainer(n) then ProducerUris(n.nodes, codec) else {})
  }

  function ProducerUris(nodes: seq<Node>, codec: EndpointCodec): set<string>
    decreases nodes, 0
  {
    if nodes == [] then {} else NodeProducerUris(nodes[0], codec) + ProducerUris(nodes[1..], codec)
  }

  /** The list and the map stay in step, and every producer's endpoint ends up recorded once. */
  lemma {:induction false} ProducerNodeFacts(n: Node, c: Collected, codec: EndpointCodec)
    requires Consistent(c)
    ensures Consistent(ProducerNode(n, c, codec))
    ensures Endpoints(ProducerNode(n, c, codec).endpoints) == Endpoints(c.endpoints) + NodeProducerUris(n, codec)
    decreases n, 1
  {
    var endpoint := EncodedEndpoint(n, codec);
    var c1 :=
      if n.kind.Producer? && endpoint !in c.known then Record(c, NewEndpointInfo(endpoint, n.endpointType))
      else c;
    if n.kind.Producer? && endpoint !in c.known {
      RecordFacts(c, NewEndpointInfo(endpoint, n.endpointType));
    }
    assert Consistent(c1);
    assert Endpoints(c1.endpoints) == Endpoints(c.endpoints) + (if n.kind.Producer? then {endpoint} else {});
    if IsContainer(n) {
      ProducersFacts(n.nodes, c1, codec);
    }
  }

  lemma {:induction false} ProducersFacts(nodes: seq<Node>, c: Collected, codec: EndpointCodec)
    requires Consistent(c)
    ensures Consistent(Producers(nodes, c, codec))
    ensures Endpoints(Producers(nodes, c, codec).endpoints) == Endpoints(c.endpoints) + ProducerUris(nodes, codec)
    decreases nodes, 0
  {
    if nodes != [] {
      ProducerNodeFacts(nodes[0], c, codec);
      ProducersFacts(nodes[1..], ProducerNode(nodes[0], c, codec), codec);
    }
  }

  // ---- doGetUnboundEndpoints: collecting ----

  /** A fragment is examined when it is an initial fragment with nodes and no business transaction yet. */
  predicate Qualifies(t: Trace)
  {
    t.initialFragment && t.nodes != [] && t.businessTransaction.None?
  }

  /** One turn of the fragment loop of `doGetUnboundEndpoints`. */
  function UnboundStep(c: Collected, t: Trace, codec: EndpointCodec): Collected
  {
    if !Qualifies(t) then c
    else if t.nodes[0].kind.Consumer? then
      var consumer := t.nodes[0];
      var endpoint := EncodedEndpoint(consumer, codec);
      if endpoint !in c.known && consumer.fault.None? then Record(c, NewEndpointInfo(endpoint, consumer.endpointType))
      else c
    else Producers(t.nodes, c, codec)
  }

  /** The list and map after the fragment loop over `fragments`. */
  function Unbound(fragments: seq<Trace>, codec: EndpointCodec): Collected
  {
    if fragments == [] then Collected([], map[])
    else UnboundStep(Unbound(fragments[..|fragments| - 1], codec), fragments[|fragments| - 1], codec)
  }

  /**
   * The endpoints one fragment contributes: the root consumer's, if it did not fault;
   * otherwise every producer's.
   */
  function Candidates(t: Trace, codec: EndpointCodec): set<string>
  {
    if !Qualifies(t) then {}
    else if t.nodes[0].kind.Consumer? then
      if t.nodes[0].fault.None? then {EncodedEndpoint(t.nodes[0], codec)} else {}
    else ProducerUris(t.nodes, codec)
  }

  function AllCandidates(fragments: seq<Trace>, codec: EndpointCodec): set<string>
  {
    if fragments == [] then {}
    else AllCandidates(fragments[..|fragments| - 1], codec) + Candidates(fragments[|fragments| - 1], codec)
  }

  /**
   * The fragment loop lists exactly the candidate endpoints, each once, and the
   * map knows exactly the listed ones.
   */
  lemma {:induction false} UnboundFacts(fragments: seq<Trace>, codec: EndpointCodec)
    ensures Consistent(Unbound(fragments, codec))
    ensures Endpoints(Unbound(fragments, codec).endpoints) == AllCandidates(fragments, codec)
  {
    if fragments != [] {
      var init := fragments[..|fragments| - 1];
      var t := fragments[|fragments| - 1];
      UnboundFacts(init, codec);
      var c := Unbound(init, codec);
      if Qualifies(t) {
        var consumer := t.nodes[0];
        var endpoint := EncodedEndpoint(consumer, codec);
        if consumer.kind.Consumer? {
          if endpoint !in c.known && consumer.fault.None? {
            RecordFacts(c, NewEndpointInfo(endpoint, consumer.endpointType));
          }
        } else {
          ProducersFacts(t.nodes, c, codec);
        }
      }
    }
  }

  // ---- doGetUnboundEndpoints: removing configured endpoints ----

  /** The inclusion patterns that are applied: the non-null, non-blank ones, in order. */
  function ActiveInclusions(inclusions: seq<Option<string>>): seq<string>
  {
    if inclusions == [] then []
    else
      var f := inclusions[|inclusions| - 1];
      ActiveInclusions(inclusions[..|inclusions| - 1]) + (if f.Some? && !IsBlank(f.value) then [f.value] else [])
  }

  /** The patterns of a configuration: its filter's active inclusions, if it has a filter with inclusions. */
  function ConfigInclusions(config: BusinessTxnConfig): seq<string>
  {
    if config.filter.Some? && config.filter.value.inclusions.Some? then ActiveInclusions(config.filter.value.inclusions.value)
    else []
  }

  /** The patterns of all configurations, in the order they are applied. */
  function ActiveFilters(configs: seq<BusinessTxnConfig>): seq<string>
  {
    if configs == [] then []
    else ActiveFilters(configs[..|configs| - 1]) + ConfigInclusions(configs[|configs| - 1])
  }

  /** The records whose endpoint `pattern` does not match, in order. */
  function WithoutMatches(es: seq<EndpointInfo>, pattern: string, matches: (string, string) -> bool): seq<EndpointInfo>
  {
    if es == [] then []
    else
      WithoutMatches(es[..|es| - 1], pattern, matches)
        + (if matches(pattern, es[|es| - 1].endpoint) then [] else [es[|es| - 1]])
  }

  /** The records left after removing the matches of each pattern in turn. */
  function Unmatched(es: seq<EndpointInfo>, patterns: seq<string>, matches: (string, string) -> bool): seq<EndpointInfo>
  {
    if patterns == [] then es
    else WithoutMatches(Unmatched(es, patterns[..|patterns| - 1], matches), patterns[|patterns| - 1], matches)
  }

  /** The iterator loop: removes every record whose endpoint `Pattern.matches(filter, endpoint)`. */
  method RemoveMatching(ret: seq<EndpointInfo>, filter: string, matches: (string, string) -> bool)
    returns (r: seq<EndpointInfo>)
    ensures r == WithoutMatches(ret, filter, matches)
  {
    r := [];
    for i := 0 to |ret|
      invariant r == WithoutMatches(ret[..i], filter, matches)
    {
      assert ret[..i + 1][..i] == ret[..i];
      if !matches(filter, ret[i].endpoint) {
        r := r + [ret[i]];
      }
    }
    assert ret[..|ret|] == ret;
  }

  /** Removing the matches of `a` and then of `b` is removing the matches of `a + b`. */
  lemma {:induction false} UnmatchedAppend(es: seq<EndpointInfo>, a: seq<string>, b: seq<string>, matches: (string, string) -> bool)
    ensures Unmatched(es, a + b, matches) == Unmatched(Unmatched(es, a, matches), b, matches)
  {
    if b == [] {
      assert a + b == a;
    } else {
      var init := b[..|b| - 1];
      UnmatchedAppend(es, a, init, matches);
      assert (a + b)[..|a + b| - 1] == a + init;
    }
  }

  lemma UnmatchedSnoc(es: seq<EndpointInfo>, patterns: seq<string>, pattern: string, matches: (string, string) -> bool)
    ensures Unmatched(es, patterns + [pattern], matches) ==
      WithoutMatches(Unmatched(es, patterns, matches), pattern, matches)
  {
    assert (patterns + [pattern])[..|patterns|] == patterns;
  }

  /** The inclusion loop of one configuration. */
  method RemoveInclusions(ret: seq<EndpointInfo>, inclusions: seq<Option<string>>, matches: (string, string) -> bool)
    returns (r: seq<EndpointInfo>)
    ensures r == Unmatched(ret, ActiveInclusions(inclusions), matches)
  {
    r := ret;
    for j := 0 to |inclusions|
      invariant r == Unmatched(ret, ActiveInclusions(inclusions[..j]), matches)
    {
      var filter := inclusions[j];
      assert inclusions[..j + 1][..j] == inclusions[..j];
      ghost var before := ActiveInclusions(inclusions[..j]);
      if filter.Some? && |Trim(filter.value)| > 0 {
        assert ActiveInclusions(inclusions[..j + 1]) == before + [filter.value];
        UnmatchedSnoc(ret, before, filter.value, matches);
        r := RemoveMatching(r, filter.value, matches);
      } else {
        assert ActiveInclusions(inclusions[..j + 1]) == before;
      }
    }
    assert inclusions[..|inclusions|] == inclusions;
  }

  /** One turn of the configuration loop: a configuration with a filter with inclusions applies them. */
  method RemoveConfig(ret: seq<EndpointInfo>, config: BusinessTxnConfig, matches: (string, string) -> bool)
    returns (r: seq<EndpointInfo>)
    ensures r == Unmatched(ret, ConfigInclusions(config), matches)
  {
    r := ret;
    if config.filter.Some? && config.filter.value.inclusions.Some? {
      r := RemoveInclusions(r, config.filter.value.inclusions.value, matches);
    }
  }

  lemma ActiveFiltersStep(configs: seq<BusinessTxnConfig>, i: nat, ret: seq<EndpointInfo>, matches: (string, string) -> bool)
    requires i < |configs|
    ensures Unmatched(ret, ActiveFilters(configs[..i + 1]), matches) ==
      Unmatched(Unmatched(ret, ActiveFilters(configs[..i]), matches), ConfigInclusions(configs[i]), matches)
  {
    assert configs[..i + 1][..i] == configs[..i];
    UnmatchedAppend(ret, ActiveFilters(configs[..i]), ConfigInclusions(configs[i]), matches);
  }

  /** The configuration loop of `doGetUnboundEndpoints`. */
  method RemoveConfigured(ret: seq<EndpointInfo>, configs: seq<BusinessTxnConfig>, matches: (string, string) -> bool)
    returns (r: seq<EndpointInfo>)
    ensures r == Unmatched(ret, ActiveFilters(configs), matches)
  {
    r := ret;
    for i := 0 to |configs|
      invariant r == Unmatched(ret, ActiveFilters(configs[..i]), matches)
    {
      ActiveFiltersStep(configs, i, ret, matches);
      r := RemoveConfig(r, configs[i], matches);
    }
    assert configs[..|configs|] == configs;
  }

  lemma {:induction false} WithoutMatchesIff(es: seq<EndpointInfo>, pattern: string, matches: (string, string) -> bool, e: EndpointInfo)
    ensures e in WithoutMatches(es, pattern, matches) <==> e in es && !matches(pattern, e.endpoint)
  {
    if es != [] {
      WithoutMatchesIff(es[..|es| - 1], pattern, matches, e);
      assert es == es[..|es| - 1] + [es[|es| - 1]];
    }
  }

  /** No pattern of `patterns` matches `endpoint`. */
  predicate NoPatternMatches(patterns: seq<string>, matches: (string, string) -> bool, endpoint: string)
  {
    forall k :: 0 <= k < |patterns| ==> !matches(patterns[k], endpoint)
  }

  /** A record survives the configuration loop exactly when no applied pattern matches its endpoint. */
  lemma {:induction false} UnmatchedIff(es: seq<EndpointInfo>, patterns: seq<string>, matches: (string, string) -> bool, e: EndpointInfo)
    ensures e in Unmatched(es, patterns, matches) <==> e in es && NoPatternMatches(patterns, matches, e.endpoint)
  {
    if patterns != [] {
      var init := patterns[..|patterns| - 1];
      UnmatchedIff(es, init, matches, e);
      WithoutMatchesIff(Unmatched(es, init, matches), patterns[|patterns| - 1], matches, e);
      assert forall k :: 0 <= k < |init| ==> init[k] == patterns[k];
    }
  }

  // ---- doGetUnboundEndpoints ----

  /** The list after the fragment loop and the configuration loop (`configs` is None without a configuration service). */
  function Filtered(fragments: seq<Trace>, configs: Option<seq<BusinessTxnConfig>>,
                    matches: (string, string) -> bool, codec: EndpointCodec): seq<EndpointInfo>
  {
    var collected := Unbound(fragments, codec).endpoints;
    if configs.Some? then Unmatched(collected, ActiveFilters(configs.value), matches) else collected
  }

  /** What `doGetUnboundEndpoints(tenant, fragments, compress)` returns or throws. */
  function UnboundEndpoints(fragments: seq<Trace>, configs: Option<seq<BusinessTxnConfig>>, compress: bool,
                            matches: (string, string) -> bool, codec: EndpointCodec): (r: Outcome<seq<EndpointInfo>>)
    ensures r.Returned? ==> SortedBy(r.value, EndpointOf)
    ensures !compress ==> r.Returned? && multiset(r.value) == multiset(Filtered(fragments, configs, matches, codec))
    ensures compress ==> (r.Returned? <==> Compressed(Filtered(fragments, configs, matches, codec), codec).Returned?)
    ensures compress && r.Returned? ==>
      multiset(r.value) == multiset(Compressed(Filtered(fragments, configs, matches, codec), codec).value)
  {
    var filtered := Filtered(fragments, configs, matches, codec);
    if compress then
      match Compressed(filtered, codec)
      case Thrown(x) => Thrown(x)
      case Returned(c) => Returned(SortBy(c, EndpointOf))
    else Returned(SortBy(filtered, EndpointOf))
  }

  /** `doGetUnboundEndpoints(String, List<Trace>, boolean)`. */
  method DoGetUnboundEndpoints(fragments: seq<Trace>, configs: Option<seq<BusinessTxnConfig>>, compress: bool,
                               matches: (string, string) -> bool, codec: EndpointCodec)
    returns (r: Outcome<seq<EndpointInfo>>)
    ensures r == UnboundEndpoints(fragments, configs, compress, matches, codec)
  {
    var ret: seq<EndpointInfo> := [];
    var known: map<string, EndpointInfo> := map[];
    for i := 0 to |fragments|
      invariant Unbound(fragments[..i], codec) == Collected(ret, known)
    {
      var trace := fragments[i];
      assert fragments[..i + 1][..i] == fragments[..i];
      if trace.initialFragment && |trace.nodes| > 0 && trace.businessTransaction.None? {
        if trace.nodes[0].kind.Consumer? {
          var consumer := trace.nodes[0];
          var endpoint := codec.encode(consumer.uri, consumer.operation);
          if endpoint !in known && consumer.fault.None? {
            var info := NewEndpointInfo(endpoint, consumer.endpointType);
            ret := ret + [info];
            known := known[endpoint := info];
          }
        } else {
          ret, known := ObtainProducerEndpoints(trace.nodes, ret, known, codec);
        }
      }
    }
    assert fragments[..|fragments|] == fragments;
    if configs.Some? {
      ret := RemoveConfigured(ret, configs.value, matches);
    }
    if compress {
      var compressed := CompressEndpointInfo(ret, codec);
      if compressed.Thrown? {
        return Thrown(compressed.exception);
      }
      ret := compressed.value;
    }
    r := Returned(SortBy(ret, EndpointOf));
  }

  /** A listed endpoint survives filtering exactly when no applied pattern matches it. */
  lemma UnmatchedEndpointsIff(es: seq<EndpointInfo>, patterns: seq<string>, matches: (string, string) -> bool, endpoint: string)
    ensures endpoint in Endpoints(Unmatched(es, patterns, matches)) <==>
      endpoint in Endpoints(es) && NoPatternMatches(patterns, matches, endpoint)
  {
    var u := Unmatched(es, patterns, matches);
    if endpoint in Endpoints(u) {
      var i :| 0 <= i < |u| && u[i].endpoint == endpoint;
      UnmatchedIff(es, patterns, matches, u[i]);
      var k :| 0 <= k < |es| && es[k] == u[i];
    }
    if endpoint in Endpoints(es) && NoPatternMatches(patterns, matches, endpoint) {
      var i :| 0 <= i < |es| && es[i].endpoint == endpoint;
      UnmatchedIff(es, patterns, matches, es[i]);
      var k :| 0 <= k < |u| && u[k] == es[i];
    }
  }

  /**
   * The list after the fragment and configuration loops names each endpoint once:
   * exactly the candidate endpoints that no applied pattern matches.
   */
  lemma FilteredIff(fragments: seq<Trace>, configs: Option<seq<BusinessTxnConfig>>,
                    matches: (string, string) -> bool, codec: EndpointCodec, endpoint: string)
    ensures var filtered := Filtered(fragments, configs, matches, codec);
      DistinctEndpoints(filtered) &&
      (endpoint in Endpoints(filtered) <==>
        endpoint in AllCandidates(fragments, codec) &&
        (configs.Some? ==> NoPatternMatches(ActiveFilters(configs.value), matches, endpoint)))
  {
    var collected := Unbound(fragments, codec).endpoints;
    UnboundFacts(fragments, codec);
    if configs.Some? {
      UnmatchedDistinct(collected, ActiveFilters(configs.value), matches);
      UnmatchedEndpointsIff(collected, ActiveFilters(configs.value), matches, endpoint);
    }
  }

  /**
   * Without compression the unbound endpoints are the candidate endpoints of the
   * fragments, each once, minus those an applied configuration pattern matches.
   */
  lemma UnboundUncompressedIff(fragments: seq<Trace>, configs: Option<seq<BusinessTxnConfig>>,
                               matches: (string, string) -> bool, codec: EndpointCodec, endpoint: string)
    ensures var r := UnboundEndpoints(fragments, configs, false, matches, codec).value;
      DistinctEndpoints(r) &&
      (endpoint in Endpoints(r) <==>
        endpoint in AllCandidates(fragments, codec) &&
        (configs.Some? ==> NoPatternMatches(ActiveFilters(configs.value), matches, endpoint)))
  {
    var filtered := Filtered(fragments, configs, matches, codec);
    FilteredIff(fragments, configs, matches, codec, endpoint);
    PermutationKeepsEndpoints(filtered, UnboundEndpoints(fragments, configs, false, matches, codec).value);
  }

  lemma {:induction false} WithoutMatchesDistinct(es: seq<EndpointInfo>, pattern: string, matches: (string, string) -> bool)
    requires DistinctEndpoints(es)
    ensures DistinctEndpoints(WithoutMatches(es, pattern, matches))
    ensures Endpoints(WithoutMatches(es, pattern, matches)) <= Endpoints(es)
  {
    if es != [] {
      var init := es[..|es| - 1];
      var last := es[|es| - 1];
      WithoutMatchesDistinct(init, pattern, matches);
      EndpointsSnoc(init, last);
      assert es == init + [last];
      var w := WithoutMatches(init, pattern, matches);
      assert last.endpoint !in Endpoints(init);
      if !matches(pattern, last.endpoint) {
        DistinctSnoc(w, last);
        EndpointsSnoc(w, last);
      }
    }
  }

  lemma {:induction false} UnmatchedDistinct(es: seq<EndpointInfo>, patterns: seq<string>, matches: (string, string) -> bool)
    requires DistinctEndpoints(es)
    ensures DistinctEndpoints(Unmatched(es, patterns, matches))
    ensures Endpoints(Unmatched(es, patterns, matches)) <= Endpoints(es)
  {
    if patterns != [] {
      UnmatchedDistinct(es, patterns[..|patterns| - 1], matches);
      WithoutMatchesDistinct(Unmatched(es, patterns[..|patterns| - 1], matches), patterns[|patterns| - 1], matches);
    }
  }

  /** Rearranging a list keeps the set of its endpoints and their distinctness. */
  lemma PermutationKeepsEndpoints(s: seq<EndpointInfo>, r: seq<EndpointInfo>)
    requires multiset(r) == multiset(s)
    ensures Endpoints(r) == Endpoints(s)
    ensures DistinctEndpoints(s) ==> DistinctEndpoints(r)
  {
    forall x | x in Endpoints(s)
      ensures x in Endpoints(r)
    {
      var i :| 0 <= i < |s| && s[i].endpoint == x;
      assert s[i] in multiset(r);
      var j :| 0 <= j < |r| && r[j] == s[i];
    }
    forall x | x in Endpoints(r)
      ensures x in Endpoints(s)
    {
      var i :| 0 <= i < |r| && r[i].endpoint == x;
      assert r[i] in multiset(s);
      var j :| 0 <= j < |s| && s[j] == r[i];
    }
    if DistinctEndpoints(s) {
      PermutationDistinct(s, r);
      forall i, j | 0 <= i < j < |r|
        ensures r[i].endpoint != r[j].endpoint
      {
        assert r[i] in multiset(s) && r[j] in multiset(s);
        var a :| 0 <= a < |s| && s[a] == r[i];
        var b :| 0 <= b < |s| && s[b] == r[j];
        if a < b {
          assert s[a].endpoint != s[b].endpoint;
        } else if b < a {
          assert s[b].endpoint != s[a].endpoint;
        }
      }
    }
  }

  /** With compression, the query throws exactly when an endpoint left after filtering is a path of slashes only. */
  lemma UnboundCompressedThrows(fragments: seq<Trace>, configs: Option<seq<BusinessTxnConfig>>,
                                matches: (string, string) -> bool, codec: EndpointCodec)
    ensures var filtered := Filtered(fragments, configs, matches, codec);
      UnboundEndpoints(fragments, configs, true, matches, codec).Thrown? <==>
        exists i :: 0 <= i < |filtered| && IsPathShaped(filtered[i].endpoint) && AllSlashes(filtered[i].endpoint)
  {
    GatherThrowsIff(Filtered(fragments, configs, matches, codec), codec);
  }

  /**
   * With compression, a remaining path endpoint with a type that no later one
   * overwrote is listed, typed and initialised, under its keys with the key of each
   * collapsed level read as `*`.
   */
  lemma UnboundCompressedKeeps(fragments: seq<Trace>, configs: Option<seq<BusinessTxnConfig>>,
                               matches: (string, string) -> bool, codec: EndpointCodec, i: nat)
    returns (q: seq<string>)
    requires UnboundEndpoints(fragments, configs, true, matches, codec).Returned?
    requires var filtered := Filtered(fragments, configs, matches, codec);
      i < |filtered| && IsPathShaped(filtered[i].endpoint) && filtered[i].endpointType.Some? &&
      !(Splittable(filtered[i]) && Overwrites(filtered, i, codec))
    ensures Splittable(Filtered(fragments, configs, matches, codec)[i])
    ensures var filtered := Filtered(fragments, configs, matches, codec);
      var tree := Collapse(Gather(filtered, codec).value.root);
      Generalises(q, PathOf(filtered[i], codec)) && TypedAt(tree, q) &&
      Initialised(NewEndpointInfo(Render(tree, q, ""), At(tree, q).endpointType), codec)
        in UnboundEndpoints(fragments, configs, true, matches, codec).value
  {
    var filtered := Filtered(fragments, configs, matches, codec);
    q := CompressKeepsCollapsed(filtered, codec, i);
    var tree := Collapse(Gather(filtered, codec).value.root);
    var e := Initialised(NewEndpointInfo(Render(tree, q, ""), At(tree, q).endpointType), codec);
    assert e in multiset(Compressed(filtered, codec).value);
  }
}

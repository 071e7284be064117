/**
 * The demand side of generador_od.py: merging production/attraction factors,
 * checking zone nodes against the graph, zone-to-zone costs from shortest
 * distances, the impedance function and the singly production-constrained
 * gravity matrix. Each computation is a function (the specification) and a
 * method with the source's loops, proved to compute the same thing.
 */
module OdGenerator {
  import opened Wrappers

  type ZoneName = string

  /** A zone of the zone table: its name and its node ids, in file order. */
  datatype Zone = Zone(name: ZoneName, nodes: seq<int>)

  function Names(zones: seq<Zone>): (r: seq<ZoneName>)
    ensures |r| == |zones| && forall i :: 0 <= i < |zones| ==> r[i] == zones[i].name
    ensures forall z :: z in zones ==> z.name in r
  {
    seq(|zones|, i requires 0 <= i < |zones| => zones[i].name)
  }

  /** A travel cost: a finite float or `math.inf`. */
  datatype Cost = Finite(value: real) | Inf

  /** The float comparison `a < b`, with `math.inf` above every finite value. */
  predicate Below(a: Cost, b: Cost)
  {
    match a
    case Inf => false
    case Finite(x) => b.Inf? || x < b.value
  }

  /** The `ValueError`s the generator raises. */
  datatype OdError =
    | MissingProduction(zone: ZoneName)
    | MissingAttraction(zone: ZoneName)
    | NodesNotInGraph(missingByZone: seq<(ZoneName, seq<int>)>)
    | UnsupportedFriction(friction: string)
    | NoSources(zone: ZoneName)

  // ---------------------------------------------------------------------
  // merge_factors
  // ---------------------------------------------------------------------

  /** The factor values embedded in the zone file and those of the optional override files. */
  datatype FactorSources = FactorSources(baseProductions: map<ZoneName, real>, baseAttractions: map<ZoneName, real>,
                                         prodOverride: map<ZoneName, real>, attrOverride: map<ZoneName, real>)

  /** `override.get(zone, base.get(zone))`. */
  function Pick(override: map<ZoneName, real>, base: map<ZoneName, real>, zone: ZoneName): (r: Option<real>)
    ensures zone in override ==> r == Some(override[zone])
    ensures zone !in override && zone in base ==> r == Some(base[zone])
    ensures r.None? <==> zone !in override && zone !in base
  {
    if zone in override then Some(override[zone])
    else if zone in base then Some(base[zone])
    else None
  }

  function PickProduction(s: FactorSources, zone: ZoneName): Option<real>
  {
    Pick(s.prodOverride, s.baseProductions, zone)
  }

  function PickAttraction(s: FactorSources, zone: ZoneName): Option<real>
  {
    Pick(s.attrOverride, s.baseAttractions, zone)
  }

  datatype Factors = Factors(productions: map<ZoneName, real>, attractions: map<ZoneName, real>)

  /** A zone has both factors, from an override or from the zone file. */
  predicate HasFactors(s: FactorSources, zone: ZoneName)
  {
    PickProduction(s, zone).Some? && PickAttraction(s, zone).Some?
  }

  /** The error `merge_factors` raises for a zone lacking a factor: production is checked first. */
  function MissingFactor(s: FactorSources, zone: ZoneName): OdError
  {
    if PickProduction(s, zone).None? then MissingProduction(zone) else MissingAttraction(zone)
  }

  /** The merged factors of the zones `zs`, or the error for the first zone lacking one. */
  function Merged(s: FactorSources, zs: seq<ZoneName>): Result<Factors, OdError>
  {
    if zs == [] then Ok(Factors(map[], map[]))
    else
      var z := zs[|zs| - 1];
      match Merged(s, zs[..|zs| - 1])
      case Err(e) => Err(e)
      case Ok(f) =>
        if !HasFactors(s, z) then Err(MissingFactor(s, z))
        else Ok(Factors(f.productions[z := PickProduction(s, z).value], f.attractions[z := PickAttraction(s, z).value]))
  }

  /** Merging succeeds exactly when every zone has both factors. */
  lemma {:induction false} MergedSucceedsIff(s: FactorSources, zs: seq<ZoneName>)
    ensures Merged(s, zs).Ok? <==> forall z :: z in zs ==> HasFactors(s, z)
  {
    if zs != [] {
      var init := zs[..|zs| - 1];
      assert forall w :: w in zs <==> w in init || w == zs[|zs| - 1];
      MergedSucceedsIff(s, init);
    }
  }

  /** The merged maps cover exactly the zones, an override beating the zone file's value. */
  lemma {:induction false} MergedValues(s: FactorSources, zs: seq<ZoneName>)
    requires Merged(s, zs).Ok?
    ensures var f := Merged(s, zs).value;
            (forall z :: z in f.productions <==> z in zs) &&
            (forall z :: z in f.attractions <==> z in zs) &&
            (forall z :: z in zs ==> Some(f.productions[z]) == PickProduction(s, z)) &&
            (forall z :: z in zs ==> Some(f.attractions[z]) == PickAttraction(s, z))
  {
    if zs != [] {
      var init := zs[..|zs| - 1];
      assert forall w :: w in zs <==> w in init || w == zs[|zs| - 1];
      MergedValues(s, init);
    }
  }

  /** A failed merge names the first zone, in order, that lacks a factor. */
  lemma {:induction false} MergedFirstError(s: FactorSources, zs: seq<ZoneName>)
    requires Merged(s, zs).Err?
    ensures exists i :: 0 <= i < |zs| && !HasFactors(s, zs[i]) &&
              (forall k :: 0 <= k < i ==> HasFactors(s, zs[k])) &&
              Merged(s, zs).error == MissingFactor(s, zs[i])
  {
    var init := zs[..|zs| - 1];
    var z := zs[|zs| - 1];
    if Merged(s, init).Err? {
      MergedFirstError(s, init);
      var i :| 0 <= i < |init| && !HasFactors(s, init[i]) &&
               (forall k :: 0 <= k < i ==> HasFactors(s, init[k])) &&
               Merged(s, init).error == MissingFactor(s, init[i]);
      assert forall k :: 0 <= k <= i ==> zs[k] == init[k];
    } else {
      MergedSucceedsIff(s, init);
      assert forall k :: 0 <= k < |init| ==> zs[k] == init[k];
      assert forall k :: 0 <= k < |init| ==> HasFactors(s, zs[k]);
    }
  }

  /** Once a prefix of the zones fails, every longer prefix fails with the same error. */
  lemma {:induction false} MergedKeepsError(s: FactorSources, zs: seq<ZoneName>, n: nat)
    requires n <= |zs| && Merged(s, zs[..n]).Err?
    ensures Merged(s, zs) == Merged(s, zs[..n])
    decreases |zs| - n
  {
    if n < |zs| {
      assert zs[..n + 1][..n] == zs[..n];
      MergedKeepsError(s, zs, n + 1);
    } else {
      assert zs[..n] == zs;
    }
  }

  /** `merge_factors`: one pass over the zones, overrides taking precedence. */
  method MergeFactors(zones: seq<ZoneName>, s: FactorSources) returns (r: Result<Factors, OdError>)
    ensures r == Merged(s, zones)
  {
    var productions: map<ZoneName, real> := map[];
    var attractions: map<ZoneName, real> := map[];
    var i := 0;
    while i < |zones|
      invariant 0 <= i <= |zones|
      invariant Merged(s, zones[..i]) == Ok(Factors(productions, attractions))
    {
      var zone := zones[i];
      var prodValue := if zone in s.prodOverride then Some(s.prodOverride[zone])
                       else if zone in s.baseProductions then Some(s.baseProductions[zone]) else None;
      var attrValue := if zone in s.attrOverride then Some(s.attrOverride[zone])
                       else if zone in s.baseAttractions then Some(s.baseAttractions[zone]) else None;
      assert zones[..i + 1][..i] == zones[..i];
      if prodValue.None? {
        r := Err(MissingProduction(zone));
        MergedKeepsError(s, zones, i + 1);
        return;
      }
      if attrValue.None? {
        r := Err(MissingAttraction(zone));
        MergedKeepsError(s, zones, i + 1);
        return;
      }
      productions := productions[zone := prodValue.value];
      attractions := attractions[zone := attrValue.value];
      i := i + 1;
    }
    assert zones[..i] == zones;
    return Ok(Factors(productions, attractions));
  }

  // ---------------------------------------------------------------------
  // validate_zone_nodes
  // ---------------------------------------------------------------------

  /** `[node for node in node_ids if node not in graph_nodes]`. */
  function MissingNodes(nodes: seq<int>, graphNodes: set<int>): seq<int>
  {
    if nodes == [] then []
    else
      var n := nodes[|nodes| - 1];
      MissingNodes(nodes[..|nodes| - 1], graphNodes) + (if n in graphNodes then [] else [n])
  }

  /** The missing nodes are exactly the zone's nodes outside the graph, in order. */
  lemma {:induction false} MissingNodesExact(nodes: seq<int>, graphNodes: set<int>)
    ensures forall n :: n in MissingNodes(nodes, graphNodes) <==> n in nodes && n !in graphNodes
    ensures |MissingNodes(nodes, graphNodes)| <= |nodes|
    ensures MissingNodes(nodes, graphNodes) == [] <==> NodesPresent(nodes, graphNodes)
  {
    if nodes != [] {
      var init := nodes[..|nodes| - 1];
      assert forall m :: m in nodes <==> m in init || m == nodes[|nodes| - 1];
      MissingNodesExact(init, graphNodes);
      var missing := MissingNodes(nodes, graphNodes);
      if missing != [] {
        assert missing[0] in missing;
      }
    }
  }

  /** `missing_by_zone`: the zones with a node outside the graph, in order, each with its missing nodes. */
  function MissingByZone(zones: seq<Zone>, graphNodes: set<int>): seq<(ZoneName, seq<int>)>
  {
    if zones == [] then []
    else
      var z := zones[|zones| - 1];
      var missing := MissingNodes(z.nodes, graphNodes);
      MissingByZone(zones[..|zones| - 1], graphNodes) + (if missing != [] then [(z.name, missing)] else [])
  }

  /** Every node of the zone is a node of the graph. */
  predicate NodesPresent(nodes: seq<int>, graphNodes: set<int>)
  {
    forall n :: n in nodes ==> n in graphNodes
  }

  /** `entry` is what `missing_by_zone` records for one of the zones. */
  predicate ReportedFor(zones: seq<Zone>, graphNodes: set<int>, entry: (ZoneName, seq<int>))
  {
    exists i :: 0 <= i < |zones| && entry == (zones[i].name, MissingNodes(zones[i].nodes, graphNodes))
  }

  /** Every reported zone is one of the zones, with its own non-empty list of missing nodes. */
  lemma {:induction false} MissingByZoneSound(zones: seq<Zone>, graphNodes: set<int>)
    ensures forall k :: 0 <= k < |MissingByZone(zones, graphNodes)| ==>
              MissingByZone(zones, graphNodes)[k].1 != [] &&
              ReportedFor(zones, graphNodes, MissingByZone(zones, graphNodes)[k])
  {
    if zones != [] {
      var init := zones[..|zones| - 1];
      var z := zones[|zones| - 1];
      var rest := MissingByZone(init, graphNodes);
      var r := MissingByZone(zones, graphNodes);
      MissingByZoneSound(init, graphNodes);
      forall k | 0 <= k < |r|
        ensures r[k].1 != [] && ReportedFor(zones, graphNodes, r[k])
      {
        if k < |rest| {
          assert r[k] == rest[k];
          assert ReportedFor(init, graphNodes, rest[k]);
          var i :| 0 <= i < |init| && rest[k] == (init[i].name, MissingNodes(init[i].nodes, graphNodes));
          assert init[i] == zones[i];
        } else {
          assert r[k] == (z.name, MissingNodes(z.nodes, graphNodes));
        }
      }
    }
  }

  /** Nothing is reported exactly when every node of every zone is in the graph. */
  lemma {:induction false} MissingByZoneEmptyIff(zones: seq<Zone>, graphNodes: set<int>)
    ensures MissingByZone(zones, graphNodes) == [] <==>
              forall i :: 0 <= i < |zones| ==> NodesPresent(zones[i].nodes, graphNodes)
  {
    if zones != [] {
      var init := zones[..|zones| - 1];
      var z := zones[|zones| - 1];
      MissingByZoneEmptyIff(init, graphNodes);
      MissingNodesExact(z.nodes, graphNodes);
      var missing := MissingNodes(z.nodes, graphNodes);
      assert MissingByZone(zones, graphNodes) ==
             MissingByZone(init, graphNodes) + (if missing != [] then [(z.name, missing)] else []);
      assert (forall i :: 0 <= i < |zones| ==> NodesPresent(zones[i].nodes, graphNodes)) <==>
             (forall i :: 0 <= i < |init| ==> NodesPresent(init[i].nodes, graphNodes)) && NodesPresent(z.nodes, graphNodes)
      by {
        assert forall i :: 0 <= i < |init| ==> init[i] == zones[i];
      }
    }
  }

  /** `validate_zone_nodes`: fail listing every zone that names a node not in the graph. */
  method ValidateZoneNodes(zones: seq<Zone>, graphNodes: set<int>) returns (r: Result<(), OdError>)
    ensures var missing := MissingByZone(zones, graphNodes);
            r == if missing == [] then Ok(()) else Err(NodesNotInGraph(missing))
  {
    var missingByZone: seq<(ZoneName, seq<int>)> := [];
    var i := 0;
    while i < |zones|
      invariant 0 <= i <= |zones|
      invariant missingByZone == MissingByZone(zones[..i], graphNodes)
    {
      var zone := zones[i];
      var missing: seq<int> := [];
      var j := 0;
      while j < |zone.nodes|
        invariant 0 <= j <= |zone.nodes|
        invariant missing == MissingNodes(zone.nodes[..j], graphNodes)
      {
        var node := zone.nodes[j];
        if node !in graphNodes {
          missing := missing + [node];
        }
        assert zone.nodes[..j + 1][..j] == zone.nodes[..j];
        j := j + 1;
      }
      assert zone.nodes[..j] == zone.nodes;
      if missing != [] {
        missingByZone := missingByZone + [(zone.name, missing)];
      }
      assert zones[..i + 1][..i] == zones[..i];
      i := i + 1;
    }
    assert zones[..i] == zones;
    if missingByZone != [] {
      return Err(NodesNotInGraph(missingByZone));
    }
    return Ok(());
  }

  // ---------------------------------------------------------------------
  // compute_zone_costs
  // ---------------------------------------------------------------------

  /** `lengths.get(node, math.inf)`. */
  function Distance(lengths: map<int, real>, node: int): Cost
  {
    if node in lengths then Finite(lengths[node]) else Inf
  }

  /** The running minimum over `nodes`, starting from `math.inf` and replacing it only on `<`. */
  function MinCost(lengths: map<int, real>, nodes: seq<int>): (c: Cost)
    ensures c.Inf? <==> forall n :: n in nodes ==> n !in lengths
    ensures c.Finite? ==> exists n :: n in nodes && n in lengths && lengths[n] == c.value
    ensures forall n :: n in nodes && n in lengths ==> c.Finite? && c.value <= lengths[n]
  {
    if nodes == [] then Inf
    else
      var init := nodes[..|nodes| - 1];
      var n := nodes[|nodes| - 1];
      assert forall m :: m in nodes <==> m in init || m == n;
      var best := MinCost(lengths, init);
      var cost := Distance(lengths, n);
      if Below(cost, best) then cost else best
  }

  /** One origin's row: each destination zone's minimum over its nodes. */
  function CostRow(lengths: map<int, real>, destinations: seq<Zone>): (row: map<ZoneName, Cost>)
    ensures forall d :: d in row <==> d in Names(destinations)
  {
    if destinations == [] then map[]
    else
      var init := destinations[..|destinations| - 1];
      var z := destinations[|destinations| - 1];
      assert forall d :: d in Names(destinations) <==> d in Names(init) || d == z.name by {
        assert Names(destinations) == Names(init) + [z.name];
      }
      CostRow(lengths, init)[z.name := MinCost(lengths, z.nodes)]
  }

  /**
   * The cost table. `shortest(sources)` is the map from every node reachable from
   * `sources` to its shortest distance (networkx's multi-source Dijkstra).
   */
  function ZoneCosts(origins: seq<Zone>, zones: seq<Zone>, shortest: seq<int> -> map<int, real>): (costs: map<ZoneName, map<ZoneName, Cost>>)
    ensures forall o :: o in costs <==> o in Names(origins)
    ensures forall o, d :: o in costs ==> (d in costs[o] <==> d in Names(zones))
  {
    if origins == [] then map[]
    else
      var init := origins[..|origins| - 1];
      var o := origins[|origins| - 1];
      assert Names(origins) == Names(init) + [o.name];
      ZoneCosts(init, zones, shortest)[o.name := CostRow(shortest(o.nodes), zones)]
  }

  /**
   * With distinct names, `costs[o][d]` is the least shortest distance from o's nodes to
   * any of d's nodes: no reachable node of d is closer, it is attained, and it is `math.inf`
   * exactly when no node of d is reachable (in particular when d has no nodes).
   */
  lemma {:induction false} ZoneCostsAreMinima(zones: seq<Zone>, shortest: seq<int> -> map<int, real>, i: nat, j: nat)
    requires Distinct(Names(zones)) && i < |zones| && j < |zones|
    ensures var costs := ZoneCosts(zones, zones, shortest);
            var lengths := shortest(zones[i].nodes);
            var c := costs[zones[i].name][zones[j].name];
            c == MinCost(lengths, zones[j].nodes) &&
            (forall n :: n in zones[j].nodes && n in lengths ==> c.Finite? && c.value <= lengths[n]) &&
            (c.Finite? ==> exists n :: n in zones[j].nodes && n in lengths && lengths[n] == c.value) &&
            (c.Inf? <==> forall n :: n in zones[j].nodes ==> n !in lengths)
  {
    ZoneCostsEntry(zones, zones, shortest, i);
    CostRowEntry(shortest(zones[i].nodes), zones, j);
  }

  lemma {:induction false} ZoneCostsEntry(origins: seq<Zone>, zones: seq<Zone>, shortest: seq<int> -> map<int, real>, i: nat)
    requires Distinct(Names(origins)) && i < |origins|
    ensures ZoneCosts(origins, zones, shortest)[origins[i].name] == CostRow(shortest(origins[i].nodes), zones)
  {
    var init := origins[..|origins| - 1];
    assert Names(origins) == Names(init) + [origins[|origins| - 1].name];
    if i < |origins| - 1 {
      assert Names(init)[i] == origins[i].name;
      assert origins[i].name != origins[|origins| - 1].name by {
        assert Names(origins)[i] != Names(origins)[|origins| - 1];
      }
      assert Distinct(Names(init)) by {
        forall a, b | 0 <= a < b < |init| ensures Names(init)[a] != Names(init)[b] {
          assert Names(origins)[a] != Names(origins)[b];
        }
      }
      ZoneCostsEntry(init, zones, shortest, i);
      assert init[i] == origins[i];
    }
  }

  lemma {:induction false} CostRowEntry(lengths: map<int, real>, zones: seq<Zone>, j: nat)
    requires Distinct(Names(zones)) && j < |zones|
    ensures CostRow(lengths, zones)[zones[j].name] == MinCost(lengths, zones[j].nodes)
  {
    var init := zones[..|zones| - 1];
    assert Names(zones) == Names(init) + [zones[|zones| - 1].name];
    if j < |zones| - 1 {
      assert zones[j].name != zones[|zones| - 1].name by {
        assert Names(zones)[j] != Names(zones)[|zones| - 1];
      }
      assert Distinct(Names(init)) by {
        forall a, b | 0 <= a < b < |init| ensures Names(init)[a] != Names(init)[b] {
          assert Names(zones)[a] != Names(zones)[b];
        }
      }
      CostRowEntry(lengths, init, j);
      assert init[j] == zones[j];
    }
  }

  lemma MinCostStep(lengths: map<int, real>, nodes: seq<int>, k: nat)
    requires k < |nodes|
    ensures var best := MinCost(lengths, nodes[..k]);
            var cost := Distance(lengths, nodes[k]);
            MinCost(lengths, nodes[..k + 1]) == if Below(cost, best) then cost else best
  {
    assert nodes[..k + 1][..k] == nodes[..k];
  }

  lemma CostRowStep(lengths: map<int, real>, zones: seq<Zone>, j: nat)
    requires j < |zones|
    ensures CostRow(lengths, zones[..j + 1]) == CostRow(lengths, zones[..j])[zones[j].name := MinCost(lengths, zones[j].nodes)]
  {
    assert zones[..j + 1][..j] == zones[..j];
  }

  lemma ZoneCostsStep(origins: seq<Zone>, zones: seq<Zone>, shortest: seq<int> -> map<int, real>, i: nat)
    requires i < |origins|
    ensures ZoneCosts(origins[..i + 1], zones, shortest) ==
            ZoneCosts(origins[..i], zones, shortest)[origins[i].name := CostRow(shortest(origins[i].nodes), zones)]
  {
    assert origins[..i + 1][..i] == origins[..i];
  }

  /** The body of `compute_zone_costs` for one origin: a running minimum per destination zone. */
  method ComputeCostRow(lengths: map<int, real>, zones: seq<Zone>) returns (zoneCosts: map<ZoneName, Cost>)
    ensures zoneCosts == CostRow(lengths, zones)
  {
    zoneCosts := map[];
    var j := 0;
    while j < |zones|
      invariant 0 <= j <= |zones|
      invariant zoneCosts == CostRow(lengths, zones[..j])
    {
      var destination := zones[j];
      var minCost := Inf;
      var k := 0;
      while k < |destination.nodes|
        invariant 0 <= k <= |destination.nodes|
        invariant minCost == MinCost(lengths, destination.nodes[..k])
      {
        var node := destination.nodes[k];
        var cost := if node in lengths then Finite(lengths[node]) else Inf;
        MinCostStep(lengths, destination.nodes, k);
        if Below(cost, minCost) {
          minCost := cost;
        }
        k := k + 1;
      }
      assert destination.nodes[..k] == destination.nodes;
      CostRowStep(lengths, zones, j);
      zoneCosts := zoneCosts[destination.name := minCost];
      j := j + 1;
    }
    assert zones[..j] == zones;
  }

  /**
   * `compute_zone_costs`: for each origin, one shortest-distance map and a minimum per
   * destination. `multi_source_dijkstra_path_length` raises `ValueError` on an empty list
   * of sources, so the first origin without nodes stops the computation.
   */
  method ComputeZoneCosts(zones: seq<Zone>, shortest: seq<int> -> map<int, real>)
    returns (r: Result<map<ZoneName, map<ZoneName, Cost>>, OdError>)
    ensures r.Err? <==> exists i :: 0 <= i < |zones| && zones[i].nodes == []
    ensures r.Err? ==> exists i :: 0 <= i < |zones| && zones[i].nodes == [] && r.error == NoSources(zones[i].name) &&
                                   forall k :: 0 <= k < i ==> zones[k].nodes != []
    ensures r.Ok? ==> r.value == ZoneCosts(zones, zones, shortest)
  {
    var costs := map[];
    var i := 0;
    while i < |zones|
      invariant 0 <= i <= |zones|
      invariant forall k :: 0 <= k < i ==> zones[k].nodes != []
      invariant costs == ZoneCosts(zones[..i], zones, shortest)
    {
      var origin := zones[i];
      if origin.nodes == [] {
        return Err(NoSources(origin.name));
      }
      var lengths := shortest(origin.nodes);
      var zoneCosts := ComputeCostRow(lengths, zones);
      ZoneCostsStep(zones, zones, shortest, i);
      costs := costs[origin.name := zoneCosts];
      i := i + 1;
    }
    assert zones[..i] == zones;
    return Ok(costs);
  }

  // ---------------------------------------------------------------------
  // impedance
  // ---------------------------------------------------------------------

  /** `math.exp` and `cost ** (-gamma)`, as given functions on exact reals. */
  datatype Decay = Decay(exp: real -> real, pow: (real, real) -> real)

  ghost predicate NonNegativeDecay(f: Decay)
  {
    (forall x :: f.exp(x) >= 0.0) && (forall x, y :: f.pow(x, y) >= 0.0)
  }

  /** The friction names the generator accepts. */
  predicate Supported(friction: string)
  {
    friction == "exponential" || friction == "power"
  }

  /** A cost the impedance evaluates: finite and not negative. */
  predicate Usable(cost: Cost)
  {
    cost.Finite? && cost.value >= 0.0
  }

  /** `impedance`: the deterrence weight of a travel cost. */
  function Impedance(cost: Cost, friction: string, beta: real, gamma: real, f: Decay): Result<real, OdError>
  {
    if !cost.Finite? || cost.value < 0.0 then Ok(0.0)
    else if friction == "exponential" then Ok(f.exp(-beta * cost.value))
    else if friction == "power" then
      if cost.value == 0.0 then Ok(0.0) else Ok(f.pow(cost.value, -gamma))
    else Err(UnsupportedFriction(friction))
  }

  /**
   * Unreachable (infinite) and negative costs weigh nothing; an unsupported friction
   * name raises exactly when the cost is usable; and a zero cost weighs nothing under the
   * power law.
   */
  lemma ImpedanceCases(cost: Cost, friction: string, beta: real, gamma: real, f: Decay)
    ensures !Usable(cost) ==> Impedance(cost, friction, beta, gamma, f) == Ok(0.0)
    ensures Impedance(cost, friction, beta, gamma, f).Err? <==> Usable(cost) && !Supported(friction)
    ensures Impedance(cost, friction, beta, gamma, f).Err? ==>
              Impedance(cost, friction, beta, gamma, f).error == UnsupportedFriction(friction)
    ensures friction == "power" && cost == Finite(0.0) ==> Impedance(cost, friction, beta, gamma, f) == Ok(0.0)
  {
  }

  /** When exp and pow never return a negative number, neither does the impedance. */
  lemma ImpedanceNonNegative(cost: Cost, friction: string, beta: real, gamma: real, f: Decay)
    requires NonNegativeDecay(f)
    requires Impedance(cost, friction, beta, gamma, f).Ok?
    ensures Impedance(cost, friction, beta, gamma, f).value >= 0.0
  {
    if Usable(cost) && friction == "exponential" {
      assert f.exp(-beta * cost.value) >= 0.0;
    } else if Usable(cost) && friction == "power" && cost.value != 0.0 {
      assert f.pow(cost.value, -gamma) >= 0.0;
    }
  }

  // ---------------------------------------------------------------------
  // gravity_matrix
  // ---------------------------------------------------------------------

  /** The inputs of `gravity_matrix`. */
  datatype Gravity = Gravity(zones: seq<ZoneName>, productions: map<ZoneName, real>, attractions: map<ZoneName, real>,
                             costs: map<ZoneName, map<ZoneName, Cost>>, friction: string, beta: real, gamma: real,
                             allowSelfTrips: bool, decay: Decay)

  /** Every zone has a production, an attraction and a cost to every zone (the source indexes them). */
  ghost predicate Covered(g: Gravity)
  {
    && (forall z :: z in g.zones ==> z in g.productions && z in g.attractions && z in g.costs)
    && (forall o, d :: o in g.zones && d in g.zones ==> d in g.costs[o])
  }

  /** The pair (o, d) enters the row: not a self trip, or self trips are allowed. */
  predicate Considered(g: Gravity, o: ZoneName, d: ZoneName)
  {
    d != o || g.allowSelfTrips
  }

  function Imp(g: Gravity, o: ZoneName, d: ZoneName): Result<real, OdError>
    requires Covered(g) && o in g.zones && d in g.zones
  {
    Impedance(g.costs[o][d], g.friction, g.beta, g.gamma, g.decay)
  }

  /** Some considered destination of `o` among `ds` makes `impedance` raise. */
  ghost predicate RowFails(g: Gravity, o: ZoneName, ds: seq<ZoneName>)
    requires Covered(g) && o in g.zones && forall d :: d in ds ==> d in g.zones
  {
    exists d :: d in ds && Considered(g, o, d) && Imp(g, o, d).Err?
  }

  /** The matrix cannot be built: some considered pair raises in `impedance`. */
  ghost predicate Fails(g: Gravity)
    requires Covered(g)
  {
    exists o :: o in g.zones && RowFails(g, o, g.zones)
  }

  /** `attractions[destination] * impedance_value`. */
  function Weight(attraction: real, impedance: real): real
  {
    attraction * impedance
  }

  /** `weights.get(d, 0.0)`: the weight of a considered destination, when positive. */
  function Contribution(g: Gravity, o: ZoneName, d: ZoneName): (w: real)
    requires Covered(g) && o in g.zones && d in g.zones
    ensures w >= 0.0
  {
    if !Considered(g, o, d) then 0.0
    else match Imp(g, o, d)
      case Err(_) => 0.0
      case Ok(v) => var w := Weight(g.attractions[d], v); if w > 0.0 then w else 0.0
  }

  /** A destination contributes exactly its weight attraction × impedance, when considered and positive. */
  lemma ContributionIsPositiveWeight(g: Gravity, o: ZoneName, d: ZoneName)
    requires Covered(g) && o in g.zones && d in g.zones
    ensures Contribution(g, o, d) > 0.0 <==>
              Considered(g, o, d) && Imp(g, o, d).Ok? && g.attractions[d] * Imp(g, o, d).value > 0.0
    ensures Contribution(g, o, d) > 0.0 ==> Contribution(g, o, d) == g.attractions[d] * Imp(g, o, d).value
  {
  }

  lemma ContributionOfWeight(g: Gravity, o: ZoneName, d: ZoneName, v: real)
    requires Covered(g) && o in g.zones && d in g.zones
    requires Considered(g, o, d) && Imp(g, o, d) == Ok(v)
    ensures Contribution(g, o, d) == if Weight(g.attractions[d], v) > 0.0 then Weight(g.attractions[d], v) else 0.0
  {
  }

  /** `total_weight` after the destinations `ds`. */
  function RowTotal(g: Gravity, o: ZoneName, ds: seq<ZoneName>): (t: real)
    requires Covered(g) && o in g.zones && forall d :: d in ds ==> d in g.zones
    ensures t >= 0.0
  {
    if ds == [] then 0.0
    else RowTotal(g, o, ds[..|ds| - 1]) + Contribution(g, o, ds[|ds| - 1])
  }

  lemma RowTotalStep(g: Gravity, o: ZoneName, ds: seq<ZoneName>, j: nat)
    requires Covered(g) && o in g.zones && (forall d :: d in ds ==> d in g.zones) && j < |ds|
    ensures RowTotal(g, o, ds[..j + 1]) == RowTotal(g, o, ds[..j]) + Contribution(g, o, ds[j])
  {
    assert ds[..j + 1][..j] == ds[..j];
  }

  /** `productions[origin] * share` with `share = contribution / total_weight`. */
  function Portion(production: real, contribution: real, total: real): real
    requires total != 0.0
  {
    production * (contribution / total)
  }

  /** `matrix[o][d]`. */
  function Entry(g: Gravity, o: ZoneName, d: ZoneName): real
    requires Covered(g) && o in g.zones && d in g.zones
  {
    var total := RowTotal(g, o, g.zones);
    if total == 0.0 then 0.0
    else if !Considered(g, o, d) then 0.0
    else Portion(g.productions[o], Contribution(g, o, d), total)
  }

  function Row(g: Gravity, o: ZoneName, ds: seq<ZoneName>): (row: map<ZoneName, real>)
    requires Covered(g) && o in g.zones && forall d :: d in ds ==> d in g.zones
    ensures forall d :: d in row <==> d in ds
    ensures forall d :: d in row ==> row[d] == Entry(g, o, d)
  {
    map d | d in ds :: Entry(g, o, d)
  }

  lemma RowStep(g: Gravity, o: ZoneName, ds: seq<ZoneName>, k: nat)
    requires Covered(g) && o in g.zones && (forall d :: d in ds ==> d in g.zones) && k < |ds|
    ensures Row(g, o, ds[..k + 1]) == Row(g, o, ds[..k])[ds[k] := Entry(g, o, ds[k])]
  {
    assert ds[..k + 1] == ds[..k] + [ds[k]];
  }

  function MatrixOf(g: Gravity, os: seq<ZoneName>): (m: map<ZoneName, map<ZoneName, real>>)
    requires Covered(g) && forall o :: o in os ==> o in g.zones
    ensures forall o :: o in m <==> o in os
    ensures forall o :: o in m ==> m[o] == Row(g, o, g.zones)
  {
    map o | o in os :: Row(g, o, g.zones)
  }

  lemma MatrixStep(g: Gravity, os: seq<ZoneName>, i: nat)
    requires Covered(g) && (forall o :: o in os ==> o in g.zones) && i < |os|
    ensures MatrixOf(g, os[..i + 1]) == MatrixOf(g, os[..i])[os[i] := Row(g, os[i], g.zones)]
  {
    assert os[..i + 1] == os[..i] + [os[i]];
  }

  /** The O-D matrix, or the `ValueError` some considered pair raises. */
  ghost function GravityMatrix(g: Gravity): Result<map<ZoneName, map<ZoneName, real>>, OdError>
    requires Covered(g)
  {
    if Fails(g) then Err(UnsupportedFriction(g.friction)) else Ok(MatrixOf(g, g.zones))
  }

  /**
   * The matrix fails exactly when the friction name is unsupported and some considered pair
   * has a finite, non-negative cost; otherwise every origin and destination zone has an entry.
   */
  lemma GravityMatrixFailsIff(g: Gravity)
    requires Covered(g)
    ensures GravityMatrix(g).Err? <==>
              !Supported(g.friction) &&
              exists o, d :: o in g.zones && d in g.zones && Considered(g, o, d) && Usable(g.costs[o][d])
    ensures GravityMatrix(g).Ok? ==>
              forall o, d :: o in g.zones && d in g.zones ==>
                o in GravityMatrix(g).value && d in GravityMatrix(g).value[o] &&
                GravityMatrix(g).value[o][d] == Entry(g, o, d)
  {
    if Fails(g) {
      var o :| o in g.zones && RowFails(g, o, g.zones);
      var d :| d in g.zones && Considered(g, o, d) && Imp(g, o, d).Err?;
      ImpedanceCases(g.costs[o][d], g.friction, g.beta, g.gamma, g.decay);
    }
    if !Supported(g.friction) && exists o, d :: o in g.zones && d in g.zones && Considered(g, o, d) && Usable(g.costs[o][d]) {
      var o, d :| o in g.zones && d in g.zones && Considered(g, o, d) && Usable(g.costs[o][d]);
      ImpedanceCases(g.costs[o][d], g.friction, g.beta, g.gamma, g.decay);
      assert RowFails(g, o, g.zones);
    }
  }

  /** Without self trips, the diagonal is exactly zero. */
  lemma SelfTripsExcluded(g: Gravity, o: ZoneName)
    requires Covered(g) && o in g.zones && !g.allowSelfTrips
    ensures Entry(g, o, o) == 0.0
  {
  }

  /** A row whose total weight is zero is all zeros, self entry included. */
  lemma ZeroTotalGivesZeroRow(g: Gravity, o: ZoneName, d: ZoneName)
    requires Covered(g) && o in g.zones && d in g.zones
    requires RowTotal(g, o, g.zones) == 0.0
    ensures Entry(g, o, d) == 0.0
  {
  }

  /** Each destination's contribution is at most the row total. */
  lemma {:induction false} ContributionBelowTotal(g: Gravity, o: ZoneName, ds: seq<ZoneName>, d: ZoneName)
    requires Covered(g) && o in g.zones && (forall x :: x in ds ==> x in g.zones) && d in ds
    ensures Contribution(g, o, d) <= RowTotal(g, o, ds)
  {
    var init := ds[..|ds| - 1];
    assert forall x :: x in ds <==> x in init || x == ds[|ds| - 1];
    if d != ds[|ds| - 1] {
      ContributionBelowTotal(g, o, init, d);
    }
  }

  /**
   * With a non-zero total, the total is positive and every considered destination gets the
   * share contribution/total, which lies in [0, 1]; a destination without positive weight
   * gets 0; and the entry is not negative when the production is not.
   */
  lemma SharesAreFractions(g: Gravity, o: ZoneName, d: ZoneName)
    requires Covered(g) && o in g.zones && d in g.zones
    requires RowTotal(g, o, g.zones) != 0.0
    ensures var t := RowTotal(g, o, g.zones);
            var share := Contribution(g, o, d) / t;
            t > 0.0 && 0.0 <= share <= 1.0 &&
            (Considered(g, o, d) ==> Entry(g, o, d) == Portion(g.productions[o], Contribution(g, o, d), t)) &&
            (Contribution(g, o, d) == 0.0 ==> Entry(g, o, d) == 0.0) &&
            (g.productions[o] >= 0.0 ==> Entry(g, o, d) >= 0.0)
  {
    var t := RowTotal(g, o, g.zones);
    var c := Contribution(g, o, d);
    ContributionBelowTotal(g, o, g.zones, d);
    DivBounds(c, t);
    PortionNonNegative(g.productions[o], c, t);
    ZeroShare(g.productions[o], t);
  }

  lemma DivBounds(c: real, t: real)
    requires 0.0 <= c <= t && t > 0.0
    ensures 0.0 <= c / t <= 1.0
  {
  }

  lemma PortionNonNegative(p: real, c: real, t: real)
    requires c >= 0.0 && t > 0.0
    ensures p >= 0.0 ==> Portion(p, c, t) >= 0.0
  {
    if p >= 0.0 {
      assert c / t >= 0.0;
    }
  }

  /** The sum of a row's values over the destinations `ds`. */
  function RowSum(row: map<ZoneName, real>, ds: seq<ZoneName>): real
    requires forall d :: d in ds ==> d in row
  {
    if ds == [] then 0.0 else RowSum(row, ds[..|ds| - 1]) + row[ds[|ds| - 1]]
  }

  /** Every value of `row`, as a share `p * (w / t)` of the same key's value in `weights`. */
  function Scaled(p: real, weights: map<ZoneName, real>, t: real): (row: map<ZoneName, real>)
    requires t != 0.0
    ensures forall d :: d in row <==> d in weights
  {
    map d | d in weights :: Portion(p, weights[d], t)
  }

  lemma {:induction false} ScaledSum(p: real, weights: map<ZoneName, real>, t: real, ds: seq<ZoneName>)
    requires t != 0.0 && forall d :: d in ds ==> d in weights
    ensures RowSum(Scaled(p, weights, t), ds) == Portion(p, RowSum(weights, ds), t)
  {
    if ds != [] {
      var init := ds[..|ds| - 1];
      var d := ds[|ds| - 1];
      ScaledSum(p, weights, t, init);
      SumStep(RowSum(Scaled(p, weights, t), init), Scaled(p, weights, t)[d], p, RowSum(weights, init), weights[d], t);
    }
  }

  lemma SumStep(x: real, y: real, p: real, a: real, c: real, t: real)
    requires t != 0.0 && x == Portion(p, a, t) && y == Portion(p, c, t)
    ensures x + y == Portion(p, a + c, t)
  {
    assert a / t + c / t == (a + c) / t;
  }

  /** Shares of a non-zero total add up to the whole: the sum of `p * (w / total)` is `p`. */
  lemma SharesAddUp(p: real, weights: map<ZoneName, real>, ds: seq<ZoneName>)
    requires forall d :: d in ds ==> d in weights
    requires RowSum(weights, ds) != 0.0
    ensures RowSum(Scaled(p, weights, RowSum(weights, ds)), ds) == p
  {
    var t := RowSum(weights, ds);
    ScaledSum(p, weights, t, ds);
    PortionOfWhole(p, t);
  }

  lemma PortionOfWhole(p: real, t: real)
    requires t != 0.0
    ensures Portion(p, t, t) == p
  {
    assert t / t == 1.0;
  }

  /** Every destination's contribution: what `weights.get(d, 0.0)` reads for each zone. */
  function Contributions(g: Gravity, o: ZoneName): (w: map<ZoneName, real>)
    requires Covered(g) && o in g.zones
    ensures forall d :: d in w <==> d in g.zones
  {
    map d | d in g.zones :: Contribution(g, o, d)
  }

  lemma {:induction false} RowTotalIsSum(g: Gravity, o: ZoneName, ds: seq<ZoneName>)
    requires Covered(g) && o in g.zones && forall d :: d in ds ==> d in g.zones
    ensures RowTotal(g, o, ds) == RowSum(Contributions(g, o), ds)
  {
    if ds != [] {
      RowTotalIsSum(g, o, ds[..|ds| - 1]);
    }
  }

  /** With a non-zero total, a row is the production split in proportion to the contributions. */
  lemma RowIsScaled(g: Gravity, o: ZoneName)
    requires Covered(g) && o in g.zones
    requires RowTotal(g, o, g.zones) != 0.0
    ensures Row(g, o, g.zones) == Scaled(g.productions[o], Contributions(g, o), RowTotal(g, o, g.zones))
  {
    var t := RowTotal(g, o, g.zones);
    var p := g.productions[o];
    var row := Row(g, o, g.zones);
    var scaled := Scaled(p, Contributions(g, o), t);
    forall d | d in g.zones ensures row[d] == scaled[d] {
      if !Considered(g, o, d) {
        ZeroShare(p, t);
      }
    }
  }

  lemma ZeroShare(p: real, t: real)
    requires t != 0.0
    ensures Portion(p, 0.0, t) == 0.0
  {
  }

  /** A row with a non-zero total sums to the origin's production (exact arithmetic). */
  lemma RowSumsToProduction(g: Gravity, o: ZoneName)
    requires Covered(g) && o in g.zones
    requires RowTotal(g, o, g.zones) != 0.0
    ensures RowSum(Row(g, o, g.zones), g.zones) == g.productions[o]
  {
    RowTotalIsSum(g, o, g.zones);
    RowIsScaled(g, o);
    SharesAddUp(g.productions[o], Contributions(g, o), g.zones);
  }

  /** `weights.get(d, 0.0)` on the accumulated weights. */
  function WeightOf(weights: map<ZoneName, real>, d: ZoneName): real
  {
    if d in weights then weights[d] else 0.0
  }

  /**
   * The first loop of `gravity_matrix` for one origin: the positive weights and their total,
   * or `failed` when a considered destination makes `impedance` raise.
   */
  method AccumulateWeights(g: Gravity, origin: ZoneName)
    returns (failed: bool, weights: map<ZoneName, real>, totalWeight: real)
    requires Covered(g) && origin in g.zones
    ensures failed <==> RowFails(g, origin, g.zones)
    ensures !failed ==> totalWeight == RowTotal(g, origin, g.zones) &&
                        forall d :: d in g.zones ==> WeightOf(weights, d) == Contribution(g, origin, d)
  {
    var zones := g.zones;
    totalWeight := 0.0;
    weights := map[];
    var j := 0;
    while j < |zones|
      invariant 0 <= j <= |zones|
      invariant totalWeight == RowTotal(g, origin, zones[..j])
      invariant forall d :: d in zones[..j] ==> WeightOf(weights, d) == Contribution(g, origin, d)
      invariant forall d :: d in weights ==> d in zones[..j]
      invariant !RowFails(g, origin, zones[..j])
    {
      var destination := zones[j];
      assert zones[..j + 1] == zones[..j] + [destination];
      RowTotalStep(g, origin, zones, j);
      if destination == origin && !g.allowSelfTrips {
        assert Contribution(g, origin, destination) == 0.0;
        j := j + 1;
        continue;
      }
      assert destination in g.zones;
      var cost := g.costs[origin][destination];
      var impedanceValue := Impedance(cost, g.friction, g.beta, g.gamma, g.decay);
      if impedanceValue.Err? {
        assert RowFails(g, origin, zones) by {
          assert Imp(g, origin, destination).Err?;
        }
        return true, weights, totalWeight;
      }
      assert Imp(g, origin, destination) == impedanceValue;
      var weight := Weight(g.attractions[destination], impedanceValue.value);
      ContributionOfWeight(g, origin, destination, impedanceValue.value);
      if weight > 0.0 {
        assert Contribution(g, origin, destination) == weight;
        weights := weights[destination := weight];
        totalWeight := totalWeight + weight;
      } else {
        assert Contribution(g, origin, destination) == 0.0;
      }
      j := j + 1;
    }
    assert zones[..j] == zones;
    return false, weights, totalWeight;
  }

  /** The second part of `gravity_matrix` for one origin: the row from the weights and their total. */
  method FillRow(g: Gravity, origin: ZoneName, weights: map<ZoneName, real>, totalWeight: real)
    returns (row: map<ZoneName, real>)
    requires Covered(g) && origin in g.zones
    requires totalWeight == RowTotal(g, origin, g.zones)
    requires forall d :: d in g.zones ==> WeightOf(weights, d) == Contribution(g, origin, d)
    ensures row == Row(g, origin, g.zones)
  {
    var zones := g.zones;
    row := map[];
    if totalWeight == 0.0 {
      var k := 0;
      while k < |zones|
        invariant 0 <= k <= |zones|
        invariant row == Row(g, origin, zones[..k])
      {
        RowStep(g, origin, zones, k);
        row := row[zones[k] := 0.0];
        k := k + 1;
      }
      assert zones[..k] == zones;
    } else {
      row := ShareRow(g, origin, weights, totalWeight);
    }
  }

  /** With a non-zero total, a destination's entry is zero for a barred self trip and its share otherwise. */
  lemma ShareEntry(g: Gravity, origin: ZoneName, weights: map<ZoneName, real>, totalWeight: real, d: ZoneName)
    requires Covered(g) && origin in g.zones && d in g.zones
    requires totalWeight == RowTotal(g, origin, g.zones) && totalWeight != 0.0
    requires WeightOf(weights, d) == Contribution(g, origin, d)
    ensures Entry(g, origin, d) ==
            if d == origin && !g.allowSelfTrips then 0.0 else Portion(g.productions[origin], WeightOf(weights, d), totalWeight)
  {
  }

  /** The `else` branch of the row loop: each destination's share of the origin's production. */
  method ShareRow(g: Gravity, origin: ZoneName, weights: map<ZoneName, real>, totalWeight: real)
    returns (row: map<ZoneName, real>)
    requires Covered(g) && origin in g.zones
    requires totalWeight == RowTotal(g, origin, g.zones) && totalWeight != 0.0
    requires forall d :: d in g.zones ==> WeightOf(weights, d) == Contribution(g, origin, d)
    ensures row == Row(g, origin, g.zones)
  {
    var zones := g.zones;
    row := map[];
    var k := 0;
    while k < |zones|
      invariant 0 <= k <= |zones|
      invariant row == Row(g, origin, zones[..k])
    {
      var destination := zones[k];
      RowStep(g, origin, zones, k);
      ShareEntry(g, origin, weights, totalWeight, destination);
      if destination == origin && !g.allowSelfTrips {
        row := row[destination := 0.0];
        k := k + 1;
        continue;
      }
      var contribution := if destination in weights then weights[destination] else 0.0;
      row := row[destination := Portion(g.productions[origin], contribution, totalWeight)];
      k := k + 1;
    }
    assert zones[..k] == zones;
  }

  /** `gravity_matrix`: per origin, accumulate the positive weights, then fill the row. */
  method BuildGravityMatrix(g: Gravity) returns (r: Result<map<ZoneName, map<ZoneName, real>>, OdError>)
    requires Covered(g)
    ensures r == GravityMatrix(g)
  {
    var zones := g.zones;
    var matrix: map<ZoneName, map<ZoneName, real>> := map[];
    var i := 0;
    while i < |zones|
      invariant 0 <= i <= |zones|
      invariant matrix == MatrixOf(g, zones[..i])
      invariant forall o :: o in zones[..i] ==> !RowFails(g, o, zones)
    {
      var origin := zones[i];
      var failed, weights, totalWeight := AccumulateWeights(g, origin);
      if failed {
        return Err(UnsupportedFriction(g.friction));
      }
      var row := FillRow(g, origin, weights, totalWeight);
      MatrixStep(g, zones, i);
      matrix := matrix[origin := row];
      i := i + 1;
    }
    assert zones[..i] == zones;
    return Ok(matrix);
  }
}

/**
 * The rules of the Nagel-Schreckenberg cellular automaton as the simulation
 * engine applies them (src/traffic_simulation.py), written as functions on
 * values. The class in traffic_simulation.dfy runs these rules step by step
 * and is proved equal to them; the lemmas here state what the rules keep.
 */
module NagelSchreckenberg {
  import opened Wrappers

  /** An edge of the directed multigraph: origin node, destination node, parallel key. */
  datatype Edge = Edge(u: int, v: int, key: int)

  /** The `Vehicle` record (its display colour is not modelled). */
  datatype Vehicle = Vehicle(id: int, edge: Edge, position: int, velocity: int, vMax: int)

  /** One edge's row of the occupancy ledger: cell -> vehicle id. */
  type Row = map<int, int>

  /** The occupancy ledger `edge_occupation`: edge -> row. */
  type Occupancy = map<Edge, Row>

  /** The vehicles and the ledger together. */
  datatype Traffic = Traffic(vehicles: seq<Vehicle>, occ: Occupancy)

  function Max(a: int, b: int): int { if a >= b then a else b }
  function Min(a: int, b: int): int { if a <= b then a else b }

  /** `edge_occupation[e]` of a defaultdict: an edge never written has an empty row. */
  function RowOf(occ: Occupancy, e: Edge): Row
  {
    if e in occ then occ[e] else map[]
  }

  /** `del edge_occupation[e][p]` (the caller has checked that p is present). */
  function Vacate(occ: Occupancy, e: Edge, p: int): Occupancy
  {
    occ[e := RowOf(occ, e) - {p}]
  }

  /** `edge_occupation[e][p] = id`. */
  function Occupy(occ: Occupancy, e: Edge, p: int, id: int): Occupancy
  {
    occ[e := RowOf(occ, e)[p := id]]
  }

  // ---------------------------------------------------------------------
  // Discretization of edges into cells
  // ---------------------------------------------------------------------

  /** `np.ceil` on an exact real. */
  function Ceil(x: real): (c: int)
    ensures c as real - 1.0 < x <= c as real
  {
    -((-x).Floor)
  }

  /** `max(1, int(np.ceil(length / cell_length)))`. */
  function CellCount(length: real, cellLength: real): (n: int)
    requires cellLength != 0.0
    ensures n >= 1
  {
    Max(1, Ceil(length / cellLength))
  }

  /** The number of cells is the least count of cells (at least one) that covers the edge. */
  lemma CellCountCovers(length: real, cellLength: real)
    requires cellLength > 0.0
    ensures var n := CellCount(length, cellLength);
            (n == 1 <==> length <= cellLength) &&
            (n > 1 ==> (n - 1) as real * cellLength < length <= n as real * cellLength)
  {
    var x := length / cellLength;
    var c := Ceil(x);
    assert length == x * cellLength;
    if c > 1 {
      assert (c - 1) as real < x <= c as real;
      assert (c - 1) as real * cellLength < x * cellLength by {
        MulStrict((c - 1) as real, x, cellLength);
      }
      assert x * cellLength <= c as real * cellLength by {
        MulMono(x, c as real, cellLength);
      }
    } else {
      assert x <= 1.0;
      MulMono(x, 1.0, cellLength);
    }
    if length <= cellLength {
      assert x * cellLength <= 1.0 * cellLength;
      MulCancel(x, 1.0, cellLength);
    }
  }

  lemma MulStrict(a: real, b: real, k: real)
    requires a < b && k > 0.0
    ensures a * k < b * k
  {
  }

  lemma MulMono(a: real, b: real, k: real)
    requires a <= b && k > 0.0
    ensures a * k <= b * k
  {
  }

  lemma MulCancel(a: real, b: real, k: real)
    requires a * k <= b * k && k > 0.0
    ensures a <= b
  {
  }

  /** The length an edge ends up with: its stored `length`, else the great-circle distance. */
  function EdgeLength(lengths: map<Edge, real>, greatCircle: Edge -> real, e: Edge): real
  {
    if e in lengths then lengths[e] else greatCircle(e)
  }

  // ---------------------------------------------------------------------
  // The network
  // ---------------------------------------------------------------------

  /** After discretization every edge, and only an edge, has a cell count of at least one. */
  ghost predicate WellFormed(edges: seq<Edge>, cells: map<Edge, int>)
  {
    && (forall e :: e in cells <==> e in edges)
    && (forall e :: e in cells ==> cells[e] >= 1)
  }

  /** `graph.out_edges(node, keys=True)`: the edges leaving `node`, in edge-list order. */
  function OutEdges(edges: seq<Edge>, node: int): (r: seq<Edge>)
    ensures forall e :: e in r <==> e in edges && e.u == node
    ensures |r| <= |edges|
  {
    if edges == [] then []
    else (if edges[0].u == node then [edges[0]] else []) + OutEdges(edges[1..], node)
  }

  /** `sum(data['num_cells'] for ... in graph.edges(...))`. */
  function TotalCells(edges: seq<Edge>, cells: map<Edge, int>): (t: int)
    requires forall e :: e in edges ==> e in cells
    ensures (forall e :: e in edges ==> cells[e] >= 1) ==> t >= |edges|
  {
    if edges == [] then 0 else cells[edges[0]] + TotalCells(edges[1..], cells)
  }

  // ---------------------------------------------------------------------
  // Adding vehicles (`add_vehicle`, `initialize_vehicles`)
  // ---------------------------------------------------------------------

  /** Registration of a new vehicle on cell `p` of edge `e`: the next id goes into the registry and the ledger. */
  function Admit(t: Traffic, e: Edge, p: int, velocity: int, vMax: int): (r: Traffic)
    ensures |r.vehicles| == |t.vehicles| + 1 && r.vehicles[..|t.vehicles|] == t.vehicles
  {
    var id := |t.vehicles|;
    Traffic(t.vehicles + [Vehicle(id, e, p, velocity, vMax)], Occupy(t.occ, e, p, id))
  }

  /**
   * Admitting a vehicle on a free cell records the same fresh id in the registry and in the
   * ledger, leaves every other entry alone, and keeps the ledger invariants and the bounds.
   */
  lemma AdmitKeepsInvariants(cells: map<Edge, int>, t: Traffic, e: Edge, p: int, velocity: int, vMax: int)
    requires Ids(t.vehicles) && Sound(t.occ, t.vehicles) && p !in RowOf(t.occ, e)
    ensures var r := Admit(t, e, p, velocity, vMax);
            var id := |t.vehicles|;
            r.vehicles[id] == Vehicle(id, e, p, velocity, vMax) && RowOf(r.occ, e)[p] == id &&
            (forall e', p' :: (e' != e || p' != p) ==>
               (p' in RowOf(r.occ, e') <==> p' in RowOf(t.occ, e')) &&
               (p' in RowOf(t.occ, e') ==> RowOf(r.occ, e')[p'] == RowOf(t.occ, e')[p'])) &&
            Ids(r.vehicles) && Sound(r.occ, r.vehicles) &&
            (Complete(t.occ, t.vehicles) ==> Complete(r.occ, r.vehicles)) &&
            (InRange(cells, t.vehicles) && e in cells && 0 <= p < cells[e] && 0 <= velocity <= vMax ==>
               InRange(cells, r.vehicles))
  {
    var r := Admit(t, e, p, velocity, vMax);
    var id := |t.vehicles|;
    forall e', p' | e' in r.occ && p' in r.occ[e']
      ensures 0 <= r.occ[e'][p'] < |r.vehicles| && r.vehicles[r.occ[e'][p']].edge == e' && r.vehicles[r.occ[e'][p']].position == p'
    {
      if e' != e || p' != p {
        assert e' in t.occ && p' in t.occ[e'];
      }
    }
    if Complete(t.occ, t.vehicles) {
      forall j | 0 <= j < |r.vehicles|
        ensures r.vehicles[j].position in RowOf(r.occ, r.vehicles[j].edge) && RowOf(r.occ, r.vehicles[j].edge)[r.vehicles[j].position] == j
      {
        if j < id {
          assert r.vehicles[j] == t.vehicles[j];
          assert t.vehicles[j].position in RowOf(t.occ, t.vehicles[j].edge);
        }
      }
    }
  }

  datatype Fill = Fill(traffic: Traffic, added: int, attempts: int)

  /**
   * The `while added < num_vehicles and attempts < max_attempts` loop of `initialize_vehicles`.
   * Attempt number `k` draws the edge `edgeDraw(k)` (an index into the edge list) and the cell
   * `cellDraw(k)` (reduced into the edge's cell range), standing for `random.choice` and `random.randint`.
   */
  function Populate(edges: seq<Edge>, cells: map<Edge, int>, t: Traffic, vMax: int, num: int, maxAttempts: int,
                    edgeDraw: nat -> nat, cellDraw: nat -> nat, added: nat, attempts: nat): (r: Fill)
    requires WellFormed(edges, cells) && (|edges| > 0 || num <= 0)
    ensures added <= r.added && attempts <= r.attempts
    ensures r.added - added <= r.attempts - attempts
    ensures r.added <= Max(added, num) && r.attempts <= Max(attempts, maxAttempts)
    ensures r.added >= num || r.attempts >= maxAttempts
    ensures |r.traffic.vehicles| == |t.vehicles| + (r.added - added)
    decreases maxAttempts - attempts
  {
    if !(added < num && attempts < maxAttempts) then Fill(t, added, attempts)
    else
      var e := edges[edgeDraw(attempts) % |edges|];
      var p := cellDraw(attempts) % cells[e];
      if p in RowOf(t.occ, e) then
        Populate(edges, cells, t, vMax, num, maxAttempts, edgeDraw, cellDraw, added, attempts + 1)
      else
        Populate(edges, cells, Admit(t, e, p, 0, vMax), vMax, num, maxAttempts, edgeDraw, cellDraw, added + 1, attempts + 1)
  }

  /** One attempt of the filling loop: a taken cell only uses up the attempt, a free one admits a vehicle. */
  lemma PopulateStep(edges: seq<Edge>, cells: map<Edge, int>, t: Traffic, vMax: int, num: int, maxAttempts: int,
                     edgeDraw: nat -> nat, cellDraw: nat -> nat, added: nat, attempts: nat)
    requires WellFormed(edges, cells) && |edges| > 0 && added < num && attempts < maxAttempts
    ensures var e := edges[edgeDraw(attempts) % |edges|];
            var p := cellDraw(attempts) % cells[e];
            (p in RowOf(t.occ, e) ==>
               Populate(edges, cells, t, vMax, num, maxAttempts, edgeDraw, cellDraw, added, attempts) ==
               Populate(edges, cells, t, vMax, num, maxAttempts, edgeDraw, cellDraw, added, attempts + 1)) &&
            (p !in RowOf(t.occ, e) ==>
               Populate(edges, cells, t, vMax, num, maxAttempts, edgeDraw, cellDraw, added, attempts) ==
               Populate(edges, cells, Admit(t, e, p, 0, vMax), vMax, num, maxAttempts, edgeDraw, cellDraw, added + 1, attempts + 1))
  {
  }

  /** Filling the network only appends to the registry. */
  lemma {:induction false} PopulateKeepsPrefix(edges: seq<Edge>, cells: map<Edge, int>, t: Traffic, vMax: int,
                                               num: int, maxAttempts: int, edgeDraw: nat -> nat, cellDraw: nat -> nat,
                                               added: nat, attempts: nat)
    requires WellFormed(edges, cells) && (|edges| > 0 || num <= 0)
    ensures var r := Populate(edges, cells, t, vMax, num, maxAttempts, edgeDraw, cellDraw, added, attempts);
            r.traffic.vehicles[..|t.vehicles|] == t.vehicles
    decreases maxAttempts - attempts
  {
    if added < num && attempts < maxAttempts {
      var e := edges[edgeDraw(attempts) % |edges|];
      var p := cellDraw(attempts) % cells[e];
      if p in RowOf(t.occ, e) {
        PopulateKeepsPrefix(edges, cells, t, vMax, num, maxAttempts, edgeDraw, cellDraw, added, attempts + 1);
      } else {
        var t' := Admit(t, e, p, 0, vMax);
        PopulateKeepsPrefix(edges, cells, t', vMax, num, maxAttempts, edgeDraw, cellDraw, added + 1, attempts + 1);
        var r := Populate(edges, cells, t', vMax, num, maxAttempts, edgeDraw, cellDraw, added + 1, attempts + 1);
        assert r.traffic.vehicles[..|t.vehicles|] == r.traffic.vehicles[..|t'.vehicles|][..|t.vehicles|];
      }
    }
  }

  /** Filling the network keeps the ids, every vehicle on the network and the ledger truthful. */
  lemma {:induction false} PopulateKeepsLedger(edges: seq<Edge>, cells: map<Edge, int>, t: Traffic, vMax: int,
                                               num: int, maxAttempts: int, edgeDraw: nat -> nat, cellDraw: nat -> nat,
                                               added: nat, attempts: nat)
    requires WellFormed(edges, cells) && (|edges| > 0 || num <= 0)
    requires Ids(t.vehicles) && Sound(t.occ, t.vehicles) && OnNetwork(cells, t.vehicles)
    ensures var r := Populate(edges, cells, t, vMax, num, maxAttempts, edgeDraw, cellDraw, added, attempts);
            Ids(r.traffic.vehicles) && Sound(r.traffic.occ, r.traffic.vehicles) && OnNetwork(cells, r.traffic.vehicles)
    decreases maxAttempts - attempts
  {
    if added < num && attempts < maxAttempts {
      var e := edges[edgeDraw(attempts) % |edges|];
      var p := cellDraw(attempts) % cells[e];
      if p in RowOf(t.occ, e) {
        PopulateKeepsLedger(edges, cells, t, vMax, num, maxAttempts, edgeDraw, cellDraw, added, attempts + 1);
      } else {
        var t' := Admit(t, e, p, 0, vMax);
        AdmitKeepsInvariants(cells, t, e, p, 0, vMax);
        assert OnNetwork(cells, t'.vehicles) by {
          assert forall j :: 0 <= j < |t.vehicles| ==> t'.vehicles[j] == t.vehicles[j];
        }
        PopulateKeepsLedger(edges, cells, t', vMax, num, maxAttempts, edgeDraw, cellDraw, added + 1, attempts + 1);
      }
    }
  }

  /** Filling the network keeps a complete ledger complete and every vehicle within bounds (new vehicles start at rest). */
  lemma {:induction false} PopulateKeepsBounds(edges: seq<Edge>, cells: map<Edge, int>, t: Traffic, vMax: int,
                                               num: int, maxAttempts: int, edgeDraw: nat -> nat, cellDraw: nat -> nat,
                                               added: nat, attempts: nat)
    requires WellFormed(edges, cells) && (|edges| > 0 || num <= 0)
    requires Ids(t.vehicles) && Sound(t.occ, t.vehicles)
    ensures var r := Populate(edges, cells, t, vMax, num, maxAttempts, edgeDraw, cellDraw, added, attempts);
            (Complete(t.occ, t.vehicles) ==> Complete(r.traffic.occ, r.traffic.vehicles)) &&
            (InRange(cells, t.vehicles) && vMax >= 0 ==> InRange(cells, r.traffic.vehicles))
    decreases maxAttempts - attempts
  {
    if added < num && attempts < maxAttempts {
      var e := edges[edgeDraw(attempts) % |edges|];
      var p := cellDraw(attempts) % cells[e];
      if p in RowOf(t.occ, e) {
        PopulateKeepsBounds(edges, cells, t, vMax, num, maxAttempts, edgeDraw, cellDraw, added, attempts + 1);
      } else {
        AdmitKeepsInvariants(cells, t, e, p, 0, vMax);
        PopulateKeepsBounds(edges, cells, Admit(t, e, p, 0, vMax), vMax, num, maxAttempts, edgeDraw, cellDraw, added + 1, attempts + 1);
      }
    }
  }

  // ---------------------------------------------------------------------
  // Distance to the next vehicle (`_get_distance_to_next_vehicle`)
  // ---------------------------------------------------------------------

  /** The scan of the vehicle's own edge, from offset `dist` on: the first occupied cell ahead. */
  function AheadOnEdge(row: Row, position: int, n: int, dist: int): (r: Option<int>)
    requires dist >= 1
    ensures r.Some? ==> dist <= r.value < n && position + r.value < n && position + r.value in row
    decreases n - dist
  {
    if dist >= n || position + dist >= n then None
    else if position + dist in row then Some(dist)
    else AheadOnEdge(row, position, n, dist + 1)
  }

  /** The scan of one out-edge from cell `pos` on; None when the edge is passed without a verdict. */
  function ScanOutEdge(row: Row, n: int, pos: int, distance: int, maxDistance: int): (r: Option<int>)
    requires pos >= 0
    ensures r.Some? ==> r.value == maxDistance || r.value >= distance + pos
    decreases n - pos
  {
    if pos >= n then None
    else if pos in row then Some(distance + pos)
    else if distance + pos >= maxDistance then Some(maxDistance)
    else ScanOutEdge(row, n, pos + 1, distance, maxDistance)
  }

  /** The single-hop lookahead over the out-edges `outs[k..]`, skipping the current edge. */
  function Lookahead(occ: Occupancy, cells: map<Edge, int>, outs: seq<Edge>, k: nat,
                     current: Edge, distance: int, maxDistance: int): (r: int)
    requires forall e :: e in outs ==> e in cells
    requires k <= |outs|
    ensures r == maxDistance || r >= distance
    decreases |outs| - k
  {
    if k == |outs| then maxDistance
    else if outs[k] == current then Lookahead(occ, cells, outs, k + 1, current, distance, maxDistance)
    else match ScanOutEdge(RowOf(occ, outs[k]), cells[outs[k]], 0, distance, maxDistance)
      case Some(d) => d
      case None => Lookahead(occ, cells, outs, k + 1, current, distance, maxDistance)
  }

  /** The gap the braking rule uses for a vehicle at `position` of `edge`. */
  function GapAhead(edges: seq<Edge>, cells: map<Edge, int>, occ: Occupancy,
                    edge: Edge, position: int, maxDistance: int): int
    requires WellFormed(edges, cells) && edge in cells
  {
    var n := cells[edge];
    match AheadOnEdge(RowOf(occ, edge), position, n, 1)
    case Some(d) => d
    case None => Lookahead(occ, cells, OutEdges(edges, edge.v), 0, edge, n - position, maxDistance)
  }

  /** A vehicle on a valid cell always sees a gap of at least one cell, when `v_max >= 1`. */
  lemma GapAtLeastOne(edges: seq<Edge>, cells: map<Edge, int>, occ: Occupancy,
                      edge: Edge, position: int, maxDistance: int)
    requires WellFormed(edges, cells) && edge in cells
    requires 0 <= position < cells[edge] && maxDistance >= 1
    ensures GapAhead(edges, cells, occ, edge, position, maxDistance) >= 1
  {
  }

  lemma AheadFindsNearest(row: Row, position: int, n: int, dist: int, d: int)
    requires 1 <= dist <= d && position + d < n && d < n && position + d in row
    requires forall c :: position + dist <= c < position + d ==> c !in row
    ensures AheadOnEdge(row, position, n, dist) == Some(d)
    decreases d - dist
  {
    if dist < d {
      AheadFindsNearest(row, position, n, dist + 1, d);
    }
  }

  /** An occupied cell `d` cells ahead on the same edge, with nothing in between: the gap is `d`. */
  lemma {:induction false} GapIsNearestAhead(edges: seq<Edge>, cells: map<Edge, int>, occ: Occupancy,
                                             edge: Edge, position: int, maxDistance: int, d: int)
    requires WellFormed(edges, cells) && edge in cells && 0 <= position
    requires 1 <= d && position + d < cells[edge] && position + d in RowOf(occ, edge)
    requires forall c :: position < c < position + d ==> c !in RowOf(occ, edge)
    ensures GapAhead(edges, cells, occ, edge, position, maxDistance) == d
  {
    AheadFindsNearest(RowOf(occ, edge), position, cells[edge], 1, d);
  }

  lemma AheadNoneWhenClear(row: Row, position: int, n: int, dist: int)
    requires dist >= 1 && position >= 0
    requires forall c :: position + dist <= c < n ==> c !in row
    ensures AheadOnEdge(row, position, n, dist) == None
    decreases n - dist
  {
    if !(dist >= n || position + dist >= n) {
      AheadNoneWhenClear(row, position, n, dist + 1);
    }
  }

  /** The rest of the edge is clear and its end node is a dead end: the gap is the sentinel `2 * v_max`. */
  lemma {:induction false} GapAtDeadEnd(edges: seq<Edge>, cells: map<Edge, int>, occ: Occupancy,
                                        edge: Edge, position: int, maxDistance: int)
    requires WellFormed(edges, cells) && edge in cells && 0 <= position
    requires OutEdges(edges, edge.v) == []
    requires forall c :: position < c < cells[edge] ==> c !in RowOf(occ, edge)
    ensures GapAhead(edges, cells, occ, edge, position, maxDistance) == maxDistance
  {
    AheadNoneWhenClear(RowOf(occ, edge), position, cells[edge], 1);
  }

  /** With the rest of the edge clear, the gap never exceeds both the remaining cells and the sentinel. */
  lemma {:induction false} GapBoundedWhenClear(edges: seq<Edge>, cells: map<Edge, int>, occ: Occupancy,
                                               edge: Edge, position: int, maxDistance: int)
    requires WellFormed(edges, cells) && edge in cells && 0 <= position
    requires forall c :: position < c < cells[edge] ==> c !in RowOf(occ, edge)
    ensures GapAhead(edges, cells, occ, edge, position, maxDistance) <= Max(maxDistance, cells[edge] - position)
  {
    AheadNoneWhenClear(RowOf(occ, edge), position, cells[edge], 1);
    LookaheadBounded(occ, cells, OutEdges(edges, edge.v), 0, edge, cells[edge] - position, maxDistance);
  }

  lemma ScanBounded(row: Row, n: int, pos: int, distance: int, maxDistance: int)
    requires pos >= 0
    requires pos == 0 || distance + pos - 1 < maxDistance
    ensures var r := ScanOutEdge(row, n, pos, distance, maxDistance);
            r.Some? ==> r.value <= Max(maxDistance, distance)
    decreases n - pos
  {
    if pos < n && pos !in row && distance + pos < maxDistance {
      ScanBounded(row, n, pos + 1, distance, maxDistance);
    }
  }

  lemma LookaheadBounded(occ: Occupancy, cells: map<Edge, int>, outs: seq<Edge>, k: nat,
                         current: Edge, distance: int, maxDistance: int)
    requires forall e :: e in outs ==> e in cells
    requires k <= |outs|
    ensures Lookahead(occ, cells, outs, k, current, distance, maxDistance) <= Max(maxDistance, distance)
    decreases |outs| - k
  {
    if k < |outs| {
      if outs[k] != current {
        ScanBounded(RowOf(occ, outs[k]), cells[outs[k]], 0, distance, maxDistance);
      }
      LookaheadBounded(occ, cells, outs, k + 1, current, distance, maxDistance);
    }
  }

  // ---------------------------------------------------------------------
  // The three velocity rules
  // ---------------------------------------------------------------------

  /** Rule 1: `if velocity < v_max: velocity += 1`. */
  function Accelerate(v: Vehicle): (r: Vehicle)
    ensures r.id == v.id && r.edge == v.edge && r.position == v.position && r.vMax == v.vMax
    ensures v.velocity <= v.vMax ==> r.velocity == Min(v.velocity + 1, v.vMax)
    ensures v.velocity > v.vMax ==> r == v
  {
    if v.velocity < v.vMax then v.(velocity := v.velocity + 1) else v
  }

  /** Rule 2: `if velocity >= gap: velocity = max(0, gap - 1)`. */
  function Brake(v: Vehicle, gap: int): (r: Vehicle)
    ensures r.id == v.id && r.edge == v.edge && r.position == v.position && r.vMax == v.vMax
    ensures v.velocity < gap ==> r == v
    ensures v.velocity >= 0 ==> r.velocity == Max(0, Min(v.velocity, gap - 1))
    ensures gap >= 1 && v.velocity >= 0 ==> 0 <= r.velocity < gap
  {
    if v.velocity >= gap then v.(velocity := Max(0, gap - 1)) else v
  }

  /** Rule 3: `if velocity > 0 and random.random() < p_slow: velocity -= 1`, with the draw given. */
  function Randomize(v: Vehicle, draw: real, pSlow: real): (r: Vehicle)
    ensures r.id == v.id && r.edge == v.edge && r.position == v.position && r.vMax == v.vMax
    ensures r.velocity == v.velocity || r.velocity == v.velocity - 1
    ensures r.velocity < v.velocity <==> v.velocity > 0 && draw < pSlow
  {
    if v.velocity > 0 && draw < pSlow then v.(velocity := v.velocity - 1) else v
  }

  function Accelerated(vs: seq<Vehicle>): (r: seq<Vehicle>)
    ensures |r| == |vs| && forall j :: 0 <= j < |vs| ==> r[j] == Accelerate(vs[j])
  {
    seq(|vs|, j requires 0 <= j < |vs| => Accelerate(vs[j]))
  }

  ghost predicate OnNetwork(cells: map<Edge, int>, vs: seq<Vehicle>)
  {
    forall j :: 0 <= j < |vs| ==> vs[j].edge in cells
  }

  /** The gaps of all vehicles, measured against one ledger (braking moves nobody). */
  function Gaps(edges: seq<Edge>, cells: map<Edge, int>, occ: Occupancy, vs: seq<Vehicle>, maxDistance: int): (g: seq<int>)
    requires WellFormed(edges, cells) && OnNetwork(cells, vs)
    ensures |g| == |vs|
    ensures forall j :: 0 <= j < |vs| ==> g[j] == GapAhead(edges, cells, occ, vs[j].edge, vs[j].position, maxDistance)
  {
    seq(|vs|, j requires 0 <= j < |vs| => GapAhead(edges, cells, occ, vs[j].edge, vs[j].position, maxDistance))
  }

  function Braked(vs: seq<Vehicle>, gaps: seq<int>): (r: seq<Vehicle>)
    requires |gaps| == |vs|
    ensures |r| == |vs| && forall j :: 0 <= j < |vs| ==> r[j] == Brake(vs[j], gaps[j])
  {
    seq(|vs|, j requires 0 <= j < |vs| => Brake(vs[j], gaps[j]))
  }

  function Randomized(vs: seq<Vehicle>, draws: seq<real>, pSlow: real): (r: seq<Vehicle>)
    requires |draws| == |vs|
    ensures |r| == |vs| && forall j :: 0 <= j < |vs| ==> r[j] == Randomize(vs[j], draws[j], pSlow)
  {
    seq(|vs|, j requires 0 <= j < |vs| => Randomize(vs[j], draws[j], pSlow))
  }

  /** Acceleration keeps every vehicle in place and every velocity in `[0, v_max]`, never slowing anyone. */
  lemma AccelerationKeepsRange(cells: map<Edge, int>, vs: seq<Vehicle>)
    requires InRange(cells, vs)
    ensures var r := Accelerated(vs);
            InRange(cells, r) &&
            forall j :: 0 <= j < |vs| ==>
              r[j].edge == vs[j].edge && r[j].position == vs[j].position && vs[j].velocity <= r[j].velocity
  {
  }

  /** Random slowdown keeps every vehicle in place and every velocity in `[0, v_max]`, never speeding anyone up. */
  lemma SlowdownKeepsRange(cells: map<Edge, int>, vs: seq<Vehicle>, draws: seq<real>, pSlow: real)
    requires InRange(cells, vs) && |draws| == |vs|
    ensures var r := Randomized(vs, draws, pSlow);
            InRange(cells, r) &&
            forall j :: 0 <= j < |vs| ==>
              r[j].edge == vs[j].edge && r[j].position == vs[j].position && r[j].velocity <= vs[j].velocity
  {
  }

  // ---------------------------------------------------------------------
  // Movement (`_move_vehicle`)
  // ---------------------------------------------------------------------

  /**
   * Moved and Collided are the source's True and False; MissingCell is the
   * KeyError that `del edge_occupation[old_edge][old_position]` raises when
   * the vehicle's own cell has no ledger entry (nothing is changed then).
   */
  datatype MoveOutcome = Moved | Collided | MissingCell

  datatype Move = Move(vehicle: Vehicle, occ: Occupancy, outcome: MoveOutcome)

  /** Park a vehicle on the last cell of its own edge with velocity 0 (both end-of-edge fallbacks). */
  function ParkAtEnd(cells: map<Edge, int>, occ: Occupancy, v: Vehicle, outcome: MoveOutcome): Move
    requires v.edge in cells
  {
    var last := cells[v.edge] - 1;
    Move(v.(position := last, velocity := 0), Occupy(Vacate(occ, v.edge, v.position), v.edge, last, v.id), outcome)
  }

  /** One vehicle's move; `pick` stands for `random.choice` among the out-edges. */
  function Movement(edges: seq<Edge>, cells: map<Edge, int>, occ: Occupancy, v: Vehicle, pick: nat): (m: Move)
    requires WellFormed(edges, cells) && v.edge in cells
    ensures m.vehicle.edge in cells && m.vehicle.id == v.id && m.vehicle.vMax == v.vMax
    ensures m.vehicle.velocity == v.velocity || m.vehicle.velocity == 0
  {
    var n := cells[v.edge];
    var target := v.position + v.velocity;
    if v.position !in RowOf(occ, v.edge) then Move(v, occ, MissingCell)
    else if target < n then
      var vacated := Vacate(occ, v.edge, v.position);
      if target in RowOf(vacated, v.edge) then
        Move(v.(velocity := 0), Occupy(vacated, v.edge, v.position, v.id), Collided)
      else
        Move(v.(position := target), Occupy(vacated, v.edge, target, v.id), Moved)
    else
      var next := OutEdges(edges, v.edge.v);
      if next == [] then ParkAtEnd(cells, occ, v, Moved)
      else
        var nextEdge := next[pick % |next|];
        var overflow := target - n;
        var cell := if overflow >= cells[nextEdge] then cells[nextEdge] - 1 else overflow;
        if cell in RowOf(occ, nextEdge) then ParkAtEnd(cells, occ, v, Collided)
        else Move(v.(edge := nextEdge, position := cell), Occupy(Vacate(occ, v.edge, v.position), nextEdge, cell, v.id), Moved)
  }

  /** The ledger after a relocation: the new cell names the mover, the old cell is cleared, the rest is kept. */
  lemma RelocatedEntry(occ: Occupancy, from: Edge, p0: int, to: Edge, p1: int, id: int, e: Edge, p: int)
    ensures var o := Occupy(Vacate(occ, from, p0), to, p1, id);
            && (e == to && p == p1 ==> p in RowOf(o, e) && RowOf(o, e)[p] == id)
            && (e != to || p != p1 ==>
                  (p in RowOf(o, e) <==> p in RowOf(occ, e) && (e != from || p != p0)) &&
                  (p in RowOf(o, e) ==> RowOf(o, e)[p] == RowOf(occ, e)[p]))
  {
  }

  /** Every move that raises no KeyError clears the vehicle's old cell and writes its id on its new one. */
  lemma MovementRelocates(edges: seq<Edge>, cells: map<Edge, int>, occ: Occupancy, v: Vehicle, pick: nat)
    requires WellFormed(edges, cells) && v.edge in cells
    ensures var m := Movement(edges, cells, occ, v, pick);
            (m.outcome == MissingCell <==> v.position !in RowOf(occ, v.edge)) &&
            (m.outcome == MissingCell ==> m.vehicle == v && m.occ == occ) &&
            (m.outcome != MissingCell ==>
               m.occ == Occupy(Vacate(occ, v.edge, v.position), m.vehicle.edge, m.vehicle.position, v.id))
  {
  }

  /** A vehicle starting on a valid cell with a non-negative velocity ends on a valid cell of its new edge. */
  lemma MovementStaysOnNetwork(edges: seq<Edge>, cells: map<Edge, int>, occ: Occupancy, v: Vehicle, pick: nat)
    requires WellFormed(edges, cells) && v.edge in cells
    requires 0 <= v.position < cells[v.edge] && v.velocity >= 0
    ensures var m := Movement(edges, cells, occ, v, pick);
            0 <= m.vehicle.position < cells[m.vehicle.edge] && m.vehicle.velocity >= 0
  {
  }

  /** Same-edge collision: the entry for the old cell is written back, velocity drops to 0, False. */
  lemma MovementSameEdgeCollision(edges: seq<Edge>, cells: map<Edge, int>, occ: Occupancy, v: Vehicle, pick: nat)
    requires WellFormed(edges, cells) && v.edge in cells
    requires v.position in RowOf(occ, v.edge) && RowOf(occ, v.edge)[v.position] == v.id
    requires v.position + v.velocity < cells[v.edge] && v.velocity != 0
    requires v.position + v.velocity in RowOf(occ, v.edge)
    ensures Movement(edges, cells, occ, v, pick) == Move(v.(velocity := 0), occ, Collided)
  {
    var row := RowOf(occ, v.edge);
    assert (row - {v.position})[v.position := v.id] == row;
    assert occ[v.edge := row] == occ;
  }

  /** Dead end: a vehicle overflowing an edge whose end node has no out-edge parks on its last cell, True. */
  lemma MovementDeadEnd(edges: seq<Edge>, cells: map<Edge, int>, occ: Occupancy, v: Vehicle, pick: nat)
    requires WellFormed(edges, cells) && v.edge in cells
    requires v.position in RowOf(occ, v.edge)
    requires v.position + v.velocity >= cells[v.edge] && OutEdges(edges, v.edge.v) == []
    ensures var m := Movement(edges, cells, occ, v, pick);
            m.outcome == Moved && m.vehicle == v.(position := cells[v.edge] - 1, velocity := 0)
            && RowOf(m.occ, v.edge)[cells[v.edge] - 1] == v.id
  {
  }

  // ---------------------------------------------------------------------
  // Ledger invariants
  // ---------------------------------------------------------------------

  /** Vehicle ids are their creation indices: the registry is `{0: v0, 1: v1, ...}`. */
  ghost predicate Ids(vs: seq<Vehicle>)
  {
    forall j :: 0 <= j < |vs| ==> vs[j].id == j
  }

  /** Every ledger entry names a registered vehicle that sits exactly on that cell. */
  ghost predicate Sound(occ: Occupancy, vs: seq<Vehicle>)
  {
    forall e, p :: e in occ && p in occ[e] ==>
      0 <= occ[e][p] < |vs| && vs[occ[e][p]].edge == e && vs[occ[e][p]].position == p
  }

  /** Every vehicle's own cell carries its id in the ledger. */
  ghost predicate Complete(occ: Occupancy, vs: seq<Vehicle>)
  {
    forall j :: 0 <= j < |vs| ==>
      vs[j].position in RowOf(occ, vs[j].edge) && RowOf(occ, vs[j].edge)[vs[j].position] == j
  }

  /** No two vehicles share an (edge, cell). */
  ghost predicate Exclusive(vs: seq<Vehicle>)
  {
    forall i, j :: 0 <= i < j < |vs| ==> vs[i].edge != vs[j].edge || vs[i].position != vs[j].position
  }

  /** Positions inside their edge, velocities within `[0, v_max]`. */
  ghost predicate InRange(cells: map<Edge, int>, vs: seq<Vehicle>)
  {
    forall j :: 0 <= j < |vs| ==>
      vs[j].edge in cells && 0 <= vs[j].position < cells[vs[j].edge] && 0 <= vs[j].velocity <= vs[j].vMax
  }

  /** A complete ledger rules out two vehicles on one cell. */
  lemma CompleteIsExclusive(occ: Occupancy, vs: seq<Vehicle>)
    requires Complete(occ, vs)
    ensures Exclusive(vs)
  {
    forall i, j | 0 <= i < j < |vs|
      ensures vs[i].edge != vs[j].edge || vs[i].position != vs[j].position
    {
      assert RowOf(occ, vs[i].edge)[vs[i].position] == i;
      assert RowOf(occ, vs[j].edge)[vs[j].position] == j;
    }
  }

  /** A move keeps every ledger entry truthful. */
  lemma {:induction false} MovementKeepsSound(edges: seq<Edge>, cells: map<Edge, int>, occ: Occupancy,
                                              vs: seq<Vehicle>, i: nat, pick: nat)
    requires WellFormed(edges, cells) && OnNetwork(cells, vs) && i < |vs|
    requires Ids(vs) && Sound(occ, vs)
    ensures var m := Movement(edges, cells, occ, vs[i], pick);
            var vs' := vs[i := m.vehicle];
            Ids(vs') && OnNetwork(cells, vs') && Sound(m.occ, vs') &&
            forall j :: 0 <= j < |vs| ==> vs'[j].vMax == vs[j].vMax
  {
    var v := vs[i];
    var m := Movement(edges, cells, occ, v, pick);
    var vs' := vs[i := m.vehicle];
    MovementRelocates(edges, cells, occ, v, pick);
    if m.outcome != MissingCell {
      forall e, p | e in m.occ && p in m.occ[e]
        ensures 0 <= m.occ[e][p] < |vs'| && vs'[m.occ[e][p]].edge == e && vs'[m.occ[e][p]].position == p
      {
        assert RowOf(m.occ, e) == m.occ[e];
        RelocatedEntry(occ, v.edge, v.position, m.vehicle.edge, m.vehicle.position, v.id, e, p);
        if e != m.vehicle.edge || p != m.vehicle.position {
          assert e in occ && p in occ[e] && m.occ[e][p] == occ[e][p];
          assert occ[e][p] != i;
        }
      }
    }
  }

  /**
   * When a move parks the vehicle on the last cell of its own edge (dead end,
   * or the chosen out-edge cell is taken), that cell is free or already its own.
   * The source writes that cell without checking, so this is the condition under
   * which a move keeps the ledger complete.
   */
  ghost predicate ParkingIsFree(edges: seq<Edge>, cells: map<Edge, int>, occ: Occupancy, v: Vehicle, pick: nat)
    requires WellFormed(edges, cells) && v.edge in cells
  {
    var n := cells[v.edge];
    var row := RowOf(occ, v.edge);
    var parks := v.position + v.velocity >= n &&
      var next := OutEdges(edges, v.edge.v);
      (next == [] ||
       var nextEdge := next[pick % |next|];
       var overflow := v.position + v.velocity - n;
       var cell := if overflow >= cells[nextEdge] then cells[nextEdge] - 1 else overflow;
       cell in RowOf(occ, nextEdge));
    parks ==> (n - 1 !in row || row[n - 1] == v.id)
  }

  /** With the parking cell free, a vehicle only ever lands on a free cell or on its own. */
  lemma MovementTargetFree(edges: seq<Edge>, cells: map<Edge, int>, occ: Occupancy, v: Vehicle, pick: nat)
    requires WellFormed(edges, cells) && v.edge in cells && ParkingIsFree(edges, cells, occ, v, pick)
    requires v.position in RowOf(occ, v.edge) && RowOf(occ, v.edge)[v.position] == v.id
    ensures var m := Movement(edges, cells, occ, v, pick);
            m.vehicle.position !in RowOf(occ, m.vehicle.edge) || RowOf(occ, m.vehicle.edge)[m.vehicle.position] == v.id
  {
  }

  /** From a complete ledger, a move whose parking cell is free raises no KeyError and keeps it complete. */
  lemma {:induction false} MovementKeepsComplete(edges: seq<Edge>, cells: map<Edge, int>, occ: Occupancy,
                                                 vs: seq<Vehicle>, i: nat, pick: nat)
    requires WellFormed(edges, cells) && OnNetwork(cells, vs) && i < |vs|
    requires Ids(vs) && Sound(occ, vs) && Complete(occ, vs)
    requires ParkingIsFree(edges, cells, occ, vs[i], pick)
    ensures var m := Movement(edges, cells, occ, vs[i], pick);
            m.outcome != MissingCell && Complete(m.occ, vs[i := m.vehicle])
  {
    var v := vs[i];
    var m := Movement(edges, cells, occ, v, pick);
    var vs' := vs[i := m.vehicle];
    assert v.position in RowOf(occ, v.edge);
    MovementRelocates(edges, cells, occ, v, pick);
    MovementTargetFree(edges, cells, occ, v, pick);
    forall j | 0 <= j < |vs'|
      ensures vs'[j].position in RowOf(m.occ, vs'[j].edge) && RowOf(m.occ, vs'[j].edge)[vs'[j].position] == j
    {
      RelocatedEntry(occ, v.edge, v.position, m.vehicle.edge, m.vehicle.position, v.id, vs'[j].edge, vs'[j].position);
      if j != i {
        var w := vs[j];
        assert RowOf(occ, w.edge)[w.position] == j;
        assert w.edge != v.edge || w.position != v.position;
        assert w.edge != m.vehicle.edge || w.position != m.vehicle.position;
      }
    }
  }

  // ---------------------------------------------------------------------
  // The movement phase and the whole step
  // ---------------------------------------------------------------------

  datatype Phase = Phase(traffic: Traffic, completed: bool)

  /** Vehicles `k..` move one after another against the ledger as the earlier ones left it. */
  function MoveFrom(edges: seq<Edge>, cells: map<Edge, int>, t: Traffic, picks: seq<nat>, k: nat): (r: Phase)
    requires WellFormed(edges, cells) && OnNetwork(cells, t.vehicles)
    requires |picks| == |t.vehicles| && k <= |t.vehicles|
    ensures |r.traffic.vehicles| == |t.vehicles| && OnNetwork(cells, r.traffic.vehicles)
    decreases |t.vehicles| - k
  {
    if k == |t.vehicles| then Phase(t, true)
    else
      var m := Movement(edges, cells, t.occ, t.vehicles[k], picks[k]);
      if m.outcome == MissingCell then Phase(t, false)
      else MoveFrom(edges, cells, Traffic(t.vehicles[k := m.vehicle], m.occ), picks, k + 1)
  }

  /** One turn of the movement phase: a KeyError stops it, any other outcome hands on to the next vehicle. */
  lemma MoveFromStep(edges: seq<Edge>, cells: map<Edge, int>, t: Traffic, picks: seq<nat>, k: nat)
    requires WellFormed(edges, cells) && OnNetwork(cells, t.vehicles)
    requires |picks| == |t.vehicles| && k < |t.vehicles|
    ensures var m := Movement(edges, cells, t.occ, t.vehicles[k], picks[k]);
            (m.outcome == MissingCell ==> MoveFrom(edges, cells, t, picks, k) == Phase(t, false)) &&
            (m.outcome != MissingCell ==>
               MoveFrom(edges, cells, t, picks, k) ==
               MoveFrom(edges, cells, Traffic(t.vehicles[k := m.vehicle], m.occ), picks, k + 1))
  {
  }

  /** One `step()`: accelerate, brake against the gaps, randomize, then move in creation order. */
  function StepTraffic(edges: seq<Edge>, cells: map<Edge, int>, t: Traffic, vMax: int, pSlow: real,
                       draws: seq<real>, picks: seq<nat>): (r: Phase)
    requires WellFormed(edges, cells) && OnNetwork(cells, t.vehicles)
    requires |draws| == |t.vehicles| && |picks| == |t.vehicles|
    ensures |r.traffic.vehicles| == |t.vehicles|
  {
    var a := Accelerated(t.vehicles);
    var b := Braked(a, Gaps(edges, cells, t.occ, a, 2 * vMax));
    var c := Randomized(b, draws, pSlow);
    MoveFrom(edges, cells, Traffic(c, t.occ), picks, 0)
  }

  /** The movement phase keeps the ids and keeps every ledger entry truthful. */
  lemma {:induction false} MoveFromKeepsSound(edges: seq<Edge>, cells: map<Edge, int>, t: Traffic, picks: seq<nat>, k: nat)
    requires WellFormed(edges, cells) && OnNetwork(cells, t.vehicles)
    requires |picks| == |t.vehicles| && k <= |t.vehicles|
    requires Ids(t.vehicles) && Sound(t.occ, t.vehicles)
    ensures var r := MoveFrom(edges, cells, t, picks, k);
            Ids(r.traffic.vehicles) && Sound(r.traffic.occ, r.traffic.vehicles)
    decreases |t.vehicles| - k
  {
    if k < |t.vehicles| {
      var m := Movement(edges, cells, t.occ, t.vehicles[k], picks[k]);
      if m.outcome != MissingCell {
        MovementKeepsSound(edges, cells, t.occ, t.vehicles, k, picks[k]);
        MoveFromKeepsSound(edges, cells, Traffic(t.vehicles[k := m.vehicle], m.occ), picks, k + 1);
      }
    }
  }

  /** The movement phase keeps every vehicle on a valid cell; each velocity is kept or dropped to 0. */
  lemma {:induction false} MoveFromKeepsInRange(edges: seq<Edge>, cells: map<Edge, int>, t: Traffic, picks: seq<nat>, k: nat)
    requires WellFormed(edges, cells) && OnNetwork(cells, t.vehicles)
    requires |picks| == |t.vehicles| && k <= |t.vehicles|
    requires InRange(cells, t.vehicles)
    ensures var r := MoveFrom(edges, cells, t, picks, k);
            InRange(cells, r.traffic.vehicles) &&
            forall j :: 0 <= j < |t.vehicles| ==>
              r.traffic.vehicles[j].id == t.vehicles[j].id &&
              (r.traffic.vehicles[j].velocity == t.vehicles[j].velocity || r.traffic.vehicles[j].velocity == 0)
    decreases |t.vehicles| - k
  {
    if k < |t.vehicles| {
      var m := Movement(edges, cells, t.occ, t.vehicles[k], picks[k]);
      if m.outcome != MissingCell {
        MovementStaysOnNetwork(edges, cells, t.occ, t.vehicles[k], picks[k]);
        var t' := Traffic(t.vehicles[k := m.vehicle], m.occ);
        MoveFromKeepsInRange(edges, cells, t', picks, k + 1);
      }
    }
  }

  /** After braking, every vehicle on a valid cell moves strictly less than its gap (given `v_max >= 1`). */
  lemma BrakingRespectsGaps(edges: seq<Edge>, cells: map<Edge, int>, occ: Occupancy, vs: seq<Vehicle>, vMax: int)
    requires WellFormed(edges, cells) && InRange(cells, vs) && vMax >= 1
    ensures OnNetwork(cells, vs)
    ensures var g := Gaps(edges, cells, occ, vs, 2 * vMax);
            var b := Braked(vs, g);
            forall j :: 0 <= j < |vs| ==> g[j] >= 1 && 0 <= b[j].velocity < g[j] && b[j].velocity <= vs[j].velocity
  {
    forall j | 0 <= j < |vs|
      ensures GapAhead(edges, cells, occ, vs[j].edge, vs[j].position, 2 * vMax) >= 1
    {
      GapAtLeastOne(edges, cells, occ, vs[j].edge, vs[j].position, 2 * vMax);
    }
  }

  /** A whole step keeps the registry (same ids), every ledger entry truthful, and all bounds. */
  lemma {:induction false} StepPreservesInvariants(edges: seq<Edge>, cells: map<Edge, int>, t: Traffic, vMax: int,
                                                   pSlow: real, draws: seq<real>, picks: seq<nat>)
    requires WellFormed(edges, cells) && OnNetwork(cells, t.vehicles)
    requires |draws| == |t.vehicles| && |picks| == |t.vehicles|
    requires Ids(t.vehicles) && Sound(t.occ, t.vehicles)
    ensures var r := StepTraffic(edges, cells, t, vMax, pSlow, draws, picks);
            |r.traffic.vehicles| == |t.vehicles| && Ids(r.traffic.vehicles) &&
            Sound(r.traffic.occ, r.traffic.vehicles) && OnNetwork(cells, r.traffic.vehicles) &&
            (forall j :: 0 <= j < |t.vehicles| ==> r.traffic.vehicles[j].vMax == t.vehicles[j].vMax) &&
            (InRange(cells, t.vehicles) ==> InRange(cells, r.traffic.vehicles))
  {
    var a := Accelerated(t.vehicles);
    var b := Braked(a, Gaps(edges, cells, t.occ, a, 2 * vMax));
    var c := Randomized(b, draws, pSlow);
    var t3 := Traffic(c, t.occ);
    assert Ids(c);
    assert Sound(t.occ, c);
    MoveFromKeepsSound(edges, cells, t3, picks, 0);
    MoveFromKeepsVMax(edges, cells, t3, picks, 0);
    if InRange(cells, t.vehicles) {
      assert InRange(cells, c);
      MoveFromKeepsInRange(edges, cells, t3, picks, 0);
    }
  }

  /** The movement phase keeps each vehicle's own `v_max`. */
  lemma {:induction false} MoveFromKeepsVMax(edges: seq<Edge>, cells: map<Edge, int>, t: Traffic, picks: seq<nat>, k: nat)
    requires WellFormed(edges, cells) && OnNetwork(cells, t.vehicles)
    requires |picks| == |t.vehicles| && k <= |t.vehicles|
    ensures var r := MoveFrom(edges, cells, t, picks, k);
            forall j :: 0 <= j < |t.vehicles| ==> r.traffic.vehicles[j].vMax == t.vehicles[j].vMax
    decreases |t.vehicles| - k
  {
    if k < |t.vehicles| {
      var m := Movement(edges, cells, t.occ, t.vehicles[k], picks[k]);
      if m.outcome != MissingCell {
        MoveFromKeepsVMax(edges, cells, Traffic(t.vehicles[k := m.vehicle], m.occ), picks, k + 1);
      }
    }
  }

  /** The sum of the velocities, for `np.mean`. */
  function SumVelocities(vs: seq<Vehicle>): (s: int)
    ensures (forall j :: 0 <= j < |vs| ==> vs[j].velocity >= 0) ==> s >= 0
  {
    if vs == [] then 0 else SumVelocities(vs[..|vs| - 1]) + vs[|vs| - 1].velocity
  }

  /** `np.mean` of the velocities, exactly. */
  function MeanVelocity(vs: seq<Vehicle>): real
    requires |vs| > 0
  {
    SumVelocities(vs) as real / |vs| as real
  }

  lemma {:induction false} SumVelocitiesBounded(vs: seq<Vehicle>, vMax: int)
    requires forall j :: 0 <= j < |vs| ==> 0 <= vs[j].velocity <= vMax
    ensures 0 <= SumVelocities(vs) <= |vs| * vMax
  {
    if vs != [] {
      SumVelocitiesBounded(vs[..|vs| - 1], vMax);
    }
  }

  /** The recorded average velocity lies in `[0, v_max]` when every velocity does. */
  lemma MeanVelocityBounded(vs: seq<Vehicle>, vMax: int)
    requires |vs| > 0
    requires forall j :: 0 <= j < |vs| ==> 0 <= vs[j].velocity <= vMax
    ensures 0.0 <= MeanVelocity(vs) <= vMax as real
  {
    SumVelocitiesBounded(vs, vMax);
    var n := |vs| as real;
    var s := SumVelocities(vs) as real;
    assert s <= n * vMax as real;
    assert s / n <= vMax as real by {
      assert n > 0.0;
      assert (s / n) * n == s;
      assert vMax as real * n == n * vMax as real;
      MulCancel(s / n, vMax as real, n);
    }
  }
}

/**
 * A concrete run showing that the end-of-edge fallback can stack two vehicles.
 * Node 1 forks into a long edge and a two-cell edge ending at the dead end 3.
 */
module NagelSchreckenbergWitness {
  import opened Wrappers
  import opened NagelSchreckenberg

  const Feeder := Edge(0, 1, 0)
  const Long := Edge(1, 2, 0)
  const Spur := Edge(1, 3, 0)
  const Net := [Feeder, Long, Spur]
  const Cells := map[Feeder := 1, Long := 10, Spur := 2]

  const Start := Traffic([Vehicle(0, Feeder, 0, 5, 5), Vehicle(1, Spur, 0, 5, 5)],
                         map[Feeder := map[0 := 0], Spur := map[0 := 1]])

  lemma WitnessNetwork()
    ensures WellFormed(Net, Cells)
    ensures OutEdges(Net, 1) == [Long, Spur] && OutEdges(Net, 3) == []
    ensures Feeder in Cells && Long in Cells && Spur in Cells
    ensures Cells[Feeder] == 1 && Cells[Long] == 10 && Cells[Spur] == 2
  {
    assert Net[1..] == [Long, Spur] && Net[1..][1..] == [Spur] && [Spur][1..] == [];
    assert OutEdges([Spur], 1) == [Spur] && OutEdges([Spur], 3) == [];
    assert OutEdges([Long, Spur], 1) == [Long] + OutEdges([Spur], 1);
    assert OutEdges([Long, Spur], 3) == [];
    assert OutEdges(Net, 1) == OutEdges([Long, Spur], 1);
  }

  /** Neither vehicle sees anything within `2 * v_max = 10` cells, so neither brakes. */
  lemma WitnessGaps()
    ensures WellFormed(Net, Cells)
    ensures GapAhead(Net, Cells, Start.occ, Feeder, 0, 10) == 10
    ensures GapAhead(Net, Cells, Start.occ, Spur, 0, 10) == 10
  {
    WitnessNetwork();
    assert AheadOnEdge(map[0 := 0], 0, 1, 1) == None;
    assert AheadOnEdge(map[0 := 1], 0, 2, 1) == None;
    assert ScanOutEdge(map[], 10, 9, 1, 10) == Some(10);
    assert ScanOutEdge(map[], 10, 5, 1, 10) == Some(10);
    assert ScanOutEdge(map[], 10, 0, 1, 10) == Some(10);
  }

  /** None of the three velocity rules changes either vehicle. */
  lemma WitnessVelocityRules()
    ensures WellFormed(Net, Cells) && OnNetwork(Cells, Start.vehicles)
    ensures var a := Accelerated(Start.vehicles);
            Randomized(Braked(a, Gaps(Net, Cells, Start.occ, a, 10)), [0.75, 0.75], 0.5) == Start.vehicles
  {
    WitnessGaps();
    var a := Accelerated(Start.vehicles);
    assert a == Start.vehicles;
    var b := Braked(a, Gaps(Net, Cells, Start.occ, a, 10));
    assert b == a;
  }

  const AfterFirst := map[Feeder := map[], Spur := map[0 := 1, 1 := 0]]
  const AfterSecond := map[Feeder := map[], Spur := map[1 := 1]]

  /** Vehicle 0 overflows the feeder, takes the spur (pick 1) and lands on its cell 1. */
  lemma WitnessFirstMove()
    ensures WellFormed(Net, Cells)
    ensures Movement(Net, Cells, Start.occ, Start.vehicles[0], 1) == Move(Vehicle(0, Spur, 1, 5, 5), AfterFirst, Moved)
  {
    WitnessNetwork();
    assert map[0 := 0] - {0} == map[];
  }

  /** Vehicle 1 overflows the spur into the dead end and parks on cell 1, over vehicle 0's entry. */
  lemma WitnessSecondMove()
    ensures WellFormed(Net, Cells)
    ensures Movement(Net, Cells, AfterFirst, Start.vehicles[1], 0) == Move(Vehicle(1, Spur, 1, 0, 5), AfterSecond, Moved)
  {
    WitnessNetwork();
    assert map[0 := 1, 1 := 0] - {0} == map[1 := 0];
    assert map[1 := 0][1 := 1] == map[1 := 1];
    assert Vacate(AfterFirst, Spur, 0) == map[Feeder := map[], Spur := map[1 := 0]];
  }

  const Midway := Traffic([Vehicle(0, Spur, 1, 5, 5), Vehicle(1, Spur, 0, 5, 5)], AfterFirst)
  const Stacked := Traffic([Vehicle(0, Spur, 1, 5, 5), Vehicle(1, Spur, 1, 0, 5)], AfterSecond)

  lemma UpdatePair(a: Vehicle, b: Vehicle, c: Vehicle)
    ensures [a, b][0 := c] == [c, b] && [a, b][1 := c] == [a, c]
  {
  }

  /** The first turn of the movement phase hands `Midway` on to vehicle 1. */
  lemma WitnessFirstTurn()
    ensures WellFormed(Net, Cells) && OnNetwork(Cells, Start.vehicles)
    ensures MoveFrom(Net, Cells, Start, [1, 0], 0) == MoveFrom(Net, Cells, Midway, [1, 0], 1)
  {
    WitnessNetwork();
    WitnessFirstMove();
    MoveFromStep(Net, Cells, Start, [1, 0], 0);
    UpdatePair(Start.vehicles[0], Start.vehicles[1], Vehicle(0, Spur, 1, 5, 5));
  }

  /** The second turn ends the phase with both vehicles on cell 1 of the spur. */
  lemma WitnessSecondTurn()
    ensures WellFormed(Net, Cells) && OnNetwork(Cells, Midway.vehicles)
    ensures MoveFrom(Net, Cells, Midway, [1, 0], 1) == Phase(Stacked, true)
  {
    WitnessNetwork();
    WitnessSecondMove();
    assert Midway.vehicles[1] == Start.vehicles[1];
    MoveFromStep(Net, Cells, Midway, [1, 0], 1);
    UpdatePair(Midway.vehicles[0], Midway.vehicles[1], Vehicle(1, Spur, 1, 0, 5));
  }

  lemma WitnessMovementPhase()
    ensures WellFormed(Net, Cells) && OnNetwork(Cells, Start.vehicles)
    ensures MoveFrom(Net, Cells, Start, [1, 0], 0) == Phase(Stacked, true)
  {
    WitnessFirstTurn();
    WitnessSecondTurn();
  }

  /** The starting state satisfies every ledger invariant. */
  lemma WitnessStartIsValid()
    ensures WellFormed(Net, Cells) && Ids(Start.vehicles) && Sound(Start.occ, Start.vehicles) &&
            Complete(Start.occ, Start.vehicles) && InRange(Cells, Start.vehicles)
  {
    WitnessNetwork();
    var vs := Start.vehicles;
    assert vs[0] == Vehicle(0, Feeder, 0, 5, 5) && vs[1] == Vehicle(1, Spur, 0, 5, 5);
    assert RowOf(Start.occ, Feeder) == map[0 := 0] && RowOf(Start.occ, Spur) == map[0 := 1];
    forall e, p | e in Start.occ && p in Start.occ[e]
      ensures 0 <= Start.occ[e][p] < |vs| && vs[Start.occ[e][p]].edge == e && vs[Start.occ[e][p]].position == p
    {
      assert e == Feeder || e == Spur;
    }
    forall j | 0 <= j < |vs|
      ensures vs[j].position in RowOf(Start.occ, vs[j].edge) && RowOf(Start.occ, vs[j].edge)[vs[j].position] == j
      ensures vs[j].edge in Cells && 0 <= vs[j].position < Cells[vs[j].edge] && 0 <= vs[j].velocity <= vs[j].vMax
    {
      assert j == 0 || j == 1;
    }
  }

  /**
   * From a sound, complete ledger with every vehicle in range, one step
   * moves vehicle 0 onto the spur and then parks vehicle 1 on the same cell,
   * overwriting vehicle 0's entry: completeness is not an invariant of `step`.
   */
  lemma StepCanStackVehicles()
    ensures WellFormed(Net, Cells) && Ids(Start.vehicles) && Sound(Start.occ, Start.vehicles) &&
            Complete(Start.occ, Start.vehicles) && InRange(Cells, Start.vehicles)
    ensures var r := StepTraffic(Net, Cells, Start, 5, 0.5, [0.75, 0.75], [1, 0]);
            r.completed &&
            r.traffic.vehicles == [Vehicle(0, Spur, 1, 5, 5), Vehicle(1, Spur, 1, 0, 5)] &&
            !Exclusive(r.traffic.vehicles) && !Complete(r.traffic.occ, r.traffic.vehicles)
  {
    WitnessStartIsValid();
    WitnessVelocityRules();
    WitnessMovementPhase();
    var r := StepTraffic(Net, Cells, Start, 5, 0.5, [0.75, 0.75], [1, 0]);
    var vs := r.traffic.vehicles;
    assert vs[0].edge == vs[1].edge && vs[0].position == vs[1].position;
    assert RowOf(r.traffic.occ, vs[0].edge)[vs[0].position] == 1;
  }
}

/**
 * The `TrafficSimulation` object of src/traffic_simulation.py: the discretized
 * network, the vehicle registry, the occupancy ledger and the statistics, with
 * its operations as methods that update them in place. Each method is proved
 * to leave the state the rules in nagel_schreckenberg.dfy prescribe.
 */
module TrafficSimulation {
  import opened Wrappers
  import opened NagelSchreckenberg

  /** `edge`, or `random.choice(list(edges))` when it is None (`edgePick` is the choice). */
  function ChosenEdge(edges: seq<Edge>, edge: Option<Edge>, edgePick: nat): (e: Edge)
    requires edge.Some? || |edges| > 0
    ensures edge.Some? ==> e == edge.value
    ensures edge.None? ==> e in edges
  {
    if edge.Some? then edge.value else edges[edgePick % |edges|]
  }

  /** `position`, or `random.randint(0, num_cells - 1)` when it is None (`cellPick` is the choice). */
  function ChosenCell(n: int, position: Option<int>, cellPick: nat): (p: int)
    requires n >= 1
    ensures position.Some? ==> p == position.value
    ensures position.None? ==> 0 <= p < n
  {
    if position.Some? then position.value else cellPick % n
  }

  /** `int(total_cells * density)`; no cells means no vehicles. */
  function WantedVehicles(totalCells: int, density: real): (n: int)
    ensures totalCells == 0 ==> n == 0
    ensures totalCells >= 0 && density >= 0.0 ==> n >= 0
  {
    Trunc(totalCells as real * density)
  }

  /** Both per-vehicle sequences have the same vehicles on the same cells. */
  ghost predicate SameLayout(vs: seq<Vehicle>, ws: seq<Vehicle>)
  {
    |vs| == |ws| &&
    forall j :: 0 <= j < |vs| ==>
      vs[j].id == ws[j].id && vs[j].edge == ws[j].edge && vs[j].position == ws[j].position && vs[j].vMax == ws[j].vMax
  }

  /** Changing velocities only keeps the ledger invariants. */
  lemma SameLayoutKeepsLedger(cells: map<Edge, int>, occ: Occupancy, vs: seq<Vehicle>, ws: seq<Vehicle>)
    requires SameLayout(vs, ws)
    ensures Ids(vs) ==> Ids(ws)
    ensures OnNetwork(cells, vs) ==> OnNetwork(cells, ws)
    ensures Sound(occ, vs) ==> Sound(occ, ws)
  {
    if Sound(occ, vs) {
      forall e, p | e in occ && p in occ[e]
        ensures 0 <= occ[e][p] < |ws| && ws[occ[e][p]].edge == e && ws[occ[e][p]].position == p
      {
        assert vs[occ[e][p]].edge == e;
      }
    }
  }

  class Simulation {
    const edges: seq<Edge>
    const cellLength: real
    const vMax: int
    const pSlow: real

    /** The `length` and `num_cells` attributes of every edge. */
    var lengths: map<Edge, real>
    var numCells: map<Edge, int>

    /** `vehicles`, indexed by id, and `vehicle_counter`. */
    var vehicles: seq<Vehicle>
    var vehicleCounter: int

    /** `edge_occupation`. */
    var occupation: Occupancy

    var timeStep: int
    var avgVelocities: seq<real>

    /** Every edge is discretized from its stored length. */
    ghost predicate Discretized()
      reads this
    {
      cellLength != 0.0 &&
      forall e :: e in edges ==> e in lengths && e in numCells && numCells[e] == CellCount(lengths[e], cellLength)
    }

    ghost predicate Valid()
      reads this
    {
      && cellLength != 0.0
      && WellFormed(edges, numCells)
      && vehicleCounter == |vehicles|
      && Ids(vehicles) && OnNetwork(numCells, vehicles) && Sound(occupation, vehicles)
      && (forall j :: 0 <= j < |vehicles| ==> vehicles[j].vMax == vMax)
      && 0 <= |avgVelocities| <= timeStep
    }

    /**
     * `__init__` on an already loaded graph: `lengths` holds the edges that carry a `length`
     * attribute, and `greatCircle` gives the great-circle distance between an edge's end nodes.
     */
    constructor (edges: seq<Edge>, lengths: map<Edge, real>, greatCircle: Edge -> real,
                 cellLength: real, vMax: int, pSlow: real)
      requires cellLength != 0.0
      ensures Valid() && Discretized()
      ensures this.edges == edges && this.cellLength == cellLength && this.vMax == vMax && this.pSlow == pSlow
      ensures forall e :: e in edges ==>
                this.lengths[e] == EdgeLength(lengths, greatCircle, e) &&
                numCells[e] == CellCount(EdgeLength(lengths, greatCircle, e), cellLength)
      ensures vehicles == [] && vehicleCounter == 0 && occupation == map[]
      ensures timeStep == 0 && avgVelocities == []
    {
      this.edges := edges;
      this.cellLength := cellLength;
      this.vMax := vMax;
      this.pSlow := pSlow;
      this.lengths := lengths;
      numCells := map[];
      vehicles := [];
      vehicleCounter := 0;
      occupation := map[];
      timeStep := 0;
      avgVelocities := [];
      new;
      DiscretizeEdges(greatCircle);
    }

    /** `_discretize_edges`: give every edge its length and its cell count, writing the length back. */
    method DiscretizeEdges(greatCircle: Edge -> real)
      requires cellLength != 0.0
      modifies this`lengths, this`numCells
      ensures Discretized()
      ensures forall e :: e in edges ==> lengths[e] == EdgeLength(old(lengths), greatCircle, e)
      ensures forall e :: e !in edges ==>
                (e in lengths <==> e in old(lengths)) && (e in lengths ==> lengths[e] == old(lengths)[e]) &&
                (e in numCells <==> e in old(numCells)) && (e in numCells ==> numCells[e] == old(numCells)[e])
      ensures forall e :: e in numCells <==> e in old(numCells) || e in edges
      ensures old(Discretized()) ==> lengths == old(lengths) && numCells == old(numCells)
      ensures old(Valid()) ==> Valid()
    {
      var i := 0;
      while i < |edges|
        invariant 0 <= i <= |edges|
        invariant forall e :: e in edges[..i] ==>
                    e in lengths && lengths[e] == EdgeLength(old(lengths), greatCircle, e) &&
                    e in numCells && numCells[e] == CellCount(lengths[e], cellLength)
        invariant forall e :: e !in edges[..i] ==>
                    (e in lengths <==> e in old(lengths)) && (e in lengths ==> lengths[e] == old(lengths)[e]) &&
                    (e in numCells <==> e in old(numCells)) && (e in numCells ==> numCells[e] == old(numCells)[e])
      {
        var e := edges[i];
        var length := if e in lengths then lengths[e] else greatCircle(e);
        var n := CellCount(length, cellLength);
        lengths := lengths[e := length];
        numCells := numCells[e := n];
        assert edges[..i + 1] == edges[..i] + [e];
        i := i + 1;
      }
      assert edges[..i] == edges;
      if old(Discretized()) {
        assert lengths.Keys == old(lengths).Keys;
        assert numCells.Keys == old(numCells).Keys;
      }
    }

    /**
     * `add_vehicle`: place a vehicle on a chosen or given edge and cell; None when the cell
     * already has a ledger entry. The edge must belong to the graph (else the source fails
     * with KeyError), and random choice of an edge needs at least one edge.
     */
    method AddVehicle(edge: Option<Edge>, position: Option<int>, velocity: int, edgePick: nat, cellPick: nat)
      returns (id: Option<int>)
      requires Valid()
      requires edge.Some? ==> edge.value in numCells
      requires edge.None? ==> |edges| > 0
      modifies this`vehicles, this`vehicleCounter, this`occupation
      ensures Valid()
      ensures var e := ChosenEdge(edges, edge, edgePick);
              e in numCells &&
              var p := ChosenCell(numCells[e], position, cellPick);
              (p in RowOf(old(occupation), e) ==>
                 id == None && vehicles == old(vehicles) && vehicleCounter == old(vehicleCounter) &&
                 occupation == old(occupation)) &&
              (p !in RowOf(old(occupation), e) ==>
                 id == Some(old(vehicleCounter)) && vehicleCounter == old(vehicleCounter) + 1 &&
                 Traffic(vehicles, occupation) == Admit(Traffic(old(vehicles), old(occupation)), e, p, velocity, vMax))
    {
      var e: Edge;
      if edge.None? {
        e := edges[edgePick % |edges|];
      } else {
        e := edge.value;
      }
      var n := numCells[e];
      var p: int;
      if position.None? {
        p := cellPick % n;
      } else {
        p := position.value;
      }
      if p in RowOf(occupation, e) {
        return None;
      }
      AdmitKeepsInvariants(numCells, Traffic(vehicles, occupation), e, p, velocity, vMax);
      var vehicleId := vehicleCounter;
      vehicleCounter := vehicleCounter + 1;
      vehicles := vehicles + [Vehicle(vehicleId, e, p, velocity, vMax)];
      occupation := Occupy(occupation, e, p, vehicleId);
      return Some(vehicleId);
    }

    /**
     * `initialize_vehicles`: aim for `int(total_cells * density)` vehicles, giving up after ten
     * attempts per wanted vehicle. Attempt `k` uses the choices `edgeDraw(k)` and `cellDraw(k)`.
     */
    method InitializeVehicles(density: real, edgeDraw: nat -> nat, cellDraw: nat -> nat)
      returns (numVehicles: int, added: nat, attempts: nat)
      requires Valid()
      modifies this`vehicles, this`vehicleCounter, this`occupation
      ensures Valid()
      ensures numVehicles == WantedVehicles(TotalCells(edges, numCells), density)
      ensures var r := Populate(edges, numCells, Traffic(old(vehicles), old(occupation)), vMax,
                                numVehicles, numVehicles * 10, edgeDraw, cellDraw, 0, 0);
              Traffic(vehicles, occupation) == r.traffic && added == r.added && attempts == r.attempts
    {
      var total := TotalCells(edges, numCells);
      numVehicles := WantedVehicles(total, density);
      added := 0;
      attempts := 0;
      var maxAttempts := numVehicles * 10;
      ghost var goal := Populate(edges, numCells, Traffic(vehicles, occupation), vMax, numVehicles, maxAttempts,
                                 edgeDraw, cellDraw, 0, 0);
      while added < numVehicles && attempts < maxAttempts
        invariant Valid()
        invariant goal == Populate(edges, numCells, Traffic(vehicles, occupation), vMax, numVehicles, maxAttempts,
                                   edgeDraw, cellDraw, added, attempts)
        decreases maxAttempts - attempts
      {
        added := PlacementAttempt(numVehicles, maxAttempts, edgeDraw, cellDraw, added, attempts);
        attempts := attempts + 1;
      }
    }

    /** One pass of the `initialize_vehicles` loop: `add_vehicle` at the attempt's random choices. */
    method PlacementAttempt(num: int, maxAttempts: int, edgeDraw: nat -> nat, cellDraw: nat -> nat, added: nat, attempts: nat)
      returns (added': nat)
      requires Valid() && |edges| > 0 && added < num && attempts < maxAttempts
      modifies this`vehicles, this`vehicleCounter, this`occupation
      ensures Valid()
      ensures Populate(edges, numCells, Traffic(vehicles, occupation), vMax, num, maxAttempts,
                       edgeDraw, cellDraw, added', attempts + 1) ==
              Populate(edges, numCells, Traffic(old(vehicles), old(occupation)), vMax, num, maxAttempts,
                       edgeDraw, cellDraw, added, attempts)
    {
      PopulateStep(edges, numCells, Traffic(vehicles, occupation), vMax, num, maxAttempts,
                   edgeDraw, cellDraw, added, attempts);
      var id := AddVehicle(None, None, 0, edgeDraw(attempts), cellDraw(attempts));
      added' := if id.Some? then added + 1 else added;
    }

    /** `_get_distance_to_next_vehicle`: the gap ahead, searching one hop past the end of the edge. */
    method DistanceToNextVehicle(vehicle: Vehicle) returns (d: int)
      requires WellFormed(edges, numCells) && vehicle.edge in numCells
      ensures d == GapAhead(edges, numCells, occupation, vehicle.edge, vehicle.position, vMax * 2)
      ensures 0 <= vehicle.position < numCells[vehicle.edge] && vMax >= 1 ==> d >= 1
    {
      var edge := vehicle.edge;
      var position := vehicle.position;
      var n := numCells[edge];
      var row := RowOf(occupation, edge);
      var maxSearchDistance := vMax * 2;
      var dist := 1;
      while dist < n
        invariant 1 <= dist
        invariant AheadOnEdge(row, position, n, 1) == AheadOnEdge(row, position, n, dist)
        decreases n - dist
      {
        var nextPos := position + dist;
        if nextPos >= n {
          break;
        }
        if nextPos in row {
          return dist;
        }
        dist := dist + 1;
      }
      var distance := n - position;
      var visited := {edge};
      var outs := OutEdges(edges, edge.v);
      ghost var gap := Lookahead(occupation, numCells, outs, 0, edge, distance, maxSearchDistance);
      var k := 0;
      while k < |outs|
        invariant 0 <= k <= |outs|
        invariant gap == Lookahead(occupation, numCells, outs, k, edge, distance, maxSearchDistance)
      {
        var nextEdge := outs[k];
        if nextEdge in visited {
          k := k + 1;
          continue;
        }
        var found := ScanOutEdgeCells(RowOf(occupation, nextEdge), numCells[nextEdge], distance, maxSearchDistance);
        if found.Some? {
          return found.value;
        }
        k := k + 1;
      }
      return maxSearchDistance;
    }

    /**
     * The inner loop of `_get_distance_to_next_vehicle` over one out-edge's cells: the distance
     * to the first occupied cell, or the search limit once it is reached; None when the edge ends first.
     */
    static method ScanOutEdgeCells(row: Row, n: int, distance: int, maxSearchDistance: int) returns (found: Option<int>)
      ensures found == ScanOutEdge(row, n, 0, distance, maxSearchDistance)
      ensures found.Some? ==> found.value == maxSearchDistance || found.value >= distance
    {
      var pos := 0;
      while pos < n
        invariant 0 <= pos
        invariant ScanOutEdge(row, n, 0, distance, maxSearchDistance) == ScanOutEdge(row, n, pos, distance, maxSearchDistance)
        decreases n - pos
      {
        if pos in row {
          return Some(distance + pos);
        }
        if distance + pos >= maxSearchDistance {
          return Some(maxSearchDistance);
        }
        pos := pos + 1;
      }
      return None;
    }

    /**
     * `_move_vehicle` for vehicle `i`; `pick` stands for the `random.choice` among the
     * out-edges. Moved / Collided are the source's True / False, MissingCell its KeyError.
     */
    method MoveVehicle(i: nat, pick: nat) returns (outcome: MoveOutcome)
      requires Valid() && i < |vehicles|
      modifies this`vehicles, this`occupation
      ensures Valid()
      ensures var m := Movement(edges, numCells, old(occupation), old(vehicles[i]), pick);
              vehicles == old(vehicles)[i := m.vehicle] && occupation == m.occ && outcome == m.outcome
    {
      MovementKeepsSound(edges, numCells, occupation, vehicles, i, pick);
      var moved, occ;
      moved, occ, outcome := PlannedMove(vehicles[i], pick);
      occupation := occ;
      vehicles := vehicles[i := moved];
    }

    /**
     * The branches of `_move_vehicle`, applied to a copy of the ledger: the vehicle's new
     * state, the new ledger and the outcome. The guard on the vehicle's own cell stands for
     * the KeyError the first `del` would raise.
     */
    method PlannedMove(vehicle: Vehicle, pick: nat) returns (moved: Vehicle, occ: Occupancy, outcome: MoveOutcome)
      requires WellFormed(edges, numCells) && vehicle.edge in numCells
      ensures Move(moved, occ, outcome) == Movement(edges, numCells, occupation, vehicle, pick)
    {
      ghost var m := Movement(edges, numCells, occupation, vehicle, pick);
      occ := occupation;
      var oldEdge := vehicle.edge;
      var oldPosition := vehicle.position;
      var newPosition := oldPosition + vehicle.velocity;
      var n := numCells[oldEdge];
      moved := vehicle;
      if oldPosition !in RowOf(occ, oldEdge) {
        // every branch below starts by deleting the old cell's entry, which raises KeyError here
        outcome := MissingCell;
      } else if newPosition < n {
        occ := Vacate(occ, oldEdge, oldPosition);
        if newPosition in RowOf(occ, oldEdge) {
          occ := Occupy(occ, oldEdge, oldPosition, vehicle.id);
          moved := vehicle.(velocity := 0);
          outcome := Collided;
        } else {
          occ := Occupy(occ, oldEdge, newPosition, vehicle.id);
          moved := vehicle.(position := newPosition);
          outcome := Moved;
        }
      } else {
        var cellsRemaining := newPosition - n;
        var nextEdges := OutEdges(edges, oldEdge.v);
        if nextEdges == [] {
          occ := Vacate(occ, oldEdge, oldPosition);
          occ := Occupy(occ, oldEdge, n - 1, vehicle.id);
          moved := vehicle.(position := n - 1, velocity := 0);
          outcome := Moved;
          assert Move(moved, occ, outcome) == m;
        } else {
          var nextEdge := nextEdges[pick % |nextEdges|];
          var nextNumCells := numCells[nextEdge];
          if cellsRemaining >= nextNumCells {
            cellsRemaining := nextNumCells - 1;
          }
          if cellsRemaining in RowOf(occ, nextEdge) {
            occ := Vacate(occ, oldEdge, oldPosition);
            occ := Occupy(occ, oldEdge, n - 1, vehicle.id);
            moved := vehicle.(position := n - 1, velocity := 0);
            outcome := Collided;
            assert Move(moved, occ, outcome) == m;
          } else {
            occ := Vacate(occ, oldEdge, oldPosition);
            occ := Occupy(occ, nextEdge, cellsRemaining, vehicle.id);
            moved := vehicle.(edge := nextEdge, position := cellsRemaining);
            outcome := Moved;
          }
        }
      }
      assert Move(moved, occ, outcome) == m;
    }

    /** Phase 1 of `step`: every vehicle below its own `v_max` speeds up by one. */
    method AccelerationPhase()
      requires Valid()
      modifies this`vehicles
      ensures Valid() && vehicles == Accelerated(old(vehicles))
    {
      ghost var v0 := vehicles;
      var j := 0;
      while j < |vehicles|
        invariant 0 <= j <= |vehicles| == |v0|
        invariant forall k :: 0 <= k < j ==> vehicles[k] == Accelerate(v0[k])
        invariant forall k :: j <= k < |v0| ==> vehicles[k] == v0[k]
      {
        var vehicle := vehicles[j];
        if vehicle.velocity < vehicle.vMax {
          vehicles := vehicles[j := vehicle.(velocity := vehicle.velocity + 1)];
        }
        j := j + 1;
      }
      assert vehicles == Accelerated(v0);
      SameLayoutKeepsLedger(numCells, occupation, v0, vehicles);
    }

    /** Phase 2 of `step`: every vehicle at or above its gap slows to `max(0, gap - 1)`. */
    method BrakingPhase()
      requires Valid()
      modifies this`vehicles
      ensures Valid() && vehicles == Braked(old(vehicles), Gaps(edges, numCells, occupation, old(vehicles), 2 * vMax))
    {
      ghost var v0 := vehicles;
      ghost var gaps := Gaps(edges, numCells, occupation, v0, 2 * vMax);
      var j := 0;
      while j < |vehicles|
        invariant 0 <= j <= |vehicles| == |v0|
        invariant forall k :: 0 <= k < j ==> vehicles[k] == Brake(v0[k], gaps[k])
        invariant forall k :: j <= k < |v0| ==> vehicles[k] == v0[k]
      {
        var vehicle := vehicles[j];
        var distance := DistanceToNextVehicle(vehicle);
        if vehicle.velocity >= distance {
          vehicles := vehicles[j := vehicle.(velocity := Max(0, distance - 1))];
        }
        j := j + 1;
      }
      assert vehicles == Braked(v0, gaps);
      SameLayoutKeepsLedger(numCells, occupation, v0, vehicles);
    }

    /** Phase 3 of `step`: a moving vehicle whose draw falls below `p_slow` slows by one. */
    method RandomizationPhase(slowDraws: seq<real>)
      requires Valid() && |slowDraws| == |vehicles|
      modifies this`vehicles
      ensures Valid() && vehicles == Randomized(old(vehicles), slowDraws, pSlow)
    {
      ghost var v0 := vehicles;
      var j := 0;
      while j < |vehicles|
        invariant 0 <= j <= |vehicles| == |v0|
        invariant forall k :: 0 <= k < j ==> vehicles[k] == Randomize(v0[k], slowDraws[k], pSlow)
        invariant forall k :: j <= k < |v0| ==> vehicles[k] == v0[k]
      {
        var vehicle := vehicles[j];
        if vehicle.velocity > 0 && slowDraws[j] < pSlow {
          vehicles := vehicles[j := vehicle.(velocity := vehicle.velocity - 1)];
        }
        j := j + 1;
      }
      assert vehicles == Randomized(v0, slowDraws, pSlow);
      SameLayoutKeepsLedger(numCells, occupation, v0, vehicles);
    }

    /** Phase 4 of `step`: every vehicle moves in id order; false when a move raises KeyError. */
    method MovementPhase(turnPicks: seq<nat>) returns (completed: bool)
      requires Valid() && |turnPicks| == |vehicles|
      modifies this`vehicles, this`occupation
      ensures Valid()
      ensures var r := MoveFrom(edges, numCells, Traffic(old(vehicles), old(occupation)), turnPicks, 0);
              vehicles == r.traffic.vehicles && occupation == r.traffic.occ && completed == r.completed
    {
      ghost var t0 := Traffic(vehicles, occupation);
      var j := 0;
      while j < |vehicles|
        invariant 0 <= j <= |vehicles| == |t0.vehicles|
        invariant Valid()
        invariant MoveFrom(edges, numCells, t0, turnPicks, 0) ==
                  MoveFrom(edges, numCells, Traffic(vehicles, occupation), turnPicks, j)
      {
        MoveFromStep(edges, numCells, Traffic(vehicles, occupation), turnPicks, j);
        var outcome := MoveVehicle(j, turnPicks[j]);
        if outcome == MissingCell {
          return false;
        }
        j := j + 1;
      }
      return true;
    }

    /**
     * `step`: the four phases over the vehicles in id order. `slowDraws[j]` is vehicle j's
     * `random.random()` and `turnPicks[j]` its turn choice. When a move raises KeyError the
     * step stops there (`completed` is false) with the earlier phases and moves already applied.
     */
    method Step(slowDraws: seq<real>, turnPicks: seq<nat>) returns (completed: bool)
      requires Valid() && |slowDraws| == |vehicles| && |turnPicks| == |vehicles|
      modifies this`vehicles, this`occupation, this`timeStep, this`avgVelocities
      ensures Valid()
      ensures var r := StepTraffic(edges, numCells, Traffic(old(vehicles), old(occupation)), vMax, pSlow,
                                   slowDraws, turnPicks);
              vehicles == r.traffic.vehicles && occupation == r.traffic.occ && completed == r.completed
      ensures completed ==> timeStep == old(timeStep) + 1 &&
                            avgVelocities == old(avgVelocities) + (if |vehicles| > 0 then [MeanVelocity(vehicles)] else [])
      ensures !completed ==> timeStep == old(timeStep) && avgVelocities == old(avgVelocities)
    {
      ghost var t0 := Traffic(vehicles, occupation);
      AccelerationPhase();
      ghost var a := vehicles;
      BrakingPhase();
      ghost var b := vehicles;
      RandomizationPhase(slowDraws);
      ghost var c := vehicles;
      assert b == Braked(a, Gaps(edges, numCells, t0.occ, a, 2 * vMax));
      assert StepTraffic(edges, numCells, t0, vMax, pSlow, slowDraws, turnPicks) ==
             MoveFrom(edges, numCells, Traffic(c, t0.occ), turnPicks, 0);
      completed := MovementPhase(turnPicks);
      if !completed {
        return;
      }
      timeStep := timeStep + 1;
      if |vehicles| > 0 {
        avgVelocities := avgVelocities + [MeanVelocity(vehicles)];
      }
    }
  }
}

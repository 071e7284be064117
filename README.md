# TrafficSim core in Dafny

This project models three parts of TrafficSim in Dafny and proves properties of the model:

- **The Nagel–Schreckenberg engine** (`TrafficSimulation`).
  - Street edges are cut into cells of `cell_length` metres.
  - Vehicles are placed on free cells.
  - Each `step` runs the four rules over the vehicles in creation order: accelerate, brake against the gap to the next vehicle, random slowdown, move. A move may turn onto one out-edge of the end node, or park at the end of the edge.
- **The origin–destination demand generator** (`generador_od`).
  - It reads zone files.
  - It merges production and attraction factors with their overrides.
  - It checks that every zone node exists in the graph.
  - It computes the zone-to-zone travel costs from a shortest-distance map.
  - It applies the impedance function and builds the singly production-constrained gravity matrix.
- **The zone builder tool** (`zone_builder`).
  - The monotone-chain convex hull.
  - The zone-table bookkeeping of its editor: registering a drawn polygon, undo, delete, clearing all zones, loading an existing file, and serializing.

## Modules

| module | file | source |
|---|---|---|
| `Wrappers` | `wrappers.dfy` | Option and Result types, `Distinct`, and Python's `int()` on a real, truncating toward zero (`Trunc`) |
| `NagelSchreckenberg` | `nagel_schreckenberg.dfy` | the engine's rules as functions on values: cell counts, placement, gap search, the velocity rules, a move and a whole step, with the ledger invariants and their preservation lemmas |
| `NagelSchreckenbergWitness` | `nagel_schreckenberg.dfy` | one concrete run in which a step leaves two vehicles on one cell |
| `TrafficSimulation` | `traffic_simulation.dfy` | the class `Simulation`: fields `lengths`, `numCells`, `vehicles`, `vehicleCounter`, `occupation`, `timeStep` and `avgVelocities`. Each method is proved equal to the function of the engine module |
| `OdGenerator` | `od_generator.dfy` | factor merging, node validation, zone costs, impedance and the gravity matrix. Each is a specification function plus the looping method proved equal to it |
| `ZoneFile` | `zone_file.dfy` | the payload rules of `load_zone_file` over a JSON value |
| `ConvexHull` | `convex_hull.dfy` | `monotonic_chain` and `cross` |
| `ZoneBuilder` | `zone_editor.dfy` | the zone tables as a value `Zones`, its transitions, and the class `ZoneEditor` whose methods are proved to perform them |
| `ZoneRoundTrip` | `zone_round_trip.dfy` | a file serialized by an editor holding at least one zone loads again and rebuilds the same zone tables; a file saved with no zones is rejected on loading |

### How the model is built

**Vehicles and the ledger.**
- The vehicle registry `{id: Vehicle}` is a `seq<Vehicle>` indexed by id. Ids are handed out as `0, 1, 2, …` and nothing deletes a vehicle.
- `edge_occupation` (a `defaultdict(dict)`) is a `map<Edge, map<int, int>>`. An edge that is absent reads as an empty row.

**Ledger invariants.** Two invariants are kept apart:
- `Sound` says every ledger entry names a vehicle that sits exactly on that cell. Every step preserves it.
- `Complete` says every vehicle's cell carries its id. The two end-of-edge fallbacks can break it, because they write cell `num_cells - 1` without looking at it first.
  - `MovementKeepsComplete` states the condition under which a move preserves `Complete`.
  - `StepCanStackVehicles` exhibits a step after which two vehicles share a cell.

**Error paths.**
- `del edge_occupation[e][p]` raises `KeyError` when the vehicle's own cell is not in the ledger. This is the outcome `MissingCell`. The movement loop stops there, and `Step` reports `completed == false` without counting the step.
- `load_zone_file`, `merge_factors`, `validate_zone_nodes` and `impedance` raise `ValueError`, and `compute_zone_costs` gets one from `nx.multi_source_dijkstra_path_length` for an origin without nodes. These are `Err` results that carry the error the source raises.
- `float(production)` and `float(attraction)` in `load_zone_file` are not wrapped in a `try`: a numeric string that does not parse raises `ValueError`, and a list or object raises `TypeError`. The model reports both as the one error `NonNumericFactor`.

**Randomness, as explicit parameters.**
- `random.choice` and `random.randint` in `add_vehicle` become the picks `edgePick` and `cellPick`, reduced modulo the number of choices. `initialize_vehicles` receives them as functions of the attempt number.
- `random.random()` in the slowdown rule becomes one draw per vehicle.
- `random.choice` among out-edges in `_move_vehicle` becomes one pick per vehicle.

**The zone editor.**
- The editor's dictionaries and `zone_order` become a `Zones` value. The state each method leaves is stated as a function of the previous one.
- The invariant `Agree` has three parts:
  - `zone_order` is duplicate-free;
  - `zone_order` lists exactly the zones that have nodes;
  - every other table only holds such zones.

  `Agree` is proved preserved by each transition.
- `SavedFile` is the file `save` writes: one member per zone name, in the order given.

**Per-vehicle and per-row helpers.** Several functions only apply a rule element by element, and their contracts say no more than that:
- `Accelerated`, `Braked` and `Randomized` apply a velocity rule to each vehicle, and `Gaps` measures each vehicle's gap against one ledger. What they promise is stated by `AccelerationKeepsRange`, `BrakingRespectsGaps`, `SlowdownKeepsRange` and `StepPreservesInvariants`.
- `Row` and `MatrixOf` give each destination and each origin its gravity entry. `Contributions` is the table of weights, and `Scaled` spreads a production over weights. What they promise is stated by `GravityMatrixFailsIff`, `RowIsScaled` and `RowSumsToProduction`.
- `Reversed` is `reversed(pts)`, used by `MonotonicChain` for the upper half.
- After an edit, the source sets `changed = True` and then calls `save(output_path)` whenever an output path exists, and `save` resets `changed` to `False`. The model follows the code: after an edit, `changed == !hasOutput`.

## Model

| member | source | states |
|---|---|---|
| `Wrappers.Trunc` | src/traffic_simulation.py:154 | `int()` of a real truncates toward zero: for a non-negative real it is the largest integer not above it |
| `NagelSchreckenberg.Ceil` | src/traffic_simulation.py:99 | `np.ceil`: the least integer not below the real |
| `NagelSchreckenberg.CellCount` | src/traffic_simulation.py:99 | every edge gets at least one cell |
| `NagelSchreckenberg.CellCountCovers` | src/traffic_simulation.py:98-99 | one cell exactly when the edge is no longer than a cell; otherwise `n` cells cover the length and `n - 1` do not |
| `NagelSchreckenberg.OutEdges` | src/traffic_simulation.py:245 | the out-edges of a node are exactly the network's edges that start there |
| `NagelSchreckenberg.TotalCells` | src/traffic_simulation.py:148-151 | the total is at least the number of edges once every edge has a cell |
| `NagelSchreckenberg.Admit` | src/traffic_simulation.py:130-136 | admitting a vehicle appends exactly one vehicle and keeps the earlier ones |
| `NagelSchreckenberg.AdmitKeepsInvariants` | src/traffic_simulation.py:126-138 | the new vehicle gets the next id on the chosen cell, and that cell records its id. No other ledger entry changes. Ids, soundness, completeness and the range bounds are preserved |
| `NagelSchreckenberg.Populate` | src/traffic_simulation.py:159-166 | the placement loop ends with `added >= num_vehicles` or `attempts >= max_attempts`. It never exceeds either bound and adds at most one vehicle per attempt. The registry grows by the number added |
| `NagelSchreckenberg.PopulateStep` | src/traffic_simulation.py:163-166 | one attempt on a taken cell only counts the attempt; on a free cell it admits a vehicle and counts both |
| `NagelSchreckenberg.PopulateKeepsPrefix` | src/traffic_simulation.py:159-166 | placement never alters the vehicles already registered |
| `NagelSchreckenberg.PopulateKeepsLedger` | src/traffic_simulation.py:159-166 | placement preserves the ids, the soundness of the ledger and that every vehicle is on a network edge |
| `NagelSchreckenberg.PopulateKeepsBounds` | src/traffic_simulation.py:159-166 | placement preserves the ledger's completeness and the position and velocity bounds |
| `NagelSchreckenberg.AheadOnEdge` | src/traffic_simulation.py:182-187 | a distance found on the current edge is an occupied cell ahead of the vehicle and still on the edge |
| `NagelSchreckenberg.ScanOutEdge` | src/traffic_simulation.py:205-209 | a scan of a following edge returns the search cap or a distance at least the distance already covered |
| `NagelSchreckenberg.Lookahead` | src/traffic_simulation.py:199-211 | the search over out-edges returns the cap or at least the distance to the end of the current edge |
| `NagelSchreckenberg.GapAtLeastOne` | src/traffic_simulation.py:170-211 | for a vehicle on a cell of its edge and a search cap `2 * v_max` of at least 1, the distance to the next vehicle is at least 1 |
| `NagelSchreckenberg.AheadFindsNearest` | src/traffic_simulation.py:182-187 | the first occupied cell ahead is the distance found on the edge |
| `NagelSchreckenberg.GapIsNearestAhead` | src/traffic_simulation.py:182-187 | with an occupied cell ahead on the current edge, the distance is the one to the nearest such cell |
| `NagelSchreckenberg.AheadNoneWhenClear` | src/traffic_simulation.py:182-185 | with the rest of the edge clear, the on-edge search finds nothing |
| `NagelSchreckenberg.GapAtDeadEnd` | src/traffic_simulation.py:190-211 | with the rest of the edge clear and no out-edge, the distance is `2 * v_max` |
| `NagelSchreckenberg.GapBoundedWhenClear` | src/traffic_simulation.py:190-211 | with the rest of the edge clear, the distance is at most the larger of the cap and the cells left on the edge |
| `NagelSchreckenberg.ScanBounded` | src/traffic_simulation.py:205-209 | a scan of a following edge never returns more than the larger of the cap and the distance covered |
| `NagelSchreckenberg.LookaheadBounded` | src/traffic_simulation.py:199-211 | the out-edge search never returns more than the larger of the cap and the distance covered |
| `NagelSchreckenberg.Accelerate` | src/traffic_simulation.py:286-287 | a velocity below `v_max` rises by exactly one; other velocities and all other fields stay |
| `NagelSchreckenberg.Brake` | src/traffic_simulation.py:292-293 | a velocity below the gap stays. Otherwise it drops to `max(0, gap - 1)`, so a non-negative velocity ends in `[0, gap)` |
| `NagelSchreckenberg.Randomize` | src/traffic_simulation.py:297-298 | the velocity drops by one exactly when it is positive and the draw is below `p_slow`, and otherwise stays |
| `NagelSchreckenberg.AccelerationKeepsRange` | src/traffic_simulation.py:285-287 | acceleration over all vehicles keeps every position and every velocity within `[0, v_max]`, and slows no vehicle |
| `NagelSchreckenberg.SlowdownKeepsRange` | src/traffic_simulation.py:296-298 | random slowdown over all vehicles keeps every position and every velocity within `[0, v_max]`, and speeds up no vehicle |
| `NagelSchreckenberg.Movement` | src/traffic_simulation.py:220-278 | a move keeps the vehicle's id and `v_max` and leaves it on a network edge. Its velocity is unchanged or 0 |
| `NagelSchreckenberg.RelocatedEntry` | src/traffic_simulation.py:274-275 | moving an id from one cell to another changes only those two ledger entries |
| `NagelSchreckenberg.MovementRelocates` | src/traffic_simulation.py:220-278 | a move fails with `KeyError` exactly when the vehicle's own cell is not in the ledger, and then changes nothing. Otherwise its ledger is the old one with the vehicle's id moved from its old cell to its new one |
| `NagelSchreckenberg.MovementStaysOnNetwork` | src/traffic_simulation.py:220-278 | after a move the position lies in `[0, num_cells)` of the vehicle's possibly new edge, and the velocity is non-negative |
| `NagelSchreckenberg.MovementSameEdgeCollision` | src/traffic_simulation.py:226-234 | a same-edge collision restores the ledger, sets velocity 0 and reports a collision |
| `NagelSchreckenberg.MovementDeadEnd` | src/traffic_simulation.py:247-254 | overflowing a dead end parks the vehicle on the last cell with velocity 0 and reports success |
| `NagelSchreckenberg.CompleteIsExclusive` | src/traffic_simulation.py:76-77 | a ledger that records every vehicle rules out two vehicles on one cell |
| `NagelSchreckenberg.MovementKeepsSound` | src/traffic_simulation.py:220-278 | a move preserves ids, the network bounds, every `v_max` and the soundness of the ledger |
| `NagelSchreckenberg.MovementTargetFree` | src/traffic_simulation.py:247-271 | when the parking cell is free, a vehicle only lands on a free cell or on its own |
| `NagelSchreckenberg.MovementKeepsComplete` | src/traffic_simulation.py:220-278 | with a complete ledger and a free parking cell, a move succeeds and keeps the ledger complete |
| `NagelSchreckenberg.MoveFrom` | src/traffic_simulation.py:301-302 | the movement loop keeps the number of vehicles and keeps every vehicle on the network |
| `NagelSchreckenberg.MoveFromStep` | src/traffic_simulation.py:301-302 | the movement loop stops at the first `KeyError` and otherwise continues from the moved state |
| `NagelSchreckenberg.StepTraffic` | src/traffic_simulation.py:280-302 | a step keeps the number of vehicles |
| `NagelSchreckenberg.MoveFromKeepsSound` | src/traffic_simulation.py:301-302 | the movement loop preserves ids and the soundness of the ledger |
| `NagelSchreckenberg.MoveFromKeepsInRange` | src/traffic_simulation.py:301-302 | the movement loop preserves the position and velocity bounds and every id. Each velocity stays or becomes 0 |
| `NagelSchreckenberg.BrakingRespectsGaps` | src/traffic_simulation.py:290-293 | for vehicles whose velocities lie in `[0, v_max]` on valid cells, and `v_max >= 1`: after braking every gap is at least 1, every velocity lies in `[0, gap)`, and no velocity is above its old value |
| `NagelSchreckenberg.StepPreservesInvariants` | src/traffic_simulation.py:280-302 | a step keeps the set of ids, each `v_max`, the soundness of the ledger and the position and velocity bounds |
| `NagelSchreckenberg.MoveFromKeepsVMax` | src/traffic_simulation.py:301-302 | the movement loop never changes a `v_max` |
| `NagelSchreckenberg.SumVelocities` | src/traffic_simulation.py:307 | the velocity sum is non-negative when every velocity is |
| `NagelSchreckenberg.SumVelocitiesBounded` | src/traffic_simulation.py:307 | the velocity sum lies in `[0, n * v_max]` |
| `NagelSchreckenberg.MeanVelocityBounded` | src/traffic_simulation.py:306-308 | the recorded mean velocity lies in `[0, v_max]` |
| `NagelSchreckenbergWitness.WitnessMovementPhase` | src/traffic_simulation.py:301-302 | on the sample network the movement loop sends both vehicles to the same cell of the dead-end edge |
| `NagelSchreckenbergWitness.StepCanStackVehicles` | src/traffic_simulation.py:247-254 | from a valid state with a complete ledger, one step completes with two vehicles on one cell. So "no two vehicles per cell" is not an invariant of `step` |
| `TrafficSimulation.ChosenEdge` | src/traffic_simulation.py:115-118 | the given edge, or else one of the network's edges |
| `TrafficSimulation.ChosenCell` | src/traffic_simulation.py:122-124 | the given position, or else a cell of the edge |
| `TrafficSimulation.WantedVehicles` | src/traffic_simulation.py:154 | `int(total_cells * density)` is 0 without cells and non-negative for a non-negative density |
| `TrafficSimulation.SameLayoutKeepsLedger` | src/traffic_simulation.py:285-298 | changing only velocities keeps the ids, the network bounds and the soundness of the ledger |
| `TrafficSimulation.Simulation.constructor` | src/traffic_simulation.py:44-81 | the parameters are stored and every edge is discretized. There are no vehicles, the counter is 0, the ledger is empty and there are no statistics |
| `TrafficSimulation.Simulation.DiscretizeEdges` | src/traffic_simulation.py:83-101 | every edge gets its length written back and its cell count. Other edges are untouched. Re-running on discretized edges changes nothing |
| `TrafficSimulation.Simulation.AddVehicle` | src/traffic_simulation.py:103-138 | on a taken cell it returns None and changes nothing. Otherwise it returns the old counter, increments the counter by one, and registers the vehicle in both the registry and the ledger |
| `TrafficSimulation.Simulation.InitializeVehicles` | src/traffic_simulation.py:140-166 | asks for `int(total_cells * density)` vehicles. The state and the counts are those of the placement loop with at most ten attempts per vehicle |
| `TrafficSimulation.Simulation.PlacementAttempt` | src/traffic_simulation.py:163-166 | one attempt of the placement loop leaves the rest of the loop's outcome unchanged |
| `TrafficSimulation.Simulation.DistanceToNextVehicle` | src/traffic_simulation.py:170-211 | returns the gap of the engine module; when `v_max >= 1` it is at least 1 for a vehicle on a cell of its edge (with `v_max = 0` the search cap `2 * v_max` is 0) |
| `TrafficSimulation.Simulation.ScanOutEdgeCells` | src/traffic_simulation.py:205-209 | the cell loop over a following edge returns the scan's value |
| `TrafficSimulation.Simulation.MoveVehicle` | src/traffic_simulation.py:213-278 | the vehicle and the ledger become the move's result, and the outcome is reported |
| `TrafficSimulation.Simulation.PlannedMove` | src/traffic_simulation.py:220-278 | the branches of `_move_vehicle` compute the move of the engine module |
| `TrafficSimulation.Simulation.AccelerationPhase` | src/traffic_simulation.py:285-287 | every vehicle is accelerated |
| `TrafficSimulation.Simulation.BrakingPhase` | src/traffic_simulation.py:290-293 | every vehicle brakes against its gap in the unchanged ledger |
| `TrafficSimulation.Simulation.RandomizationPhase` | src/traffic_simulation.py:296-298 | every vehicle takes its slowdown draw |
| `TrafficSimulation.Simulation.MovementPhase` | src/traffic_simulation.py:301-302 | vehicles and ledger become the movement loop's result, and the outcome says whether every move completed |
| `TrafficSimulation.Simulation.Step` | src/traffic_simulation.py:280-308 | the state becomes the step's result. A completed step adds exactly 1 to `time_step` and appends the mean velocity exactly when there are vehicles. A step stopped by `KeyError` records nothing |
| `OdGenerator.Pick` | generador_od.py:132-133 | an override wins over the embedded value, and there is no value exactly when neither has the zone |
| `OdGenerator.MergedSucceedsIff` | generador_od.py:131-137 | merging succeeds exactly when every zone has both a production and an attraction |
| `OdGenerator.MergedValues` | generador_od.py:131-141 | the merged tables hold exactly the zones, each with the override or else the embedded value |
| `OdGenerator.MergedFirstError` | generador_od.py:131-137 | a failure names the first zone lacking a factor, choosing production before attraction |
| `OdGenerator.MergedKeepsError` | generador_od.py:131-137 | once a prefix of the zones fails, the whole merge fails with the same error |
| `OdGenerator.MergeFactors` | generador_od.py:120-141 | the loop computes the factor merge |
| `OdGenerator.MissingNodesExact` | generador_od.py:149 | the missing list holds exactly the zone's nodes absent from the graph, and is empty exactly when all are present |
| `OdGenerator.MissingByZoneSound` | generador_od.py:148-151 | every report names a zone with a non-empty list of exactly its missing nodes |
| `OdGenerator.MissingByZoneEmptyIff` | generador_od.py:146-156 | nothing is reported exactly when every zone's nodes are all in the graph |
| `OdGenerator.ValidateZoneNodes` | generador_od.py:144-156 | fails, carrying the per-zone report, exactly when some zone names a node outside the graph, and otherwise succeeds |
| `OdGenerator.MinCost` | generador_od.py:170-175 | the zone cost is infinite exactly when no node is reached. Otherwise it is the distance of a reached node and at most every reached node's distance |
| `OdGenerator.CostRow` | generador_od.py:168-175 | a cost row has exactly the destination zones |
| `OdGenerator.ZoneCosts` | generador_od.py:165-177 | the cost table has exactly the origins, each with exactly the destinations |
| `OdGenerator.ZoneCostsAreMinima` | generador_od.py:166-177 | `costs[o][d]` is the minimum over `d`'s nodes of the distance from `o`'s nodes, with the bounds of `MinCost` |
| `OdGenerator.ZoneCostsEntry` | generador_od.py:166-176 | the row of origin `o` is the cost row over the distances from `o`'s nodes |
| `OdGenerator.CostRowEntry` | generador_od.py:169-175 | a row's entry for a destination is the minimum over its nodes |
| `OdGenerator.MinCostStep` | generador_od.py:171-174 | each node updates the running minimum exactly when its cost is smaller |
| `OdGenerator.CostRowStep` | generador_od.py:169-175 | each destination adds its minimum to the row |
| `OdGenerator.ZoneCostsStep` | generador_od.py:166-176 | each origin adds its row to the table |
| `OdGenerator.ComputeCostRow` | generador_od.py:168-176 | the loops over destinations and their nodes compute one origin's cost row, each destination's running minimum |
| `OdGenerator.ComputeZoneCosts` | generador_od.py:159-177 | fails with `NoSources` exactly when some origin has no nodes, naming the first such origin; otherwise the nested loops compute the cost table |
| `OdGenerator.ImpedanceCases` | generador_od.py:180-190 | impedance is 0 for an infinite or negative cost, and 0 for `"power"` at cost 0. It fails with the friction's name exactly when the cost is usable and the friction is neither `"exponential"` nor `"power"` |
| `OdGenerator.ImpedanceNonNegative` | generador_od.py:180-190 | impedance is non-negative when `exp` and `pow` are |
| `OdGenerator.Contribution` | generador_od.py:210-217 | a destination's weight is non-negative |
| `OdGenerator.ContributionIsPositiveWeight` | generador_od.py:212-217 | a weight is recorded exactly when the destination is considered and attraction times impedance is positive, and then it is that product |
| `OdGenerator.ContributionOfWeight` | generador_od.py:212-217 | with a known impedance, the weight is the product when positive and 0 otherwise |
| `OdGenerator.RowTotal` | generador_od.py:207-217 | `total_weight` is non-negative |
| `OdGenerator.RowTotalStep` | generador_od.py:209-217 | each destination adds its weight to the total |
| `OdGenerator.RowStep` | generador_od.py:222-228 | each destination adds its entry to the row |
| `OdGenerator.MatrixStep` | generador_od.py:206-228 | each origin adds its row to the matrix |
| `OdGenerator.GravityMatrixFailsIff` | generador_od.py:206-217 | the matrix fails exactly when the friction is unsupported and some considered pair has a usable cost. Otherwise every entry is the gravity entry |
| `OdGenerator.SelfTripsExcluded` | generador_od.py:222-225 | the self-entry is exactly 0 unless self-trips are allowed |
| `OdGenerator.ZeroTotalGivesZeroRow` | generador_od.py:218-221 | with zero total weight every entry of the row is 0, the self-entry included |
| `OdGenerator.ContributionBelowTotal` | generador_od.py:207-217 | a single weight never exceeds the row's total |
| `OdGenerator.SharesAreFractions` | generador_od.py:222-228 | with a non-zero total, the total is positive and each share lies in `[0, 1]`. A zero weight gives 0, and entries are non-negative for a non-negative production |
| `OdGenerator.PortionNonNegative` | generador_od.py:228 | `production * share` is non-negative for non-negative production and weight |
| `OdGenerator.ScaledSum` | generador_od.py:222-228 | the sum of the scaled weights is the production times the sum of the weights over the total |
| `OdGenerator.SharesAddUp` | generador_od.py:222-228 | scaling weights by their own sum distributes exactly the production |
| `OdGenerator.RowTotalIsSum` | generador_od.py:207-217 | `total_weight` is the sum of the recorded weights |
| `OdGenerator.RowIsScaled` | generador_od.py:222-228 | with a non-zero total, a row is the production spread over the weights |
| `OdGenerator.RowSumsToProduction` | generador_od.py:207-228 | with a non-zero total, an origin's row sums exactly to its production |
| `OdGenerator.AccumulateWeights` | generador_od.py:207-217 | the first inner loop fails exactly when an impedance of the row fails. Otherwise it yields the row's total and every weight |
| `OdGenerator.FillRow` | generador_od.py:218-228 | the second part of the outer loop fills the row with its gravity entries |
| `OdGenerator.ShareEntry` | generador_od.py:222-228 | with a non-zero total, an entry is 0 for an excluded self-trip and otherwise the production times its share |
| `OdGenerator.ShareRow` | generador_od.py:222-228 | the share loop fills the row with its gravity entries |
| `OdGenerator.BuildGravityMatrix` | generador_od.py:193-229 | the nested loops compute the gravity matrix or its failure |
| `ZoneFile.Get` | generador_od.py:62-67 | `payload.get(key)` returns a non-null value stored under the key, and nothing when the key is absent |
| `ZoneFile.IntList` | generador_od.py:80-82 | node ids convert exactly when every item converts, and then element by element |
| `ZoneFile.PointsKeepsPairs` | generador_od.py:89-96 | a polygon converts exactly when every two-element item has two numbers. Then it keeps one point per such item |
| `ZoneFile.EntryRules` | generador_od.py:61-99 | these payloads are rejected: an object without `nodes`, and anything neither an object nor a list. A list payload is the node list, with no factors and no polygon. An accepted polygon has at least three points |
| `ZoneFile.MembersSucceedIff` | generador_od.py:57-99 | the entries load exactly when every entry does |
| `ZoneFile.MembersFirstError` | generador_od.py:57-99 | a failure is the first failing entry's error |
| `ZoneFile.AddRecords` | generador_od.py:80-99 | adding an entry records its factors and polygon and keeps the other zones' records |
| `ZoneFile.MembersLast` | generador_od.py:57-99 | the last entry extends the table built from the others |
| `ZoneFile.MembersZones` | generador_od.py:57-82 | the zones are the entries in file order, each with its node list |
| `ZoneFile.MembersFactors` | generador_od.py:84-99 | with distinct names, every zone's factors and polygon are those of its entry |
| `ZoneFile.MembersNames` | generador_od.py:84-99 | the factor and polygon tables only hold zone names of the file |
| `ZoneFile.MembersKeepsError` | generador_od.py:57-99 | once a prefix of the entries fails, the load fails with the same error |
| `ZoneFile.ZoneFileRules` | generador_od.py:49-99 | a non-object or empty top level is rejected. Otherwise the file loads exactly when every entry does, and a failure is the first failing entry's error |
| `ZoneFile.LoadZoneFile` | generador_od.py:41-101 | the loop over the entries computes the payload rules |
| `ConvexHull.InsertElements` | tools/zone_builder.py:87 | sorted insertion adds exactly the new point |
| `ConvexHull.InsertSorted` | tools/zone_builder.py:87 | sorted insertion keeps a list strictly sorted |
| `ConvexHull.SortedSet` | tools/zone_builder.py:87 | `sorted(set(points))` is strictly sorted and has exactly the input's points |
| `ConvexHull.PicksDistinct` | tools/zone_builder.py:94-98 | a chain picked at increasing positions of distinct points is distinct |
| `ConvexHull.DropLast` | tools/zone_builder.py:96-97 | popping keeps the chain's walk invariant |
| `ConvexHull.Push` | tools/zone_builder.py:96-98 | appending a point after the pops keeps every turn strictly left |
| `ConvexHull.Walk` | tools/zone_builder.py:94-98 | a finished chain holds only input points, without duplicates when the input has none |
| `ConvexHull.Chain` | tools/zone_builder.py:94-104 | each half starts at the first point, ends at the last, and holds only input points, distinct when they are. Every three consecutive points turn strictly left |
| `ConvexHull.SortedDistinct` | tools/zone_builder.py:87 | sorted points and their reversal are duplicate-free |
| `ConvexHull.SortedEnds` | tools/zone_builder.py:87 | the first sorted point is the least input point and the last is the greatest |
| `ConvexHull.MonotonicChain` | tools/zone_builder.py:85-107 | with at most one distinct point the result is the sorted de-duplicated points. Every hull point is an input point. With two or more, the hull starts at the least input point and passes through the greatest |
| `ZoneBuilder.SortedIds` | tools/zone_builder.py:484 | `sorted(nodes)` is strictly increasing with exactly the node set |
| `ZoneBuilder.WithoutKeeps` | tools/zone_builder.py:465 | filtering out a zone keeps exactly the other zones and keeps them duplicate-free |
| `ZoneBuilder.RemoveFirstIsWithout` | tools/zone_builder.py:233-234 | on a duplicate-free order, `remove` equals filtering out the zone |
| `ZoneBuilder.IngestedNodes` | tools/zone_builder.py:262-278 | ingesting lists the file's zones in order, each with its node set |
| `ZoneBuilder.IngestedFactors` | tools/zone_builder.py:262-278 | ingesting keeps a non-empty polygon and every production and attraction of the file's zones |
| `ZoneBuilder.IngestedAgrees` | tools/zone_builder.py:262-278 | ingesting a loaded file yields tables that agree with the order |
| `ZoneBuilder.MoveToEnd` | tools/zone_builder.py:233-235 | registration moves the zone to the end of the order, where it appears once, and keeps the others |
| `ZoneBuilder.RegisteredTablesWithinNodes` | tools/zone_builder.py:222-235 | registration keeps every table within the zones that have nodes |
| `ZoneBuilder.RegisteredAgrees` | tools/zone_builder.py:222-235 | registration keeps the tables agreeing with the order, and puts the zone last |
| `ZoneBuilder.RegisteredEntries` | tools/zone_builder.py:222-231 | registration replaces the node set and polygon. It stores or deletes the production and attraction as given, and leaves other zones intact |
| `ZoneBuilder.UndoRegistered` | tools/zone_builder.py:440-448 | undo right after registering a new zone restores the previous tables |
| `ZoneBuilder.UndoneAgrees` | tools/zone_builder.py:440-448 | undo removes the last zone from the order and every table, and keeps them agreeing |
| `ZoneBuilder.DroppedAgrees` | tools/zone_builder.py:465-469 | delete keeps the tables agreeing and removes the zone from the order |
| `ZoneBuilder.DropLastIsUndo` | tools/zone_builder.py:444-448 | deleting the last zone is the same as undo |
| `ZoneBuilder.ClearedIsEmpty` | tools/zone_builder.py:426-431 | popping every listed zone from every table and clearing the order leaves agreeing tables with no zone at all |
| `ZoneBuilder.SavedAllHolds` | tools/zone_builder.py:481-494 | the payload holds exactly the listed zones, each with its saved entry |
| `ZoneBuilder.SerializedContents` | tools/zone_builder.py:481-494 | the payload holds exactly the zones of the order. Each `nodes` list is sorted and holds the node set. Polygon, production and attraction appear exactly when stored |
| `ZoneBuilder.IdsReadBack` | generador_od.py:80-82 | saved node ids convert back to the same list |
| `ZoneBuilder.PointsReadBack` | generador_od.py:89-96 | a saved polygon converts back to the same points |
| `ZoneBuilder.SavedLookups` | tools/zone_builder.py:485-492 | a saved entry gives back each of its keys, and no key that was not written |
| `ZoneBuilder.SavedFields` | generador_od.py:65-99 | the fields of a saved entry load back to the same entry |
| `ZoneBuilder.SavedZoneReadsBack` | generador_od.py:61-99 | a saved entry with a polygon of at least three points loads back unchanged |
| `ZoneBuilder.ZoneEditor.constructor` | tools/zone_builder.py:113-127 | the editor starts unchanged, with empty tables or with an existing file ingested |
| `ZoneBuilder.ZoneEditor.Ingest` | tools/zone_builder.py:262-278 | the tables become those of ingesting the file, and `changed` stays |
| `ZoneBuilder.ZoneEditor.IngestOne` | tools/zone_builder.py:263-278 | one entry is ingested |
| `ZoneBuilder.ZoneEditor.OnPolygonComplete` | tools/zone_builder.py:187-241 | a zone is registered exactly when the polygon has at least three vertices, encloses a node and gets a non-empty name. Then the tables are registered and `changed` becomes true unless saving resets it. Otherwise nothing changes. Agreeing tables stay agreeing |
| `ZoneBuilder.ZoneEditor.UndoLast` | tools/zone_builder.py:440-455 | undo changes nothing on an empty order. Otherwise it removes the last zone and marks the change. Agreeing tables stay agreeing |
| `ZoneBuilder.ZoneEditor.DeleteZone` | tools/zone_builder.py:457-476 | with an empty or unknown name nothing changes. Otherwise the zone is dropped and the change marked. Agreeing tables stay agreeing |
| `ZoneBuilder.ZoneEditor.ClearAll` | tools/zone_builder.py:409-436 | without zones or without a confirmation nothing changes; otherwise the tables become `Cleared`, `changed == !hasOutput`, and the tables still agree |
| `ZoneBuilder.ZoneEditor.Save` | tools/zone_builder.py:496-505 | saving to an output path clears `changed`; without a path nothing changes |
| `ZoneBuilder.ZoneEditor.Serialize` | tools/zone_builder.py:481-494 | the loop builds the payload of the zones in order |
| `ZoneRoundTrip.EntryReadsBack` | generador_od.py:61-99 | each saved entry of agreeing tables loads back to the stored zone |
| `ZoneRoundTrip.SavedEntriesReadBack` | generador_od.py:57-99 | every entry of the written file loads back to its zone |
| `ZoneRoundTrip.SavedFileLoads` | generador_od.py:49-101 | a written file with at least one zone loads. Its zones and records are those stored. The premise of at least one zone is required |
| `ZoneRoundTrip.EmptySaveRejected` | generador_od.py:49-50 | the file an editor without zones writes is `{}`, which loading rejects as not a non-empty object |
| `ZoneRoundTrip.LoadedIngestible` | tools/zone_builder.py:525-537 | a loaded file with distinct names is fit to ingest |
| `ZoneRoundTrip.ReadBackNames` | tools/zone_builder.py:527-530 | the reloaded zones carry the written names in order |
| `ZoneRoundTrip.ReadBackNodeSet` | tools/zone_builder.py:527-530 | each reloaded zone has its stored node set |
| `ZoneRoundTrip.ReopenedNodes` | tools/zone_builder.py:525-537 | reopening gives back the order as written and the same node sets |
| `ZoneRoundTrip.RecordsAt` | tools/zone_builder.py:531-536 | each reloaded zone keeps its stored factors and polygon |
| `ZoneRoundTrip.ReopenedPolygons` | tools/zone_builder.py:525-537 | reopening gives back the same polygons |
| `ZoneRoundTrip.ReopenedProductions` | tools/zone_builder.py:525-537 | reopening gives back the same productions |
| `ZoneRoundTrip.ReopenedAttractions` | tools/zone_builder.py:525-537 | reopening gives back the same attractions |
| `ZoneRoundTrip.ReopenRestores` | tools/zone_builder.py:525-537 | for an editor holding at least one zone, saving its tables and reopening the file in the editor gives back the same tables, in the order written |

## Left out

- Graph loading and directedness (osmnx, GraphML). The network is given as its edge list and the stored edge lengths.
- `ox.distance.great_circle_vec`: passed in as a function of the edge.
- `nx.multi_source_dijkstra_path_length`: passed in as a function from a node list to a distance map.
- `math.exp` and `**` in `impedance`: passed in as functions. Only the case split of `impedance` is modelled, and non-negativity is assumed as a premise where needed.
- Floating point: every float is an exact `real`. `math.inf` and NaN are the cost `Inf`; a finite negative cost is a `Finite` value below 0.
- `np.mean`: modelled as the exact sum of velocities divided by their number.
- Randomness: the random module is replaced by explicit draws and picks. The source consumes a `random.random()` number only for a moving vehicle; the model takes one draw per vehicle and ignores the draws of stopped vehicles.
- Vehicle colours, `get_vehicle_positions`, `plot_state`, `animate` and `plot_statistics`: rendering only.
- The `print` calls of the engine and of the editor.
- `spawn_from_od_matrix`: not defined in the engine, so it is not part of this model.
- The driver scripts, `run.py`, `sim.py`, packaging and the installation test.
- `load_factor_file`, `save_matrix`, `parse_args` and both `main` functions: file and command-line plumbing. The part of the zone builder's `main` that turns a loaded zone table into the editor's starting data is modelled by `ZoneRoundTrip`.
- JSON reading: the file is a parsed JSON value whose objects keep their members in file order. Duplicate keys, and key sorting on output (`sort_keys=True`), are not modelled; the written file may list the zones in any order, and `ZoneRoundTrip` takes that order as a parameter.
- `int()` and `float()` on JSON values: given as parsing functions. The number grammar and non-finite floats are not modelled.
- `ZoneEditor.save`: only its effect on `changed` is modelled; the file write is left out, as is the `path.parent.mkdir` call.
- Tk dialogs and the matplotlib selector: their answers (zone name, production, attraction, name to delete, the confirmation to clear all zones) are method parameters. A missing dialog is a negative answer.
- The point-in-polygon test with `MplPath`: the list of enclosed nodes is a parameter of `OnPolygonComplete`.
- `_draw_zone`, `_remove_zone_artists`, the colour cycle and the figure: user interface only.
- `ZoneBuilder.ZoneEditor.Ingest`: it is modelled from the zone table loaded by `load_zone_file`, where every entry has a `nodes` list and polygons keep two-element points. That is the only data `main` passes to the editor. Arbitrary dictionaries are not modelled.
- `edge_occupation` as a `defaultdict`: reading a missing row inserts an empty row in the source. The model reads an absent row as empty and never inserts it.
- `TrafficSimulation.Simulation.AddVehicle`: requires a given edge to be on the network; for an unknown edge the source fails with a `KeyError` from the graph lookup.
- `TrafficSimulation.Simulation.AddVehicle`: requires a non-empty network when no edge is given; on an empty edge list `random.choice` raises `IndexError`, which is not modelled.
- `NagelSchreckenberg.CellCount`: requires a non-zero cell length; with `cell_length == 0` the division in `_discretize_edges` raises `ZeroDivisionError`, which is not modelled.
- `TrafficSimulation.Simulation.constructor`: requires a non-zero cell length, for the same reason as `NagelSchreckenberg.CellCount`; the `ZeroDivisionError` is not modelled.
- `TrafficSimulation.Simulation.DiscretizeEdges`: requires a non-zero cell length; the `ZeroDivisionError` at src/traffic_simulation.py:99 is not modelled.
- `ZoneRoundTrip.ReopenRestores`: covers editors holding at least one zone. After undo, delete or clear-all removes the last zone, the automatic save writes `{}` (after clear-all the tables are empty by `ZoneBuilder.ClearedIsEmpty`), and `load_zone_file` rejects that file (`ZoneRoundTrip.EmptySaveRejected`). So an emptied editor leaves a file that cannot be reopened.
- `ZoneRoundTrip.SavedFileLoads`: requires at least one zone, for the same reason as `ZoneRoundTrip.ReopenRestores`; the empty case is `ZoneRoundTrip.EmptySaveRejected`.
- `OdGenerator.ZoneCosts`: the specification table is total. It is the result of `OdGenerator.ComputeZoneCosts` only when every origin has nodes; for an origin with none the method returns `NoSources`, as `nx.multi_source_dijkstra_path_length` raises `ValueError` on empty sources.
- `TrafficSimulation.Simulation.InitializeVehicles`: its own contract does not restate the bounds `added <= num_vehicles` and `attempts <= 10 * num_vehicles`. They follow from the contract of `NagelSchreckenberg.Populate`, to which the method is proved equal.
- `TrafficSimulation.Simulation.Step`: "no two vehicles on one cell" is not stated, because `step` does not preserve it (`NagelSchreckenbergWitness.StepCanStackVehicles`). It holds for a single move under the premise of `NagelSchreckenberg.MovementKeepsComplete`.
- `ConvexHull.MonotonicChain`: it does not state that the joined hull is duplicate-free or that every turn of it is strictly left. Both are stated and proved for each half (`ConvexHull.Chain`). The two junctions and general convexity are not stated.

/**
 * The zone bookkeeping of `ZoneEditor` in tools/zone_builder.py: the ordered zone list and the
 * node, polygon, production and attraction tables that drawing, undoing and deleting zones
 * change, and the payload `serialize` hands to the JSON writer.
 */
module ZoneBuilder {
  import opened Wrappers
  import opened OdGenerator
  import opened ZoneFile

  /** Strictly increasing node ids: `sorted` of a set. */
  predicate Increasing(s: seq<int>)
  {
    forall i, j :: 0 <= i < j < |s| ==> s[i] < s[j]
  }

  /** An element of a non-empty set. */
  lemma SomeElement(s: set<int>) returns (x: int)
    requires s != {}
    ensures x in s
  {
    // Naming `s == {}` where no element exists lets set extensionality close the case.
    if forall y :: y !in s {
      ghost var empty := s == {};
      assert false;
    }
    x :| x in s;
  }

  /** A non-empty finite set of integers has a least element. */
  lemma {:induction false} MinExists(s: set<int>)
    requires s != {}
    ensures exists m :: m in s && forall y :: y in s ==> m <= y
    decreases |s|
  {
    var x := SomeElement(s);
    if s != {x} {
      MinExists(s - {x});
      var m :| m in s - {x} && forall y :: y in s - {x} ==> m <= y;
      var least := if x < m then x else m;
      forall y | y in s ensures least <= y {
        if y != x {
          assert y in s - {x};
        }
      }
    } else {
      assert forall y :: y in s ==> x <= y;
    }
  }

  /** The least element of a non-empty set. */
  function Min(s: set<int>): (m: int)
    requires s != {}
    ensures m in s && forall y :: y in s ==> m <= y
  {
    MinExists(s);
    var m :| m in s && (forall y :: y in s ==> m <= y);
    m
  }

  /** Putting the least element in front of the sorted rest sorts the whole set. */
  lemma SortedFront(s: set<int>, m: int, rest: seq<int>)
    requires m in s && Increasing(rest) && Elements(rest) == s - {m}
    requires forall y :: y in s ==> m <= y
    ensures Increasing([m] + rest) && Elements([m] + rest) == s
  {
    forall k | 0 <= k < |rest| ensures m < rest[k] {
      assert rest[k] in Elements(rest);
    }
    var r := [m] + rest;
    forall i, j | 0 <= i < j < |r| ensures r[i] < r[j] {
      assert r[j] == rest[j - 1];
      if i > 0 {
        assert r[i] == rest[i - 1];
      }
    }
    forall x ensures x in Elements(r) <==> x in s {
      assert x in r <==> x == m || x in rest;
      assert x in rest <==> x in Elements(rest);
    }
  }

  /** `sorted(s)` for a set of node ids: its elements in increasing order. */
  function SortedIds(s: set<int>): (r: seq<int>)
    ensures Increasing(r) && Elements(r) == s
    decreases |s|
  {
    if s == {} then []
    else
      var m := Min(s);
      var rest := SortedIds(s - {m});
      SortedFront(s, m, rest);
      [m] + rest
  }

  /** A distinct list's tail is distinct and does not hold its head. */
  lemma DistinctTail(s: seq<ZoneName>)
    requires s != [] && Distinct(s)
    ensures Distinct(s[1..]) && s[0] !in s[1..]
  {
    assert forall k :: 0 <= k < |s| - 1 ==> s[1..][k] == s[k + 1];
  }

  /** A new head in front of a distinct list keeps it distinct. */
  lemma DistinctCons(x: ZoneName, t: seq<ZoneName>)
    requires Distinct(t) && x !in t
    ensures Distinct([x] + t)
  {
    var r := [x] + t;
    forall i, j | 0 <= i < j < |r| ensures r[i] != r[j] {
      assert r[j] == t[j - 1];
      if i > 0 {
        assert r[i] == t[i - 1];
      }
    }
  }

  /** `zone_order.remove(z)`: drop the first occurrence, if any. */
  function RemoveFirst(s: seq<ZoneName>, z: ZoneName): seq<ZoneName>
  {
    if s == [] then []
    else if s[0] == z then s[1..]
    else [s[0]] + RemoveFirst(s[1..], z)
  }

  /** `[y for y in s if y != z]`. */
  function Without(s: seq<ZoneName>, z: ZoneName): seq<ZoneName>
  {
    if s == [] then [] else (if s[0] == z then [] else [s[0]]) + Without(s[1..], z)
  }

  /** Filtering out a name that does not occur changes nothing. */
  lemma {:induction false} WithoutAbsent(s: seq<ZoneName>, z: ZoneName)
    requires z !in s
    ensures Without(s, z) == s
  {
    if s != [] {
      assert s == [s[0]] + s[1..];
      WithoutAbsent(s[1..], z);
    }
  }

  /** The filtered list holds every other name, keeping distinct names distinct. */
  lemma {:induction false} WithoutKeeps(s: seq<ZoneName>, z: ZoneName)
    ensures forall y :: y in Without(s, z) <==> y in s && y != z
    ensures Distinct(s) ==> Distinct(Without(s, z))
  {
    if s != [] {
      assert s == [s[0]] + s[1..];
      WithoutKeeps(s[1..], z);
      if Distinct(s) {
        DistinctTail(s);
        if s[0] != z {
          DistinctCons(s[0], Without(s[1..], z));
        }
      }
    }
  }

  /** On distinct names, `remove` and the filter agree: there is at most one occurrence to drop. */
  lemma {:induction false} RemoveFirstIsWithout(s: seq<ZoneName>, z: ZoneName)
    requires Distinct(s)
    ensures RemoveFirst(s, z) == Without(s, z)
  {
    if s != [] {
      DistinctTail(s);
      if s[0] == z {
        WithoutAbsent(s[1..], z);
      } else {
        RemoveFirstIsWithout(s[1..], z);
      }
    }
  }

  /** A prefix of distinct elements is distinct, and the last element is not in it. */
  lemma DistinctPrefix(s: seq<ZoneName>)
    requires s != [] && Distinct(s)
    ensures Distinct(s[..|s| - 1]) && s[|s| - 1] !in s[..|s| - 1]
  {
    assert forall k :: 0 <= k < |s| - 1 ==> s[..|s| - 1][k] == s[k];
  }


  /** The editor's zone tables: the zone order and the node, polygon and factor dictionaries. */
  datatype Zones = Zones(order: seq<ZoneName>, nodes: map<ZoneName, set<int>>,
                         polygons: map<ZoneName, seq<(real, real)>>,
                         productions: map<ZoneName, real>, attractions: map<ZoneName, real>)

  /** The tables of a new editor, before anything is ingested. */
  const NoZones := Zones([], map[], map[], map[], map[])

  /** The side tables only name zones with nodes, and every stored polygon has at least three vertices. */
  ghost predicate TablesWithinNodes(st: Zones)
  {
    && (forall z :: z in st.polygons ==> z in st.nodes && |st.polygons[z]| >= 3)
    && (forall z :: z in st.productions ==> z in st.nodes)
    && (forall z :: z in st.attractions ==> z in st.nodes)
  }

  /**
   * The tables agree: every listed zone is listed once and has a node set, every table
   * entry belongs to a listed zone, and a stored polygon has at least three points.
   */
  ghost predicate Agree(st: Zones)
  {
    && Distinct(st.order)
    && (forall z :: z in st.nodes <==> z in st.order)
    && TablesWithinNodes(st)
  }

  // ---------------------------------------------------------------------------------------
  // `_ingest_existing`
  // ---------------------------------------------------------------------------------------

  /** One zone of the loaded table ingested: appended, with its node set, non-empty polygon and factors. */
  function IngestZone(st: Zones, z: Zone, t: ZoneTable): Zones
  {
    var n := z.name;
    Zones(st.order + [n], st.nodes[n := Elements(z.nodes)],
          if n in t.polygons && t.polygons[n] != [] then st.polygons[n := t.polygons[n]] else st.polygons,
          if n in t.productions then st.productions[n := t.productions[n]] else st.productions,
          if n in t.attractions then st.attractions[n := t.attractions[n]] else st.attractions)
  }

  /** The zones `zs` of table `t` ingested one after the other. */
  function Ingested(st: Zones, zs: seq<Zone>, t: ZoneTable): Zones
  {
    if zs == [] then st else IngestZone(Ingested(st, zs[..|zs| - 1], t), zs[|zs| - 1], t)
  }

  /** A table `load_zone_file` can return: distinct zone names, and polygons of at least three points. */
  ghost predicate Ingestible(t: ZoneTable)
  {
    Distinct(Names(t.zones)) && forall z :: z in t.polygons ==> |t.polygons[z]| >= 3
  }

  /**
   * A new editor that ingests zones with distinct names lists them in table order and
   * records each zone's own node set.
   */
  lemma {:induction false} IngestedNodes(zs: seq<Zone>, t: ZoneTable)
    requires Distinct(Names(zs))
    ensures Ingested(NoZones, zs, t).order == Names(zs)
    ensures forall z :: z in Ingested(NoZones, zs, t).nodes <==> z in Names(zs)
    ensures forall i :: 0 <= i < |zs| ==> Ingested(NoZones, zs, t).nodes[zs[i].name] == Elements(zs[i].nodes)
  {
    if zs != [] {
      var init := zs[..|zs| - 1];
      assert Names(zs) == Names(init) + [zs[|zs| - 1].name];
      DistinctPrefix(Names(zs));
      assert Names(zs)[..|zs| - 1] == Names(init);
      IngestedNodes(init, t);
    }
  }

  /**
   * A new editor that ingests zones keeps a polygon exactly for the ingested zones with a
   * non-empty one, and a factor exactly for those with one, each as the table holds it.
   */
  lemma {:induction false} IngestedFactors(zs: seq<Zone>, t: ZoneTable)
    ensures forall z :: z in Ingested(NoZones, zs, t).polygons <==> z in Names(zs) && z in t.polygons && t.polygons[z] != []
    ensures forall z :: z in Ingested(NoZones, zs, t).polygons ==> Ingested(NoZones, zs, t).polygons[z] == t.polygons[z]
    ensures forall z :: z in Ingested(NoZones, zs, t).productions <==> z in Names(zs) && z in t.productions
    ensures forall z :: z in Ingested(NoZones, zs, t).productions ==> Ingested(NoZones, zs, t).productions[z] == t.productions[z]
    ensures forall z :: z in Ingested(NoZones, zs, t).attractions <==> z in Names(zs) && z in t.attractions
    ensures forall z :: z in Ingested(NoZones, zs, t).attractions ==> Ingested(NoZones, zs, t).attractions[z] == t.attractions[z]
  {
    if zs != [] {
      var init := zs[..|zs| - 1];
      assert Names(zs) == Names(init) + [zs[|zs| - 1].name];
      IngestedFactors(init, t);
    }
  }

  /** Ingesting a table `load_zone_file` can return gives a new editor agreeing tables. */
  lemma IngestedAgrees(t: ZoneTable)
    requires Ingestible(t)
    ensures Agree(Ingested(NoZones, t.zones, t))
  {
    IngestedNodes(t.zones, t);
    IngestedFactors(t.zones, t);
  }

  // ---------------------------------------------------------------------------------------
  // `_on_polygon_complete`, `_undo_last`, `_delete_zone_prompt`
  // ---------------------------------------------------------------------------------------

  /** Whether `_on_polygon_complete` gets as far as registering: enough vertices, some node inside, a name. */
  predicate Registers(vertices: seq<(real, real)>, nodesInside: seq<int>, zoneName: Option<string>)
  {
    |vertices| >= 3 && nodesInside != [] && zoneName.Some? && zoneName.value != ""
  }

  /** Zone `z` registered with its node set and polygon, each factor stored or dropped, and moved to the end. */
  function Registered(st: Zones, z: ZoneName, nodes: set<int>, vertices: seq<(real, real)>,
                      production: Option<real>, attraction: Option<real>): Zones
  {
    Zones((if z in st.order then RemoveFirst(st.order, z) else st.order) + [z],
          st.nodes[z := nodes], st.polygons[z := vertices],
          if production.Some? then st.productions[z := production.value] else st.productions - {z},
          if attraction.Some? then st.attractions[z := attraction.value] else st.attractions - {z})
  }

  /** The last zone dropped from every table; nothing to do without zones. */
  function Undone(st: Zones): Zones
  {
    if st.order == [] then st
    else
      var z := st.order[|st.order| - 1];
      Zones(st.order[..|st.order| - 1], st.nodes - {z}, st.polygons - {z}, st.productions - {z}, st.attractions - {z})
  }

  /** Zone `z` dropped from the order and from every table. */
  function Dropped(st: Zones, z: ZoneName): Zones
  {
    Zones(Without(st.order, z), st.nodes - {z}, st.polygons - {z}, st.productions - {z}, st.attractions - {z})
  }

  /** `_clear_all`, once confirmed: every listed zone leaves every table, and the order is emptied. */
  function Cleared(st: Zones): Zones
  {
    var gone := Elements(st.order);
    Zones([], st.nodes - gone, st.polygons - gone, st.productions - gone, st.attractions - gone)
  }

  /** Clearing agreeing tables leaves no zone in any table. */
  /** Removing keys one at a time removes them all. */
  lemma MinusStep<V>(m: map<ZoneName, V>, gone: set<ZoneName>, z: ZoneName)
    ensures (m - gone) - {z} == m - (gone + {z})
  {
  }

  lemma ClearedIsEmpty(st: Zones)
    requires Agree(st)
    ensures Cleared(st) == NoZones && Agree(Cleared(st))
  {
    var gone := Elements(st.order);
    forall z | z in st.nodes ensures z in gone {
      assert z in st.order;
    }
    var c := Cleared(st);
    assert c.nodes == map[];
    assert c.polygons == map[];
    assert c.productions == map[];
    assert c.attractions == map[];
  }

  /** `remove` (when present) and `append`: the name moves to the end, once, the others keep their order. */
  lemma MoveToEnd(order: seq<ZoneName>, z: ZoneName)
    requires Distinct(order)
    ensures var o := (if z in order then RemoveFirst(order, z) else order) + [z];
            && o == Without(order, z) + [z] && Distinct(o)
            && forall y :: y in o <==> y in order || y == z
  {
    RemoveFirstIsWithout(order, z);
    if z !in order {
      WithoutAbsent(order, z);
    }
    WithoutKeeps(order, z);
    var o := Without(order, z) + [z];
    forall a, b | 0 <= a < b < |o| ensures o[a] != o[b] {
      assert o[a] in Without(order, z);
    }
  }

  /** Registering keeps the side tables within the node table. */
  lemma RegisteredTablesWithinNodes(st: Zones, z: ZoneName, nodes: set<int>, vertices: seq<(real, real)>,
                                    production: Option<real>, attraction: Option<real>)
    requires TablesWithinNodes(st) && |vertices| >= 3
    ensures TablesWithinNodes(Registered(st, z, nodes, vertices, production, attraction))
  {
    var r := Registered(st, z, nodes, vertices, production, attraction);
    forall y | y in r.polygons ensures y in r.nodes && |r.polygons[y]| >= 3 {
      if y != z {
        assert y in st.polygons;
      }
    }
    forall y | y in r.productions ensures y in r.nodes {
      if y != z {
        assert y in st.productions;
      }
    }
    forall y | y in r.attractions ensures y in r.nodes {
      if y != z {
        assert y in st.attractions;
      }
    }
  }

  /** Registering zone `z` keeps the tables agreeing and moves `z` to the end of the order, once. */
  lemma RegisteredAgrees(st: Zones, z: ZoneName, nodes: set<int>, vertices: seq<(real, real)>,
                         production: Option<real>, attraction: Option<real>)
    requires Agree(st) && |vertices| >= 3
    ensures Agree(Registered(st, z, nodes, vertices, production, attraction))
    ensures Registered(st, z, nodes, vertices, production, attraction).order == Without(st.order, z) + [z]
  {
    var r := Registered(st, z, nodes, vertices, production, attraction);
    MoveToEnd(st.order, z);
    RegisteredTablesWithinNodes(st, z, nodes, vertices, production, attraction);
    forall y ensures y in r.nodes <==> y in r.order {
      assert y in r.nodes <==> y in st.nodes || y == z;
    }
  }

  /**
   * Registering zone `z` gives it the drawn nodes and polygon and a factor exactly where one was
   * given, and leaves every other zone's entries as they were.
   */
  lemma RegisteredEntries(st: Zones, z: ZoneName, nodes: set<int>, vertices: seq<(real, real)>,
                          production: Option<real>, attraction: Option<real>, y: ZoneName)
    ensures var r := Registered(st, z, nodes, vertices, production, attraction);
            && r.nodes[z] == nodes && r.polygons[z] == vertices
            && (z in r.productions <==> production.Some?) && (production.Some? ==> r.productions[z] == production.value)
            && (z in r.attractions <==> attraction.Some?) && (attraction.Some? ==> r.attractions[z] == attraction.value)
    ensures var r := Registered(st, z, nodes, vertices, production, attraction);
            y != z ==>
              && (y in r.nodes <==> y in st.nodes) && (y in st.nodes ==> r.nodes[y] == st.nodes[y])
              && (y in r.polygons <==> y in st.polygons) && (y in st.polygons ==> r.polygons[y] == st.polygons[y])
              && (y in r.productions <==> y in st.productions) && (y in st.productions ==> r.productions[y] == st.productions[y])
              && (y in r.attractions <==> y in st.attractions) && (y in st.attractions ==> r.attractions[y] == st.attractions[y])
  {
  }

  /** Removing a key just added to a map without it gives the map back. */
  lemma RemoveAdded<V>(m: map<ZoneName, V>, z: ZoneName, v: V)
    requires z !in m
    ensures m[z := v] - {z} == m
  {
  }

  /** Removing an absent key changes nothing. */
  lemma RemoveAbsent<V>(m: map<ZoneName, V>, z: ZoneName)
    requires z !in m
    ensures m - {z} == m
  {
  }

  /** Undoing right after registering a new zone gives back the tables as they were. */
  lemma UndoRegistered(st: Zones, z: ZoneName, nodes: set<int>, vertices: seq<(real, real)>,
                       production: Option<real>, attraction: Option<real>)
    requires Agree(st) && z !in st.nodes
    ensures Undone(Registered(st, z, nodes, vertices, production, attraction)) == st
  {
    WithoutAbsent(st.order, z);
    assert z !in st.order;
    RemoveAdded(st.nodes, z, nodes);
    RemoveAdded(st.polygons, z, vertices);
    if production.Some? {
      RemoveAdded(st.productions, z, production.value);
    } else {
      RemoveAbsent(st.productions, z);
    }
    if attraction.Some? {
      RemoveAdded(st.attractions, z, attraction.value);
    } else {
      RemoveAbsent(st.attractions, z);
    }
    assert (st.order + [z])[..|st.order|] == st.order;
  }

  /** Removing a zone from every table keeps the side tables within the node table, whatever the order. */
  lemma RemovedTablesWithinNodes(st: Zones, z: ZoneName, order: seq<ZoneName>)
    requires TablesWithinNodes(st)
    ensures TablesWithinNodes(Zones(order, st.nodes - {z}, st.polygons - {z}, st.productions - {z}, st.attractions - {z}))
  {
  }

  /** Undoing keeps the tables agreeing, and the undone zone is gone from all of them. */
  /** `RegisteredAgrees` for a state already known to be the registered one. */
  lemma RegisteredStateAgrees(st: Zones, now: Zones, z: ZoneName, nodes: set<int>, vertices: seq<(real, real)>,
                              production: Option<real>, attraction: Option<real>)
    requires Agree(st) && |vertices| >= 3 && now == Registered(st, z, nodes, vertices, production, attraction)
    ensures Agree(now)
  {
    RegisteredAgrees(st, z, nodes, vertices, production, attraction);
  }

  /** `UndoneAgrees` for a state already known to be the undone one. */
  lemma UndoneStateAgrees(st: Zones, now: Zones)
    requires Agree(st) && st.order != [] && now == Undone(st)
    ensures Agree(now)
  {
    UndoneAgrees(st);
  }

  /** `DroppedAgrees` for a state already known to be the dropped one. */
  lemma DroppedStateAgrees(st: Zones, now: Zones, z: ZoneName)
    requires Agree(st) && now == Dropped(st, z)
    ensures Agree(now)
  {
    DroppedAgrees(st, z);
  }

  lemma UndoneAgrees(st: Zones)
    requires Agree(st) && st.order != []
    ensures var z := st.order[|st.order| - 1];
            var r := Undone(st);
            Agree(r) && z !in r.order && z !in r.nodes && z !in r.polygons && z !in r.productions && z !in r.attractions
  {
    var z := st.order[|st.order| - 1];
    var init := st.order[..|st.order| - 1];
    DistinctPrefix(st.order);
    RemovedTablesWithinNodes(st, z, init);
    assert st.order == init + [z];
    forall y ensures y in st.nodes - {z} <==> y in init {
      assert y in st.order <==> y in init || y == z;
    }
  }

  /** Deleting keeps the tables agreeing, and keeps every other zone in its place in the order. */
  lemma DroppedAgrees(st: Zones, z: ZoneName)
    requires Agree(st)
    ensures Agree(Dropped(st, z))
    ensures forall y :: y in Dropped(st, z).order <==> y in st.order && y != z
  {
    WithoutKeeps(st.order, z);
    RemovedTablesWithinNodes(st, z, Without(st.order, z));
  }

  /** Deleting the last zone by name does what undoing does. */
  lemma DropLastIsUndo(st: Zones)
    requires Agree(st) && st.order != []
    ensures Dropped(st, st.order[|st.order| - 1]) == Undone(st)
  {
    var z := st.order[|st.order| - 1];
    var init := st.order[..|st.order| - 1];
    DistinctPrefix(st.order);
    assert st.order == init + [z];
    WithoutLast(init, z);
  }

  /** Filtering out the last name of a list that holds it only there leaves the rest. */
  lemma {:induction false} WithoutLast(init: seq<ZoneName>, z: ZoneName)
    requires z !in init
    ensures Without(init + [z], z) == init
  {
    if init == [] {
      assert [z][1..] == [];
    } else {
      assert (init + [z])[1..] == init[1..] + [z];
      WithoutLast(init[1..], z);
      assert init == [init[0]] + init[1..];
    }
  }

  // ---------------------------------------------------------------------------------------
  // `serialize` and reading its output back
  // ---------------------------------------------------------------------------------------

  /** What `serialize` writes for one zone. */
  datatype SavedZone = SavedZone(nodes: seq<int>, polygon: Option<seq<(real, real)>>,
                                 production: Option<real>, attraction: Option<real>)

  /** The entry `serialize` builds for zone `z`: sorted node ids, a non-empty polygon, the factors it has. */
  function Saved(st: Zones, z: ZoneName): SavedZone
  {
    SavedZone(SortedIds(if z in st.nodes then st.nodes[z] else {}),
              if z in st.polygons && st.polygons[z] != [] then Some(st.polygons[z]) else None,
              if z in st.productions then Some(st.productions[z]) else None,
              if z in st.attractions then Some(st.attractions[z]) else None)
  }

  /** The payload for the zones `names`, one entry each. */
  function SavedAll(st: Zones, names: seq<ZoneName>): map<ZoneName, SavedZone>
  {
    if names == [] then map[]
    else SavedAll(st, names[..|names| - 1])[names[|names| - 1] := Saved(st, names[|names| - 1])]
  }

  /** The payload holds an entry for exactly the given names, each the one `Saved` describes. */
  lemma {:induction false} SavedAllHolds(st: Zones, names: seq<ZoneName>)
    ensures forall z :: z in SavedAll(st, names) <==> z in names
    ensures forall z :: z in SavedAll(st, names) ==> SavedAll(st, names)[z] == Saved(st, z)
  {
    if names != [] {
      assert names == names[..|names| - 1] + [names[|names| - 1]];
      SavedAllHolds(st, names[..|names| - 1]);
    }
  }

  /**
   * On agreeing tables, the payload has one entry per listed zone, holding its node set in
   * ascending order, its polygon exactly when it has one, and each factor exactly when it has it.
   */
  lemma SerializedContents(st: Zones)
    requires Agree(st)
    ensures forall z :: z in SavedAll(st, st.order) <==> z in st.order
    ensures forall z :: z in SavedAll(st, st.order) ==>
              var s := SavedAll(st, st.order)[z];
              && Increasing(s.nodes) && Elements(s.nodes) == st.nodes[z]
              && (s.polygon.Some? <==> z in st.polygons) && (s.polygon.Some? ==> s.polygon.value == st.polygons[z])
              && (s.production.Some? <==> z in st.productions) && (s.production.Some? ==> s.production.value == st.productions[z])
              && (s.attraction.Some? <==> z in st.attractions) && (s.attraction.Some? ==> s.attraction.value == st.attractions[z])
  {
    SavedAllHolds(st, st.order);
  }

  /** `json.dump` of a node list. */
  function IdsJson(nodes: seq<int>): seq<Json>
  {
    seq(|nodes|, i requires 0 <= i < |nodes| => JNum(nodes[i] as real))
  }

  /** `json.dump` of a polygon: a list of `[x, y]` lists. */
  function PointsJson(pts: seq<(real, real)>): seq<Json>
  {
    seq(|pts|, i requires 0 <= i < |pts| => JArr([JNum(pts[i].0), JNum(pts[i].1)]))
  }

  /** An object member written only when there is a value. */
  function Member(key: string, v: Option<Json>): seq<(string, Json)>
  {
    if v.Some? then [(key, v.value)] else []
  }

  /** A factor as a JSON number. */
  function NumJson(x: Option<real>): Option<Json>
  {
    if x.Some? then Some(JNum(x.value)) else None
  }

  /** A polygon as a JSON list, when there is one. */
  function PolygonJson(polygon: Option<seq<(real, real)>>): Option<Json>
  {
    if polygon.Some? then Some(JArr(PointsJson(polygon.value))) else None
  }

  /** `json.dump(..., sort_keys=True)` of one saved zone: its keys in sorted order, absent ones left out. */
  function SavedJson(s: SavedZone): Json
  {
    JObj(Member("attraction", NumJson(s.attraction)) +
         Member("nodes", Some(JArr(IdsJson(s.nodes)))) +
         Member("polygon", PolygonJson(s.polygon)) +
         Member("production", NumJson(s.production)))
  }

  /** A member under another key does not change what a lookup finds. */
  lemma GetPast(ms: seq<(string, Json)>, key: string, other: string, v: Option<Json>)
    requires other != key
    ensures ZoneFile.Get(ms + Member(other, v), key) == ZoneFile.Get(ms, key)
  {
    if v.Some? {
      assert (ms + [(other, v.value)])[..|ms|] == ms;
    } else {
      assert ms + [] == ms;
    }
  }

  /** A trailing member under the key, with a non-null value, is what a lookup finds. */
  lemma GetLast(ms: seq<(string, Json)>, key: string, v: Option<Json>)
    requires v.Some? && v.value != JNull
    ensures ZoneFile.Get(ms + Member(key, v), key) == v
  {
  }

  /** A lookup in an object with no member under the key finds nothing. */
  lemma GetNone(ms: seq<(string, Json)>, key: string, v: Option<Json>)
    requires v.None?
    ensures ZoneFile.Get(ms + Member(key, v), key) == ZoneFile.Get(ms, key)
  {
    assert ms + [] == ms;
  }

  /** Written node ids read back unchanged: `int()` of an integral number is that number. */
  lemma {:induction false} IdsReadBack(nodes: seq<int>, p: Parsers)
    ensures IntList(IdsJson(nodes), p) == Some(nodes)
  {
    if nodes != [] {
      var init := nodes[..|nodes| - 1];
      assert IdsJson(nodes)[..|nodes| - 1] == IdsJson(init);
      IdsReadBack(init, p);
      var n := nodes[|nodes| - 1];
      assert Trunc(n as real) == n;
      assert nodes == init + [n];
    }
  }

  /** Written points read back unchanged: every one is a coordinate pair. */
  lemma {:induction false} PointsReadBack(pts: seq<(real, real)>, p: Parsers)
    ensures Points(PointsJson(pts), p) == Some(pts)
  {
    if pts != [] {
      var init := pts[..|pts| - 1];
      assert PointsJson(pts)[..|pts| - 1] == PointsJson(init);
      PointsReadBack(init, p);
      assert pts == init + [pts[|pts| - 1]];
    }
  }

  /** The member lookups of a saved zone find exactly what was written. */
  lemma SavedLookups(s: SavedZone)
    ensures ZoneFile.Get(SavedJson(s).members, "nodes") == Some(JArr(IdsJson(s.nodes)))
    ensures ZoneFile.Get(SavedJson(s).members, "production") == NumJson(s.production)
    ensures ZoneFile.Get(SavedJson(s).members, "attraction") == NumJson(s.attraction)
    ensures ZoneFile.Get(SavedJson(s).members, "polygon") == PolygonJson(s.polygon)
  {
    var a := Member("attraction", NumJson(s.attraction));
    var nv := Some(JArr(IdsJson(s.nodes)));
    var gv := PolygonJson(s.polygon);
    var rv := NumJson(s.production);
    var an := a + Member("nodes", nv);
    var ang := an + Member("polygon", gv);
    assert ZoneFile.Get(a, "nodes").None?;
    assert ZoneFile.Get(a, "production").None?;
    assert ZoneFile.Get(a, "polygon").None?;
    assert ZoneFile.Get([], "attraction").None?;
    // nodes
    GetPast(ang, "nodes", "production", rv);
    GetPast(an, "nodes", "polygon", gv);
    GetLast(a, "nodes", nv);
    // production
    if rv.Some? { GetLast(ang, "production", rv); } else { GetNone(ang, "production", rv); }
    GetPast(an, "production", "polygon", gv);
    GetPast(a, "production", "nodes", nv);
    // polygon
    GetPast(ang, "polygon", "production", rv);
    if gv.Some? { GetLast(an, "polygon", gv); } else { GetNone(an, "polygon", gv); }
    GetPast(a, "polygon", "nodes", nv);
    // attraction
    GetPast(ang, "attraction", "production", rv);
    GetPast(an, "attraction", "polygon", gv);
    GetPast(a, "attraction", "nodes", nv);
    if s.attraction.Some? {
      GetLast([], "attraction", NumJson(s.attraction));
      assert [] + a == a;
    }
  }

  /** The written fields convert back to the saved nodes, factors and polygon. */
  lemma SavedFields(name: ZoneName, s: SavedZone, p: Parsers)
    requires s.polygon.Some? ==> |s.polygon.value| >= 3
    ensures Fields(name, JArr(IdsJson(s.nodes)), NumJson(s.production), NumJson(s.attraction), PolygonJson(s.polygon), p) ==
              Ok(Entry(s.nodes, s.production, s.attraction, s.polygon))
  {
    IdsReadBack(s.nodes, p);
    assert Factor(NumJson(s.production), p) == Some(s.production);
    assert Factor(NumJson(s.attraction), p) == Some(s.attraction);
    if s.polygon.Some? {
      PointsReadBack(s.polygon.value, p);
    }
  }

  /**
   * What `serialize` writes for a zone, `load_zone_file` reads back as the same zone: the
   * same node ids, factors and polygon, provided any polygon has the three points it demands.
   */
  lemma SavedZoneReadsBack(name: ZoneName, s: SavedZone, p: Parsers)
    requires s.polygon.Some? ==> |s.polygon.value| >= 3
    ensures ParseEntry(name, SavedJson(s), p) == Ok(Entry(s.nodes, s.production, s.attraction, s.polygon))
  {
    SavedLookups(s);
    SavedFields(name, s, p);
  }

  // ---------------------------------------------------------------------------------------
  // The editor
  // ---------------------------------------------------------------------------------------

  /** The zone tables of the editor; dialog answers and the nodes inside a drawn polygon come in as parameters. */
  class ZoneEditor {
    var zoneOrder: seq<ZoneName>
    var zoneNodes: map<ZoneName, set<int>>
    var zonePolygons: map<ZoneName, seq<(real, real)>>
    var zoneProductions: map<ZoneName, real>
    var zoneAttractions: map<ZoneName, real>
    var changed: bool
    /** `output_path is not None`: every edit is then saved at once, which clears `changed`. */
    const hasOutput: bool

    /** The tables, as one value. */
    ghost function State(): Zones
      reads this
    {
      Zones(zoneOrder, zoneNodes, zonePolygons, zoneProductions, zoneAttractions)
    }

    /** The editor's tables agree with each other. */
    ghost predicate Valid()
      reads this
    {
      Agree(State())
    }

    /**
     * `__init__`: empty tables, then `_ingest_existing` of the zones a previous run saved,
     * as `main` passes them on from `load_zone_file`.
     */
    constructor (hasOutput: bool, existing: Option<ZoneTable>)
      requires existing.Some? ==> Ingestible(existing.value)
      ensures Valid() && !changed && this.hasOutput == hasOutput
      ensures State() == if existing.Some? then Ingested(NoZones, existing.value.zones, existing.value) else NoZones
    {
      this.hasOutput := hasOutput;
      zoneOrder := [];
      zoneNodes := map[];
      zonePolygons := map[];
      zoneProductions := map[];
      zoneAttractions := map[];
      changed := false;
      new;
      if existing.Some? {
        Ingest(existing.value);
        IngestedAgrees(existing.value);
      }
    }

    /** `_ingest_existing`: append each zone, with its node set and whatever factors and polygon it has. */
    method Ingest(t: ZoneTable)
      modifies this
      ensures State() == Ingested(old(State()), t.zones, t) && changed == old(changed)
    {
      var zs := t.zones;
      ghost var st := State();
      for i := 0 to |zs|
        invariant State() == Ingested(st, zs[..i], t)
        invariant changed == old(changed)
      {
        assert zs[..i + 1][..i] == zs[..i];
        IngestOne(zs[i], t);
      }
      assert zs[..|zs|] == zs;
    }

    /** The body of the `_ingest_existing` loop for one zone of the table. */
    method IngestOne(z: Zone, t: ZoneTable)
      modifies this
      ensures State() == IngestZone(old(State()), z, t) && changed == old(changed)
    {
      var zoneName := z.name;
      zoneNodes := zoneNodes[zoneName := Elements(z.nodes)];
      if zoneName in t.polygons && t.polygons[zoneName] != [] {
        zonePolygons := zonePolygons[zoneName := t.polygons[zoneName]];
      }
      if zoneName in t.productions {
        zoneProductions := zoneProductions[zoneName := t.productions[zoneName]];
      }
      if zoneName in t.attractions {
        zoneAttractions := zoneAttractions[zoneName := t.attractions[zoneName]];
      }
      zoneOrder := zoneOrder + [zoneName];
    }

    /**
     * `_on_polygon_complete`: a polygon of at least three vertices around at least one node,
     * given a non-empty name, registers that zone (see `RegisteredEntries`); otherwise nothing changes.
     */
    method OnPolygonComplete(vertices: seq<(real, real)>, nodesInside: seq<int>, zoneName: Option<string>,
                             production: Option<real>, attraction: Option<real>) returns (registered: bool)
      requires Valid()
      modifies this
      ensures Valid()
      ensures registered == Registers(vertices, nodesInside, zoneName)
      ensures registered ==>
                State() == Registered(old(State()), zoneName.value, Elements(nodesInside), vertices, production, attraction) &&
                changed == !hasOutput
      ensures !registered ==> State() == old(State()) && changed == old(changed)
    {
      if |vertices| < 3 || nodesInside == [] || zoneName.None? || zoneName.value == "" {
        return false;
      }
      var z := zoneName.value;
      zoneNodes := zoneNodes[z := Elements(nodesInside)];
      zonePolygons := zonePolygons[z := vertices];
      // `del` of an absent factor is skipped, which leaves the table as removing it would
      zoneProductions := if production.Some? then zoneProductions[z := production.value] else zoneProductions - {z};
      zoneAttractions := if attraction.Some? then zoneAttractions[z := attraction.value] else zoneAttractions - {z};
      zoneOrder := (if z in zoneOrder then RemoveFirst(zoneOrder, z) else zoneOrder) + [z];
      changed := true;
      Save();
      RegisteredStateAgrees(old(State()), State(), z, Elements(nodesInside), vertices, production, attraction);
      return true;
    }

    /** `_undo_last`: nothing to do without zones; otherwise drop the last zone from every table. */
    method UndoLast()
      requires Valid()
      modifies this
      ensures Valid()
      ensures State() == Undone(old(State()))
      ensures changed == if old(zoneOrder) == [] then old(changed) else !hasOutput
    {
      if zoneOrder == [] {
        return;
      }
      var zoneName := zoneOrder[|zoneOrder| - 1];
      zoneOrder := zoneOrder[..|zoneOrder| - 1];
      zoneNodes := zoneNodes - {zoneName};
      zonePolygons := zonePolygons - {zoneName};
      zoneProductions := zoneProductions - {zoneName};
      zoneAttractions := zoneAttractions - {zoneName};
      changed := true;
      Save();
      UndoneStateAgrees(old(State()), State());
    }

    /** `_delete_zone_prompt`: an empty or unknown name changes nothing; a known zone leaves every table. */
    method DeleteZone(zoneName: Option<string>)
      requires Valid()
      modifies this
      ensures Valid()
      ensures var known := zoneName.Some? && zoneName.value != "" && zoneName.value in old(zoneNodes);
              && State() == (if known then Dropped(old(State()), zoneName.value) else old(State()))
              && changed == if known then !hasOutput else old(changed)
    {
      if zoneName.None? || zoneName.value == "" {
        return;
      }
      var z := zoneName.value;
      if z !in zoneNodes {
        return;
      }
      zoneOrder := Without(zoneOrder, z);
      zoneNodes := zoneNodes - {z};
      zonePolygons := zonePolygons - {z};
      zoneProductions := zoneProductions - {z};
      zoneAttractions := zoneAttractions - {z};
      changed := true;
      Save();
      DroppedStateAgrees(old(State()), State(), z);
    }

    /**
     * `_clear_all`: with zones and a confirmation (`confirm` is the dialog's answer, false when no
     * dialog is available), pop every listed zone from every table and empty the order.
     */
    method ClearAll(confirm: bool)
      requires Valid()
      modifies this
      ensures Valid()
      ensures var cleared := confirm && old(zoneOrder) != [];
              && State() == (if cleared then Cleared(old(State())) else old(State()))
              && changed == if cleared then !hasOutput else old(changed)
    {
      if zoneOrder == [] || !confirm {
        return;
      }
      ghost var st := State();
      var order := zoneOrder;
      var nodes, polygons, productions, attractions := zoneNodes, zonePolygons, zoneProductions, zoneAttractions;
      ghost var gone: set<ZoneName> := {};
      for i := 0 to |order|
        invariant gone == Elements(order[..i])
        invariant nodes == st.nodes - gone && polygons == st.polygons - gone
        invariant productions == st.productions - gone && attractions == st.attractions - gone
      {
        var zone := order[i];
        assert order[..i + 1] == order[..i] + [zone];
        MinusStep(st.nodes, gone, zone);
        MinusStep(st.polygons, gone, zone);
        MinusStep(st.productions, gone, zone);
        MinusStep(st.attractions, gone, zone);
        nodes := nodes - {zone};
        polygons := polygons - {zone};
        productions := productions - {zone};
        attractions := attractions - {zone};
        gone := gone + {zone};
      }
      assert order[..|order|] == order;
      zoneNodes, zonePolygons, zoneProductions, zoneAttractions := nodes, polygons, productions, attractions;
      zoneOrder := [];
      changed := true;
      Save();
      ClearedIsEmpty(st);
    }

    /** The effect of `self.save(self.output_path)` on the editor: writing the file clears `changed`. */
    method Save()
      modifies this`changed
      ensures changed == (old(changed) && !hasOutput)
    {
      if hasOutput {
        changed := false;
      }
    }

    /** `serialize`: the payload `SerializedContents` describes, one entry per listed zone. */
    method Serialize() returns (payload: map<ZoneName, SavedZone>)
      ensures payload == SavedAll(State(), zoneOrder)
    {
      payload := map[];
      for i := 0 to |zoneOrder|
        invariant payload == SavedAll(State(), zoneOrder[..i])
      {
        assert zoneOrder[..i + 1][..i] == zoneOrder[..i];
        var zoneName := zoneOrder[i];
        var nodes := SortedIds(if zoneName in zoneNodes then zoneNodes[zoneName] else {});
        var polygon: Option<seq<(real, real)>> := None;
        if zoneName in zonePolygons && zonePolygons[zoneName] != [] {
          polygon := Some(zonePolygons[zoneName]);
        }
        var production: Option<real> := None;
        if zoneName in zoneProductions {
          production := Some(zoneProductions[zoneName]);
        }
        var attraction: Option<real> := None;
        if zoneName in zoneAttractions {
          attraction := Some(zoneAttractions[zoneName]);
        }
        payload := payload[zoneName := SavedZone(nodes, polygon, production, attraction)];
      }
      assert zoneOrder[..|zoneOrder|] == zoneOrder;
    }
  }
}

/**
 * Saving and reopening: the file `ZoneEditor.save` writes is one `load_zone_file` accepts, and
 * the editor `main` then opens on it holds the same zones, factors and polygons.
 */
module ZoneRoundTrip {
  import opened Wrappers
  import opened OdGenerator
  import opened ZoneFile
  import opened ZoneBuilder

  /** The file `save` writes, with its zones in the order `names` (`sort_keys` chooses one). */
  function SavedFile(st: Zones, names: seq<ZoneName>): (r: seq<(string, Json)>)
    ensures Keys(r) == names
  {
    var r := seq(|names|, i requires 0 <= i < |names| => (names[i], SavedJson(Saved(st, names[i]))));
    assert forall i :: 0 <= i < |names| ==> Keys(r)[i] == names[i];
    r
  }

  /** `names` lists the zones of `order`, each once, in some order. */
  ghost predicate Reordering(names: seq<ZoneName>, order: seq<ZoneName>)
  {
    Distinct(names) && forall y :: y in names <==> y in order
  }

  /** What reading back the saved entry of zone `z` gives. */
  function EntryOf(st: Zones, z: ZoneName): Entry
  {
    Entry(SortedIds(if z in st.nodes then st.nodes[z] else {}), Lookup(st.productions, z),
          Lookup(st.attractions, z), Lookup(st.polygons, z))
  }

  /** On agreeing tables, each saved zone reads back with its sorted nodes, its factors and its polygon. */
  lemma EntryReadsBack(st: Zones, z: ZoneName, p: Parsers)
    requires Agree(st)
    ensures ParseEntry(z, SavedJson(Saved(st, z)), p) == Ok(EntryOf(st, z))
  {
    SavedZoneReadsBack(z, Saved(st, z), p);
  }

  /** Every entry of the saved file reads back as its zone's `EntryOf`. */
  lemma SavedEntriesReadBack(st: Zones, names: seq<ZoneName>, p: Parsers)
    requires Agree(st)
    ensures var ms := SavedFile(st, names);
            forall i :: 0 <= i < |ms| ==> ms[i].0 == names[i] && ParseEntry(ms[i].0, ms[i].1, p) == Ok(EntryOf(st, names[i]))
  {
    var ms := SavedFile(st, names);
    forall i | 0 <= i < |ms| ensures ms[i].0 == names[i] && ParseEntry(ms[i].0, ms[i].1, p) == Ok(EntryOf(st, names[i])) {
      EntryReadsBack(st, names[i], p);
    }
  }

  /**
   * `load_zone_file` accepts the saved file of agreeing, non-empty tables, and returns its zones
   * in file order with their sorted node ids, and exactly the saved factors and polygons.
   */
  lemma SavedFileLoads(st: Zones, names: seq<ZoneName>, p: Parsers)
    requires Agree(st) && Reordering(names, st.order) && names != []
    ensures ZoneTableOf(JObj(SavedFile(st, names)), p).Ok?
    ensures var t := ZoneTableOf(JObj(SavedFile(st, names)), p).value;
            && |t.zones| == |names|
            && forall i :: 0 <= i < |names| ==>
                 t.zones[i] == Zone(names[i], EntryOf(st, names[i]).nodes) && Records(t, names[i], EntryOf(st, names[i]))
  {
    var ms := SavedFile(st, names);
    SavedEntriesReadBack(st, names, p);
    MembersSucceedIff(ms, p);
    MembersZones(ms, p);
    MembersFactors(ms, p);
  }

  /**
   * An editor without zones writes `{}`, which `load_zone_file` rejects as not a non-empty
   * object: emptying the editor by undo or delete saves a file that cannot be reopened.
   */
  lemma EmptySaveRejected(st: Zones, p: Parsers)
    requires Agree(st) && st.order == []
    ensures ZoneTableOf(JObj(SavedFile(st, st.order)), p) == Err(NotANonEmptyObject)
  {
  }

  /**
   * A file `load_zone_file` accepts, with distinct zone names, is a table the editor can
   * ingest: distinct names, and polygons of at least three points.
   */
  lemma LoadedIngestible(members: seq<(string, Json)>, p: Parsers)
    requires ZoneTableOf(JObj(members), p).Ok? && Distinct(Keys(members))
    ensures Ingestible(ZoneTableOf(JObj(members), p).value)
  {
    var t := ZoneTableOf(JObj(members), p).value;
    MembersZones(members, p);
    MembersFactors(members, p);
    MembersNames(members, p);
    assert Names(t.zones) == Keys(members);
    forall z | z in t.polygons ensures |t.polygons[z]| >= 3 {
      var i :| 0 <= i < |members| && Keys(members)[i] == z;
      EntryRules(members[i].0, members[i].1, p);
    }
  }

  /** Two maps with the same keys and the same value under each key are equal. */
  lemma SameMap<V>(a: map<ZoneName, V>, b: map<ZoneName, V>)
    requires forall z :: z in a <==> z in b
    requires forall z :: z in a ==> a[z] == b[z]
    ensures a == b
  {
  }

  /** What `SavedFileLoads` says about the table read back from the saved file. */
  ghost predicate ReadBack(st: Zones, names: seq<ZoneName>, t: ZoneTable)
  {
    && |t.zones| == |names|
    && forall i :: 0 <= i < |names| ==>
         t.zones[i] == Zone(names[i], EntryOf(st, names[i]).nodes) && Records(t, names[i], EntryOf(st, names[i]))
  }

  /** The table read back lists the zones in file order. */
  lemma ReadBackNames(st: Zones, names: seq<ZoneName>, t: ZoneTable)
    requires ReadBack(st, names, t)
    ensures Names(t.zones) == names
  {
  }

  /** The `i`-th zone read back carries the node set the editor saved for it. */
  lemma ReadBackNodeSet(st: Zones, names: seq<ZoneName>, t: ZoneTable, i: int)
    requires Agree(st) && Reordering(names, st.order) && ReadBack(st, names, t) && 0 <= i < |names|
    ensures names[i] in st.nodes && Elements(t.zones[i].nodes) == st.nodes[names[i]]
  {
    assert names[i] in st.order;
    assert t.zones[i].nodes == SortedIds(st.nodes[names[i]]);
  }

  /** Ingesting the table read back lists the zones in file order with the saved node sets. */
  lemma ReopenedNodes(st: Zones, names: seq<ZoneName>, t: ZoneTable)
    requires Agree(st) && Reordering(names, st.order) && ReadBack(st, names, t)
    ensures Ingested(NoZones, t.zones, t).order == names
    ensures Ingested(NoZones, t.zones, t).nodes == st.nodes
  {
    ReadBackNames(st, names, t);
    var r := Ingested(NoZones, t.zones, t);
    IngestedNodes(t.zones, t);
    forall z | z in r.nodes ensures z in st.nodes && r.nodes[z] == st.nodes[z] {
      var i :| 0 <= i < |names| && names[i] == z;
      ReadBackNodeSet(st, names, t, i);
    }
    SameMap(r.nodes, st.nodes);
  }

  /** The table read back records each listed zone's saved factors and polygon. */
  lemma RecordsAt(st: Zones, names: seq<ZoneName>, t: ZoneTable, z: ZoneName)
    requires ReadBack(st, names, t) && z in names
    ensures Records(t, z, EntryOf(st, z))
  {
    var i :| 0 <= i < |names| && names[i] == z;
  }

  /** Ingesting the table read back gives the saved polygons. */
  lemma ReopenedPolygons(st: Zones, names: seq<ZoneName>, t: ZoneTable)
    requires Agree(st) && Reordering(names, st.order) && ReadBack(st, names, t)
    ensures Ingested(NoZones, t.zones, t).polygons == st.polygons
  {
    assert Names(t.zones) == names;
    IngestedFactors(t.zones, t);
    forall z | z in names ensures Records(t, z, EntryOf(st, z)) {
      RecordsAt(st, names, t, z);
    }
    SameMap(Ingested(NoZones, t.zones, t).polygons, st.polygons);
  }

  /** Ingesting the table read back gives the saved productions. */
  lemma ReopenedProductions(st: Zones, names: seq<ZoneName>, t: ZoneTable)
    requires Agree(st) && Reordering(names, st.order) && ReadBack(st, names, t)
    ensures Ingested(NoZones, t.zones, t).productions == st.productions
  {
    assert Names(t.zones) == names;
    IngestedFactors(t.zones, t);
    forall z | z in names ensures Records(t, z, EntryOf(st, z)) {
      RecordsAt(st, names, t, z);
    }
    SameMap(Ingested(NoZones, t.zones, t).productions, st.productions);
  }

  /** Ingesting the table read back gives the saved attractions. */
  lemma ReopenedAttractions(st: Zones, names: seq<ZoneName>, t: ZoneTable)
    requires Agree(st) && Reordering(names, st.order) && ReadBack(st, names, t)
    ensures Ingested(NoZones, t.zones, t).attractions == st.attractions
  {
    assert Names(t.zones) == names;
    IngestedFactors(t.zones, t);
    forall z | z in names ensures Records(t, z, EntryOf(st, z)) {
      RecordsAt(st, names, t, z);
    }
    SameMap(Ingested(NoZones, t.zones, t).attractions, st.attractions);
  }

  /**
   * Reopening the saved file gives back the same tables: the editor `main` opens on what
   * `load_zone_file` reads from it lists the zones in file order and holds the same node sets,
   * polygons, productions and attractions as the editor that saved it.
   */
  lemma ReopenRestores(st: Zones, names: seq<ZoneName>, p: Parsers)
    requires Agree(st) && Reordering(names, st.order) && names != []
    ensures ZoneTableOf(JObj(SavedFile(st, names)), p).Ok?
    ensures var t := ZoneTableOf(JObj(SavedFile(st, names)), p).value;
            Ingestible(t) && Ingested(NoZones, t.zones, t) == Zones(names, st.nodes, st.polygons, st.productions, st.attractions)
  {
    SavedFileLoads(st, names, p);
    LoadedIngestible(SavedFile(st, names), p);
    var t := ZoneTableOf(JObj(SavedFile(st, names)), p).value;
    assert ReadBack(st, names, t);
    ReopenedNodes(st, names, t);
    ReopenedPolygons(st, names, t);
    ReopenedProductions(st, names, t);
    ReopenedAttractions(st, names, t);
  }
}

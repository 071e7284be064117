/**
 * The payload rules of `load_zone_file` in generador_od.py: which parsed zone files are
 * accepted, and the zone table (nodes, factors, polygons) an accepted file yields.
 */
module ZoneFile {
  import opened Wrappers
  import opened OdGenerator

  /** A value produced by `json.load`; an object keeps its members in file order. */
  datatype Json =
    | JNull
    | JBool(b: bool)
    | JNum(n: real)
    | JStr(s: string)
    | JArr(items: seq<Json>)
    | JObj(members: seq<(string, Json)>)

  /** Python's `int()` and `float()` applied to a string (`None` where they raise). */
  datatype Parsers = Parsers(toInt: string -> Option<int>, toFloat: string -> Option<real>)

  /** The `ValueError`s (and the errors of `float()`) that `load_zone_file` lets escape. */
  datatype ZoneFileError =
    | NotANonEmptyObject
    | MissingNodesField(zone: ZoneName)
    | BadZoneEntry(zone: ZoneName)
    | NonIntegerNodes(zone: ZoneName)
    | NonNumericFactor(zone: ZoneName)
    | BadPolygon(zone: ZoneName)
    | TooFewPolygonPoints(zone: ZoneName)

  /** What one zone entry contributes. */
  datatype Entry = Entry(nodes: seq<int>, production: Option<real>, attraction: Option<real>,
                         polygon: Option<seq<(real, real)>>)

  /** The four dictionaries `load_zone_file` returns; the zones keep file order. */
  datatype ZoneTable = ZoneTable(zones: seq<Zone>, productions: map<ZoneName, real>,
                                 attractions: map<ZoneName, real>, polygons: map<ZoneName, seq<(real, real)>>)

  /** `payload.get(key)`: the last member named `key`; an absent key and JSON `null` both give `None`. */
  function Get(members: seq<(string, Json)>, key: string): (r: Option<Json>)
    ensures r.Some? ==> r.value != JNull && (key, r.value) in members
    ensures (forall i :: 0 <= i < |members| ==> members[i].0 != key) ==> r.None?
  {
    if members == [] then None
    else
      var last := members[|members| - 1];
      if last.0 == key then (if last.1 == JNull then None else Some(last.1))
      else Get(members[..|members| - 1], key)
  }

  /** A key held by exactly one member, with a non-null value, is found with that value. */
  lemma {:induction false} GetUnique(members: seq<(string, Json)>, key: string, i: int)
    requires 0 <= i < |members| && members[i].0 == key && members[i].1 != JNull
    requires forall j :: 0 <= j < |members| && j != i ==> members[j].0 != key
    ensures Get(members, key) == Some(members[i].1)
  {
    if i < |members| - 1 {
      var init := members[..|members| - 1];
      assert forall j :: 0 <= j < |init| ==> init[j] == members[j];
      GetUnique(init, key, i);
    }
  }

  /** `for x in value`: a list's items, a string's characters, an object's keys; other values raise. */
  function Iterate(v: Json): Option<seq<Json>>
  {
    match v
    case JArr(items) => Some(items)
    case JStr(s) => Some(seq(|s|, i requires 0 <= i < |s| => JStr([s[i]])))
    case JObj(members) => Some(seq(|members|, i requires 0 <= i < |members| => JStr(members[i].0)))
    case _ => None
  }

  /** Python's `int(v)`: booleans are 0 and 1, floats truncate toward zero. */
  function ToInt(v: Json, p: Parsers): Option<int>
  {
    match v
    case JBool(b) => Some(if b then 1 else 0)
    case JNum(x) => Some(Trunc(x))
    case JStr(s) => p.toInt(s)
    case _ => None
  }

  /** Python's `float(v)`. */
  function ToFloat(v: Json, p: Parsers): Option<real>
  {
    match v
    case JBool(b) => Some(if b then 1.0 else 0.0)
    case JNum(x) => Some(x)
    case JStr(s) => p.toFloat(s)
    case _ => None
  }

  /** `[int(n) for n in nodes]`, or `None` when any conversion raises. */
  function IntList(items: seq<Json>, p: Parsers): (r: Option<seq<int>>)
    ensures r.Some? <==> forall i :: 0 <= i < |items| ==> ToInt(items[i], p).Some?
    ensures r.Some? ==> |r.value| == |items| &&
                        forall i :: 0 <= i < |items| ==> Some(r.value[i]) == ToInt(items[i], p)
  {
    if items == [] then Some([])
    else
      var init := IntList(items[..|items| - 1], p);
      var last := ToInt(items[|items| - 1], p);
      if init.None? || last.None? then None else Some(init.value + [last.value])
  }

  /** A polygon vertex must be a list of exactly two values. */
  predicate IsPair(v: Json)
  {
    v.JArr? && |v.items| == 2
  }

  /**
   * `[(float(pt[0]), float(pt[1])) for pt in polygon if is a 2-list]`: every two-element list
   * becomes a point, other entries are skipped, and a failing `float` fails the whole list.
   */
  function Points(items: seq<Json>, p: Parsers): Option<seq<(real, real)>>
  {
    if items == [] then Some([])
    else
      var init := Points(items[..|items| - 1], p);
      var v := items[|items| - 1];
      if init.None? then None
      else if !IsPair(v) then init
      else
        var x := ToFloat(v.items[0], p);
        var y := ToFloat(v.items[1], p);
        if x.None? || y.None? then None else Some(init.value + [(x.value, y.value)])
  }

  /** The kept vertices are exactly the pairs of the input, in order; nothing else fails. */
  lemma {:induction false} PointsKeepsPairs(items: seq<Json>, p: Parsers)
    ensures Points(items, p).Some? <==>
              forall i :: 0 <= i < |items| && IsPair(items[i]) ==>
                ToFloat(items[i].items[0], p).Some? && ToFloat(items[i].items[1], p).Some?
    ensures Points(items, p).Some? ==> |Points(items, p).value| == |Pairs(items)|
  {
    if items != [] {
      var init := items[..|items| - 1];
      PointsKeepsPairs(init, p);
      assert forall i :: 0 <= i < |init| ==> init[i] == items[i];
    }
  }

  /** The two-element lists among `items`. */
  function Pairs(items: seq<Json>): seq<Json>
  {
    if items == [] then []
    else Pairs(items[..|items| - 1]) + (if IsPair(items[|items| - 1]) then [items[|items| - 1]] else [])
  }

  /** The optional factor `value`, converted with `float()` when not `None`. */
  function Factor(value: Option<Json>, p: Parsers): Option<Option<real>>
  {
    match value
    case None => Some(None)
    case Some(v) => match ToFloat(v, p) case None => None case Some(x) => Some(Some(x))
  }

  /** The nodes, factors and polygon of one zone, after the `nodes` field has been found. */
  function Fields(name: ZoneName, nodes: Json, production: Option<Json>, attraction: Option<Json>,
                  polygon: Option<Json>, p: Parsers): Result<Entry, ZoneFileError>
  {
    var items := Iterate(nodes);
    var ids := if items.None? then None else IntList(items.value, p);
    if ids.None? then Err(NonIntegerNodes(name))
    else
      var prod := Factor(production, p);
      if prod.None? then Err(NonNumericFactor(name))
      else
        var attr := Factor(attraction, p);
        if attr.None? then Err(NonNumericFactor(name))
        else if polygon.None? then Ok(Entry(ids.value, prod.value, attr.value, None))
        else
          var vertices := Iterate(polygon.value);
          var pts := if vertices.None? then None else Points(vertices.value, p);
          if pts.None? then Err(BadPolygon(name))
          else if |pts.value| < 3 then Err(TooFewPolygonPoints(name))
          else Ok(Entry(ids.value, prod.value, attr.value, Some(pts.value)))
  }

  /** One zone entry: an object with `nodes` (and optional factors and polygon), or a bare node list. */
  function ParseEntry(name: ZoneName, payload: Json, p: Parsers): Result<Entry, ZoneFileError>
  {
    match payload
    case JObj(members) =>
      var nodes := Get(members, "nodes");
      if nodes.None? then Err(MissingNodesField(name))
      else Fields(name, nodes.value, Get(members, "production"), Get(members, "attraction"), Get(members, "polygon"), p)
    case JArr(_) => Fields(name, payload, None, None, None, p)
    case _ => Err(BadZoneEntry(name))
  }

  /**
   * The entry rules: an object without `nodes` (or with `nodes: null`) is rejected; a list is
   * the node list, with no factors and no polygon; anything else is rejected; an accepted
   * polygon keeps at least three points, and the accepted nodes are the `int()` of each item.
   */
  lemma EntryRules(name: ZoneName, payload: Json, p: Parsers)
    ensures payload.JObj? && Get(payload.members, "nodes").None? ==>
              ParseEntry(name, payload, p) == Err(MissingNodesField(name))
    ensures !payload.JObj? && !payload.JArr? ==> ParseEntry(name, payload, p) == Err(BadZoneEntry(name))
    ensures payload.JArr? ==>
              (ParseEntry(name, payload, p).Ok? <==> IntList(payload.items, p).Some?) &&
              (ParseEntry(name, payload, p).Ok? ==>
                 ParseEntry(name, payload, p).value == Entry(IntList(payload.items, p).value, None, None, None))
    ensures ParseEntry(name, payload, p).Ok? ==>
              var e := ParseEntry(name, payload, p).value;
              e.polygon.None? || |e.polygon.value| >= 3
  {
  }

  /** The zones of `members` in order, or the first entry's error. */
  function Members(members: seq<(string, Json)>, p: Parsers): Result<ZoneTable, ZoneFileError>
  {
    if members == [] then Ok(ZoneTable([], map[], map[], map[]))
    else
      var (name, payload) := members[|members| - 1];
      match Members(members[..|members| - 1], p)
      case Err(e) => Err(e)
      case Ok(t) =>
        match ParseEntry(name, payload, p)
        case Err(e) => Err(e)
        case Ok(entry) => Ok(Add(t, name, entry))
  }

  /** Record one accepted zone, as the loop body of `load_zone_file` does. */
  function Add(t: ZoneTable, name: ZoneName, e: Entry): ZoneTable
  {
    ZoneTable(t.zones + [Zone(name, e.nodes)],
              if e.production.Some? then t.productions[name := e.production.value] else t.productions,
              if e.attraction.Some? then t.attractions[name := e.attraction.value] else t.attractions,
              if e.polygon.Some? then t.polygons[name := e.polygon.value] else t.polygons)
  }

  /** `load_zone_file` after `json.load`. */
  function ZoneTableOf(raw: Json, p: Parsers): Result<ZoneTable, ZoneFileError>
  {
    if !raw.JObj? || raw.members == [] then Err(NotANonEmptyObject) else Members(raw.members, p)
  }

  /** A file is accepted exactly when it is a non-empty object whose every entry is accepted. */
  lemma {:induction false} MembersSucceedIff(members: seq<(string, Json)>, p: Parsers)
    ensures Members(members, p).Ok? <==> forall i :: 0 <= i < |members| ==> ParseEntry(members[i].0, members[i].1, p).Ok?
  {
    if members != [] {
      var init := members[..|members| - 1];
      MembersSucceedIff(init, p);
      assert forall i :: 0 <= i < |init| ==> init[i] == members[i];
    }
  }

  /** A rejected file reports the error of its first rejected entry. */
  lemma {:induction false} MembersFirstError(members: seq<(string, Json)>, p: Parsers)
    requires Members(members, p).Err?
    ensures exists i :: 0 <= i < |members| &&
              (forall k :: 0 <= k < i ==> ParseEntry(members[k].0, members[k].1, p).Ok?) &&
              ParseEntry(members[i].0, members[i].1, p) == Err(Members(members, p).error)
  {
    var init := members[..|members| - 1];
    assert forall k :: 0 <= k < |init| ==> init[k] == members[k];
    if Members(init, p).Err? {
      MembersFirstError(init, p);
    } else {
      MembersSucceedIff(init, p);
    }
  }

  /** The table holds exactly the factors and the polygon that `e` gives zone `name`. */
  predicate Records(t: ZoneTable, name: ZoneName, e: Entry)
  {
    && (name in t.productions <==> e.production.Some?)
    && (name in t.attractions <==> e.attraction.Some?)
    && (name in t.polygons <==> e.polygon.Some?)
    && (e.production.Some? ==> t.productions[name] == e.production.value)
    && (e.attraction.Some? ==> t.attractions[name] == e.attraction.value)
    && (e.polygon.Some? ==> t.polygons[name] == e.polygon.value)
  }

  /** Adding a zone records it and leaves what the table records for every other zone. */
  lemma AddRecords(t: ZoneTable, name: ZoneName, e: Entry, other: ZoneName, f: Entry)
    requires name !in t.productions && name !in t.attractions && name !in t.polygons
    ensures Records(Add(t, name, e), name, e)
    ensures other != name && Records(t, other, f) ==> Records(Add(t, name, e), other, f)
  {
  }

  /** The step of `Members` on an accepted file. */
  lemma MembersLast(members: seq<(string, Json)>, p: Parsers)
    requires members != [] && Members(members, p).Ok?
    ensures Members(members[..|members| - 1], p).Ok?
    ensures ParseEntry(members[|members| - 1].0, members[|members| - 1].1, p).Ok?
    ensures Members(members, p).value ==
              Add(Members(members[..|members| - 1], p).value, members[|members| - 1].0,
                  ParseEntry(members[|members| - 1].0, members[|members| - 1].1, p).value)
  {
  }

  /** An accepted file lists its zones in file order, each with its node list. */
  lemma {:induction false} MembersZones(members: seq<(string, Json)>, p: Parsers)
    requires Members(members, p).Ok?
    ensures |Members(members, p).value.zones| == |members|
    ensures forall i :: 0 <= i < |members| ==>
              (ParseEntry(members[i].0, members[i].1, p).Ok? &&
               Members(members, p).value.zones[i] == Zone(members[i].0, ParseEntry(members[i].0, members[i].1, p).value.nodes))
  {
    if members != [] {
      var init := members[..|members| - 1];
      MembersLast(members, p);
      MembersZones(init, p);
      assert forall k :: 0 <= k < |init| ==> init[k] == members[k];
    }
  }

  /** Dropping the last member keeps the names distinct, and the last name is not among the others. */
  lemma DistinctInit(members: seq<(string, Json)>)
    requires members != [] && Distinct(Keys(members))
    ensures Distinct(Keys(members[..|members| - 1]))
    ensures members[|members| - 1].0 !in Keys(members[..|members| - 1])
  {
    var init := members[..|members| - 1];
    forall a, b | 0 <= a < b < |init| ensures Keys(init)[a] != Keys(init)[b] {
      assert Keys(members)[a] != Keys(members)[b];
    }
    forall k | 0 <= k < |init| ensures Keys(init)[k] != members[|members| - 1].0 {
      assert Keys(members)[k] != Keys(members)[|members| - 1];
    }
  }

  /**
   * An accepted file with distinct zone names records a production, attraction or polygon
   * exactly for the zones whose entry has one.
   */
  lemma {:induction false} MembersFactors(members: seq<(string, Json)>, p: Parsers)
    requires Members(members, p).Ok?
    requires Distinct(Keys(members))
    ensures forall i :: 0 <= i < |members| ==>
              (ParseEntry(members[i].0, members[i].1, p).Ok? &&
               Records(Members(members, p).value, members[i].0, ParseEntry(members[i].0, members[i].1, p).value))
  {
    if members != [] {
      var init := members[..|members| - 1];
      var last := members[|members| - 1];
      MembersLast(members, p);
      DistinctInit(members);
      MembersFactors(init, p);
      MembersNames(init, p);
      var t := Members(init, p).value;
      var e := ParseEntry(last.0, last.1, p).value;
      forall i | 0 <= i < |members|
        ensures ParseEntry(members[i].0, members[i].1, p).Ok? &&
                Records(Members(members, p).value, members[i].0, ParseEntry(members[i].0, members[i].1, p).value)
      {
        if i < |init| {
          assert init[i] == members[i];
          assert Keys(init)[i] == members[i].0;
          AddRecords(t, last.0, e, members[i].0, ParseEntry(members[i].0, members[i].1, p).value);
        } else {
          AddRecords(t, last.0, e, last.0, e);
        }
      }
    }
  }

  /** An accepted file records factors and polygons only under its own zone names. */
  lemma {:induction false} MembersNames(members: seq<(string, Json)>, p: Parsers)
    requires Members(members, p).Ok?
    ensures forall z :: (z in Members(members, p).value.productions || z in Members(members, p).value.attractions ||
                         z in Members(members, p).value.polygons) ==> z in Keys(members)
  {
    if members != [] {
      var init := members[..|members| - 1];
      MembersLast(members, p);
      MembersNames(init, p);
      assert Keys(members) == Keys(init) + [members[|members| - 1].0];
    }
  }

  function Keys(members: seq<(string, Json)>): (r: seq<string>)
    ensures |r| == |members| && forall i :: 0 <= i < |members| ==> r[i] == members[i].0
  {
    seq(|members|, i requires 0 <= i < |members| => members[i].0)
  }

  /** Once a prefix of the entries fails, the whole file fails with the same error. */
  lemma {:induction false} MembersKeepsError(members: seq<(string, Json)>, n: nat, p: Parsers)
    requires n <= |members| && Members(members[..n], p).Err?
    ensures Members(members, p) == Members(members[..n], p)
    decreases |members| - n
  {
    if n < |members| {
      assert members[..n + 1][..n] == members[..n];
      MembersKeepsError(members, n + 1, p);
    } else {
      assert members[..n] == members;
    }
  }

  /**
   * The top-level rule: anything but a non-empty object is rejected; a non-empty object is
   * accepted exactly when each of its entries is, and otherwise fails with its first bad entry.
   */
  lemma ZoneFileRules(raw: Json, p: Parsers)
    ensures !raw.JObj? || raw.members == [] ==> ZoneTableOf(raw, p) == Err(NotANonEmptyObject)
    ensures ZoneTableOf(raw, p).Ok? <==>
              raw.JObj? && raw.members != [] &&
              forall i :: 0 <= i < |raw.members| ==> ParseEntry(raw.members[i].0, raw.members[i].1, p).Ok?
    ensures raw.JObj? && ZoneTableOf(raw, p).Err? && ZoneTableOf(raw, p) != Err(NotANonEmptyObject) ==>
              exists i :: 0 <= i < |raw.members| &&
                (forall k :: 0 <= k < i ==> ParseEntry(raw.members[k].0, raw.members[k].1, p).Ok?) &&
                ParseEntry(raw.members[i].0, raw.members[i].1, p) == Err(ZoneTableOf(raw, p).error)
  {
    if raw.JObj? && raw.members != [] {
      MembersSucceedIff(raw.members, p);
      if Members(raw.members, p).Err? {
        MembersFirstError(raw.members, p);
      }
    }
  }

  /** `load_zone_file` from the parsed JSON: check the top level, then one pass over the zones. */
  method LoadZoneFile(raw: Json, p: Parsers) returns (r: Result<ZoneTable, ZoneFileError>)
    ensures r == ZoneTableOf(raw, p)
  {
    if !raw.JObj? || raw.members == [] {
      return Err(NotANonEmptyObject);
    }
    var members := raw.members;
    var zones: seq<Zone> := [];
    var productions: map<ZoneName, real> := map[];
    var attractions: map<ZoneName, real> := map[];
    var polygons: map<ZoneName, seq<(real, real)>> := map[];
    var i := 0;
    while i < |members|
      invariant 0 <= i <= |members|
      invariant Members(members[..i], p) == Ok(ZoneTable(zones, productions, attractions, polygons))
    {
      var (zoneName, payload) := members[i];
      assert members[..i + 1][..i] == members[..i];
      var entry := ParseEntry(zoneName, payload, p);
      if entry.Err? {
        MembersKeepsError(members, i + 1, p);
        return Err(entry.error);
      }
      zones := zones + [Zone(zoneName, entry.value.nodes)];
      if entry.value.production.Some? {
        productions := productions[zoneName := entry.value.production.value];
      }
      if entry.value.attraction.Some? {
        attractions := attractions[zoneName := entry.value.attraction.value];
      }
      if entry.value.polygon.Some? {
        polygons := polygons[zoneName := entry.value.polygon.value];
      }
      i := i + 1;
    }
    assert members[..i] == members;
    return Ok(ZoneTable(zones, productions, attractions, polygons));
  }
}

/**
 * Areas and their parents: the lookups that walk up from one area, the start-up pre-warm that fills the
 * same cache, and the three-query bulk version (src/plugins/projects/helpers/area-hierarchy.js,
 * src/plugins/areas/services/area-service.js and src/plugins/downloads/programme/programme-generation-helpers.js).
 */
module AreaHierarchy {
  import opened Wrappers
  import opened JsMaps

  type AreaId = i: int | i >= 1 witness 1

  datatype Area = Area(name: Option<string>, parent: Option<int>, areaType: Option<string>, subType: Option<string>)

  type Areas = map<AreaId, Area>

  const RMA := "RMA"
  const PSO := "PSO Area"
  const EA := "EA Area"

  function Upper(s: string): (r: string)
    ensures |r| == |s|
  {
    seq(|s|, i requires 0 <= i < |s| => if 'a' <= s[i] <= 'z' then s[i] - 32 as char else s[i])
  }

  /** isAreaType compares without case; an area without a type is of none. */
  predicate IsType(area: Area, expected: string) {
    area.areaType.Some? && Upper(area.areaType.value) == Upper(expected)
  }

  lemma OneType(area: Area)
    ensures !(IsType(area, PSO) && IsType(area, EA))
  {
  }

  function Find(areas: Areas, id: Option<int>): Option<AreaId> {
    if id.Some? && id.value >= 1 && id.value in areas then Some(id.value) else None
  }

  /** The row a row's parent_id leads to; a zero or dangling parent leads nowhere. */
  function ParentOf(areas: Areas, id: Option<AreaId>): Option<AreaId>
    requires id.Some? ==> id.value in areas
  {
    if id.None? then None else Find(areas, areas[id.value].parent)
  }

  // ---------- The names around an area ----------

  datatype Hierarchy = Hierarchy(rmaName: Option<string>, rmaSubType: Option<string>, psoAreaId: Option<AreaId>,
                                 psoName: Option<string>, rfccName: Option<string>, eaAreaName: Option<string>)

  const EMPTY_HIERARCHY := Hierarchy(None, None, None, None, None, None)

  function NameOf(areas: Areas, id: Option<AreaId>): Option<string>
    requires id.Some? ==> id.value in areas
  {
    if id.None? then None else areas[id.value].name
  }

  function BuildHierarchy(areas: Areas, rma: AreaId, pso: Option<AreaId>, ea: Option<AreaId>): Hierarchy
    requires rma in areas && (pso.Some? ==> pso.value in areas) && (ea.Some? ==> ea.value in areas)
  {
    Hierarchy(areas[rma].name, areas[rma].subType, pso, NameOf(areas, pso), NameOf(areas, pso), NameOf(areas, ea))
  }

  /** resolveAreaHierarchy without its cache: the area, its parent and its grandparent, of whatever type. */
  function Resolve(areas: Areas, id: int): Hierarchy {
    match Find(areas, Some(id))
    case None => EMPTY_HIERARCHY
    case Some(rma) =>
      var pso := ParentOf(areas, Some(rma));
      BuildHierarchy(areas, rma, pso, ParentOf(areas, pso))
  }

  // ---------- An area with its parents ----------

  datatype AreaWithParents = AreaWithParents(id: AreaId, pso: Option<AreaId>, ea: Option<AreaId>)

  /** getAreaByIdWithParents: parents are put where their own type says, the grandparent last. */
  function WithParents(areas: Areas, id: AreaId): AreaWithParents
    requires id in areas
  {
    var p := ParentOf(areas, Some(id));
    var g := ParentOf(areas, p);
    AreaWithParents(id, Last(areas, p, g, PSO), Last(areas, p, g, EA))
  }

  function Last(areas: Areas, p: Option<AreaId>, g: Option<AreaId>, areaType: string): Option<AreaId>
    requires p.Some? ==> p.value in areas
    requires g.Some? ==> g.value in areas
  {
    if g.Some? && IsType(areas[g.value], areaType) then g
    else if p.Some? && IsType(areas[p.value], areaType) then p
    else None
  }

  /** What the pre-warm stores instead: parent and grandparent, whatever their types. */
  function PreWarmedParents(areas: Areas, id: AreaId): AreaWithParents
    requires id in areas
  {
    var p := ParentOf(areas, Some(id));
    AreaWithParents(id, p, ParentOf(areas, p))
  }

  /** The two agree on an area if and only if its parent is a PSO and its grandparent an EA, if present. */
  lemma PreWarmAgreesExactlyWhen(areas: Areas, id: AreaId)
    requires id in areas
    ensures var p := ParentOf(areas, Some(id));
            var g := ParentOf(areas, p);
            WithParents(areas, id) == PreWarmedParents(areas, id) <==>
            (p.Some? ==> IsType(areas[p.value], PSO)) && (g.Some? ==> IsType(areas[g.value], EA))
  {
    var p := ParentOf(areas, Some(id));
    var g := ParentOf(areas, p);
    if p.Some? { OneType(areas[p.value]); }
    if g.Some? { OneType(areas[g.value]); }
  }

  // ---------- What the rows say ----------

  predicate HasArea(areas: Areas, id: int) {
    id >= 1 && id in areas
  }

  /** The row of `id` names the row of `parent`. */
  predicate IsParent(areas: Areas, id: int, parent: int) {
    HasArea(areas, id) && HasArea(areas, parent) && areas[id].parent == Some(parent)
  }

  ghost predicate IsGrandparent(areas: Areas, id: int, grandparent: int) {
    exists p :: IsParent(areas, id, p) && IsParent(areas, p, grandparent)
  }

  /**
   * The names that belong to an area: its own and its sub-type; the id and the name - as PSO and as RFCC - of the
   * area its row names; the name of the area that one's row names; nothing where a row is missing.
   */
  ghost predicate Shows(areas: Areas, id: int, h: Hierarchy) {
    && h.rmaName == (if HasArea(areas, id) then areas[id].name else None)
    && h.rmaSubType == (if HasArea(areas, id) then areas[id].subType else None)
    && (h.psoAreaId.Some? <==> exists p :: IsParent(areas, id, p))
    && (h.psoAreaId.Some? ==>
          && IsParent(areas, id, h.psoAreaId.value)
          && h.psoName == h.rfccName == areas[h.psoAreaId.value].name
          && (forall g | IsParent(areas, h.psoAreaId.value, g) :: h.eaAreaName == areas[g].name))
    && (h.psoAreaId.None? ==> h.psoName == h.rfccName == None)
    && ((forall g :: !IsGrandparent(areas, id, g)) ==> h.eaAreaName == None)
  }

  lemma ResolveShows(areas: Areas, id: int)
    ensures Shows(areas, id, Resolve(areas, id))
  {
    var h := Resolve(areas, id);
    if h.psoAreaId.Some? {
      assert IsParent(areas, id, h.psoAreaId.value);
      forall g | IsParent(areas, h.psoAreaId.value, g)
        ensures h.eaAreaName == areas[g].name
      {
        assert IsGrandparent(areas, id, g);
      }
    }
    if h.eaAreaName.Some? {
      var g := ParentOf(areas, h.psoAreaId);
      assert IsParent(areas, h.psoAreaId.value, g.value);
      assert IsGrandparent(areas, id, g.value);
    }
  }

  /** There is one answer that fits the rows. */
  lemma ShowsIsOne(areas: Areas, id: int, a: Hierarchy, b: Hierarchy)
    requires Shows(areas, id, a) && Shows(areas, id, b)
    ensures a == b
  {
    if (exists g :: IsGrandparent(areas, id, g)) {
      var g :| IsGrandparent(areas, id, g);
      var p :| IsParent(areas, id, p) && IsParent(areas, p, g);
      assert a.psoAreaId == b.psoAreaId == Some(p);
    }
  }

  /** The type of an area without regard to case. */
  predicate HasType(areas: Areas, id: int, upper: string) {
    HasArea(areas, id) && areas[id].areaType.Some? && Upper(areas[id].areaType.value) == upper
  }

  /** The parent or grandparent of this type; the grandparent if both are. */
  ghost predicate IsNearest(areas: Areas, id: int, upper: string, x: int) {
    && HasType(areas, x, upper)
    && (|| IsGrandparent(areas, id, x)
        || (IsParent(areas, id, x) && forall g | IsGrandparent(areas, id, g) :: !HasType(areas, g, upper)))
  }

  ghost predicate PlacedByType(areas: Areas, id: int, r: AreaWithParents) {
    && r.id == id
    && (forall x: AreaId :: r.pso == Some(x) <==> IsNearest(areas, id, "PSO AREA", x))
    && (forall x: AreaId :: r.ea == Some(x) <==> IsNearest(areas, id, "EA AREA", x))
  }

  ghost predicate PlacedInLine(areas: Areas, id: int, r: AreaWithParents) {
    && r.id == id
    && (forall x: AreaId :: r.pso == Some(x) <==> IsParent(areas, id, x))
    && (forall x: AreaId :: r.ea == Some(x) <==> IsGrandparent(areas, id, x))
  }

  lemma UpperLabels()
    ensures Upper(RMA) == "RMA" && Upper(PSO) == "PSO AREA" && Upper(EA) == "EA AREA"
  {
  }

  lemma LastIsNearest(areas: Areas, id: AreaId, areaType: string, x: AreaId)
    requires id in areas
    ensures var p := ParentOf(areas, Some(id));
            Last(areas, p, ParentOf(areas, p), areaType) == Some(x) <==> IsNearest(areas, id, Upper(areaType), x)
  {
    LineOf(areas, id);
    var p := ParentOf(areas, Some(id));
    var g := ParentOf(areas, p);
    if g.Some? {
      assert IsGrandparent(areas, id, g.value);
    }
  }

  lemma LineOf(areas: Areas, id: AreaId)
    requires id in areas
    ensures forall x: AreaId :: ParentOf(areas, Some(id)) == Some(x) <==> IsParent(areas, id, x)
    ensures forall x: AreaId :: ParentOf(areas, ParentOf(areas, Some(id))) == Some(x) <==> IsGrandparent(areas, id, x)
  {
    forall x: AreaId
      ensures ParentOf(areas, ParentOf(areas, Some(id))) == Some(x) <==> IsGrandparent(areas, id, x)
    {
      if IsGrandparent(areas, id, x) {
        var p :| IsParent(areas, id, p) && IsParent(areas, p, x);
        assert ParentOf(areas, Some(id)) == Some(p);
      }
      var p := ParentOf(areas, Some(id));
      if ParentOf(areas, p) == Some(x) {
        assert IsParent(areas, id, p.value) && IsParent(areas, p.value, x);
      }
    }
  }

  lemma ParentsPlaced(areas: Areas, id: AreaId)
    requires id in areas
    ensures PlacedByType(areas, id, WithParents(areas, id))
    ensures PlacedInLine(areas, id, PreWarmedParents(areas, id))
  {
    UpperLabels();
    LineOf(areas, id);
    forall x: AreaId
      ensures WithParents(areas, id).pso == Some(x) <==> IsNearest(areas, id, "PSO AREA", x)
      ensures WithParents(areas, id).ea == Some(x) <==> IsNearest(areas, id, "EA AREA", x)
    {
      LastIsNearest(areas, id, PSO, x);
      LastIsNearest(areas, id, EA, x);
    }
  }

  // ---------- The shared cache ----------

  const TTL_MS: nat := 60 * 60 * 1000

  datatype CacheKey = ByArea(id: int) | ByAreaWithParents(id: int)

  datatype Cached = Names(hierarchy: Hierarchy) | Parents(area: AreaWithParents)

  datatype Entry = Entry(result: Cached, expiresAt: nat)

  /** The area table as it was when something was read from it. */
  datatype Reading = Reading(time: nat, areas: Areas)

  /** What an entry may hold under a key, given the table it was made from. */
  ghost predicate Describes(key: CacheKey, areas: Areas, result: Cached) {
    match key
    case ByArea(id) => HasArea(areas, id) && result.Names? && Shows(areas, id, result.hierarchy)
    case ByAreaWithParents(id) =>
      HasArea(areas, id) && result.Parents? && (PlacedByType(areas, id, result.area) || PlacedInLine(areas, id, result.area))
  }

  ghost predicate MadeFrom(readings: seq<Reading>, key: CacheKey, e: Entry) {
    exists i :: 0 <= i < |readings| && e.expiresAt == readings[i].time + 3_600_000 && Describes(key, readings[i].areas, e.result)
  }

  ghost predicate RecentlyDescribed(readings: seq<Reading>, key: CacheKey, result: Cached, now: nat) {
    exists i :: 0 <= i < |readings| && now <= readings[i].time + 3_600_000 && Describes(key, readings[i].areas, result)
  }

  class HierarchyCache {
    var cache: JsMap<CacheKey, Entry>

    /** Every reading of the area table so far. */
    ghost var readings: seq<Reading>

    ghost predicate Valid()
      reads this
    {
      forall key | key in cache.entries :: MadeFrom(readings, key, cache.entries[key])
    }

    constructor ()
      ensures Valid() && readings == []
    {
      cache := Empty();
      readings := [];
    }

    method GetCached(key: CacheKey, now: nat) returns (r: Option<Cached>)
      requires Valid()
      modifies this`cache
      ensures Valid()
      ensures r.Some? ==> RecentlyDescribed(readings, key, r.value, now)
      ensures r.None? <==> old(cache.Get(key).None? || now > cache.entries[key].expiresAt)
      ensures cache == if r.None? then old(cache).Delete(key) else old(cache)
    {
      var entry := cache.Get(key);
      if entry.None? || now > entry.value.expiresAt {
        cache := cache.Delete(key);
        return None;
      }
      assert MadeFrom(readings, key, entry.value);
      return Some(entry.value.result);
    }

    /** Stores what was just made from the table. */
    method SetCached(key: CacheKey, result: Cached, areas: Areas, now: nat)
      requires Valid() && Describes(key, areas, result)
      modifies this
      ensures Valid() && readings == old(readings) + [Reading(now, areas)]
      ensures cache == old(cache).Set(key, Entry(result, now + 3_600_000))
      ensures RecentlyDescribed(readings, key, result, now)
    {
      ghost var before := readings;
      cache := cache.Set(key, Entry(result, now + TTL_MS));
      readings := readings + [Reading(now, areas)];
      assert readings[|before|] == Reading(now, areas);
      forall k | k in cache.entries
        ensures MadeFrom(readings, k, cache.entries[k])
      {
        if k != key {
          var i :| 0 <= i < |before| && cache.entries[k].expiresAt == before[i].time + 3_600_000 &&
            Describes(k, before[i].areas, cache.entries[k].result);
          assert readings[i] == before[i];
        }
      }
    }

    /**
     * Whatever mixture of lookups and pre-warms filled the cache, the answer is what the table said at
     * some reading of the last hour - or says now. Unknown areas are not remembered.
     */
    method ResolveAreaHierarchy(areas: Areas, id: int, now: nat) returns (r: Hierarchy)
      requires Valid()
      modifies this
      ensures Valid()
      ensures Shows(areas, id, r) || RecentlyDescribed(readings, ByArea(id), Names(r), now)
      ensures old(cache.Get(ByArea(id)).None? || now > cache.entries[ByArea(id)].expiresAt) ==> Shows(areas, id, r)
    {
      ResolveShows(areas, id);
      if id == 0 {
        return EMPTY_HIERARCHY;
      }
      var cached := GetCached(ByArea(id), now);
      if cached.Some? {
        return cached.value.hierarchy;
      }
      var rma := Find(areas, Some(id));
      if rma.None? {
        return EMPTY_HIERARCHY;
      }
      var parentId := areas[rma.value].parent;
      var pso := if parentId.GetOr(0) != 0 then Find(areas, parentId) else None;
      var grandparentId := if pso.Some? then areas[pso.value].parent else None;
      var ea := if grandparentId.GetOr(0) != 0 then Find(areas, grandparentId) else None;
      r := BuildHierarchy(areas, rma.value, pso, ea);
      SetCached(ByArea(id), Names(r), areas, now);
    }

    method GetAreaByIdWithParents(areas: Areas, id: int, now: nat) returns (r: Option<AreaWithParents>)
      requires Valid()
      modifies this
      ensures Valid()
      ensures (r.None? && !HasArea(areas, id)) || (r.Some? && HasArea(areas, id) && PlacedByType(areas, id, r.value)) ||
              (r.Some? && RecentlyDescribed(readings, ByAreaWithParents(id), Parents(r.value), now))
    {
      if id == 0 {
        return None;
      }
      var cached := GetCached(ByAreaWithParents(id), now);
      if cached.Some? {
        return Some(cached.value.area);
      }
      var area := Find(areas, Some(id));
      if area.None? {
        return None;
      }
      var response := PlaceParents(areas, area.value);
      ParentsPlaced(areas, area.value);
      SetCached(ByAreaWithParents(id), Parents(response), areas, now);
      return Some(response);
    }

    /** Both entries of an area are there for an hour, with the names and the parents its rows give. */
    ghost predicate Warmed(areas: Areas, id: AreaId, now: nat)
      reads this
    {
      var names, parents := cache.Get(ByArea(id)), cache.Get(ByAreaWithParents(id));
      && names.Some? && names.value.expiresAt == now + 3_600_000
      && names.value.result.Names? && Shows(areas, id, names.value.result.hierarchy)
      && parents.Some? && parents.value.expiresAt == now + 3_600_000
      && parents.value.result.Parents? && PlacedInLine(areas, id, parents.value.result.area)
    }

    method WarmOne(areas: Areas, id: AreaId, now: nat)
      requires Valid() && id in areas
      modifies this
      ensures Valid() && Warmed(areas, id, now)
      ensures forall key :: key != ByArea(id) && key != ByAreaWithParents(id) ==> cache.Get(key) == old(cache.Get(key))
    {
      var pso := Find(areas, areas[id].parent);
      var ea := if pso.None? then None else Find(areas, areas[pso.value].parent);
      ResolveShows(areas, id);
      ParentsPlaced(areas, id);
      SetCached(ByArea(id), Names(BuildHierarchy(areas, id, pso, ea)), areas, now);
      SetCached(ByAreaWithParents(id), Parents(AreaWithParents(id, pso, ea)), areas, now);
    }

    /** One pass over all areas that fills both kinds of entries. */
    method PreWarm(areas: Areas, now: nat)
      requires Valid()
      modifies this
      ensures Valid()
      ensures forall id | id in areas :: Warmed(areas, id, now)
    {
      var left := areas.Keys;
      while left != {}
        invariant Valid() && left <= areas.Keys
        invariant forall id | id in areas && id !in left :: Warmed(areas, id, now)
        decreases left
      {
        var id :| id in left;
        label Before:
        WarmOne(areas, id, now);
        forall other | other in areas && other !in left
          ensures Warmed(areas, other, now)
        {
          assert old@Before(Warmed(areas, other, now));
        }
        left := left - {id};
      }
    }
  }

  /** Each parent goes where its own type says; a later one takes the place of an earlier one. */
  method PlaceParents(areas: Areas, area: AreaId) returns (response: AreaWithParents)
    requires area in areas
    ensures response == WithParents(areas, area)
  {
    response := AreaWithParents(area, None, None);
    var parentId := areas[area].parent;
    if parentId.GetOr(0) != 0 {
      var parents := FetchParentChain(areas, parentId.value);
      var i := 0;
      while i < |parents|
        invariant 0 <= i <= |parents|
        invariant response.id == area
        invariant response.pso == LastOf(areas, parents[..i], PSO)
        invariant response.ea == LastOf(areas, parents[..i], EA)
      {
        assert parents[..i + 1] == parents[..i] + [parents[i]];
        if IsType(areas[parents[i]], PSO) {
          response := response.(pso := Some(parents[i]));
        }
        if IsType(areas[parents[i]], EA) {
          response := response.(ea := Some(parents[i]));
        }
        i := i + 1;
      }
      assert parents[..i] == parents;
      var p := ParentOf(areas, Some(area));
      LastOfChain(areas, p, ParentOf(areas, p), parents, PSO);
      LastOfChain(areas, p, ParentOf(areas, p), parents, EA);
    }
  }

  /** _fetchParentChain: the parent and, when that exists, its parent. */
  method FetchParentChain(areas: Areas, parentId: int) returns (parents: seq<AreaId>)
    ensures forall i :: 0 <= i < |parents| ==> parents[i] in areas
    ensures var p := Find(areas, Some(parentId));
            parents == (if p.None? then [] else [p.value]) +
                       (if ParentOf(areas, p).None? then [] else [ParentOf(areas, p).value])
  {
    parents := [];
    var pso := Find(areas, Some(parentId));
    if pso.None? {
      return;
    }
    parents := parents + [pso.value];
    if areas[pso.value].parent.GetOr(0) != 0 {
      var ea := Find(areas, areas[pso.value].parent);
      if ea.Some? {
        parents := parents + [ea.value];
      }
    }
  }

  function LastOf(areas: Areas, parents: seq<AreaId>, areaType: string): Option<AreaId>
    requires forall i :: 0 <= i < |parents| ==> parents[i] in areas
  {
    if parents == [] then None
    else if IsType(areas[parents[|parents| - 1]], areaType) then Some(parents[|parents| - 1])
    else LastOf(areas, parents[..|parents| - 1], areaType)
  }

  lemma LastOfChain(areas: Areas, p: Option<AreaId>, g: Option<AreaId>, parents: seq<AreaId>, areaType: string)
    requires p.Some? ==> p.value in areas
    requires g.Some? ==> g.value in areas && p.Some?
    requires forall i :: 0 <= i < |parents| ==> parents[i] in areas
    requires parents == (if p.None? then [] else [p.value]) + (if g.None? then [] else [g.value])
    ensures LastOf(areas, parents, areaType) == Last(areas, p, g, areaType)
  {
    if g.Some? {
      assert parents[..1] == [p.value] && parents[1] == g.value;
      LastOfOne(areas, p.value, areaType);
    } else if p.Some? {
      assert parents == [p.value];
      LastOfOne(areas, p.value, areaType);
    }
  }

  lemma LastOfOne(areas: Areas, id: AreaId, areaType: string)
    requires id in areas
    ensures LastOf(areas, [id], areaType) == if IsType(areas[id], areaType) then Some(id) else None
  {
  }
}

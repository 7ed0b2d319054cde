/**
 * The bulk project loader (src/plugins/downloads/programme/programme-generation-helpers.js): rows are
 * grouped once by project and looked up, and areas are resolved in three queries for all projects.
 */
module ProgrammeJoin {
  import opened Wrappers
  import opened JsMaps
  import opened AreaHierarchy

  // ---------- groupBy ----------

  /** The items with a key, in their order. */
  function Matching<T, K(==)>(items: seq<T>, keyOf: T -> K, key: K): seq<T> {
    if items == [] then []
    else
      var last := items[|items| - 1];
      Matching(items[..|items| - 1], keyOf, key) + (if keyOf(last) == key then [last] else [])
  }

  /** Keeping the matching items of a joined list is keeping those of its parts; of one item, itself or nothing. */
  lemma {:induction false} MatchingKeeps<T, K>(a: seq<T>, b: seq<T>, keyOf: T -> K, key: K)
    ensures Matching(a + b, keyOf, key) == Matching(a, keyOf, key) + Matching(b, keyOf, key)
    ensures |b| == 1 ==> Matching(b, keyOf, key) == if keyOf(b[0]) == key then b else []
  {
    if b == [] {
      assert a + b == a;
    } else {
      assert (a + b)[..|a + b| - 1] == a + b[..|b| - 1];
      MatchingKeeps(a, b[..|b| - 1], keyOf, key);
    }
  }

  method GroupBy<T, K(!new, ==)>(items: seq<T>, keyOf: T -> K) returns (groups: JsMap<K, seq<T>>)
    ensures groups.Valid()
    ensures forall key :: groups.Get(key).GetOr([]) == Matching(items, keyOf, key)
    ensures forall key :: groups.Get(key) != Some([])
  {
    groups := Empty();
    var i := 0;
    while i < |items|
      invariant 0 <= i <= |items| && groups.Valid()
      invariant forall key :: groups.Get(key).GetOr([]) == Matching(items[..i], keyOf, key)
      invariant forall key :: groups.Get(key) != Some([])
    {
      assert items[..i + 1][..i] == items[..i];
      var key := keyOf(items[i]);
      var existing := groups.Get(key);
      SetKeepsValid(groups, key, existing.GetOr([]) + [items[i]]);
      groups := groups.Set(key, existing.GetOr([]) + [items[i]]);
      i := i + 1;
    }
    assert items[..i] == items;
  }

  // ---------- Areas in bulk ----------

  datatype HierarchyNames = HierarchyNames(rmaName: Option<string>, rmaSubType: Option<string>,
                                           psoName: Option<string>, rfccName: Option<string>, eaAreaName: Option<string>)

  const NO_NAMES := HierarchyNames(None, None, None, None, None)

  function NamesOf(h: Hierarchy): HierarchyNames {
    HierarchyNames(h.rmaName, h.rmaSubType, h.psoName, h.rfccName, h.eaAreaName)
  }

  function FindMany(areas: Areas, ids: set<int>): Areas {
    map id | id in areas && id in ids :: areas[id]
  }

  /** uniqueParentIds: null parents are left out, zero is not. */
  function UniqueParentIds(areas: Areas): set<int> {
    set id | id in areas && areas[id].parent.Some? :: areas[id].parent.value
  }

  function Lookup(areas: Areas, id: Option<int>): Option<Area> {
    if id.Some? && id.value >= 1 && id.value in areas then Some(areas[id.value]) else None
  }

  function BuildHierarchyEntry(rma: Area, psoMap: Areas, eaMap: Areas): HierarchyNames {
    var pso := Lookup(psoMap, rma.parent);
    var ea := if pso.None? then None else Lookup(eaMap, pso.value.parent);
    var psoName := if pso.None? then None else pso.value.name;
    HierarchyNames(rma.name, rma.subType, psoName, psoName, if ea.None? then None else ea.value.name)
  }

  /** The names that belong to an area, as its row and the rows above it have them. */
  ghost predicate ShowsNames(areas: Areas, id: int, n: HierarchyNames) {
    exists psoAreaId :: Shows(areas, id, Hierarchy(n.rmaName, n.rmaSubType, psoAreaId, n.psoName, n.rfccName, n.eaAreaName))
  }

  lemma NamesShown(areas: Areas, id: int)
    ensures ShowsNames(areas, id, NamesOf(Resolve(areas, id)))
  {
    var h := Resolve(areas, id);
    ResolveShows(areas, id);
    assert Shows(areas, id, Hierarchy(h.rmaName, h.rmaSubType, h.psoAreaId, h.psoName, h.rfccName, h.eaAreaName));
  }

  /** At most three queries for any number of areas, and the same names that each single walk would find. */
  method ResolveAreaHierarchiesBulk(areas: Areas, areaIds: set<int>) returns (result: map<int, HierarchyNames>)
    ensures forall id :: id in result <==> id in areaIds && id >= 1 && id in areas
    ensures forall id | id in areaIds ::
              (if id in result then result[id] else NO_NAMES) == NamesOf(Resolve(areas, id))
    ensures forall id | id in result :: ShowsNames(areas, id, result[id])
  {
    result := map[];
    if areaIds == {} {
      return;
    }
    var rmas := FindMany(areas, areaIds);
    var psoIds := UniqueParentIds(rmas);
    var psoMap := if |psoIds| > 0 then FindMany(areas, psoIds) else map[];
    var eaIds := UniqueParentIds(psoMap);
    var eaMap := if |eaIds| > 0 then FindMany(areas, eaIds) else map[];
    var left := rmas.Keys;
    while left != {}
      invariant left <= rmas.Keys
      invariant forall id :: id in result <==> id >= 1 && id in rmas && id !in left
      invariant forall id | id in result :: result[id] == NamesOf(Resolve(areas, id))
      decreases left
    {
      var rma :| rma in left;
      BulkEntryAgrees(areas, rmas, psoMap, eaMap, rma);
      result := result[rma := BuildHierarchyEntry(rmas[rma], psoMap, eaMap)];
      left := left - {rma};
    }
    forall id | id in result
      ensures ShowsNames(areas, id, result[id])
    {
      NamesShown(areas, id);
    }
  }

  lemma BulkEntryAgrees(areas: Areas, rmas: Areas, psoMap: Areas, eaMap: Areas, rma: AreaId)
    requires rma in rmas && (forall id | id in rmas :: id in areas && rmas[id] == areas[id])
    requires psoMap == FindMany(areas, UniqueParentIds(rmas))
    requires eaMap == FindMany(areas, UniqueParentIds(psoMap))
    ensures BuildHierarchyEntry(rmas[rma], psoMap, eaMap) == NamesOf(Resolve(areas, rma))
  {
  }

  // ---------- The join ----------

  /** A row of one of the tables that belong to something: owner is its project_id or funding_value_id. */
  datatype Row = Row(id: int, owner: int, content: string)

  datatype AreaProject = AreaProject(project: int, area: Option<int>)

  datatype ProjectState = ProjectState(project: int, state: Option<string>)

  datatype Data = Data(projects: seq<int>, fundingValues: seq<Row>, flood: seq<Row>, flood2040: seq<Row>,
                       coastal: seq<Row>, nfmMeasures: seq<Row>, nfmLandUse: seq<Row>,
                       states: seq<ProjectState>, areaProjects: seq<AreaProject>, contributors: seq<Row>)

  datatype Presented = Presented(project: int, fundingValues: seq<Row>, flood: seq<Row>, flood2040: seq<Row>,
                                 coastal: seq<Row>, nfmMeasures: seq<Row>, nfmLandUse: seq<Row>,
                                 state: Option<string>, names: HierarchyNames, contributors: seq<Row>)

  const ByOwner: Row -> int := (r: Row) => r.owner

  function Owned(rows: seq<Row>, owner: int): seq<Row> {
    Matching(rows, ByOwner, owner)
  }

  /** The rows owned by each of a list of owners, one owner after the other. */
  function OwnedByAll(rows: seq<Row>, owners: seq<int>): seq<Row> {
    if owners == [] then [] else OwnedByAll(rows, owners[..|owners| - 1]) + Owned(rows, owners[|owners| - 1])
  }

  function IdsOf(rows: seq<Row>): seq<int> {
    seq(|rows|, i requires 0 <= i < |rows| => rows[i].id)
  }

  /** new Map(pairs): of several pairs with the same key the last one counts. */
  function LastState(states: seq<ProjectState>, project: int): Option<string> {
    if states == [] then None
    else if states[|states| - 1].project == project then states[|states| - 1].state
    else LastState(states[..|states| - 1], project)
  }

  function LastArea(rows: seq<AreaProject>, project: int): Option<int> {
    if rows == [] then None
    else if rows[|rows| - 1].project == project then rows[|rows| - 1].area
    else LastArea(rows[..|rows| - 1], project)
  }

  lemma {:induction false} LastStateIs(states: seq<ProjectState>, i: nat)
    requires i < |states| && forall j :: i < j < |states| ==> states[j].project != states[i].project
    ensures LastState(states, states[i].project) == states[i].state
  {
    if i < |states| - 1 {
      LastStateIs(states[..|states| - 1], i);
    }
  }

  lemma {:induction false} LastAreaIs(rows: seq<AreaProject>, i: nat)
    requires i < |rows| && forall j :: i < j < |rows| ==> rows[j].project != rows[i].project
    ensures LastArea(rows, rows[i].project) == rows[i].area
  {
    if i < |rows| - 1 {
      LastAreaIs(rows[..|rows| - 1], i);
    }
  }

  /** A project without a row has no state and no area. */
  lemma {:induction false} NothingLast(states: seq<ProjectState>, rows: seq<AreaProject>, project: int)
    ensures (forall i :: 0 <= i < |states| ==> states[i].project != project) ==> LastState(states, project) == None
    ensures (forall i :: 0 <= i < |rows| ==> rows[i].project != project) ==> LastArea(rows, project) == None
  {
    if states != [] {
      NothingLast(states[..|states| - 1], rows, project);
    } else if rows != [] {
      NothingLast(states, rows[..|rows| - 1], project);
    }
  }

  /** One project, joined by scanning every table, with its area walked up on its own. */
  function Joined(data: Data, areas: Areas, project: int): Presented {
    Presented(project, Owned(data.fundingValues, project), Owned(data.flood, project), Owned(data.flood2040, project),
              Owned(data.coastal, project), Owned(data.nfmMeasures, project), Owned(data.nfmLandUse, project),
              LastState(data.states, project), NamesOf(Resolve(areas, LastArea(data.areaProjects, project).GetOr(0))),
              OwnedByAll(data.contributors, IdsOf(Owned(data.fundingValues, project))))
  }

  /** A project with its rows of each table, in their order, and the names that belong to its area. */
  ghost predicate IsJoined(p: Presented, data: Data, areas: Areas, project: int) {
    && p.project == project && p.state == LastState(data.states, project)
    && p.fundingValues == Owned(data.fundingValues, project) && p.flood == Owned(data.flood, project)
    && p.flood2040 == Owned(data.flood2040, project) && p.coastal == Owned(data.coastal, project)
    && p.nfmMeasures == Owned(data.nfmMeasures, project) && p.nfmLandUse == Owned(data.nfmLandUse, project)
    && p.contributors == OwnedByAll(data.contributors, IdsOf(p.fundingValues))
    && ShowsNames(areas, LastArea(data.areaProjects, project).GetOr(0), p.names)
  }

  lemma JoinedIsJoined(data: Data, areas: Areas, project: int)
    ensures IsJoined(Joined(data, areas, project), data, areas, project)
  {
    NamesShown(areas, LastArea(data.areaProjects, project).GetOr(0));
  }

  datatype LookupMaps = LookupMaps(fv: JsMap<int, seq<Row>>, flood: JsMap<int, seq<Row>>, flood2040: JsMap<int, seq<Row>>,
                                   coastal: JsMap<int, seq<Row>>, nfmMeasures: JsMap<int, seq<Row>>,
                                   nfmLandUse: JsMap<int, seq<Row>>, state: map<int, Option<string>>,
                                   area: map<int, Option<int>>, contributors: JsMap<int, seq<Row>>)

  ghost predicate Groups(groups: JsMap<int, seq<Row>>, rows: seq<Row>) {
    forall owner :: groups.Get(owner).GetOr([]) == Owned(rows, owner)
  }

  ghost predicate Indexes(maps: LookupMaps, data: Data) {
    && Groups(maps.fv, data.fundingValues) && Groups(maps.flood, data.flood) && Groups(maps.flood2040, data.flood2040)
    && Groups(maps.coastal, data.coastal) && Groups(maps.nfmMeasures, data.nfmMeasures)
    && Groups(maps.nfmLandUse, data.nfmLandUse) && Groups(maps.contributors, data.contributors)
    && (forall p :: (if p in maps.state then maps.state[p] else None) == LastState(data.states, p))
    && (forall p :: (if p in maps.area then maps.area[p] else None) == LastArea(data.areaProjects, p))
  }

  method IndexStates(states: seq<ProjectState>) returns (m: map<int, Option<string>>)
    ensures forall p :: (if p in m then m[p] else None) == LastState(states, p)
  {
    m := map[];
    var i := 0;
    while i < |states|
      invariant 0 <= i <= |states|
      invariant forall p :: (if p in m then m[p] else None) == LastState(states[..i], p)
    {
      assert states[..i + 1][..i] == states[..i];
      m := m[states[i].project := states[i].state];
      i := i + 1;
    }
    assert states[..i] == states;
  }

  method IndexAreas(rows: seq<AreaProject>) returns (m: map<int, Option<int>>)
    ensures forall p :: (if p in m then m[p] else None) == LastArea(rows, p)
  {
    m := map[];
    var i := 0;
    while i < |rows|
      invariant 0 <= i <= |rows|
      invariant forall p :: (if p in m then m[p] else None) == LastArea(rows[..i], p)
    {
      assert rows[..i + 1][..i] == rows[..i];
      m := m[rows[i].project := rows[i].area];
      i := i + 1;
    }
    assert rows[..i] == rows;
  }

  method BuildProjectLookupMaps(data: Data) returns (maps: LookupMaps)
    ensures Indexes(maps, data)
  {
    var fv := GroupBy(data.fundingValues, ByOwner);
    var flood := GroupBy(data.flood, ByOwner);
    var flood2040 := GroupBy(data.flood2040, ByOwner);
    var coastal := GroupBy(data.coastal, ByOwner);
    var nfmMeasures := GroupBy(data.nfmMeasures, ByOwner);
    var nfmLandUse := GroupBy(data.nfmLandUse, ByOwner);
    var contributors := GroupBy(data.contributors, ByOwner);
    var state := IndexStates(data.states);
    var area := IndexAreas(data.areaProjects);
    maps := LookupMaps(fv, flood, flood2040, coastal, nfmMeasures, nfmLandUse, state, area, contributors);
  }

  /** flatMap of a project's funding values through the contributor groups. */
  method ContributorsOf(groups: JsMap<int, seq<Row>>, fvs: seq<Row>, ghost contributors: seq<Row>) returns (r: seq<Row>)
    requires Groups(groups, contributors)
    ensures r == OwnedByAll(contributors, IdsOf(fvs))
  {
    r := [];
    var i := 0;
    while i < |fvs|
      invariant 0 <= i <= |fvs|
      invariant r == OwnedByAll(contributors, IdsOf(fvs)[..i])
    {
      assert IdsOf(fvs)[..i + 1][..i] == IdsOf(fvs)[..i];
      r := r + groups.Get(fvs[i].id).GetOr([]);
      i := i + 1;
    }
    assert IdsOf(fvs)[..i] == IdsOf(fvs);
  }

  /** The loaded projects are the same, in the same order, as when each is joined on its own. */
  method LoadProjectsForFcerm1(data: Data, areas: Areas) returns (presenters: seq<Presented>)
    ensures |presenters| == |data.projects|
    ensures forall i :: 0 <= i < |data.projects| ==> presenters[i] == Joined(data, areas, data.projects[i])
    ensures forall i :: 0 <= i < |data.projects| ==> IsJoined(presenters[i], data, areas, data.projects[i])
  {
    var maps := BuildProjectLookupMaps(data);
    var areaIds := set p | p in maps.area && maps.area[p].GetOr(0) != 0 :: maps.area[p].GetOr(0);
    var hierarchyByArea := ResolveAreaHierarchiesBulk(areas, areaIds);
    presenters := [];
    for i := 0 to |data.projects|
      invariant |presenters| == i
      invariant forall j :: 0 <= j < i ==> presenters[j] == Joined(data, areas, data.projects[j])
    {
      var pid := data.projects[i];
      var fvs := maps.fv.Get(pid).GetOr([]);
      var contributors := ContributorsOf(maps.contributors, fvs, data.contributors);
      var areaId := if pid in maps.area then maps.area[pid].GetOr(0) else 0;
      assert areaId == LastArea(data.areaProjects, pid).GetOr(0);
      assert areaId != 0 ==> areaId in areaIds;
      var names := if areaId in hierarchyByArea then hierarchyByArea[areaId] else NO_NAMES;
      assert names == NamesOf(Resolve(areas, areaId));
      presenters := presenters + [
        Presented(pid, fvs, maps.flood.Get(pid).GetOr([]), maps.flood2040.Get(pid).GetOr([]),
                  maps.coastal.Get(pid).GetOr([]), maps.nfmMeasures.Get(pid).GetOr([]),
                  maps.nfmLandUse.Get(pid).GetOr([]), if pid in maps.state then maps.state[pid] else None,
                  names, contributors)];
    }
    forall i | 0 <= i < |data.projects|
      ensures IsJoined(presenters[i], data, areas, data.projects[i])
    {
      JoinedIsJoined(data, areas, data.projects[i]);
    }
  }

  // ---------- Nothing lost, nothing twice ----------

  predicate AllOwnedBy(rows: seq<Row>, owners: seq<int>) {
    forall i :: 0 <= i < |rows| ==> rows[i].owner in owners
  }

  lemma LastOwner(rows: seq<Row>, owners: seq<int>)
    requires owners != []
    ensures multiset(OwnedByAll(rows, owners)) ==
            multiset(OwnedByAll(rows, owners[..|owners| - 1])) + multiset(Owned(rows, owners[|owners| - 1]))
  {
  }

  lemma OwnedGrows(rows: seq<Row>, row: Row, owner: int)
    ensures multiset(Owned(rows + [row], owner)) ==
            multiset(Owned(rows, owner)) + (if row.owner == owner then multiset{row} else multiset{})
  {
    assert (rows + [row])[..|rows|] == rows;
  }

  /** One more row shows up once if one of the owners has it, and not at all otherwise. */
  lemma {:induction false} OneMoreRow(rows: seq<Row>, row: Row, owners: seq<int>)
    requires Distinct(owners)
    ensures multiset(OwnedByAll(rows + [row], owners)) ==
            multiset(OwnedByAll(rows, owners)) + (if row.owner in owners then multiset{row} else multiset{})
  {
    if owners != [] {
      var last := |owners| - 1;
      OneMoreRow(rows, row, owners[..last]);
      OwnedGrows(rows, row, owners[last]);
      LastOwner(rows, owners);
      LastOwner(rows + [row], owners);
      assert row.owner in owners <==> row.owner in owners[..last] || row.owner == owners[last];
    }
  }

  lemma {:induction false} NoRows(owners: seq<int>)
    ensures OwnedByAll([], owners) == []
  {
    if owners != [] {
      NoRows(owners[..|owners| - 1]);
    }
  }

  /** Grouping by distinct owners is a partition of the rows. */
  lemma {:induction false} GroupingIsPartition(rows: seq<Row>, owners: seq<int>)
    requires Distinct(owners) && AllOwnedBy(rows, owners)
    ensures multiset(OwnedByAll(rows, owners)) == multiset(rows)
  {
    if rows == [] {
      NoRows(owners);
    } else {
      var last := |rows| - 1;
      assert rows == rows[..last] + [rows[last]];
      GroupingIsPartition(rows[..last], owners);
      OneMoreRow(rows[..last], rows[last], owners);
    }
  }

  lemma {:induction false} OwnedByAllAppend(rows: seq<Row>, a: seq<int>, b: seq<int>)
    ensures OwnedByAll(rows, a + b) == OwnedByAll(rows, a) + OwnedByAll(rows, b)
  {
    if b == [] {
      assert a + b == a;
    } else {
      assert (a + b)[..|a + b| - 1] == a + b[..|b| - 1];
      assert (a + b)[|a + b| - 1] == b[|b| - 1];
      OwnedByAllAppend(rows, a, b[..|b| - 1]);
    }
  }

  /** The contributors of all loaded projects, one project after the other. */
  function AllContributors(data: Data, projects: seq<int>): seq<Row> {
    if projects == [] then []
    else
      AllContributors(data, projects[..|projects| - 1]) +
      OwnedByAll(data.contributors, IdsOf(Owned(data.fundingValues, projects[|projects| - 1])))
  }

  lemma {:induction false} FlattenTwice(data: Data, projects: seq<int>)
    ensures AllContributors(data, projects) ==
            OwnedByAll(data.contributors, IdsOf(OwnedByAll(data.fundingValues, projects)))
  {
    if projects != [] {
      var rest := projects[..|projects| - 1];
      var own := Owned(data.fundingValues, projects[|projects| - 1]);
      FlattenTwice(data, rest);
      var before := OwnedByAll(data.fundingValues, rest);
      assert IdsOf(before + own) == IdsOf(before) + IdsOf(own);
      OwnedByAllAppend(data.contributors, IdsOf(before), IdsOf(own));
    }
  }

  lemma {:induction false} IdsOfMultiset(rows: seq<Row>, id: int)
    ensures id in IdsOf(rows) <==> exists r :: r in multiset(rows) && r.id == id
  {
    if id in IdsOf(rows) {
      var i :| 0 <= i < |rows| && rows[i].id == id;
      assert rows[i] in multiset(rows);
    }
    if r :| r in multiset(rows) && r.id == id {
      var i :| 0 <= i < |rows| && rows[i] == r;
      assert IdsOf(rows)[i] == id;
    }
  }

  /** Distinct ids, said of a table rather than of a sequence. */
  ghost predicate Identified(rows: multiset<Row>) {
    && (forall r | r in rows :: rows[r] == 1)
    && (forall r, r' | r in rows && r' in rows :: r.id == r'.id ==> r == r')
  }

  lemma SplitAt(rows: seq<Row>, i: nat)
    requires i < |rows|
    ensures multiset(rows) == multiset(rows[..i]) + multiset{rows[i]} + multiset(rows[i + 1..])
  {
    assert rows == rows[..i] + [rows[i]] + rows[i + 1..];
  }

  lemma IdentifiedBefore(rows: seq<Row>)
    requires Distinct(IdsOf(rows))
    ensures Identified(multiset(rows))
  {
    forall r | r in multiset(rows)
      ensures multiset(rows)[r] == 1
    {
      var i :| 0 <= i < |rows| && rows[i] == r;
      SplitAt(rows, i);
      forall j | 0 <= j < |rows| && j != i
        ensures rows[j] != r
      {
        assert IdsOf(rows)[j] != IdsOf(rows)[i];
      }
      assert r !in rows[..i] && r !in rows[i + 1..];
    }
    forall r, r' | r in multiset(rows) && r' in multiset(rows) && r.id == r'.id
      ensures r == r'
    {
      var i :| 0 <= i < |rows| && rows[i] == r;
      var j :| 0 <= j < |rows| && rows[j] == r';
      assert IdsOf(rows)[i] == IdsOf(rows)[j];
    }
  }

  lemma IdentifiedAfter(rows: seq<Row>)
    requires Identified(multiset(rows))
    ensures Distinct(IdsOf(rows))
  {
    forall i, j | 0 <= i < j < |rows|
      ensures IdsOf(rows)[i] != IdsOf(rows)[j]
    {
      SplitAt(rows, i);
      assert rows[j] in multiset(rows) && rows[i] in multiset(rows);
      assert rows[j] == rows[i + 1..][j - i - 1];
      assert rows[j] in multiset(rows[i + 1..]);
    }
  }

  /**
   * When the fetched rows belong to the fetched projects, the projects of a download together show every
   * contributor exactly once.
   */
  lemma EveryContributorShownOnce(data: Data)
    requires Distinct(data.projects) && Distinct(IdsOf(data.fundingValues))
    requires AllOwnedBy(data.fundingValues, data.projects)
    requires AllOwnedBy(data.contributors, IdsOf(data.fundingValues))
    ensures multiset(AllContributors(data, data.projects)) == multiset(data.contributors)
  {
    var fvs := OwnedByAll(data.fundingValues, data.projects);
    GroupingIsPartition(data.fundingValues, data.projects);
    IdentifiedBefore(data.fundingValues);
    IdentifiedAfter(fvs);
    forall i | 0 <= i < |data.contributors|
      ensures data.contributors[i].owner in IdsOf(fvs)
    {
      IdsOfMultiset(data.fundingValues, data.contributors[i].owner);
      IdsOfMultiset(fvs, data.contributors[i].owner);
    }
    GroupingIsPartition(data.contributors, IdsOf(fvs));
    FlattenTwice(data, data.projects);
  }
}

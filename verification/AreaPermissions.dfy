/**
 * Who may see which project: the downward listing of areas (src/plugins/areas/helpers/user-areas.js,
 * getDescendantRmaAreaIds of src/plugins/areas/services/area-service.js) and the upward check of one project
 * (src/plugins/projects/helpers/project-permissions.js and project-download-permissions.js).
 */
module AreaPermissions {
  import opened Wrappers
  import opened AreaHierarchy
  import Decimal

  datatype UserArea = UserArea(areaId: AreaId, primary: bool, areaType: Option<string>)

  datatype Credentials = Credentials(areas: seq<UserArea>, isAdmin: bool) {

    /** getAreaTypeFlags: the type of the first primary area. */
    function PrimaryType(): Option<string> {
      FirstPrimaryType(areas)
    }

    ghost function Held(): set<AreaId> {
      set i | 0 <= i < |areas| :: areas[i].areaId
    }
  }

  function FirstPrimaryType(areas: seq<UserArea>): Option<string> {
    if areas == [] then None
    else if areas[0].primary then areas[0].areaType
    else FirstPrimaryType(areas[1..])
  }

  /** The areas the user holds that were assigned with this type. */
  ghost predicate HoldsAs(credentials: Credentials, id: int, areaType: string) {
    exists i :: 0 <= i < |credentials.areas| && credentials.areas[i].areaId == id && credentials.areas[i].areaType == Some(areaType)
  }

  ghost predicate Holds(credentials: Credentials, id: int) {
    exists i :: 0 <= i < |credentials.areas| && credentials.areas[i].areaId == id
  }

  ghost predicate IsFirstPrimary(areas: seq<UserArea>, i: int) {
    0 <= i < |areas| && areas[i].primary && forall j :: 0 <= j < i ==> !areas[j].primary
  }

  lemma {:induction false} FirstPrimary(areas: seq<UserArea>, i: nat)
    requires IsFirstPrimary(areas, i)
    ensures FirstPrimaryType(areas) == areas[i].areaType
  {
    if i > 0 {
      FirstPrimary(areas[1..], i - 1);
    }
  }

  lemma {:induction false} NoPrimary(areas: seq<UserArea>)
    requires forall i :: 0 <= i < |areas| ==> !areas[i].primary
    ensures FirstPrimaryType(areas) == None
  {
    if areas != [] {
      NoPrimary(areas[1..]);
    }
  }

  lemma {:induction false} SomePrimary(areas: seq<UserArea>) returns (i: int)
    ensures IsFirstPrimary(areas, i) || (i == |areas| && forall j :: 0 <= j < |areas| ==> !areas[j].primary)
  {
    if areas == [] || areas[0].primary {
      i := 0;
    } else {
      i := SomePrimary(areas[1..]);
      i := i + 1;
    }
  }

  // ---------- Downwards ----------

  function ExtractAreaIds(areas: seq<UserArea>, areaType: string): set<AreaId> {
    set i | 0 <= i < |areas| && areas[i].areaType == Some(areaType) :: areas[i].areaId
  }

  /** isPsoArea: the legacy label PSO counts too. */
  predicate IsPsoLabel(areaType: string) {
    Upper(areaType) == "PSO" || Upper(areaType) == Upper(PSO)
  }

  predicate IsChildOf(area: Area, parents: set<AreaId>) {
    area.parent.Some? && area.parent.value >= 1 && area.parent.value in parents
  }

  /** findMany by parent ids and exact type. */
  function ChildrenOfType(areas: Areas, parents: set<AreaId>, areaType: string): set<AreaId> {
    set id | id in areas && areas[id].areaType == Some(areaType) && IsChildOf(areas[id], parents)
  }

  function DescendantRmaAreaIds(areas: Areas, parents: set<AreaId>, parentType: string): set<AreaId> {
    if parents == {} then {}
    else if IsPsoLabel(parentType) then ChildrenOfType(areas, parents, RMA)
    else if Upper(parentType) == Upper(EA) then ChildrenOfType(areas, ChildrenOfType(areas, parents, PSO), RMA)
    else {}
  }

  datatype Accessible = Unrestricted | Only(ids: set<AreaId>)

  function ResolveUserAreaIds(areas: Areas, credentials: Credentials): Accessible {
    var primary := credentials.PrimaryType();
    if credentials.isAdmin then Unrestricted
    else if primary == Some(RMA) then Only(ExtractAreaIds(credentials.areas, RMA))
    else if primary == Some(PSO) then
      Only(DescendantRmaAreaIds(areas, ExtractAreaIds(credentials.areas, PSO), PSO))
    else if primary == Some(EA) then
      Only(DescendantRmaAreaIds(areas, ExtractAreaIds(credentials.areas, EA), EA))
    else Only({})
  }

  predicate Listed(areas: Areas, credentials: Credentials, id: AreaId) {
    var accessible := ResolveUserAreaIds(areas, credentials);
    accessible.Unrestricted? || id in accessible.ids
  }

  /** What an RMA user, a PSO user and an EA user see listed. */
  ghost predicate InReach(areas: Areas, credentials: Credentials, id: int, areaType: string) {
    if areaType == "RMA" then HoldsAs(credentials, id, "RMA")
    else if areaType == "PSO Area" then
      HasArea(areas, id) && areas[id].areaType == Some("RMA") && areas[id].parent.Some? &&
      HoldsAs(credentials, areas[id].parent.value, "PSO Area")
    else
      areaType == "EA Area" && HasArea(areas, id) && areas[id].areaType == Some("RMA") &&
      exists p :: IsParent(areas, id, p) && areas[p].areaType == Some("PSO Area") && areas[p].parent.Some? &&
                  HoldsAs(credentials, areas[p].parent.value, "EA Area")
  }

  /** The listing by the user's first primary area, on the rows of the table and of the user. */
  lemma ListedExactly(areas: Areas, credentials: Credentials, id: AreaId)
    ensures Listed(areas, credentials, id) <==>
            || credentials.isAdmin
            || exists i, t :: IsFirstPrimary(credentials.areas, i) && credentials.areas[i].areaType == Some(t) &&
                              InReach(areas, credentials, id, t)
  {
    var k := SomePrimary(credentials.areas);
    if IsFirstPrimary(credentials.areas, k) {
      FirstPrimary(credentials.areas, k);
      if credentials.areas[k].areaType.Some? {
        var t := credentials.areas[k].areaType.value;
        if t in [RMA, PSO, EA] {
          ReachExactly(areas, credentials, id, t);
        }
      }
    } else {
      NoPrimary(credentials.areas);
    }
  }

  /** The legacy label, in any case, lists what the label of today lists; any other label lists nothing. */
  lemma LegacyLabel(areas: Areas, parents: set<AreaId>, areaType: string)
    ensures Upper(areaType) == "PSO" ==> DescendantRmaAreaIds(areas, parents, areaType) == DescendantRmaAreaIds(areas, parents, PSO)
    ensures Upper(areaType) !in ["PSO", "PSO AREA", "EA AREA"] ==> DescendantRmaAreaIds(areas, parents, areaType) == {}
  {
    Labels();
    UpperLabels();
  }

  function Reach(areas: Areas, credentials: Credentials, areaType: string): set<AreaId> {
    if areaType == RMA then ExtractAreaIds(credentials.areas, RMA)
    else DescendantRmaAreaIds(areas, ExtractAreaIds(credentials.areas, areaType), areaType)
  }

  lemma ReachExactly(areas: Areas, credentials: Credentials, id: AreaId, areaType: string)
    requires areaType in [RMA, PSO, EA]
    ensures id in Reach(areas, credentials, areaType) <==> InReach(areas, credentials, id, areaType)
  {
    Labels();
    UpperLabels();
    forall x: AreaId, t: string
      ensures x in ExtractAreaIds(credentials.areas, t) <==> HoldsAs(credentials, x, t)
    {
    }
  }

  // ---------- Upwards ----------

  /** hasAccessToArea compares ids as text. */
  predicate HasAccessToArea(userAreas: seq<UserArea>, target: AreaId) {
    exists i :: 0 <= i < |userAreas| && Decimal.ToString(userAreas[i].areaId) == Decimal.ToString(target)
  }

  lemma AccessIsHolding(credentials: Credentials, target: AreaId)
    ensures HasAccessToArea(credentials.areas, target) <==> target in credentials.Held()
  {
    var areas := credentials.areas;
    if HasAccessToArea(areas, target) {
      var i :| 0 <= i < |areas| && Decimal.ToString(areas[i].areaId) == Decimal.ToString(target);
      Decimal.ToStringInjective(areas[i].areaId, target);
      assert areas[i].areaId in credentials.Held();
    }
  }

  predicate HasAccessToParent(userAreas: seq<UserArea>, parent: Option<AreaId>) {
    parent.Some? && HasAccessToArea(userAreas, parent.value)
  }

  predicate CanUpdateProject(credentials: Credentials, details: Option<AreaWithParents>) {
    credentials.isAdmin ||
    (details.Some? &&
     (HasAccessToArea(credentials.areas, details.value.id) || HasAccessToParent(credentials.areas, details.value.pso)))
  }

  /** validateDownloadPermissions once the project's area has been looked up. */
  predicate MayDownload(credentials: Credentials, details: Option<AreaWithParents>) {
    || credentials.isAdmin
    || CanUpdateProject(credentials, details)
    || (details.Some? && HasAccessToParent(credentials.areas, details.value.ea))
  }

  ghost predicate HoldsOneOf(credentials: Credentials, details: AreaWithParents) {
    || details.id in credentials.Held()
    || (details.pso.Some? && details.pso.value in credentials.Held())
    || (details.ea.Some? && details.ea.value in credentials.Held())
  }

  lemma DownloadMeansHolding(credentials: Credentials, details: AreaWithParents)
    requires !credentials.isAdmin
    ensures MayDownload(credentials, Some(details)) <==> HoldsOneOf(credentials, details)
  {
    AccessIsHolding(credentials, details.id);
    if details.pso.Some? { AccessIsHolding(credentials, details.pso.value); }
    if details.ea.Some? { AccessIsHolding(credentials, details.ea.value); }
  }

  function LazyDetails(areas: Areas, id: AreaId): Option<AreaWithParents> {
    if id in areas then Some(WithParents(areas, id)) else None
  }

  function PreWarmedDetails(areas: Areas, id: AreaId): Option<AreaWithParents> {
    if id in areas then Some(PreWarmedParents(areas, id)) else None
  }

  /** Whoever may download after the lazy lookup may also download after a pre-warm, never the reverse. */
  lemma PreWarmOnlyWidens(areas: Areas, credentials: Credentials, id: AreaId)
    requires MayDownload(credentials, LazyDetails(areas, id))
    ensures MayDownload(credentials, PreWarmedDetails(areas, id))
  {
    if !credentials.isAdmin {
      DownloadMeansHolding(credentials, WithParents(areas, id));
      DownloadMeansHolding(credentials, PreWarmedParents(areas, id));
    }
  }

  /** An update asks for the area itself or its PSO: the nearest one up by type, or after a pre-warm the parent. */
  lemma UpdateExactly(areas: Areas, credentials: Credentials, id: AreaId)
    ensures CanUpdateProject(credentials, LazyDetails(areas, id)) <==>
            || credentials.isAdmin
            || (id in areas && Holds(credentials, id))
            || exists x: AreaId :: IsNearest(areas, id, "PSO AREA", x) && Holds(credentials, x)
    ensures CanUpdateProject(credentials, PreWarmedDetails(areas, id)) <==>
            || credentials.isAdmin
            || (id in areas && Holds(credentials, id))
            || exists x: AreaId :: IsParent(areas, id, x) && Holds(credentials, x)
  {
    forall x: AreaId
      ensures HasAccessToArea(credentials.areas, x) <==> Holds(credentials, x)
    {
      AccessIsHolding(credentials, x);
    }
    if id in areas {
      ParentsPlaced(areas, id);
      var lazy, preWarmed := WithParents(areas, id), PreWarmedParents(areas, id);
      assert lazy.pso.Some? ==> IsNearest(areas, id, "PSO AREA", lazy.pso.value);
      assert preWarmed.pso.Some? ==> IsParent(areas, id, preWarmed.pso.value);
    }
  }

  /** A download may also be had through the EA area: the nearest by type, or after a pre-warm the grandparent. */
  lemma DownloadExactly(areas: Areas, credentials: Credentials, id: AreaId)
    ensures MayDownload(credentials, LazyDetails(areas, id)) <==>
            || CanUpdateProject(credentials, LazyDetails(areas, id))
            || exists x: AreaId :: IsNearest(areas, id, "EA AREA", x) && Holds(credentials, x)
    ensures MayDownload(credentials, PreWarmedDetails(areas, id)) <==>
            || CanUpdateProject(credentials, PreWarmedDetails(areas, id))
            || exists x: AreaId :: IsGrandparent(areas, id, x) && Holds(credentials, x)
  {
    forall x: AreaId
      ensures HasAccessToArea(credentials.areas, x) <==> Holds(credentials, x)
    {
      AccessIsHolding(credentials, x);
    }
    if id in areas {
      ParentsPlaced(areas, id);
      var lazy, preWarmed := WithParents(areas, id), PreWarmedParents(areas, id);
      assert lazy.ea.Some? ==> IsNearest(areas, id, "EA AREA", lazy.ea.value);
      assert preWarmed.ea.Some? ==> IsGrandparent(areas, id, preWarmed.ea.value);
    }
  }

  /** In a typed table whoever holds no more than the EA area of a project may download it and not update it. */
  lemma EaMayOnlyDownload(areas: Areas, credentials: Credentials, id: AreaId, ea: AreaId)
    requires TypedHierarchy(areas) && id in areas && areas[id].areaType == Some("RMA")
    requires !credentials.isAdmin && IsGrandparent(areas, id, ea) && Holds(credentials, ea)
    requires forall x: AreaId | Holds(credentials, x) :: x == ea
    ensures MayDownload(credentials, LazyDetails(areas, id)) && !CanUpdateProject(credentials, LazyDetails(areas, id))
  {
    UpdateExactly(areas, credentials, id);
    DownloadExactly(areas, credentials, id);
    SlotsOfTyped(areas, id);
    LineOf(areas, id);
    ParentsPlaced(areas, id);
    UpperLabels();
    assert areas[ea].areaType == Some(EA);
    assert ReferencesFit(areas, areas[id]);
  }

  // ---------- Listed areas and downloads ----------

  predicate Typed(areas: Areas, id: Option<AreaId>, areaType: string)
    requires id.Some? ==> id.value in areas
  {
    id.Some? && IsType(areas[id.value], areaType)
  }

  /** The parent's own type makes the lazy lookup find it, unless the grandparent takes its place and is not held. */
  ghost predicate ParentFound(areas: Areas, credentials: Credentials, p: AreaId, areaType: string)
    requires p in areas
  {
    var g := ParentOf(areas, Some(p));
    Typed(areas, Some(p), areaType) && (Typed(areas, g, areaType) ==> g.value in credentials.Held())
  }

  /** The grandparent is found as a PSO or an EA area. */
  ghost predicate GrandparentFound(areas: Areas, p: AreaId)
    requires p in areas
  {
    var g := ParentOf(areas, Some(p));
    Typed(areas, g, PSO) || Typed(areas, g, EA)
  }

  /**
   * Whether the project of a listed area can be downloaded, for any area table. A listed area is the RMA
   * user's own, the child of a held area for a PSO user, the grandchild of one for an EA user; so after a pre-warm
   * only that row has to be there still, while the lazy lookup also has to find it under its type.
   */
  lemma ListedIsDownloadableExactly(areas: Areas, credentials: Credentials, id: AreaId)
    requires !credentials.isAdmin && Listed(areas, credentials, id)
    ensures var held, primary := credentials.Held(), credentials.PrimaryType();
            var p := if id in areas then ParentOf(areas, Some(id)) else None;
            var g := if p.Some? then ParentOf(areas, p) else None;
            var lazy, preWarmed := MayDownload(credentials, LazyDetails(areas, id)), MayDownload(credentials, PreWarmedDetails(areas, id));
            && (primary == Some(RMA) ==> (lazy <==> id in areas) && (preWarmed <==> id in areas))
            && (primary == Some(PSO) ==>
                  && (preWarmed <==> id in held || p.Some?)
                  && (lazy <==> id in held || (p.Some? &&
                                               (ParentFound(areas, credentials, p.value, PSO) ||
                                                ParentFound(areas, credentials, p.value, EA) ||
                                                (GrandparentFound(areas, p.value) && g.value in held)))))
            && (primary == Some(EA) ==>
                  && p.Some?
                  && (preWarmed <==> id in held || p.value in held || g.Some?)
                  && (lazy <==> id in held || p.value in held || GrandparentFound(areas, p.value)))
            && primary in {Some(RMA), Some(PSO), Some(EA)}
  {
    ListedBecause(areas, credentials, id);
    if id in areas {
      DownloadMeansHolding(credentials, WithParents(areas, id));
      DownloadMeansHolding(credentials, PreWarmedParents(areas, id));
      var p := ParentOf(areas, Some(id));
      var g := ParentOf(areas, p);
      if p.Some? { OneType(areas[p.value]); }
      if g.Some? { OneType(areas[g.value]); }
    }
  }

  /** What being listed says about the table, by the type of the user's first primary area. */
  lemma ListedBecause(areas: Areas, credentials: Credentials, id: AreaId)
    requires !credentials.isAdmin && Listed(areas, credentials, id)
    ensures credentials.PrimaryType() == Some(RMA) ==> id in credentials.Held()
    ensures credentials.PrimaryType() == Some(PSO) ==> id in areas && IsChildOf(areas[id], credentials.Held())
    ensures credentials.PrimaryType() == Some(EA) ==>
              var p := if id in areas then ParentOf(areas, Some(id)) else None;
              p.Some? && areas[p.value].areaType == Some(PSO) && IsChildOf(areas[p.value], credentials.Held())
    ensures credentials.PrimaryType() in {Some(RMA), Some(PSO), Some(EA)}
  {
    Labels();
    var held := credentials.Held();
    assert ExtractAreaIds(credentials.areas, RMA) <= held;
    assert ExtractAreaIds(credentials.areas, PSO) <= held;
    assert ExtractAreaIds(credentials.areas, EA) <= held;
  }

  lemma Labels()
    ensures IsPsoLabel(PSO) && !IsPsoLabel(EA)
  {
  }

  /**
   * So over any table the two directions do not agree: with a parent of the wrong type the listed area is
   * refused after a lazy lookup and allowed after a pre-warm, and with the parent gone it is refused both ways.
   */
  lemma DualityFailsOnUntypedTables() returns (areas: Areas, credentials: Credentials)
    ensures Listed(areas, credentials, 1) && Listed(areas - {2}, credentials, 1)
    ensures !MayDownload(credentials, LazyDetails(areas, 1)) && MayDownload(credentials, PreWarmedDetails(areas, 1))
    ensures !MayDownload(credentials, LazyDetails(areas - {2}, 1))
    ensures !MayDownload(credentials, PreWarmedDetails(areas - {2}, 1))
  {
    Labels();
    assert |Upper(RMA)| == 3 && |Upper(PSO)| == 8 && |Upper(EA)| == 7;
    areas := map[1 := Area(Some("Taunton"), Some(2), Some(RMA), None), 2 := Area(Some("Somerset"), None, Some(RMA), None)];
    credentials := Credentials([UserArea(2, true, Some(PSO))], false);
    assert credentials.areas[0].areaId in ExtractAreaIds(credentials.areas, PSO);
    assert 2 in credentials.Held() && 1 !in credentials.Held();
    ListedIsDownloadableExactly(areas, credentials, 1);
    ListedIsDownloadableExactly(areas - {2}, credentials, 1);
  }

  // ---------- Tables as upsertArea makes them ----------

  /** The type a parent must have, for the types that have one. */
  function ParentTypeFor(areaType: Option<string>): Option<string> {
    if areaType == Some(RMA) then Some(PSO) else if areaType == Some(PSO) then Some(EA) else None
  }

  /** What _validateAreaReferences checks of one area against the table. */
  predicate ReferencesFit(areas: Areas, area: Area) {
    ParentTypeFor(area.areaType).Some? && area.parent.GetOr(0) != 0 ==>
      Find(areas, area.parent).Some? && areas[Find(areas, area.parent).value].areaType == ParentTypeFor(area.areaType)
  }

  ghost predicate TypedHierarchy(areas: Areas) {
    forall id | id in areas :: ReferencesFit(areas, areas[id])
  }

  /** upsertArea: create or replace one row, after validating its own parent. */
  function UpsertArea(areas: Areas, id: AreaId, area: Area): Result<Areas, ()> {
    if ReferencesFit(areas, area) then Success(areas[id := area]) else Failure(())
  }

  /** The parent of an RMA has to be a PSO area there is, that of a PSO area an EA area. */
  lemma UpsertExactly(areas: Areas, id: AreaId, area: Area)
    ensures UpsertArea(areas, id, area) == Success(areas[id := area]) || UpsertArea(areas, id, area) == Failure(())
    ensures UpsertArea(areas, id, area).Success? <==>
            area.parent in {None, Some(0)} ||
            (forall t | (area.areaType, t) in {(Some("RMA"), "PSO Area"), (Some("PSO Area"), "EA Area")} ::
               HasArea(areas, area.parent.value) && areas[area.parent.value].areaType == Some(t))
  {
    UpperLabels();
    assert Upper(RMA) != Upper(PSO);
  }

  /**
   * Creating an area keeps the hierarchy typed. Replacing one does if and only if no area that is its
   * child afterwards needs a parent of another type: upsertArea does not look at the children.
   */
  lemma UpsertKeepsTypedExactlyWhen(areas: Areas, id: AreaId, area: Area)
    requires TypedHierarchy(areas) && UpsertArea(areas, id, area).Success?
    ensures var areas' := UpsertArea(areas, id, area).value;
            TypedHierarchy(areas') <==>
            forall c | c in areas' && areas'[c].parent == Some(id as int) ::
              ParentTypeFor(areas'[c].areaType) in {None, area.areaType}
    ensures id !in areas && area.parent != Some(id as int) ==> TypedHierarchy(UpsertArea(areas, id, area).value)
  {
    var areas' := areas[id := area];
    forall c | c in areas'
      ensures areas'[c].parent != Some(id as int) ==> ReferencesFit(areas', areas'[c])
      ensures areas'[c].parent == Some(id as int) ==>
                (ReferencesFit(areas', areas'[c]) <==> ParentTypeFor(areas'[c].areaType) in {None, area.areaType})
    {
      if c != id {
        assert ReferencesFit(areas, areas[c]);
      }
    }
    if id !in areas && area.parent != Some(id as int) {
      forall c | c in areas'
        ensures ReferencesFit(areas', areas'[c])
      {
        if c != id {
          assert ReferencesFit(areas, areas[c]);
        }
      }
    }
  }

  /** An accepted replacement: the PSO area between an EA area and an RMA becomes an authority. */
  lemma ReplacementBreaksTyped() returns (areas: Areas, area: Area)
    ensures TypedHierarchy(areas) && 2 in areas && UpsertArea(areas, 2, area).Success?
    ensures !TypedHierarchy(UpsertArea(areas, 2, area).value)
  {
    areas := map[1 := Area(Some("Wessex"), None, Some(EA), None), 2 := Area(Some("Somerset"), Some(1), Some(PSO), Some("WX")),
                 3 := Area(Some("Taunton"), Some(2), Some(RMA), Some("T1"))];
    area := Area(Some("Bath"), None, Some("Authority"), None);
    assert |EA| == 7 && |PSO| == 8 && |RMA| == 3 && |"Authority"| == 9;
    assert !ReferencesFit(areas[2 := area], areas[2 := area][3]);
  }

  /** A type that the listing matches exactly is one the upward lookup recognises. */
  lemma SlotsOfTyped(areas: Areas, id: AreaId)
    requires TypedHierarchy(areas) && id in areas && areas[id].areaType == Some(RMA)
    ensures WithParents(areas, id) == PreWarmedParents(areas, id)
    ensures ParentOf(areas, Some(id)).Some? ==> areas[ParentOf(areas, Some(id)).value].areaType == Some(PSO)
    ensures var g := ParentOf(areas, ParentOf(areas, Some(id)));
            g.Some? ==> areas[g.value].areaType == Some(EA)
  {
  }

  /**
   * In a typed table, every area a user sees listed is one whose project the user may download, whichever
   * way the parents were looked up.
   */
  lemma UpDownDuality(areas: Areas, credentials: Credentials, id: AreaId)
    requires TypedHierarchy(areas) && id in areas && Listed(areas, credentials, id)
    ensures MayDownload(credentials, LazyDetails(areas, id)) && MayDownload(credentials, PreWarmedDetails(areas, id))
  {
    if !credentials.isAdmin {
      ListedBecause(areas, credentials, id);
      DownloadMeansHolding(credentials, WithParents(areas, id));
      if credentials.PrimaryType() != Some(RMA) {
        ListedTypeIsRma(areas, credentials, id);
        SlotsOfTyped(areas, id);
        var p := ParentOf(areas, Some(id));
        assert ReferencesFit(areas, areas[id]);
        assert ReferencesFit(areas, areas[p.value]);
      }
      PreWarmOnlyWidens(areas, credentials, id);
    }
  }

  lemma ListedTypeIsRma(areas: Areas, credentials: Credentials, id: AreaId)
    requires !credentials.isAdmin && Listed(areas, credentials, id) && credentials.PrimaryType() != Some(RMA)
    ensures id in areas && areas[id].areaType == Some(RMA)
  {
  }

  /** All of a user's areas are of the type of the first primary one, as the table has it. */
  ghost predicate OfOneType(areas: Areas, credentials: Credentials) {
    && credentials.PrimaryType() in {Some(RMA), Some(PSO), Some(EA)}
    && forall i | 0 <= i < |credentials.areas| ::
         && credentials.areas[i].areaType == credentials.PrimaryType()
         && credentials.areas[i].areaId in areas
         && areas[credentials.areas[i].areaId].areaType == credentials.PrimaryType()
  }

  /** For users with areas of one type the two directions define the same access to RMA areas. */
  lemma ListedIffDownloadable(areas: Areas, credentials: Credentials, id: AreaId)
    requires TypedHierarchy(areas) && !credentials.isAdmin && OfOneType(areas, credentials)
    requires id in areas && areas[id].areaType == Some(RMA)
    ensures Listed(areas, credentials, id) <==> MayDownload(credentials, LazyDetails(areas, id))
    ensures Listed(areas, credentials, id) <==> MayDownload(credentials, PreWarmedDetails(areas, id))
  {
    SlotsOfTyped(areas, id);
    if Listed(areas, credentials, id) {
      UpDownDuality(areas, credentials, id);
    } else if MayDownload(credentials, LazyDetails(areas, id)) {
      DownloadMeansHolding(credentials, WithParents(areas, id));
      DownloadableIsListed(areas, credentials, id);
    }
  }

  lemma DownloadableIsListed(areas: Areas, credentials: Credentials, id: AreaId)
    requires TypedHierarchy(areas) && !credentials.isAdmin && OfOneType(areas, credentials)
    requires id in areas && areas[id].areaType == Some(RMA)
    requires HoldsOneOf(credentials, PreWarmedParents(areas, id))
    ensures Listed(areas, credentials, id)
  {
    Labels();
    SlotsOfTyped(areas, id);
    var primary := credentials.PrimaryType();
    var held := credentials.Held();
    var p := ParentOf(areas, Some(id));
    var g := ParentOf(areas, p);
    forall h | h in held
      ensures areas[h].areaType == primary && h in ExtractAreaIds(credentials.areas, primary.value)
    {
      var i :| 0 <= i < |credentials.areas| && credentials.areas[i].areaId == h;
    }
    var owned := ExtractAreaIds(credentials.areas, primary.value);
    if id in held {
      assert primary == Some(RMA);
    } else if p.Some? && p.value in held {
      assert primary == Some(PSO);
      assert id in ChildrenOfType(areas, owned, RMA);
    } else {
      assert primary == Some(EA) && g.value in owned;
      assert p.value in ChildrenOfType(areas, owned, PSO);
    }
  }

  // ---------- The check with its cache ----------

  /** Every reading still in use was of this table. */
  ghost predicate FreshEnough(readings: seq<Reading>, areas: Areas, now: nat) {
    forall i | 0 <= i < |readings| && now <= readings[i].time + 3_600_000 :: readings[i].areas == areas
  }

  ghost predicate ListedAndTyped(areas: Areas, credentials: Credentials, id: int) {
    id >= 1 && id in areas && TypedHierarchy(areas) && Listed(areas, credentials, id)
  }

  lemma DetailsAreRows(readings: seq<Reading>, areas: Areas, id: int, r: AreaWithParents, now: nat)
    requires FreshEnough(readings, areas, now)
    requires (HasArea(areas, id) && PlacedByType(areas, id, r)) || RecentlyDescribed(readings, ByAreaWithParents(id), Parents(r), now)
    ensures HasArea(areas, id) && (r == WithParents(areas, id) || r == PreWarmedParents(areas, id))
  {
    ParentsPlaced(areas, id);
    if PlacedByType(areas, id, r) {
      PlacedIsOne(r, WithParents(areas, id));
    } else {
      PlacedIsOne(r, PreWarmedParents(areas, id));
    }
  }

  lemma PlacedIsOne(a: AreaWithParents, b: AreaWithParents)
    requires a.id == b.id && forall x: AreaId :: (a.pso == Some(x) <==> b.pso == Some(x)) && (a.ea == Some(x) <==> b.ea == Some(x))
    ensures a == b
  {
    assert a.pso.Some? ==> b.pso == Some(a.pso.value);
    assert a.ea.Some? ==> b.ea == Some(a.ea.value);
    assert b.pso.Some? ==> a.pso == Some(b.pso.value);
    assert b.ea.Some? ==> a.ea == Some(b.ea.value);
  }

  method ValidateDownloadPermissions(cache: HierarchyCache, areas: Areas, credentials: Credentials,
                                     projectArea: Option<int>, now: nat)
    returns (allowed: bool)
    requires cache.Valid()
    modifies cache
    ensures cache.Valid()
    ensures credentials.isAdmin ==> allowed
    ensures allowed && !credentials.isAdmin ==> projectArea.GetOr(0) != 0 && credentials.areas != []
    ensures projectArea.Some? && projectArea.value >= 1 && FreshEnough(cache.readings, areas, now) ==>
              || allowed == MayDownload(credentials, LazyDetails(areas, projectArea.value))
              || allowed == MayDownload(credentials, PreWarmedDetails(areas, projectArea.value))
    ensures projectArea.Some? && ListedAndTyped(areas, credentials, projectArea.value) ==>
              (FreshEnough(cache.readings, areas, now) ==> allowed)
  {
    if credentials.isAdmin {
      return true;
    }
    allowed := false;
    if projectArea.GetOr(0) != 0 {
      var details := cache.GetAreaByIdWithParents(areas, projectArea.value, now);
      allowed := CanUpdateProject(credentials, details) ||
                 (details.Some? && HasAccessToParent(credentials.areas, details.value.ea));
      ghost var id := projectArea.value;
      if details.Some? && FreshEnough(cache.readings, areas, now) {
        DetailsAreRows(cache.readings, areas, id, details.value, now);
      }
      if ListedAndTyped(areas, credentials, id) {
        UpDownDuality(areas, credentials, id);
      }
    }
  }
}

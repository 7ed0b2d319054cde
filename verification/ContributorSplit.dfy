/**
 * The renames and deletes of a clean-up that has read the names first, with the creation of the placeholder rows
 * falling anywhere among them (src/plugins/projects/upsert-project/upsert-project.js:173-191).
 */
module ContributorSplit {
  import opened Wrappers
  import opened JsMaps
  import opened FundingTables
  import opened ContributorCleanup
  import opened ContributorNames
  import opened ContributorRace

  /** The table once the current names have been placed in these rows. */
  function WithPlaced(m: Contributors, e: Edit, current: seq<string>, placing: set<RowId>): Contributors {
    WithPlaceholders(m, Placed(placing, e.kind, current))
  }

  /** A rename that bears on a row in which the new name is placed. */
  ghost predicate Hits(m: Contributors, e: Edit, placing: set<RowId>, i: nat) {
    i < |e.removed| && i < |e.added| && exists id :: id in e.ids && id in placing && Key(id, e.kind, e.removed[i]) in m
  }

  /** The changes that go through: all those before the placing, and those after it that do not hit. */
  ghost function GoingThrough(m: Contributors, e: Edit, placing: set<RowId>, before: seq<nat>, after: seq<nat>): set<nat> {
    Members(before) + set i | i in after && !Hits(m, e, placing, i)
  }

  /** The statements in some order; one that is refused changes nothing and does not stop the others. */
  function RunSkipping(m: Contributors, e: Edit, order: seq<nat>): Contributors
    requires Below(order, |e.removed|)
  {
    if order == [] then m
    else
      var m1 := RunSkipping(m, e, order[..|order| - 1]);
      Changed(m1, e, order[|order| - 1]).GetOr(m1)
  }

  // ---------- One statement after the placing ----------

  lemma RenamePlaces(m: Contributors, e: Edit, current: seq<string>, placing: set<RowId>, from: string, to: string)
    requires from !in current && from != to
    requires forall id | id in e.ids && Key(id, e.kind, from) in m :: id !in placing
    ensures Renamed(WithPlaced(m, e, current, placing), e.ids, e.kind, from, to) ==
            WithPlaced(Renamed(m, e.ids, e.kind, from, to), e, current, placing)
  {
    var a := Renamed(WithPlaced(m, e, current, placing), e.ids, e.kind, from, to);
    var b := WithPlaced(Renamed(m, e.ids, e.kind, from, to), e, current, placing);
    forall key: Key
      ensures key in a <==> key in b
      ensures key in a ==> a[key] == b[key]
    {
      var source := Key(key.row, e.kind, from);
      RenamedAt(WithPlaced(m, e, current, placing), e, from, to, key);
      RenamedAt(m, e, from, to, key);
      PlacedAt(m, e, current, placing, source);
      PlacedAt(m, e, current, placing, key);
      PlacedAt(Renamed(m, e.ids, e.kind, from, to), e, current, placing, key);
    }
  }

  lemma RenamedAt(m: Contributors, e: Edit, from: string, to: string, key: Key)
    requires from != to
    ensures var r, source := Renamed(m, e.ids, e.kind, from, to), Key(key.row, e.kind, from);
            var moved := key.row in e.ids && key.kind == e.kind && key.name == to && source in m;
            var stays := key in m && !Renames(e.ids, e.kind, from, key);
            (key in r <==> moved || stays) && (key in r ==> r[key] == if moved then m[source] else m[key])
  {
  }

  lemma PlacedAt(m: Contributors, e: Edit, current: seq<string>, placing: set<RowId>, key: Key)
    ensures var r := WithPlaced(m, e, current, placing);
            var placed := key.row in placing && key.kind == e.kind && key.name in current;
            (key in r <==> key in m || placed) && (key in r ==> r[key] == if key in m then m[key] else PLACEHOLDER)
  {
  }

  lemma DeletePlaces(m: Contributors, e: Edit, current: seq<string>, placing: set<RowId>, name: string)
    requires name !in current
    ensures WithoutNamed(WithPlaced(m, e, current, placing), e.ids, e.kind, name) ==
            WithPlaced(WithoutNamed(m, e.ids, e.kind, name), e, current, placing)
  {
    var a := WithoutNamed(WithPlaced(m, e, current, placing), e.ids, e.kind, name);
    var b := WithPlaced(WithoutNamed(m, e.ids, e.kind, name), e, current, placing);
    forall key: Key
      ensures key in a <==> key in b
      ensures key in a ==> a[key] == b[key]
    {
      PlacedAt(m, e, current, placing, key);
      PlacedAt(WithoutNamed(m, e.ids, e.kind, name), e, current, placing, key);
    }
  }

  /** After the placing a change is refused exactly when it hits, and else does what it would have done before. */
  lemma ChangeAfterPlacing(m0: Contributors, m: Contributors, e: Edit, current: seq<string>, placing: set<RowId>,
                           done: set<nat>, i: nat)
    requires IsEditOf(e, m0, current) && Cleaned(m0, m, e, done) && i < |e.removed| && i !in done
    ensures Changed(m, e, i).Some?
    ensures Changed(WithPlaced(m, e, current, placing), e, i) ==
            if Hits(m0, e, placing, i) then None else Some(WithPlaced(Changed(m, e, i).value, e, current, placing))
  {
    ChangeCleans(m0, m, e, current, done, i);
    assert e.removed[i] in e.removed;
    if i < |e.added| {
      assert e.added[i] in e.added;
      CollisionExactly(m0, m, e, current, placing, done, i);
      if !Hits(m0, e, placing, i) {
        forall id | id in e.ids && Key(id, e.kind, e.removed[i]) in m
          ensures id !in placing
        {
          NamesUntouched(m0, m, e, current, done, i, id);
        }
        RenamePlaces(m, e, current, placing, e.removed[i], e.added[i]);
      }
    } else {
      DeletePlaces(m, e, current, placing, e.removed[i]);
    }
  }

  lemma CollisionExactly(m0: Contributors, m: Contributors, e: Edit, current: seq<string>, placing: set<RowId>,
                         done: set<nat>, i: nat)
    requires IsEditOf(e, m0, current) && Cleaned(m0, m, e, done)
    requires i < |e.removed| && i < |e.added| && i !in done && e.removed[i] in e.removed && e.added[i] in e.added
    ensures Collides(WithPlaced(m, e, current, placing), e.ids, e.kind, e.removed[i], e.added[i]) <==> Hits(m0, e, placing, i)
  {
    forall id | id in e.ids
      ensures var p := WithPlaced(m, e, current, placing);
              Key(id, e.kind, e.removed[i]) in p && Key(id, e.kind, e.added[i]) in p <==>
              id in placing && Key(id, e.kind, e.removed[i]) in m0
    {
      NamesUntouched(m0, m, e, current, done, i, id);
      PlacedAt(m, e, current, placing, Key(id, e.kind, e.removed[i]));
      PlacedAt(m, e, current, placing, Key(id, e.kind, e.added[i]));
    }
  }

  // ---------- All of them ----------

  /** Some changes come before the placing and the others after it, each part in some order. */
  ghost predicate Parts(e: Edit, before: seq<nat>, after: seq<nat>) {
    && Distinct(before) && Distinct(after) && Below(before, |e.removed|) && Below(after, |e.removed|)
    && forall i | i in after :: i !in before
  }

  /**
   * Whichever changes come before the placing and whichever after, in any order: the table is what the
   * changes that were not refused make of the old one, with the current names placed in it.
   */
  lemma {:induction false} SplitOutcome(m: Contributors, e: Edit, current: seq<string>, placing: set<RowId>,
                                        before: seq<nat>, after: seq<nat>) returns (clean: Contributors)
    requires IsEditOf(e, m, current) && Parts(e, before, after)
    ensures RunChanges(m, e, before).Some? && Cleaned(m, clean, e, GoingThrough(m, e, placing, before, after))
    ensures RunSkipping(WithPlaced(RunChanges(m, e, before).value, e, current, placing), e, after) ==
            WithPlaced(clean, e, current, placing)
    decreases |after|
  {
    ChangesCommute(m, e, current, before);
    if after == [] {
      clean := RunChanges(m, e, before).value;
      assert GoingThrough(m, e, placing, before, []) == Members(before);
    } else {
      var rest, i := after[..|after| - 1], after[|after| - 1];
      LastIsNew(after);
      PartsRest(e, before, after);
      var clean0 := SplitOutcome(m, e, current, placing, before, rest);
      GoingThroughLast(m, e, placing, before, after);
      clean := SplitStep(m, clean0, e, current, placing, GoingThrough(m, e, placing, before, rest), i);
    }
  }

  lemma SplitStep(m: Contributors, clean0: Contributors, e: Edit, current: seq<string>, placing: set<RowId>, done: set<nat>, i: nat)
    returns (clean: Contributors)
    requires IsEditOf(e, m, current) && Cleaned(m, clean0, e, done) && i < |e.removed| && i !in done
    ensures Cleaned(m, clean, e, done + (if Hits(m, e, placing, i) then {} else {i}))
    ensures var p := WithPlaced(clean0, e, current, placing);
            Changed(p, e, i).GetOr(p) == WithPlaced(clean, e, current, placing)
  {
    ChangeAfterPlacing(m, clean0, e, current, placing, done, i);
    if Hits(m, e, placing, i) {
      clean := clean0;
      assert done + {} == done;
    } else {
      ChangeCleans(m, clean0, e, current, done, i);
      clean := Changed(clean0, e, i).value;
    }
  }

  lemma PartsRest(e: Edit, before: seq<nat>, after: seq<nat>)
    requires Parts(e, before, after) && after != []
    ensures Parts(e, before, after[..|after| - 1])
  {
    var rest := after[..|after| - 1];
    assert forall i | i in rest :: i in after;
  }

  lemma GoingThroughLast(m: Contributors, e: Edit, placing: set<RowId>, before: seq<nat>, after: seq<nat>)
    requires Parts(e, before, after) && after != []
    ensures var rest, i := after[..|after| - 1], after[|after| - 1];
            && i !in GoingThrough(m, e, placing, before, rest)
            && GoingThrough(m, e, placing, before, after) ==
               GoingThrough(m, e, placing, before, rest) + (if Hits(m, e, placing, i) then {} else {i})
  {
    var rest, i := after[..|after| - 1], after[|after| - 1];
    LastIsNew(after);
    assert after == rest + [i];
    assert forall k :: k in after <==> k in rest || k == i;
    assert i !in rest by { assert i in rest ==> i in Members(rest); }
  }

  /** It is the table of a clean-up that ended before the placing if and only if no change after the placing hits. */
  lemma SplitIsCleanExactly(m: Contributors, e: Edit, current: seq<string>, placing: set<RowId>, before: seq<nat>, after: seq<nat>)
    requires IsEditOf(e, m, current) && Parts(e, before, after)
    requires forall i :: 0 <= i < |e.removed| ==> i in before || i in after
    ensures Below(InOrder(|e.removed|), |e.removed|)
    ensures RunChanges(m, e, before).Some? && RunChanges(m, e, InOrder(|e.removed|)).Some?
    ensures RunSkipping(WithPlaced(RunChanges(m, e, before).value, e, current, placing), e, after) ==
            WithPlaced(RunChanges(m, e, InOrder(|e.removed|)).value, e, current, placing) <==>
            forall i | i in after :: !Hits(m, e, placing, i)
  {
    var all := InOrder(|e.removed|);
    InOrderComplete(|e.removed|);
    ChangesCommute(m, e, current, all);
    var cleanedUp := RunChanges(m, e, all).value;
    var clean := SplitOutcome(m, e, current, placing, before, after);
    if i :| i in after && Hits(m, e, placing, i) {
      HitStays(m, e, current, placing, before, after, i, clean, cleanedUp);
    } else {
      assert Members(all) == GoingThrough(m, e, placing, before, after) by {
        assert forall i :: i in Members(all) <==> 0 <= i < |e.removed|;
      }
      CleanedUnique(m, clean, cleanedUp, e, Members(all));
    }
  }

  /** A row that a refused rename was to move keeps its old name, which a clean-up would have left nowhere. */
  lemma HitStays(m: Contributors, e: Edit, current: seq<string>, placing: set<RowId>, before: seq<nat>, after: seq<nat>, i: nat,
                 clean: Contributors, cleanedUp: Contributors)
    requires IsEditOf(e, m, current) && Parts(e, before, after) && i in after && Hits(m, e, placing, i)
    requires Cleaned(m, clean, e, GoingThrough(m, e, placing, before, after))
    requires Complete(InOrder(|e.removed|), |e.removed|) && Cleaned(m, cleanedUp, e, Members(InOrder(|e.removed|)))
    ensures WithPlaced(clean, e, current, placing) != WithPlaced(cleanedUp, e, current, placing)
  {
    var id :| id in e.ids && id in placing && Key(id, e.kind, e.removed[i]) in m;
    var key, done := Key(id, e.kind, e.removed[i]), GoingThrough(m, e, placing, before, after);
    assert i !in done;
    NamesUntouched(m, clean, e, current, done, i, id);
    IndexOfDistinct(e.removed, i);
    assert i in InOrder(|e.removed|) && e.removed[i] in e.removed;
    CleanedAt(m, cleanedUp, e, Members(InOrder(|e.removed|)), key);
    PlacedAt(clean, e, current, placing, key);
    PlacedAt(cleanedUp, e, current, placing, key);
  }

  // ---------- When the two steps are safe side by side ----------

  /** Every split of the changes around the placing leaves the table of a clean-up that ended before it. */
  ghost predicate EverySplitIsClean(s: Save, e: Edit)
    requires s.Valid() && s.Edits(e, s.ledger)
  {
    forall before, after | Parts(e, before, after) && Covered(e, before, after) :: SplitIsClean(s, e, before, after)
  }

  ghost predicate Covered(e: Edit, before: seq<nat>, after: seq<nat>) {
    forall i :: 0 <= i < |e.removed| ==> i in before || i in after
  }

  ghost predicate SplitIsClean(s: Save, e: Edit, before: seq<nat>, after: seq<nat>)
    requires s.Valid() && s.Edits(e, s.ledger) && Parts(e, before, after)
  {
    var m := s.ledger.contributors;
    RunChanges(m, e, before).Some? &&
    RunSkipping(WithPlaced(RunChanges(m, e, before).value, e, s.current, s.Placing()), e, after) ==
    s.Ensure(CleanedUp(s.ledger, e).value).contributors
  }

  lemma CleanTable(s: Save, e: Edit)
    requires s.Valid() && s.Edits(e, s.ledger)
    ensures RunChanges(s.ledger.contributors, e, InOrder(|e.removed|)).Some?
    ensures s.Ensure(CleanedUp(s.ledger, e).value).contributors ==
            WithPlaced(RunChanges(s.ledger.contributors, e, InOrder(|e.removed|)).value, e, s.current, s.Placing())
  {
    SameValues(s.ledger, CleanedUp(s.ledger, e).value, s.project, s.years);
  }

  /** One split: whether it is clean is whether a later change hits a row of a listed year. */
  lemma SplitAgainstSave(s: Save, e: Edit, before: seq<nat>, after: seq<nat>)
    requires s.Valid() && s.Edits(e, s.ledger) && Parts(e, before, after) && Covered(e, before, after)
    ensures SplitIsClean(s, e, before, after) <==> forall i | i in after :: !Hits(s.ledger.contributors, e, s.Placing(), i)
  {
    CleanTable(s, e);
    SplitIsCleanExactly(s.ledger.contributors, e, s.current, s.Placing(), before, after);
  }

  /** All the changes after the placing, in the order of issue, are a split. */
  lemma AllAfter(e: Edit)
    ensures Parts(e, [], InOrder(|e.removed|)) && Covered(e, [], InOrder(|e.removed|))
  {
    InOrderComplete(|e.removed|);
  }

  /** No row is renamed in which the ensure step places the new name: exactly then every split is clean. */
  lemma EverySplitExactly(s: Save, e: Edit)
    requires s.Valid() && s.Edits(e, s.ledger)
    ensures EverySplitIsClean(s, e) <==> forall i: nat, id: RowId | IsRenamed(s, e, i, id) :: id !in s.Placing()
  {
    var m := s.ledger.contributors;
    if i: nat, id: RowId :| IsRenamed(s, e, i, id) && id in s.Placing() {
      AllAfter(e);
      SplitAgainstSave(s, e, [], InOrder(|e.removed|));
      InOrderComplete(|e.removed|);
      assert i in InOrder(|e.removed|) && Hits(m, e, s.Placing(), i);
      assert !SplitIsClean(s, e, [], InOrder(|e.removed|));
    } else {
      forall before, after | Parts(e, before, after) && Covered(e, before, after)
        ensures SplitIsClean(s, e, before, after)
      {
        forall i | i in after
          ensures !Hits(m, e, s.Placing(), i)
        {
          assert Hits(m, e, s.Placing(), i) ==> exists id: RowId :: IsRenamed(s, e, i, id) && id in s.Placing();
        }
        SplitAgainstSave(s, e, before, after);
      }
    }
  }

  /** Some row is renamed as soon as the list loses a name and gains one. */
  lemma RenamesExactly(s: Save, e: Edit)
    requires s.Valid() && s.Edits(e, s.ledger)
    ensures (exists i: nat, id: RowId :: IsRenamed(s, e, i, id)) <==> e.removed != [] && e.added != []
  {
    if e.removed != [] && e.added != [] {
      assert e.removed[0] in e.removed;
      assert e.removed[0] in NamesIn(s.ledger.contributors, e.ids, e.kind);
      var key :| key in s.ledger.contributors && key.row in e.ids && key.kind == e.kind && key.name == e.removed[0];
      assert IsRenamed(s, e, 0, key.row);
    }
  }

  /**
   * The clean-up and the ensure step are safe side by side - the whole orders agree, and so does every split of
   * the changes - if and only if there are no years, or the list loses no name, or it gains none.
   */
  lemma SafeInParallelExactly(s: Save, e: Edit, e2: Edit)
    requires s.Valid() && s.Edits(e, s.ledger) && s.Edits(e2, s.Ensure(s.ledger))
    requires s.Ensure(s.ledger) == s.ledger ==> e2 == e
    ensures s.Ensure(CleanedUp(s.ledger, e).value) == CleanedUp(s.Ensure(s.ledger), e2).value && EverySplitIsClean(s, e) <==>
            s.years == [] || e.removed == [] || e.added == []
  {
    OrderMattersExactlyWhen(s, e, e2);
    EverySplitExactly(s, e);
    RenamesExactly(s, e);
    if s.years == [] {
      assert s.Placing() == {};
    } else if i: nat, id: RowId :| IsRenamed(s, e, i, id) {
      assert Expendable(s, e, i, id) ==> id in s.Placing();
    }
  }
}

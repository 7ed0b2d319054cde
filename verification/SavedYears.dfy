/**
 * What a saved year of estimated spend holds, read off the submitted row: every amount column, the
 * total, whether the year has a row at all, and each contributor
 * (src/plugins/projects/helpers/funding-sources-normalizers.js:172-391).
 */
module SavedYears {
  import opened Wrappers
  import opened FundingTables
  import opened YearSave
  import YearInterleaving
  import Decimal

  /** The contributors that came with a row. */
  function ListOf(row: Row, kind: Kind): seq<Entry> {
    match kind
    case PublicContributions => row.public.GetOr([])
    case PrivateContributions => row.private.GetOr([])
    case OtherEaContributions => row.otherEa.GetOr([])
  }

  function Given(t: Text): int {
    if t == None || t.value == "" then 0 else Decimal.Value(t.value)
  }

  function Together(entries: seq<Entry>): int {
    if entries == [] then 0 else Given(entries[0].amount) + Together(entries[1..])
  }

  /** An entered amount stands; a blank contribution is the sum of its contributors, if it has any. */
  function ExpectedColumn(row: Row, c: nat): Option<int>
    requires row.Valid() && c < 14
  {
    if row.fields[c] != None && row.fields[c] != Some("") then Some(Decimal.Value(row.fields[c].value))
    else if c == 3 && ListOf(row, PublicContributions) != [] then Some(Together(ListOf(row, PublicContributions)))
    else if c == 4 && ListOf(row, PrivateContributions) != [] then Some(Together(ListOf(row, PrivateContributions)))
    else if c == 5 && ListOf(row, OtherEaContributions) != [] then Some(Together(ListOf(row, OtherEaContributions)))
    else None
  }

  /** A column that keeps the year: an amount entered as anything but "0", or contributors with a sum. */
  predicate Keeps(row: Row, c: nat)
    requires row.Valid() && c < 14
  {
    if row.fields[c] != None && row.fields[c] != Some("") then row.fields[c] != Some("0")
    else ExpectedColumn(row, c) != None && ExpectedColumn(row, c) != Some(0)
  }

  ghost predicate IsKept(row: Row)
    requires row.Valid()
  {
    exists c :: 0 <= c < 14 && Keeps(row, c)
  }

  /** The fourteen amounts, added up. */
  function SumOf(columns: seq<Option<int>>): int
    requires |columns| == 14
  {
    columns[0].GetOr(0) + columns[1].GetOr(0) + columns[2].GetOr(0) + columns[3].GetOr(0) + columns[4].GetOr(0) +
    columns[5].GetOr(0) + columns[6].GetOr(0) + columns[7].GetOr(0) + columns[8].GetOr(0) + columns[9].GetOr(0) +
    columns[10].GetOr(0) + columns[11].GetOr(0) + columns[12].GetOr(0) + columns[13].GetOr(0)
  }

  /** An entry that gives the contributor of this name an amount. */
  predicate Gives(e: Entry, name: string) {
    e.name == name && name != "" && e.amount != None && e.amount != Some("") && e.amount != Some("0")
  }

  ghost predicate IsGiven(entries: seq<Entry>, name: string) {
    exists i :: 0 <= i < |entries| && Gives(entries[i], name)
  }

  ghost predicate GivesAmount(entries: seq<Entry>, i: int, name: string, amount: int) {
    0 <= i < |entries| && Gives(entries[i], name) && Decimal.Value(entries[i].amount.value) == amount
  }

  /** What the last entry gives that gives this contributor an amount. */
  function LastGiven(entries: seq<Entry>, name: string): Option<int> {
    if entries == [] then None
    else
      var last := entries[|entries| - 1];
      if Gives(last, name) then Some(Decimal.Value(last.amount.value)) else LastGiven(entries[..|entries| - 1], name)
  }

  /** Some entry gives this contributor this amount. */
  ghost predicate GivenOnce(entries: seq<Entry>, name: string, amount: int) {
    exists i :: GivesAmount(entries, i, name, amount)
  }

  // ---------- The columns and the total ----------

  lemma {:induction false} TogetherIs(entries: seq<Entry>)
    ensures SumEntries(entries) == Together(entries)
  {
    if entries != [] {
      TogetherIs(entries[..|entries| - 1]);
      TogetherSplits(entries[..|entries| - 1], entries[|entries| - 1]);
      assert entries == entries[..|entries| - 1] + [entries[|entries| - 1]];
    }
  }

  lemma {:induction false} TogetherSplits(entries: seq<Entry>, last: Entry)
    ensures Together(entries + [last]) == Together(entries) + Given(last.amount)
  {
    if entries == [] {
      assert Together([last][1..]) == 0;
    } else {
      TogetherSplits(entries[1..], last);
      assert (entries + [last])[1..] == entries[1..] + [last];
    }
  }

  lemma ZeroIsItsDigit(n: nat)
    ensures Decimal.ToString(n) == "0" <==> n == 0
    ensures Decimal.Value("0") == 0
  {
    assert Decimal.ToString(0) == "0";
    Decimal.ValueOfToString(0);
    Decimal.ValueOfToString(n);
  }

  /** Merging looks at one contribution column at a time. */
  lemma MergedAt(row: Row, c: nat)
    requires row.Valid() && c < 14
    ensures Merged(row)[c] ==
            if c == 3 then MergedField(row, row.fields, PublicContributions)[c]
            else if c == 4 then MergedField(row, row.fields, PrivateContributions)[c]
            else if c == 5 then MergedField(row, row.fields, OtherEaContributions)[c]
            else row.fields[c]
  {
  }

  lemma MergedExactly(row: Row, kind: Kind, c: nat)
    requires row.Valid() && c == kind.Column()
    ensures var merged := MergedField(row, row.fields, kind)[c];
            && NullableNumber(merged) == ExpectedColumn(row, c)
            && (Keeps(row, c) <==> !Blank(merged) && merged.value != "0")
  {
    var sum := SumEntries(ListOf(row, kind));
    TogetherIs(ListOf(row, kind));
    Decimal.ValueOfToString(sum);
    ZeroIsItsDigit(sum);
  }

  /** What one column of the merged fields holds. */
  lemma ColumnExactly(row: Row, c: nat)
    requires row.Valid() && c < 14
    ensures NullableNumber(Merged(row)[c]) == ExpectedColumn(row, c)
    ensures Keeps(row, c) <==> !Blank(Merged(row)[c]) && Merged(row)[c].value != "0"
  {
    MergedAt(row, c);
    if 3 <= c <= 5 {
      MergedExactly(row, if c == 3 then PublicContributions else if c == 4 then PrivateContributions else OtherEaContributions, c);
    }
  }

  lemma SumOfColumns(columns: seq<Option<int>>)
    requires |columns| == 14
    ensures SumColumns(columns) == SumOf(columns)
  {
    forall i | 0 <= i < 14
      ensures SumColumns(columns[i..]) == columns[i].GetOr(0) + SumColumns(columns[i + 1..])
    {
      assert columns[i..][1..] == columns[i + 1..];
    }
    assert columns[0..] == columns && columns[14..] == [];
  }

  // ---------- The contributors ----------

  /** An entry is wanted exactly when it gives its contributor an amount. */
  lemma {:induction false} WantedExactly(kind: Kind, entries: seq<Entry>, w: Wanted)
    ensures w in WantedOf(kind, entries) <==> w.kind == kind && GivenOnce(entries, w.name, w.amount)
  {
    if entries != [] {
      var prefix, last := entries[..|entries| - 1], entries[|entries| - 1];
      WantedExactly(kind, prefix, w);
      if GivenOnce(prefix, w.name, w.amount) {
        var i :| GivesAmount(prefix, i, w.name, w.amount);
        assert GivesAmount(entries, i, w.name, w.amount);
      }
      if w.kind == kind && GivenOnce(entries, w.name, w.amount) {
        var i :| GivesAmount(entries, i, w.name, w.amount);
        assert i == |prefix| || GivesAmount(prefix, i, w.name, w.amount);
      }
      assert IsStored(last) && w == Wanted(kind, last.name, Number(last.amount)) ==>
          GivesAmount(entries, |prefix|, w.name, w.amount);
    }
  }

  lemma AllWantedExactly(row: Row, w: Wanted)
    ensures w in AllWanted(row) <==> GivenOnce(ListOf(row, w.kind), w.name, w.amount)
  {
    WantedExactly(PublicContributions, row.Entries(PublicContributions), w);
    WantedExactly(PrivateContributions, row.Entries(PrivateContributions), w);
    WantedExactly(OtherEaContributions, row.Entries(OtherEaContributions), w);
  }

  /** The names that are kept. */
  lemma NamesExactly(row: Row, kind: Kind, name: string)
    ensures (kind, name) in Names(AllWanted(row)) <==> IsGiven(ListOf(row, kind), name)
  {
    if (kind, name) in Names(AllWanted(row)) {
      var w :| w in AllWanted(row) && w.kind == kind && w.name == name;
      AllWantedExactly(row, w);
    }
    if IsGiven(ListOf(row, kind), name) {
      var i :| 0 <= i < |ListOf(row, kind)| && Gives(ListOf(row, kind)[i], name);
      var w := Wanted(kind, name, Decimal.Value(ListOf(row, kind)[i].amount.value));
      assert GivesAmount(ListOf(row, kind), i, w.name, w.amount);
      AllWantedExactly(row, w);
    }
  }

  /** What the upserts give a name, where they give it anything. */
  function At(amounts: map<string, int>, name: string): Option<int> {
    if name in amounts then Some(amounts[name]) else None
  }

  /** Upserts in the order of a list: its last entry of a name wins. */
  lemma {:induction false} LastOfList(before: seq<Wanted>, list: Kind, entries: seq<Entry>, kind: Kind, name: string)
    ensures At(LastAmounts(before + WantedOf(list, entries), kind), name) ==
            if list == kind && LastGiven(entries, name).Some? then LastGiven(entries, name) else At(LastAmounts(before, kind), name)
  {
    if entries == [] {
      assert before + [] == before;
    } else {
      var prefix, last := entries[..|entries| - 1], entries[|entries| - 1];
      LastOfList(before, list, prefix, kind, name);
      var all := before + WantedOf(list, entries);
      if IsStored(last) {
        assert all[..|all| - 1] == before + WantedOf(list, prefix);
      } else {
        assert all == before + WantedOf(list, prefix);
      }
    }
  }

  /** Upserts in the order of the payload. */
  lemma LastOfRow(row: Row, kind: Kind, name: string)
    ensures At(LastAmounts(AllWanted(row), kind), name) == LastGiven(ListOf(row, kind), name)
  {
    var a := WantedOf(PublicContributions, row.Entries(PublicContributions));
    var b := WantedOf(PrivateContributions, row.Entries(PrivateContributions));
    LastOfList([], PublicContributions, row.Entries(PublicContributions), kind, name);
    assert [] + a == a;
    LastOfList(a, PrivateContributions, row.Entries(PrivateContributions), kind, name);
    LastOfList(a + b, OtherEaContributions, row.Entries(OtherEaContributions), kind, name);
  }

  // ---------- The whole year ----------

  /** The row of the year has these amounts and their sum, or there is none. */
  ghost predicate HoldsAmounts(l: Ledger, k: (Project, Year), row: Row)
    requires row.Valid()
  {
    && (k in l.values <==> IsKept(row))
    && (k in l.values ==>
          && (forall c :: 0 <= c < 14 ==> l.values[k].columns[c] == ExpectedColumn(row, c))
          && l.values[k].total == SumOf(l.values[k].columns))
  }

  /** The contributor that got an amount keeps the flags it had. */
  predicate Flagged(before: Contributors, was: Key, c: Contributor) {
    c.secured == (was in before && before[was].secured) && c.constrained == (was in before && before[was].constrained)
  }

  /** A contributor is there exactly when the payload gives it an amount, and has the last it is given. */
  ghost predicate CellHolds(before: Contributors, was: Key, after: Contributors, key: Key, row: Row) {
    && (key in after <==> IsGiven(ListOf(row, key.kind), key.name))
    && (key in after ==>
          && after[key].amount == LastGiven(ListOf(row, key.kind), key.name)
          && Flagged(before, was, after[key]))
  }

  ghost predicate HoldsContributors(before: Contributors, i: RowId, after: Contributors, j: RowId, row: Row) {
    forall kind, name :: CellHolds(before, Key(i, kind, name), after, Key(j, kind, name), row)
  }

  /** The same when upserts run in any order: the amount is one of those given. */
  ghost predicate CellHoldsSome(before: Contributors, was: Key, after: Contributors, key: Key, row: Row) {
    && (key in after <==> IsGiven(ListOf(row, key.kind), key.name))
    && (key in after ==>
          && after[key].amount.Some? && GivenOnce(ListOf(row, key.kind), key.name, after[key].amount.value)
          && Flagged(before, was, after[key]))
  }

  ghost predicate HoldsSomeAmounts(before: Contributors, i: RowId, after: Contributors, j: RowId, row: Row) {
    forall kind, name :: CellHoldsSome(before, Key(i, kind, name), after, Key(j, kind, name), row)
  }

  /** The row a year has, or the id it would be given. */
  function IdFor(l: Ledger, k: (Project, Year)): RowId {
    if k in l.values then l.values[k].id else l.nextId
  }

  /** The year holds what its row says. */
  ghost predicate YearHolds(before: Ledger, after: Ledger, k: (Project, Year), row: Row)
    requires row.Valid()
  {
    && HoldsAmounts(after, k, row)
    && (k in after.values ==> HoldsContributors(before.contributors, IdFor(before, k), after.contributors, after.values[k].id, row))
  }

  /** Everything outside one year and its row is as it was. */
  ghost predicate OthersStand(l: Ledger, l': Ledger, k: (Project, Year), id: RowId) {
    && (forall other | other != k ::
          (other in l'.values <==> other in l.values) && (other in l.values ==> l'.values[other] == l.values[other]))
    && (forall key: Key | key.row != id ::
          (key in l'.contributors <==> key in l.contributors) && (key in l.contributors ==> l'.contributors[key] == l.contributors[key]))
  }

  /** The tables after a year was saved on its own: it keeps its row id, or leaves nothing behind. */
  ghost predicate SavesYear(l: Ledger, l': Ledger, k: (Project, Year), row: Row)
    requires row.Valid()
  {
    && YearHolds(l, l', k, row) && OthersStand(l, l', k, IdFor(l, k))
    && (k in l'.values ==> l'.values[k].id == IdFor(l, k))
    && (k in l.values && k !in l'.values ==> forall key: Key | key.row == l.values[k].id :: key !in l'.contributors)
  }

  lemma AmountsHeld(row: Row)
    requires row.Valid()
    ensures HasAnyAmount(Merged(row)) <==> IsKept(row)
    ensures forall c :: 0 <= c < 14 ==> ColumnsOf(Merged(row))[c] == ExpectedColumn(row, c)
    ensures Number(TotalText(Merged(row))) == SumOf(ColumnsOf(Merged(row)))
  {
    forall c | 0 <= c < 14
      ensures ColumnsOf(Merged(row))[c] == ExpectedColumn(row, c)
      ensures Keeps(row, c) <==> !Blank(Merged(row)[c]) && Merged(row)[c].value != "0"
    {
      ColumnExactly(row, c);
    }
    StoredTotal(Merged(row));
    SumOfColumns(ColumnsOf(Merged(row)));
  }

  lemma SameMembers(a: seq<Wanted>, b: seq<Wanted>)
    requires multiset(a) == multiset(b)
    ensures Names(a) == Names(b) && forall w :: w in a <==> w in b
  {
    forall w
      ensures w in a <==> w in b
    {
      assert w in a <==> w in multiset(a);
      assert w in b <==> w in multiset(b);
    }
  }

  lemma CellHeldSome(m: Contributors, row: Row, order: seq<Wanted>, key: Key)
    requires multiset(order) == multiset(AllWanted(row))
    ensures CellHoldsSome(m, key, Synced(m, key.row, order), key, row)
  {
    SyncedExactly(m, key.row, order, key);
    NamesExactly(row, key.kind, key.name);
    SameMembers(order, AllWanted(row));
    if (key.kind, key.name) in Names(order) {
      var p := LastAmountFound(order, key.kind, key.name);
      assert order[p] in order;
      AllWantedExactly(row, order[p]);
    }
  }

  lemma CellHeld(m: Contributors, row: Row, key: Key)
    ensures CellHolds(m, key, Synced(m, key.row, AllWanted(row)), key, row)
  {
    SyncedExactly(m, key.row, AllWanted(row), key);
    NamesExactly(row, key.kind, key.name);
    LastOfRow(row, key.kind, key.name);
  }

  lemma ContributorsHeld(m: Contributors, id: RowId, row: Row)
    ensures HoldsContributors(m, id, Synced(m, id, AllWanted(row)), id, row)
  {
    forall kind, name
      ensures CellHolds(m, Key(id, kind, name), Synced(m, id, AllWanted(row)), Key(id, kind, name), row)
    {
      CellHeld(m, row, Key(id, kind, name));
    }
  }

  lemma OthersUntouched(m: Contributors, id: RowId, wanted: seq<Wanted>)
    ensures var after := Synced(m, id, wanted);
            forall key: Key | key.row != id :: (key in after <==> key in m) && (key in m ==> after[key] == m[key])
  {
    forall key: Key | key.row != id
      ensures key in Synced(m, id, wanted) <==> key in m
      ensures key in m ==> Synced(m, id, wanted)[key] == m[key]
    {
      SyncedExactly(m, id, wanted, key);
    }
  }

  lemma KeptYear(l: Ledger, project: Project, row: Row)
    requires row.Valid() && IsKept(row)
    ensures SavesYear(l, SavedRow(l, project, row, AllWanted(row)), (project, row.year), row)
  {
    var id := IdFor(l, (project, row.year));
    AmountsHeld(row);
    ContributorsHeld(l.contributors, id, row);
    OthersUntouched(l.contributors, id, AllWanted(row));
  }

  lemma DroppedYear(l: Ledger, project: Project, row: Row)
    requires row.Valid() && !IsKept(row) && IdsIdentify(l)
    ensures SavesYear(l, SavedRow(l, project, row, AllWanted(row)), (project, row.year), row)
  {
    AmountsHeld(row);
  }

  /** Saving a year stores exactly what its row says. */
  lemma SavedYearExactly(l: Ledger, project: Project, row: Row)
    requires row.Valid() && IdsIdentify(l)
    ensures SavesYear(l, SavedRow(l, project, row, AllWanted(row)), (project, row.year), row)
  {
    if IsKept(row) {
      KeptYear(l, project, row);
    } else {
      DroppedYear(l, project, row);
    }
  }

  // ---------- All submitted years ----------

  lemma YearCarriesOver(before: Ledger, a: Ledger, b: Ledger, k: (Project, Year), row: Row)
    requires row.Valid() && YearHolds(before, a, k, row) && YearInterleaving.SameYear(a, b, k)
    ensures YearHolds(before, b, k, row)
  {
    if k in a.values {
      var i, j, id := a.values[k].id, b.values[k].id, IdFor(before, k);
      forall kind, name
        ensures CellHolds(before.contributors, Key(id, kind, name), b.contributors, Key(j, kind, name), row)
      {
        assert CellHolds(before.contributors, Key(id, kind, name), a.contributors, Key(i, kind, name), row);
        assert YearInterleaving.SameCell(a.contributors, i, b.contributors, j, kind, name);
      }
    }
  }

  /** Rows of distinct years saved one by one: each year holds what its own row says. */
  lemma SavedYearsExactly(l: Ledger, project: Project, rows: seq<Row>, orders: seq<seq<Wanted>>, i: nat)
    requires IdsIdentify(l) && YearInterleaving.AllValid(rows) && YearInterleaving.DistinctYears(rows)
    requires |orders| == |rows| && i < |rows| && orders[i] == AllWanted(rows[i])
    ensures YearHolds(l, YearInterleaving.SaveAll(l, project, rows, orders), (project, rows[i].year), rows[i])
  {
    var k := (project, rows[i].year);
    SavedYearExactly(l, project, rows[i]);
    YearInterleaving.SaveAllSaves(l, project, rows, orders, i);
    YearCarriesOver(l, SavedRow(l, project, rows[i], orders[i]), YearInterleaving.SaveAll(l, project, rows, orders), k, rows[i]);
  }

  /** In any order of its upserts. */
  lemma SavedInAnyOrder(l: Ledger, project: Project, row: Row, order: seq<Wanted>)
    requires row.Valid() && (IsKept(row) ==> multiset(order) == multiset(AllWanted(row)))
    ensures var l', k := SavedRow(l, project, row, order), (project, row.year);
            && HoldsAmounts(l', k, row)
            && (k in l'.values ==> HoldsSomeAmounts(l.contributors, IdFor(l, k), l'.contributors, l'.values[k].id, row))
  {
    AmountsHeld(row);
    if IsKept(row) {
      var id := IdFor(l, (project, row.year));
      forall kind, name
        ensures CellHoldsSome(l.contributors, Key(id, kind, name), Synced(l.contributors, id, order), Key(id, kind, name), row)
      {
        CellHeldSome(l.contributors, row, order, Key(id, kind, name));
      }
    }
  }

  lemma SomeCarryOver(before: Contributors, id: RowId, a: Contributors, i: RowId, b: Contributors, j: RowId, row: Row)
    requires HoldsSomeAmounts(before, id, a, i, row) && YearInterleaving.SameCells(a, i, b, j)
    ensures HoldsSomeAmounts(before, id, b, j, row)
  {
    forall kind, name
      ensures CellHoldsSome(before, Key(id, kind, name), b, Key(j, kind, name), row)
    {
      assert CellHoldsSome(before, Key(id, kind, name), a, Key(i, kind, name), row);
      assert YearInterleaving.SameCell(a, i, b, j, kind, name);
    }
  }

  /** However the statements of all rows interleave: the amounts, the total and the contributors of every year. */
  lemma EveryScheduleStores(s: YearInterleaving.State, moves: seq<YearInterleaving.Move>, i: nat)
    requires s.Valid() && Sound(s.ledger) && YearInterleaving.AllWaiting(s) && YearInterleaving.DistinctYears(s.rows)
    requires YearInterleaving.Possible(s, moves) && YearInterleaving.AllDone(YearInterleaving.Run(s, moves)) && i < |s.rows|
    ensures var l', k := YearInterleaving.Run(s, moves).ledger, (s.project, s.rows[i].year);
            && HoldsAmounts(l', k, s.rows[i])
            && (k in l'.values ==>
                  HoldsSomeAmounts(s.ledger.contributors, IdFor(s.ledger, k), l'.contributors, l'.values[k].id, s.rows[i]))
  {
    var l', k := YearInterleaving.Run(s, moves).ledger, (s.project, s.rows[i].year);
    var orders := YearInterleaving.OrdersOf(YearInterleaving.Run(s, moves));
    var all := YearInterleaving.SaveAll(s.ledger, s.project, s.rows, orders);
    var alone := SavedRow(s.ledger, s.project, s.rows[i], orders[i]);
    YearInterleaving.EveryInterleavingIsSequential(s, moves);
    YearInterleaving.SaveAllSaves(s.ledger, s.project, s.rows, orders, i);
    YearInterleaving.SameYearTransitive(alone, all, l', k);
    AmountsHeld(s.rows[i]);
    SavedInAnyOrder(s.ledger, s.project, s.rows[i], orders[i]);
    if k in l'.values {
      SomeCarryOver(s.ledger.contributors, IdFor(s.ledger, k), alone.contributors, alone.values[k].id,
                    l'.contributors, l'.values[k].id, s.rows[i]);
    }
  }
}

/**
 * Saving one year of estimated spend (processFundingValueRow and the functions it uses in
 * src/plugins/projects/helpers/funding-sources-normalizers.js). The contributor upserts of a year are
 * issued together, so the order in which they run is a parameter here.
 */
module YearSave {
  import opened Wrappers
  import opened MapSums
  import opened FundingTables
  import opened ContributorCleanup
  import Decimal

  /** A field of the payload: absent or null, or text that validation left with digits only. */
  type Text = t: Option<string> | t.Some? ==> Decimal.AllDigits(t.value) witness None

  datatype Entry = Entry(name: string, amount: Text)

  datatype Row = Row(year: Year, fields: seq<Text>, public: Option<seq<Entry>>, private: Option<seq<Entry>>,
                     otherEa: Option<seq<Entry>>) {
    predicate Valid() {
      |fields| == COLUMN_COUNT
    }

    function Contributors(kind: Kind): Option<seq<Entry>> {
      match kind
      case PublicContributions => public
      case PrivateContributions => private
      case OtherEaContributions => otherEa
    }

    function Entries(kind: Kind): seq<Entry> {
      Contributors(kind).GetOr([])
    }
  }

  predicate Blank(t: Text) {
    t == None || t.value == ""
  }

  function Number(t: Text): nat {
    if Blank(t) then 0 else Decimal.Value(t.value)
  }

  function SumEntries(entries: seq<Entry>): nat {
    if entries == [] then 0 else SumEntries(entries[..|entries| - 1]) + Number(entries[|entries| - 1].amount)
  }

  /** sumContributorAmounts: no text at all when there are no contributors. */
  function ContributorTotal(entries: Option<seq<Entry>>): Text {
    if entries == None || entries.value == [] then None else Some(Decimal.ToString(SumEntries(entries.value)))
  }

  /** A contribution amount that was left blank takes the total of its contributors. */
  function MergedField(row: Row, fields: seq<Text>, kind: Kind): seq<Text>
    requires |fields| == COLUMN_COUNT
  {
    if !Blank(fields[kind.Column()]) || ContributorTotal(row.Contributors(kind)) == None then fields
    else fields[kind.Column() := ContributorTotal(row.Contributors(kind))]
  }

  function Merged(row: Row): (fields: seq<Text>)
    requires row.Valid()
    ensures |fields| == COLUMN_COUNT
  {
    var f1 := MergedField(row, row.fields, PublicContributions);
    var f2 := MergedField(row, f1, PrivateContributions);
    MergedField(row, f2, OtherEaContributions)
  }

  function SumFields(fields: seq<Text>): nat {
    if fields == [] then 0 else Number(fields[0]) + SumFields(fields[1..])
  }

  /** calculateFundingTotal, whose text is read back as a number when it is stored. */
  function TotalText(fields: seq<Text>): Text {
    Some(Decimal.ToString(SumFields(fields)))
  }

  predicate HasAnyAmount(fields: seq<Text>) {
    exists i :: 0 <= i < |fields| && !Blank(fields[i]) && fields[i].value != "0"
  }

  /** _toNullableBigInt and _toTotalBigInt: the empty text counts as absent. */
  function NullableNumber(t: Text): Option<int> {
    if Blank(t) then None else Some(Number(t))
  }

  function ColumnsOf(fields: seq<Text>): Columns
    requires |fields| == COLUMN_COUNT
  {
    seq(COLUMN_COUNT, i requires 0 <= i < COLUMN_COUNT => NullableNumber(fields[i]))
  }

  // ---------- The total that is stored is the sum of the columns ----------

  lemma {:induction false} SumsAgree(fields: seq<Text>, columns: seq<Option<int>>)
    requires |fields| == |columns|
    requires forall i :: 0 <= i < |fields| ==> columns[i] == NullableNumber(fields[i])
    ensures SumColumns(columns) == SumFields(fields)
  {
    if fields != [] {
      SumsAgree(fields[1..], columns[1..]);
    }
  }

  lemma StoredTotal(fields: seq<Text>)
    requires |fields| == COLUMN_COUNT
    ensures Number(TotalText(fields)) == SumColumns(ColumnsOf(fields))
  {
    Decimal.ValueOfToString(SumFields(fields));
    SumsAgree(fields, ColumnsOf(fields));
  }

  // ---------- The contributor rows a year should have ----------

  datatype Wanted = Wanted(kind: Kind, name: string, amount: nat)

  predicate IsStored(e: Entry) {
    e.name != "" && !Blank(e.amount) && e.amount.value != "0"
  }

  function WantedOf(kind: Kind, entries: seq<Entry>): seq<Wanted> {
    if entries == [] then []
    else
      var last := entries[|entries| - 1];
      WantedOf(kind, entries[..|entries| - 1]) + if IsStored(last) then [Wanted(kind, last.name, Number(last.amount))] else []
  }

  /** getContributorEntries: the three lists in turn. */
  function AllWanted(row: Row): seq<Wanted> {
    WantedOf(PublicContributions, row.Entries(PublicContributions)) +
    WantedOf(PrivateContributions, row.Entries(PrivateContributions)) +
    WantedOf(OtherEaContributions, row.Entries(OtherEaContributions))
  }

  function UpsertAll(m: Contributors, id: RowId, wanted: seq<Wanted>): Contributors {
    if wanted == [] then m
    else
      var last := wanted[|wanted| - 1];
      WithAmount(UpsertAll(m, id, wanted[..|wanted| - 1]), Key(id, last.kind, last.name), last.amount)
  }

  function Names(wanted: seq<Wanted>): set<(Kind, string)> {
    set w | w in wanted :: (w.kind, w.name)
  }

  /** The upserts in the order they ran, and then the deletion of everything else in that row. */
  function Synced(m: Contributors, id: RowId, wanted: seq<Wanted>): Contributors {
    WithoutStale(UpsertAll(m, id, wanted), id, Names(wanted))
  }

  /** deleteFundingValueWithContributors: nothing happens when the year has no row. */
  function WithoutYear(l: Ledger, project: Project, year: Year): Ledger {
    if (project, year) !in l.values then l
    else
      var id := l.values[(project, year)].id;
      Ledger(WithoutValues(l, {id}).values, WithoutRows(l.contributors, {id}), l.nextId)
  }

  /** The tables after a row was processed and its upserts ran in the order `wanted`. */
  function SavedRow(l: Ledger, project: Project, row: Row, wanted: seq<Wanted>): Ledger
    requires row.Valid()
  {
    var fields := Merged(row);
    if !HasAnyAmount(fields) then WithoutYear(l, project, row.year)
    else
      var l1 := Upserted(l, project, row.year, ColumnsOf(fields), Number(TotalText(fields)));
      l1.(contributors := Synced(l1.contributors, l1.values[(project, row.year)].id, wanted))
  }

  // ---------- What the synced contributors are ----------

  /** The amount each name of a kind was given last. */
  function LastAmounts(wanted: seq<Wanted>, kind: Kind): map<string, int> {
    if wanted == [] then map[]
    else
      var last := wanted[|wanted| - 1];
      var before := LastAmounts(wanted[..|wanted| - 1], kind);
      if last.kind == kind then before[last.name := last.amount] else before
  }

  lemma {:induction false} LastAmountsNames(wanted: seq<Wanted>, kind: Kind, name: string)
    ensures name in LastAmounts(wanted, kind) <==> (kind, name) in Names(wanted)
  {
    if wanted != [] {
      var prefix, last := wanted[..|wanted| - 1], wanted[|wanted| - 1];
      LastAmountsNames(prefix, kind, name);
      assert wanted == prefix + [last];
      if (kind, name) in Names(prefix) {
        var w :| w in prefix && w.kind == kind && w.name == name;
        assert w in wanted;
      }
      if (kind, name) in Names(wanted) {
        var w :| w in wanted && w.kind == kind && w.name == name;
        assert w in prefix || w == last;
      }
    }
  }

  lemma {:induction false} UpsertAllAt(m: Contributors, id: RowId, wanted: seq<Wanted>, key: Key)
    ensures var r := UpsertAll(m, id, wanted);
            var upserted := key.row == id && key.name in LastAmounts(wanted, key.kind);
            && (key in r <==> key in m || upserted)
            && (key in r ==>
                  r[key] == if upserted
                            then WithNewAmount(if key in m then m[key] else PLACEHOLDER,
                                               Some(LastAmounts(wanted, key.kind)[key.name]))
                            else m[key])
  {
    if wanted != [] {
      UpsertAllAt(m, id, wanted[..|wanted| - 1], key);
    }
  }

  /**
   * After the sync the row's contributors are exactly the wanted names; each has the amount it was
   * given last and, if it was there before, its secured and constrained flags. Other rows are untouched.
   */
  lemma SyncedExactly(m: Contributors, id: RowId, wanted: seq<Wanted>, key: Key)
    ensures var r := Synced(m, id, wanted);
            && (key.row != id ==> (key in r <==> key in m) && (key in r ==> r[key] == m[key]))
            && (key.row == id ==> (key in r <==> (key.kind, key.name) in Names(wanted)))
            && (key.row == id && key in r ==>
                  && key.name in LastAmounts(wanted, key.kind)
                  && r[key].amount == Some(LastAmounts(wanted, key.kind)[key.name])
                  && r[key].secured == (key in m && m[key].secured)
                  && r[key].constrained == (key in m && m[key].constrained))
  {
    UpsertAllAt(m, id, wanted, key);
    LastAmountsNames(wanted, key.kind, key.name);
  }

  lemma SyncedAmounts(m: Contributors, id: RowId, wanted: seq<Wanted>, kind: Kind)
    ensures AmountsOf(Synced(m, id, wanted), id, kind) == LastAmounts(wanted, kind)
  {
    var r := Synced(m, id, wanted);
    forall name: string
      ensures name in AmountsOf(r, id, kind) <==> name in LastAmounts(wanted, kind)
      ensures name in AmountsOf(r, id, kind) ==> AmountsOf(r, id, kind)[name] == LastAmounts(wanted, kind)[name]
    {
      NameAt(r, id, kind, name);
      SyncedExactly(m, id, wanted, Key(id, kind, name));
      LastAmountsNames(wanted, kind, name);
    }
  }

  // ---------- The stored column against the stored contributors ----------

  function SumWanted(wanted: seq<Wanted>, kind: Kind): nat {
    if wanted == [] then 0
    else SumWanted(wanted[..|wanted| - 1], kind) + AmountIf(wanted[|wanted| - 1], kind)
  }

  function AmountIf(w: Wanted, kind: Kind): nat {
    if w.kind == kind then w.amount else 0
  }

  /** What later upserts of the same name overwrote. */
  function Overwritten(wanted: seq<Wanted>, kind: Kind): int {
    if wanted == [] then 0
    else
      var prefix, last := wanted[..|wanted| - 1], wanted[|wanted| - 1];
      Overwritten(prefix, kind) +
      (if last.kind == kind && last.name in LastAmounts(prefix, kind) then LastAmounts(prefix, kind)[last.name] else 0)
  }

  lemma {:induction false} LastAmountsSum(wanted: seq<Wanted>, kind: Kind)
    ensures Sum(LastAmounts(wanted, kind)) + Overwritten(wanted, kind) == SumWanted(wanted, kind)
  {
    if wanted != [] {
      var prefix, last := wanted[..|wanted| - 1], wanted[|wanted| - 1];
      LastAmountsSum(prefix, kind);
      if last.kind == kind {
        SumWith(LastAmounts(prefix, kind), last.name, last.amount);
      }
    }
  }

  predicate SameName(a: Wanted, kind: Kind, name: string) {
    a.kind == kind && a.name == name
  }

  /** Whatever is followed by the same name again carries no amount. */
  predicate NothingOverwritten(wanted: seq<Wanted>, kind: Kind) {
    forall i, j :: 0 <= i < j < |wanted| && SameName(wanted[i], kind, wanted[j].name) && wanted[j].kind == kind ==>
                     wanted[i].amount == 0
  }

  lemma {:induction false} LastAmountFound(wanted: seq<Wanted>, kind: Kind, name: string) returns (p: nat)
    requires name in LastAmounts(wanted, kind)
    ensures p < |wanted| && SameName(wanted[p], kind, name) && LastAmounts(wanted, kind)[name] == wanted[p].amount
    ensures forall q :: p < q < |wanted| ==> !SameName(wanted[q], kind, name)
  {
    var last := wanted[|wanted| - 1];
    if SameName(last, kind, name) {
      p := |wanted| - 1;
    } else {
      p := LastAmountFound(wanted[..|wanted| - 1], kind, name);
    }
  }

  /** Whatever bears this name carries no amount. */
  predicate CarriesNothing(wanted: seq<Wanted>, kind: Kind, name: string) {
    forall i :: 0 <= i < |wanted| && SameName(wanted[i], kind, name) ==> wanted[i].amount == 0
  }

  lemma NothingOverwrittenStep(prefix: seq<Wanted>, last: Wanted, kind: Kind)
    ensures NothingOverwritten(prefix + [last], kind) <==>
            NothingOverwritten(prefix, kind) && (last.kind == kind ==> CarriesNothing(prefix, kind, last.name))
  {
    var wanted := prefix + [last];
    assert forall i :: 0 <= i < |prefix| ==> wanted[i] == prefix[i];
    if NothingOverwritten(wanted, kind) && last.kind == kind {
      forall i | 0 <= i < |prefix| && SameName(prefix[i], kind, last.name)
        ensures prefix[i].amount == 0
      {
        assert SameName(wanted[i], kind, wanted[|prefix|].name);
      }
    }
  }

  lemma CarriesNothingExactly(prefix: seq<Wanted>, kind: Kind, name: string)
    requires NothingOverwritten(prefix, kind)
    ensures CarriesNothing(prefix, kind, name) <==>
            name !in LastAmounts(prefix, kind) || LastAmounts(prefix, kind)[name] == 0
  {
  }

  lemma {:induction false} OverwrittenExactly(wanted: seq<Wanted>, kind: Kind)
    ensures Overwritten(wanted, kind) >= 0
    ensures Overwritten(wanted, kind) == 0 <==> NothingOverwritten(wanted, kind)
  {
    if wanted != [] {
      var prefix, last := wanted[..|wanted| - 1], wanted[|wanted| - 1];
      assert wanted == prefix + [last];
      OverwrittenExactly(prefix, kind);
      NothingOverwrittenStep(prefix, last, kind);
      if last.name in LastAmounts(prefix, kind) {
        var _ := LastAmountFound(prefix, kind, last.name);
      }
      if last.kind == kind && NothingOverwritten(prefix, kind) {
        CarriesNothingExactly(prefix, kind, last.name);
      }
    }
  }

  // ---------- The order of the upserts does not matter for the sum ----------

  lemma {:induction false} SumWantedConcat(a: seq<Wanted>, b: seq<Wanted>, kind: Kind)
    ensures SumWanted(a + b, kind) == SumWanted(a, kind) + SumWanted(b, kind)
    decreases |b|
  {
    if b == [] {
      assert a + b == a;
    } else {
      var n := |b| - 1;
      SumWantedConcat(a, b[..n], kind);
      assert (a + b)[..|a + b| - 1] == a + b[..n];
    }
  }

  lemma SumWantedOne(w: Wanted, kind: Kind)
    ensures SumWanted([w], kind) == AmountIf(w, kind)
  {
  }

  lemma SumWantedWithout(s: seq<Wanted>, i: nat, kind: Kind)
    requires i < |s|
    ensures SumWanted(s, kind) == SumWanted(s[..i] + s[i + 1..], kind) + AmountIf(s[i], kind)
  {
    SumWantedInsert(s[..i], s[i], s[i + 1..], kind);
    assert s == s[..i] + [s[i]] + s[i + 1..];
  }

  lemma SumWantedInsert(a: seq<Wanted>, w: Wanted, b: seq<Wanted>, kind: Kind)
    ensures SumWanted(a + [w] + b, kind) == SumWanted(a + b, kind) + AmountIf(w, kind)
  {
    SumWantedConcat(a + [w], b, kind);
    SumWantedConcat(a, [w], kind);
    SumWantedConcat(a, b, kind);
    SumWantedOne(w, kind);
  }

  lemma MultisetWithout(s: seq<Wanted>, i: nat)
    requires i < |s|
    ensures multiset(s[..i] + s[i + 1..]) == multiset(s) - multiset{s[i]}
  {
    assert s == s[..i] + [s[i]] + s[i + 1..];
  }

  lemma {:induction false} SumWantedPermuted(a: seq<Wanted>, b: seq<Wanted>, kind: Kind)
    requires multiset(a) == multiset(b)
    ensures SumWanted(a, kind) == SumWanted(b, kind)
    decreases |a|
  {
    if a == [] {
      assert |b| == |multiset(b)| == 0;
    } else {
      var n := |a| - 1;
      assert a[n] in multiset(b);
      var i :| 0 <= i < |b| && b[i] == a[n];
      MultisetWithout(a, n);
      MultisetWithout(b, i);
      SumWantedWithout(a, n, kind);
      SumWantedWithout(b, i, kind);
      SumWantedPermuted(a[..n] + a[n + 1..], b[..i] + b[i + 1..], kind);
    }
  }

  // ---------- From the payload to the wanted rows ----------

  /** What entries without a name would add to a sum. */
  function Nameless(entries: seq<Entry>): nat {
    if entries == [] then 0
    else
      var last := entries[|entries| - 1];
      Nameless(entries[..|entries| - 1]) + if last.name == "" then Number(last.amount) else 0
  }

  predicate NamelessCarryNothing(entries: seq<Entry>) {
    forall e | e in entries :: e.name == "" ==> Number(e.amount) == 0
  }

  lemma {:induction false} NamelessExactly(entries: seq<Entry>)
    ensures Nameless(entries) == 0 <==> NamelessCarryNothing(entries)
  {
    if entries != [] {
      NamelessExactly(entries[..|entries| - 1]);
      assert entries == entries[..|entries| - 1] + [entries[|entries| - 1]];
    }
  }

  lemma ZeroText(t: Text)
    requires t == Some("0")
    ensures Number(t) == 0
  {
  }

  lemma {:induction false} EntriesSplit(kind: Kind, other: Kind, entries: seq<Entry>)
    ensures SumWanted(WantedOf(kind, entries), other) ==
            if other == kind then SumEntries(entries) - Nameless(entries) else 0
  {
    if entries != [] {
      var prefix, last := entries[..|entries| - 1], entries[|entries| - 1];
      EntriesSplit(kind, other, prefix);
      if !Blank(last.amount) && last.amount.value == "0" {
        ZeroText(last.amount);
      }
      if IsStored(last) {
        var w := Wanted(kind, last.name, Number(last.amount));
        SumWantedConcat(WantedOf(kind, prefix), [w], other);
        SumWantedOne(w, other);
      } else {
        assert WantedOf(kind, entries) == WantedOf(kind, prefix);
      }
    }
  }

  lemma AllWantedSum(row: Row, kind: Kind)
    ensures SumWanted(AllWanted(row), kind) == SumEntries(row.Entries(kind)) - Nameless(row.Entries(kind))
  {
    var a := WantedOf(PublicContributions, row.Entries(PublicContributions));
    var b := WantedOf(PrivateContributions, row.Entries(PrivateContributions));
    var c := WantedOf(OtherEaContributions, row.Entries(OtherEaContributions));
    SumWantedConcat(a + b, c, kind);
    SumWantedConcat(a, b, kind);
    EntriesSplit(PublicContributions, kind, row.Entries(PublicContributions));
    EntriesSplit(PrivateContributions, kind, row.Entries(PrivateContributions));
    EntriesSplit(OtherEaContributions, kind, row.Entries(OtherEaContributions));
  }

  /** A blank contribution column is stored as the sum of all of the row's entries of that kind. */
  lemma BlankColumn(row: Row, kind: Kind)
    requires row.Valid() && Blank(row.fields[kind.Column()])
    ensures AmountOf(ColumnsOf(Merged(row))[kind.Column()]) == SumEntries(row.Entries(kind))
  {
    var c := kind.Column();
    assert Merged(row)[c] == MergedField(row, row.fields, kind)[c];
    Decimal.ValueOfToString(SumEntries(row.Entries(kind)));
  }

  /** The stored column and the stored contributors agree. */
  ghost predicate ColumnMatches(l: Ledger, project: Project, row: Row, order: seq<Wanted>, kind: Kind)
    requires row.Valid()
  {
    var l', k := SavedRow(l, project, row, order), (project, row.year);
    k in l'.values &&
    AmountOf(l'.values[k].columns[kind.Column()]) == Sum(AmountsOf(l'.contributors, l'.values[k].id, kind))
  }

  /** Every amount in the entries reaches the table: each has a name, and none is overwritten. */
  ghost predicate EveryAmountKept(entries: seq<Entry>, order: seq<Wanted>, kind: Kind) {
    NamelessCarryNothing(entries) && NothingOverwritten(order, kind)
  }

  /**
   * After a year is saved with a contribution left blank, its upserts having run in this order, the stored
   * column equals the sum of the stored contributors of that kind if and only if every entered amount is kept.
   */
  lemma ColumnIsContributorSum(l: Ledger, project: Project, row: Row, order: seq<Wanted>, kind: Kind)
    requires row.Valid() && Blank(row.fields[kind.Column()])
    requires multiset(order) == multiset(AllWanted(row)) && HasAnyAmount(Merged(row))
    ensures var l' := SavedRow(l, project, row, order);
            && (project, row.year) in l'.values
            && l'.values[(project, row.year)].total == SumColumns(l'.values[(project, row.year)].columns)
    ensures ColumnMatches(l, project, row, order, kind) <==> EveryAmountKept(row.Entries(kind), order, kind)
  {
    StoredTotal(Merged(row));
    BlankColumn(row, kind);
    var l1 := Upserted(l, project, row.year, ColumnsOf(Merged(row)), Number(TotalText(Merged(row))));
    SyncedAmounts(l1.contributors, l1.values[(project, row.year)].id, order, kind);
    LastAmountsSum(order, kind);
    SumWantedPermuted(order, AllWanted(row), kind);
    AllWantedSum(row, kind);
    OverwrittenExactly(order, kind);
    NamelessExactly(row.Entries(kind));
  }

  // ---------- When the order of the upserts matters ----------

  /** Entries of one kind with the same name carry the same amount. */
  ghost predicate Agreeing(wanted: seq<Wanted>) {
    forall i, j :: 0 <= i < |wanted| && 0 <= j < |wanted| && SameName(wanted[i], wanted[j].kind, wanted[j].name) ==>
                     wanted[i].amount == wanted[j].amount
  }

  /** The i-th entry moved to the end. */
  function WithLast(wanted: seq<Wanted>, i: nat): (order: seq<Wanted>)
    requires i < |wanted|
  {
    wanted[..i] + wanted[i + 1..] + [wanted[i]]
  }

  lemma WithLastPermutes(wanted: seq<Wanted>, i: nat)
    requires i < |wanted|
    ensures multiset(WithLast(wanted, i)) == multiset(wanted)
    ensures var w := wanted[i];
            w.name in LastAmounts(WithLast(wanted, i), w.kind) && LastAmounts(WithLast(wanted, i), w.kind)[w.name] == w.amount
  {
    MultisetWithout(wanted, i);
    assert WithLast(wanted, i)[..|wanted| - 1] == wanted[..i] + wanted[i + 1..];
  }

  /** If the entries agree, every order gives the same table. */
  lemma AgreeingOrder(m: Contributors, id: RowId, wanted: seq<Wanted>, a: seq<Wanted>, b: seq<Wanted>)
    requires Agreeing(wanted) && multiset(a) == multiset(wanted) == multiset(b)
    ensures Synced(m, id, a) == Synced(m, id, b)
  {
    forall w
      ensures w in a <==> w in wanted
      ensures w in b <==> w in wanted
    {
      assert w in a <==> w in multiset(a);
      assert w in b <==> w in multiset(b);
      assert w in wanted <==> w in multiset(wanted);
    }
    assert Names(a) == Names(b);
    forall key: Key
      ensures key in Synced(m, id, a) <==> key in Synced(m, id, b)
      ensures key in Synced(m, id, a) ==> Synced(m, id, a)[key] == Synced(m, id, b)[key]
    {
      SyncedExactly(m, id, a, key);
      SyncedExactly(m, id, b, key);
      if key.row == id && (key.kind, key.name) in Names(a) {
        SameLastAmount(wanted, a, b, key.kind, key.name);
      }
    }
  }

  lemma SameLastAmount(wanted: seq<Wanted>, a: seq<Wanted>, b: seq<Wanted>, kind: Kind, name: string)
    requires Agreeing(wanted) && (forall w | w in a :: w in wanted) && (forall w | w in b :: w in wanted)
    requires name in LastAmounts(a, kind) && name in LastAmounts(b, kind)
    ensures LastAmounts(a, kind)[name] == LastAmounts(b, kind)[name]
  {
    var p := LastAmountFound(a, kind, name);
    var q := LastAmountFound(b, kind, name);
    assert a[p] in wanted && b[q] in wanted;
  }

  /** Two entries that disagree, and two orders that keep the one or the other. */
  lemma DisagreeingOrders(m: Contributors, id: RowId, wanted: seq<Wanted>, i: nat, j: nat)
    requires i < |wanted| && j < |wanted| && SameName(wanted[i], wanted[j].kind, wanted[j].name)
    requires wanted[i].amount != wanted[j].amount
    ensures multiset(WithLast(wanted, i)) == multiset(wanted) == multiset(WithLast(wanted, j))
    ensures var key := Key(id, wanted[i].kind, wanted[i].name);
            var a, b := Synced(m, id, WithLast(wanted, i)), Synced(m, id, WithLast(wanted, j));
            key in a && key in b && a[key] != b[key]
  {
    var key := Key(id, wanted[i].kind, wanted[i].name);
    WithLastPermutes(wanted, i);
    WithLastPermutes(wanted, j);
    LastAmountsNames(WithLast(wanted, i), key.kind, key.name);
    LastAmountsNames(WithLast(wanted, j), key.kind, key.name);
    SyncedExactly(m, id, WithLast(wanted, i), key);
    SyncedExactly(m, id, WithLast(wanted, j), key);
  }

  /** Every order of the upserts gives the same table if and only if entries with the same name agree. */
  lemma OrderIrrelevantExactly(m: Contributors, id: RowId, wanted: seq<Wanted>)
    ensures (forall a, b | multiset(a) == multiset(wanted) && multiset(b) == multiset(wanted) ::
               Synced(m, id, a) == Synced(m, id, b)) <==> Agreeing(wanted)
  {
    if Agreeing(wanted) {
      forall a, b | multiset(a) == multiset(wanted) && multiset(b) == multiset(wanted)
        ensures Synced(m, id, a) == Synced(m, id, b)
      {
        AgreeingOrder(m, id, wanted, a, b);
      }
    } else {
      var i, j :| 0 <= i < |wanted| && 0 <= j < |wanted| && SameName(wanted[i], wanted[j].kind, wanted[j].name) &&
        wanted[i].amount != wanted[j].amount;
      DisagreeingOrders(m, id, wanted, i, j);
    }
  }

  // ---------- The stored column in every order ----------

  /** A name that a kind has twice carries no amount. */
  ghost predicate NothingRepeated(wanted: seq<Wanted>, kind: Kind) {
    forall i, j :: 0 <= i < |wanted| && 0 <= j < |wanted| && i != j && Repeats(wanted[i], wanted[j], kind) ==>
                     wanted[i].amount == 0
  }

  predicate Repeats(a: Wanted, b: Wanted, kind: Kind) {
    a.kind == kind && b.kind == kind && a.name == b.name
  }

  /** What stands at two places of a permutation stands at two places of the other. */
  lemma TwoPlaces(a: seq<Wanted>, b: seq<Wanted>, p: nat, q: nat) returns (i: nat, j: nat)
    requires multiset(a) == multiset(b) && p < |a| && q < |a| && p != q
    ensures i < |b| && j < |b| && i != j && b[i] == a[p] && b[j] == a[q]
  {
    assert a[q] in multiset(b);
    j :| 0 <= j < |b| && b[j] == a[q];
    var a', b' := a[..q] + a[q + 1..], b[..j] + b[j + 1..];
    MultisetWithout(a, q);
    MultisetWithout(b, j);
    assert a[p] == a'[if p < q then p else p - 1];
    assert a[p] in multiset(a');
    assert a[p] in multiset(b');
    var k: nat :| k < |b'| && b'[k] == a[p];
    i := if k < j then k else k + 1;
  }

  lemma NothingOverwrittenInAnyOrder(wanted: seq<Wanted>, order: seq<Wanted>, kind: Kind)
    requires NothingRepeated(wanted, kind) && multiset(order) == multiset(wanted)
    ensures NothingOverwritten(order, kind)
  {
    forall p, q | 0 <= p < q < |order| && SameName(order[p], kind, order[q].name) && order[q].kind == kind
      ensures order[p].amount == 0
    {
      var i, j := TwoPlaces(order, wanted, p, q);
      assert Repeats(wanted[i], wanted[j], kind);
    }
  }

  /** The amount that an upsert at the end overwrites. */
  lemma OverwrittenByLast(wanted: seq<Wanted>, kind: Kind, i: nat, j: nat)
    requires i < |wanted| && j < |wanted| && i != j && Repeats(wanted[i], wanted[j], kind) && wanted[i].amount != 0
    ensures !NothingOverwritten(WithLast(wanted, j), kind)
  {
    var order, p := WithLast(wanted, j), if i < j then i else i - 1;
    assert order[p] == wanted[i] && order[|order| - 1] == wanted[j] && p < |order| - 1;
    assert SameName(order[p], kind, order[|order| - 1].name);
  }

  /**
   * The stored column equals the sum of the stored contributors, in whatever order the upserts run, if and only if
   * entries without a name carry nothing and so do entries whose name is entered twice.
   */
  lemma ColumnMatchesInEveryOrderExactly(l: Ledger, project: Project, row: Row, kind: Kind)
    requires row.Valid() && Blank(row.fields[kind.Column()]) && HasAnyAmount(Merged(row))
    ensures (forall order | multiset(order) == multiset(AllWanted(row)) :: ColumnMatches(l, project, row, order, kind)) <==>
            NamelessCarryNothing(row.Entries(kind)) && NothingRepeated(AllWanted(row), kind)
  {
    var wanted := AllWanted(row);
    if !NamelessCarryNothing(row.Entries(kind)) {
      ColumnIsContributorSum(l, project, row, wanted, kind);
      assert !ColumnMatches(l, project, row, wanted, kind);
    } else if NothingRepeated(wanted, kind) {
      forall order | multiset(order) == multiset(wanted)
        ensures ColumnMatches(l, project, row, order, kind)
      {
        ColumnIsContributorSum(l, project, row, order, kind);
        NothingOverwrittenInAnyOrder(wanted, order, kind);
      }
    } else {
      var i, j :| 0 <= i < |wanted| && 0 <= j < |wanted| && i != j && Repeats(wanted[i], wanted[j], kind) && wanted[i].amount != 0;
      WithLastPermutes(wanted, j);
      OverwrittenByLast(wanted, kind, i, j);
      ColumnIsContributorSum(l, project, row, WithLast(wanted, j), kind);
      assert !ColumnMatches(l, project, row, WithLast(wanted, j), kind);
    }
  }

  // ---------- Distinct names ----------

  /** Every contributor of a list has a name, and no two the same. */
  ghost predicate DistinctlyNamed(entries: seq<Entry>) {
    && (forall i :: 0 <= i < |entries| ==> entries[i].name != "")
    && (forall i, j :: 0 <= i < j < |entries| ==> entries[i].name != entries[j].name)
  }

  lemma {:induction false} WantedNames(kind: Kind, entries: seq<Entry>)
    ensures forall w | w in WantedOf(kind, entries) :: w.kind == kind && exists i :: 0 <= i < |entries| && entries[i].name == w.name
  {
    if entries != [] {
      WantedNames(kind, entries[..|entries| - 1]);
      forall w | w in WantedOf(kind, entries)
        ensures w.kind == kind && exists i :: 0 <= i < |entries| && entries[i].name == w.name
      {
        if w in WantedOf(kind, entries[..|entries| - 1]) {
          var i :| 0 <= i < |entries| - 1 && entries[..|entries| - 1][i].name == w.name;
          assert entries[i].name == w.name;
        } else {
          assert entries[|entries| - 1].name == w.name;
        }
      }
    }
  }

  lemma {:induction false} DistinctWanted(kind: Kind, entries: seq<Entry>)
    requires DistinctlyNamed(entries)
    ensures NothingRepeated(WantedOf(kind, entries), kind)
  {
    if entries != [] {
      var prefix, last := entries[..|entries| - 1], entries[|entries| - 1];
      DistinctWanted(kind, prefix);
      WantedNames(kind, prefix);
      var before := WantedOf(kind, prefix);
      forall i | 0 <= i < |before|
        ensures before[i].name != last.name
      {
        assert before[i] in before;
      }
    }
  }

  lemma OtherKindsDoNotRepeat(a: seq<Wanted>, b: seq<Wanted>, kind: Kind)
    requires NothingRepeated(a, kind) || NothingRepeated(b, kind)
    requires (forall w | w in a :: w.kind != kind) || (forall w | w in b :: w.kind != kind)
    requires (forall w | w in a :: w.kind != kind) ==> NothingRepeated(b, kind)
    requires (forall w | w in b :: w.kind != kind) ==> NothingRepeated(a, kind)
    ensures NothingRepeated(a + b, kind)
  {
    forall i, j | 0 <= i < |a + b| && 0 <= j < |a + b| && i != j && Repeats((a + b)[i], (a + b)[j], kind)
      ensures (a + b)[i].amount == 0
    {
      if i < |a| {
        assert (a + b)[i] in a;
      } else {
        assert (a + b)[i] in b;
      }
      if j < |a| {
        assert (a + b)[j] in a;
      } else {
        assert (a + b)[j] in b;
      }
    }
  }

  lemma DistinctAllWanted(row: Row, kind: Kind)
    requires DistinctlyNamed(row.Entries(kind))
    ensures NothingRepeated(AllWanted(row), kind)
  {
    var a := WantedOf(PublicContributions, row.Entries(PublicContributions));
    var b := WantedOf(PrivateContributions, row.Entries(PrivateContributions));
    var c := WantedOf(OtherEaContributions, row.Entries(OtherEaContributions));
    WantedNames(PublicContributions, row.Entries(PublicContributions));
    WantedNames(PrivateContributions, row.Entries(PrivateContributions));
    WantedNames(OtherEaContributions, row.Entries(OtherEaContributions));
    DistinctWanted(kind, row.Entries(kind));
    OtherKindsDoNotRepeat(a, b, kind);
    OtherKindsDoNotRepeat(a + b, c, kind);
  }

  /** With distinct, non-empty contributor names of a kind the column always is the sum. */
  lemma DistinctNamesMatch(l: Ledger, project: Project, row: Row, order: seq<Wanted>, kind: Kind)
    requires row.Valid() && Blank(row.fields[kind.Column()]) && HasAnyAmount(Merged(row))
    requires DistinctlyNamed(row.Entries(kind)) && multiset(order) == multiset(AllWanted(row))
    ensures ColumnMatches(l, project, row, order, kind)
  {
    DistinctAllWanted(row, kind);
    ColumnMatchesInEveryOrderExactly(l, project, row, kind);
  }
}

/**
 * The two funding tables and the statements that change them
 * (src/plugins/projects/services/project-funding-*.js). A statement is one atomic step; the
 * unique keys of prisma/schema.prisma:224 and :249 are the keys of the two maps, and a statement
 * that would break one is refused.
 */
module FundingTables {
  import opened Wrappers

  type Project = int
  type Year = int
  type RowId = nat

  /** The fourteen amount columns, in the order of FUNDING_VALUE_AMOUNT_FIELD_MAP. */
  const COLUMN_COUNT: nat := 14
  const NO_AMOUNTS: seq<Option<int>> :=
    [None, None, None, None, None, None, None, None, None, None, None, None, None, None]
  type Columns = c: seq<Option<int>> | |c| == COLUMN_COUNT witness NO_AMOUNTS

  datatype Kind = PublicContributions | PrivateContributions | OtherEaContributions {
    /** The column that holds the sum of this kind's contributions. */
    function Column(): (i: nat)
      ensures i < COLUMN_COUNT
    {
      match this
      case PublicContributions => 3
      case PrivateContributions => 4
      case OtherEaContributions => 5
    }
  }

  /** recovery, summer_economic_fund and the five other additional grant-in-aid columns. */
  const ADDITIONAL_GIA_COLUMNS: set<nat> := {7, 8, 9, 10, 11, 12, 13}

  datatype FundingValue = FundingValue(id: RowId, columns: Columns, total: int)

  datatype Contributor = Contributor(amount: Option<int>, secured: bool, constrained: bool)

  const PLACEHOLDER := Contributor(None, false, false)

  datatype Key = Key(row: RowId, kind: Kind, name: string)

  datatype Ledger = Ledger(values: map<(Project, Year), FundingValue>, contributors: map<Key, Contributor>, nextId: RowId)

  function AmountOf(a: Option<int>): int {
    a.GetOr(0)
  }

  function SumColumns(columns: seq<Option<int>>): int {
    if columns == [] then 0 else AmountOf(columns[0]) + SumColumns(columns[1..])
  }

  // ---------- What a sound ledger is ----------

  ghost predicate TotalsAgree(l: Ledger) {
    forall k | k in l.values :: l.values[k].total == SumColumns(l.values[k].columns)
  }

  ghost predicate HasRow(l: Ledger, id: RowId) {
    exists k :: k in l.values && l.values[k].id == id
  }

  /** Row ids identify rows, and ids not yet handed out are not in use anywhere. */
  ghost predicate IdsIdentify(l: Ledger) {
    && (forall k | k in l.values :: l.values[k].id < l.nextId)
    && (forall k, k' | k in l.values && k' in l.values :: l.values[k].id == l.values[k'].id ==> k == k')
    && (forall c | c in l.contributors :: c.row < l.nextId)
  }

  ghost predicate NoOrphans(l: Ledger) {
    forall c | c in l.contributors :: HasRow(l, c.row)
  }

  ghost predicate Sound(l: Ledger) {
    TotalsAgree(l) && IdsIdentify(l) && NoOrphans(l)
  }

  // ---------- Statements ----------

  datatype Statement =
    | UpsertValue(project: Project, year: Year, columns: Columns, total: int)
    | CreateMissingValues(project: Project, years: seq<Year>)
    | ClearValues(ids: set<RowId>)
    | NullColumns(project: Project, nulled: set<nat>)
    | DeleteValues(ids: set<RowId>)
    | UpsertContributor(row: RowId, kind: Kind, name: string, amount: int)
    | CreateMissingContributors(ids: set<RowId>, kind: Kind, names: seq<string>)
    | ClearContributors(ids: set<RowId>)
    | RenameContributors(ids: set<RowId>, kind: Kind, from: string, to: string)
    | DeleteNamed(ids: set<RowId>, kind: Kind, name: string)
    | DeleteKind(ids: set<RowId>, kind: Kind)
    | DeleteStale(row: RowId, keep: set<(Kind, string)>)
    | DeleteContributors(ids: set<RowId>)

  function RowsOf(l: Ledger, project: Project): set<RowId> {
    set k | k in l.values && k.0 == project :: l.values[k].id
  }

  function Nulled(columns: Columns, nulled: set<nat>): Columns {
    seq(COLUMN_COUNT, i requires 0 <= i < COLUMN_COUNT => if i in nulled then None else columns[i])
  }

  /** A row that only just exists: no amounts, total zero. */
  function WithMissingValue(l: Ledger, project: Project, year: Year): Ledger {
    if (project, year) in l.values then l
    else l.(values := l.values[(project, year) := FundingValue(l.nextId, NO_AMOUNTS, 0)], nextId := l.nextId + 1)
  }

  function WithMissingValues(l: Ledger, project: Project, years: seq<Year>): Ledger
    decreases years
  {
    if years == [] then l else WithMissingValues(WithMissingValue(l, project, years[0]), project, years[1..])
  }

  function Upserted(l: Ledger, project: Project, year: Year, columns: Columns, total: int): Ledger {
    if (project, year) in l.values
    then l.(values := l.values[(project, year) := FundingValue(l.values[(project, year)].id, columns, total)])
    else l.(values := l.values[(project, year) := FundingValue(l.nextId, columns, total)], nextId := l.nextId + 1)
  }

  function WithNewAmount(c: Contributor, amount: Option<int>): Contributor {
    Contributor(amount, c.secured, c.constrained)
  }

  /** An upsert touches the amount only: secured and constrained survive. */
  function WithAmount(m: map<Key, Contributor>, key: Key, amount: int): map<Key, Contributor> {
    m[key := WithNewAmount(if key in m then m[key] else PLACEHOLDER, Some(amount))]
  }

  function Placed(ids: set<RowId>, kind: Kind, names: seq<string>): set<Key> {
    set id, name | id in ids && name in names :: Key(id, kind, name)
  }

  /** Where a contributor row ends up when `from` is renamed to `to`. */
  predicate Renames(ids: set<RowId>, kind: Kind, name: string, key: Key) {
    key.row in ids && key.kind == kind && key.name == name
  }

  function Renamed(m: map<Key, Contributor>, ids: set<RowId>, kind: Kind, from: string, to: string): map<Key, Contributor> {
    (map key | key in m && !Renames(ids, kind, from, key) :: m[key]) +
    (map key | key in m && Renames(ids, kind, from, key) :: Key(key.row, kind, to) := m[key])
  }

  /** A renamed row would land on one that is already there. */
  predicate Collides(m: map<Key, Contributor>, ids: set<RowId>, kind: Kind, from: string, to: string) {
    from != to && exists id | id in ids :: Key(id, kind, from) in m && Key(id, kind, to) in m
  }

  function ClearedValue(v: FundingValue): FundingValue {
    FundingValue(v.id, NO_AMOUNTS, 0)
  }

  function NulledValue(v: FundingValue, nulled: set<nat>): FundingValue {
    FundingValue(v.id, Nulled(v.columns, nulled), SumColumns(Nulled(v.columns, nulled)))
  }

  type Contributors = map<Key, Contributor>

  function WithCleared(l: Ledger, ids: set<RowId>): Ledger {
    Ledger(map k | k in l.values :: if l.values[k].id in ids then ClearedValue(l.values[k]) else l.values[k],
           l.contributors, l.nextId)
  }

  function WithNulled(l: Ledger, project: Project, nulled: set<nat>): Ledger {
    Ledger(map k | k in l.values :: if k.0 == project then NulledValue(l.values[k], nulled) else l.values[k],
           l.contributors, l.nextId)
  }

  function WithoutValues(l: Ledger, ids: set<RowId>): Ledger {
    Ledger(map k | k in l.values && l.values[k].id !in ids :: l.values[k], l.contributors, l.nextId)
  }

  function WithPlaceholders(m: Contributors, keys: set<Key>): Contributors {
    (map key | key in keys :: PLACEHOLDER) + m
  }

  function WithoutAmounts(m: Contributors, ids: set<RowId>): Contributors {
    map key | key in m :: if key.row in ids then WithNewAmount(m[key], None) else m[key]
  }

  function WithoutNamed(m: Contributors, ids: set<RowId>, kind: Kind, name: string): Contributors {
    map key | key in m && !Renames(ids, kind, name, key) :: m[key]
  }

  function WithoutKind(m: Contributors, ids: set<RowId>, kind: Kind): Contributors {
    map key | key in m && !(key.row in ids && key.kind == kind) :: m[key]
  }

  function WithoutStale(m: Contributors, row: RowId, keep: set<(Kind, string)>): Contributors {
    map key | key in m && (key.row == row ==> (key.kind, key.name) in keep) :: m[key]
  }

  function WithoutRows(m: Contributors, ids: set<RowId>): Contributors {
    map key | key in m && key.row !in ids :: m[key]
  }

  /** The tables after a statement, or None when the database refuses it. */
  function Exec(l: Ledger, s: Statement): Option<Ledger> {
    match s
    case UpsertValue(project, year, columns, total) => Some(Upserted(l, project, year, columns, total))
    case CreateMissingValues(project, years) => Some(WithMissingValues(l, project, years))
    case ClearValues(ids) => Some(WithCleared(l, ids))
    case NullColumns(project, nulled) => Some(WithNulled(l, project, nulled))
    case DeleteValues(ids) => Some(WithoutValues(l, ids))
    case UpsertContributor(row, kind, name, amount) =>
      Some(l.(contributors := WithAmount(l.contributors, Key(row, kind, name), amount)))
    case CreateMissingContributors(ids, kind, names) =>
      Some(l.(contributors := WithPlaceholders(l.contributors, Placed(ids, kind, names))))
    case ClearContributors(ids) => Some(l.(contributors := WithoutAmounts(l.contributors, ids)))
    case RenameContributors(ids, kind, from, to) =>
      if Collides(l.contributors, ids, kind, from, to) then None
      else Some(l.(contributors := Renamed(l.contributors, ids, kind, from, to)))
    case DeleteNamed(ids, kind, name) => Some(l.(contributors := WithoutNamed(l.contributors, ids, kind, name)))
    case DeleteKind(ids, kind) => Some(l.(contributors := WithoutKind(l.contributors, ids, kind)))
    case DeleteStale(row, keep) => Some(l.(contributors := WithoutStale(l.contributors, row, keep)))
    case DeleteContributors(ids) => Some(l.(contributors := WithoutRows(l.contributors, ids)))
  }

  // ---------- Which statements keep a ledger sound ----------

  predicate AllBelow(ids: set<RowId>, n: nat) {
    forall id | id in ids :: id < n
  }

  ghost predicate AllHaveRows(l: Ledger, ids: set<RowId>) {
    forall id | id in ids :: HasRow(l, id)
  }

  predicate NoContributorsIn(l: Ledger, ids: set<RowId>) {
    forall c | c in l.contributors :: c.row !in ids
  }

  /** The ids a statement carries were read from the tables earlier. */
  predicate KnowsIds(l: Ledger, s: Statement) {
    match s
    case UpsertContributor(row, _, _, _) => row < l.nextId
    case CreateMissingContributors(ids, _, _) => AllBelow(ids, l.nextId)
    case _ => true
  }

  /** The ways in which a single statement could leave a contributor without its row, and does not. */
  ghost predicate KeepsRows(l: Ledger, s: Statement) {
    match s
    case DeleteValues(ids) => NoContributorsIn(l, ids)
    case UpsertContributor(row, _, _, _) => HasRow(l, row)
    case CreateMissingContributors(ids, _, names) => names == [] || AllHaveRows(l, ids)
    case _ => true
  }

  lemma {:induction false} SumOfNothing(columns: seq<Option<int>>)
    requires forall i :: 0 <= i < |columns| ==> columns[i] == None
    ensures SumColumns(columns) == 0
  {
    if columns != [] {
      SumOfNothing(columns[1..]);
    }
  }

  /** `after` holds everything `before` does, with empty rows added at the project's listed years. */
  ghost predicate AddsEmptyRows(before: Ledger, after: Ledger, project: Project, years: seq<Year>) {
    && after.contributors == before.contributors && before.nextId <= after.nextId
    && (forall k :: k in after.values <==> k in before.values || (k.0 == project && k.1 in years))
    && (forall k | k in before.values :: after.values[k] == before.values[k])
    && (forall k | k in after.values && k !in before.values ::
          after.values[k].columns == NO_AMOUNTS && after.values[k].total == 0)
  }

  lemma MissingValueAdds(l: Ledger, project: Project, year: Year)
    ensures AddsEmptyRows(l, WithMissingValue(l, project, year), project, [year])
  {
  }

  lemma MissingValueKeepsTotals(l: Ledger, project: Project, year: Year)
    requires TotalsAgree(l)
    ensures TotalsAgree(WithMissingValue(l, project, year))
  {
    SumOfNothing(NO_AMOUNTS);
  }

  lemma MissingValueKeepsIds(l: Ledger, project: Project, year: Year)
    requires IdsIdentify(l)
    ensures IdsIdentify(WithMissingValue(l, project, year))
  {
  }

  lemma {:induction false} MissingValuesAdd(l: Ledger, project: Project, years: seq<Year>)
    ensures AddsEmptyRows(l, WithMissingValues(l, project, years), project, years)
    ensures TotalsAgree(l) ==> TotalsAgree(WithMissingValues(l, project, years))
    ensures IdsIdentify(l) ==> IdsIdentify(WithMissingValues(l, project, years))
    decreases years
  {
    if years != [] {
      MissingValueAdds(l, project, years[0]);
      if TotalsAgree(l) { MissingValueKeepsTotals(l, project, years[0]); }
      if IdsIdentify(l) { MissingValueKeepsIds(l, project, years[0]); }
      MissingValuesAdd(WithMissingValue(l, project, years[0]), project, years[1..]);
      assert forall y :: y in years <==> y == years[0] || y in years[1..];
    }
  }

  lemma HasRowIn(l: Ledger, id: RowId, k: (Project, Year))
    requires k in l.values && l.values[k].id == id
    ensures HasRow(l, id)
  {
  }

  /** Totals survive every statement whose own total is right. */
  lemma ExecKeepsTotals(l: Ledger, s: Statement)
    requires TotalsAgree(l) && Exec(l, s).Some?
    requires s.UpsertValue? ==> s.total == SumColumns(s.columns)
    ensures TotalsAgree(Exec(l, s).value)
  {
    match s
    case CreateMissingValues(project, years) => MissingValuesAdd(l, project, years);
    case ClearValues(ids) => ClearedKeepsTotals(l, ids);
    case _ =>
  }

  lemma ClearedKeepsTotals(l: Ledger, ids: set<RowId>)
    requires TotalsAgree(l)
    ensures TotalsAgree(WithCleared(l, ids))
  {
  }

  /** The amounts in some of the columns, counted from column `from` on. */
  function SumIn(columns: seq<Option<int>>, chosen: set<nat>, from: nat): int
    decreases |columns| - from
  {
    if from >= |columns| then 0
    else (if from in chosen then AmountOf(columns[from]) else 0) + SumIn(columns, chosen, from + 1)
  }

  lemma {:induction false} NullingSubtracts(columns: Columns, nulled: set<nat>, from: nat)
    requires from <= COLUMN_COUNT
    ensures SumColumns(Nulled(columns, nulled)[from..]) == SumColumns(columns[from..]) - SumIn(columns, nulled, from)
    decreases COLUMN_COUNT - from
  {
    if from < COLUMN_COUNT {
      NullingSubtracts(columns, nulled, from + 1);
      assert Nulled(columns, nulled)[from..][1..] == Nulled(columns, nulled)[from + 1..];
      assert columns[from..][1..] == columns[from + 1..];
    }
  }

  /** Nulling columns takes their amounts off a right total, and leaves other columns and projects alone. */
  lemma NullColumnsExactly(l: Ledger, project: Project, nulled: set<nat>, k: (Project, Year))
    requires TotalsAgree(l) && k in l.values
    ensures var l' := WithNulled(l, project, nulled);
            && l'.contributors == l.contributors && k in l'.values
            && (k.0 != project ==> l'.values[k] == l.values[k])
            && (k.0 == project ==>
                  && l'.values[k].id == l.values[k].id
                  && l'.values[k].total == l.values[k].total - SumIn(l.values[k].columns, nulled, 0)
                  && forall i :: 0 <= i < COLUMN_COUNT ==>
                       l'.values[k].columns[i] == if i in nulled then None else l.values[k].columns[i])
  {
    var columns := l.values[k].columns;
    NullingSubtracts(columns, nulled, 0);
    assert columns[0..] == columns && Nulled(columns, nulled)[0..] == Nulled(columns, nulled);
  }

  lemma ExecKeepsIds(l: Ledger, s: Statement)
    requires IdsIdentify(l) && KnowsIds(l, s) && Exec(l, s).Some?
    ensures IdsIdentify(Exec(l, s).value)
  {
    match s
    case CreateMissingValues(project, years) => MissingValuesAdd(l, project, years);
    case RenameContributors(ids, kind, from, to) => RenamedKeepsIds(l, ids, kind, from, to);
    case _ =>
  }

  lemma RenamedKeepsIds(l: Ledger, ids: set<RowId>, kind: Kind, from: string, to: string)
    requires IdsIdentify(l)
    ensures IdsIdentify(Ledger(l.values, Renamed(l.contributors, ids, kind, from, to), l.nextId))
  {
  }

  lemma {:induction false} MissingValuesKeepRow(l: Ledger, project: Project, years: seq<Year>, id: RowId)
    requires HasRow(l, id)
    ensures HasRow(WithMissingValues(l, project, years), id)
    decreases years
  {
    if years != [] {
      var k :| k in l.values && l.values[k].id == id;
      HasRowIn(WithMissingValue(l, project, years[0]), id, k);
      MissingValuesKeepRow(WithMissingValue(l, project, years[0]), project, years[1..], id);
    }
  }

  lemma ExecKeepsRow(l: Ledger, s: Statement, id: RowId)
    requires HasRow(l, id) && Exec(l, s).Some?
    requires s.DeleteValues? ==> id !in s.ids
    ensures HasRow(Exec(l, s).value, id)
  {
    var k :| k in l.values && l.values[k].id == id;
    match s
    case CreateMissingValues(project, years) => MissingValuesKeepRow(l, project, years, id);
    case _ => HasRowIn(Exec(l, s).value, id, k);
  }

  /**
   * After a statement on a sound ledger every contributor still has its row if and only if the
   * statement deletes no row in use and creates no contributor for a row that is gone.
   */
  lemma ExecKeepsRows(l: Ledger, s: Statement)
    requires Sound(l) && Exec(l, s).Some?
    ensures NoOrphans(Exec(l, s).value) <==> KeepsRows(l, s)
  {
    var l' := Exec(l, s).value;
    if KeepsRows(l, s) {
      forall c | c in l'.contributors
        ensures HasRow(l', c.row)
      {
        ContributorRowBefore(l, s, c);
        ExecKeepsRow(l, s, c.row);
      }
    } else {
      BrokenRow(l, s);
    }
  }

  /** A contributor that is there after a harmless statement refers to a row that was there before. */
  lemma ContributorRowBefore(l: Ledger, s: Statement, c: Key)
    requires Sound(l) && Exec(l, s).Some? && KeepsRows(l, s) && c in Exec(l, s).value.contributors
    ensures HasRow(l, c.row) && (s.DeleteValues? ==> c.row !in s.ids)
  {
    match s
    case CreateMissingValues(project, years) => MissingValuesAdd(l, project, years);
    case RenameContributors(ids, kind, from, to) =>
      if c !in l.contributors {
        assert Key(c.row, kind, from) in l.contributors;
      }
    case _ =>
  }

  lemma BrokenRow(l: Ledger, s: Statement)
    requires Sound(l) && Exec(l, s).Some? && !KeepsRows(l, s)
    ensures !NoOrphans(Exec(l, s).value)
  {
    var l' := Exec(l, s).value;
    match s
    case DeleteValues(ids) =>
      var c :| c in l.contributors && c.row in ids;
      assert c in l'.contributors;
    case UpsertContributor(row, kind, name, _) =>
      assert Key(row, kind, name) in l'.contributors;
      assert HasRow(l', row) ==> HasRow(l, row);
    case CreateMissingContributors(ids, kind, names) =>
      var id :| id in ids && !HasRow(l, id);
      assert Key(id, kind, names[0]) in Placed(ids, kind, names);
      assert Key(id, kind, names[0]) in l'.contributors;
      assert HasRow(l', id) ==> HasRow(l, id);
    case _ =>
  }

  /** What one statement has to satisfy for a sound ledger to stay sound. */
  ghost predicate Safe(l: Ledger, s: Statement) {
    && Exec(l, s).Some? && KnowsIds(l, s) && KeepsRows(l, s)
    && (s.UpsertValue? ==> s.total == SumColumns(s.columns))
  }

  lemma SafeKeepsSound(l: Ledger, s: Statement)
    requires Sound(l) && Safe(l, s)
    ensures Sound(Exec(l, s).value)
  {
    ExecKeepsTotals(l, s);
    ExecKeepsIds(l, s);
    ExecKeepsRows(l, s);
  }

  /**
   * Two requests that overlap can still orphan a contributor, whatever the ledger: one deletes a row in
   * its two statements, and between them another adds a contributor to the row it had looked up before.
   * Each of the first two statements is harmless where it runs.
   */
  lemma OverlapOrphans(l: Ledger, id: RowId, kind: Kind, name: string)
    requires Sound(l) && HasRow(l, id)
    ensures Safe(l, DeleteContributors({id}))
    ensures var l1 := Exec(l, DeleteContributors({id})).value;
            && Safe(l1, DeleteValues({id}))
            && Safe(l1, CreateMissingContributors({id}, kind, [name]))
            && var l2 := Exec(l1, CreateMissingContributors({id}, kind, [name])).value;
               !NoOrphans(Exec(l2, DeleteValues({id})).value)
  {
    SafeKeepsSound(l, DeleteContributors({id}));
    var l1 := Exec(l, DeleteContributors({id})).value;
    ExecKeepsRow(l, DeleteContributors({id}), id);
    SafeKeepsSound(l1, CreateMissingContributors({id}, kind, [name]));
    var l2 := Exec(l1, CreateMissingContributors({id}, kind, [name])).value;
    assert Key(id, kind, name) in Placed({id}, kind, [name]);
    assert Key(id, kind, name) in l2.contributors;
    BrokenRow(l2, DeleteValues({id}));
  }
}

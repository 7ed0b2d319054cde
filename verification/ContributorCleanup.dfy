/**
 * Editing the list of contributor names (cleanupContributorsByName in
 * src/plugins/projects/services/project-funding-contributors-service.js). The statements of a
 * clean-up are issued together and the database may run them in any order.
 */
module ContributorCleanup {
  import opened Wrappers
  import opened JsMaps
  import opened MapSums
  import opened FundingTables

  /** One clean-up: the project's rows, the kind, the names to take away and those to bring in. */
  datatype Edit = Edit(ids: set<RowId>, kind: Kind, removed: seq<string>, added: seq<string>) {
    predicate Covers(key: Key) {
      key.row in ids && key.kind == kind
    }
  }

  function NamesIn(m: Contributors, ids: set<RowId>, kind: Kind): set<string> {
    set key | key in m && key.row in ids && key.kind == kind :: key.name
  }

  /** `removed` and `added` list, in some order, the names the table has too many and too few. */
  ghost predicate IsEditOf(e: Edit, m: Contributors, current: seq<string>) {
    && Distinct(e.removed) && Distinct(e.added)
    && (forall n :: n in e.removed <==> n in NamesIn(m, e.ids, e.kind) && n !in current)
    && (forall n :: n in e.added <==> n in current && n !in NamesIn(m, e.ids, e.kind))
  }

  /** Each removed name is paired with an added one as long as there are any, else it is deleted. */
  function Change(e: Edit, i: nat): Statement
    requires i < |e.removed|
  {
    if i < |e.added| then RenameContributors(e.ids, e.kind, e.removed[i], e.added[i])
    else DeleteNamed(e.ids, e.kind, e.removed[i])
  }

  /** The contributor table after that statement. */
  function Changed(m: Contributors, e: Edit, i: nat): Option<Contributors>
    requires i < |e.removed|
  {
    if i >= |e.added| then Some(WithoutNamed(m, e.ids, e.kind, e.removed[i]))
    else if Collides(m, e.ids, e.kind, e.removed[i], e.added[i]) then None
    else Some(Renamed(m, e.ids, e.kind, e.removed[i], e.added[i]))
  }

  lemma ExecChange(l: Ledger, e: Edit, i: nat)
    requires i < |e.removed|
    ensures Exec(l, Change(e, i)) ==
            match Changed(l.contributors, e, i)
            case None => None
            case Some(m) => Some(l.(contributors := m))
  {
  }

  predicate Below(order: seq<nat>, n: nat) {
    forall p :: 0 <= p < |order| ==> order[p] < n
  }

  /** The changes made in the given order; None when a statement is refused. */
  function RunChanges(m: Contributors, e: Edit, order: seq<nat>): Option<Contributors>
    requires Below(order, |e.removed|)
  {
    if order == [] then Some(m)
    else
      match RunChanges(m, e, order[..|order| - 1])
      case None => None
      case Some(m1) => Changed(m1, e, order[|order| - 1])
  }

  function IndexOf(names: seq<string>, name: string): (i: int)
    ensures i == -1 <==> name !in names
    ensures i != -1 ==> 0 <= i < |names| && names[i] == name
  {
    if names == [] then -1
    else if names[0] == name then 0
    else var i := IndexOf(names[1..], name); if i == -1 then -1 else i + 1
  }

  /**
   * Where a contributor row with this key comes from once the changes in `done` have been made:
   * from nowhere, from the row that bore the removed name, or from itself.
   */
  function Source(e: Edit, done: set<nat>, key: Key): Option<Key> {
    var r, a := IndexOf(e.removed, key.name), IndexOf(e.added, key.name);
    if !e.Covers(key) then Some(key)
    else if r >= 0 && r in done then None
    else if 0 <= a < |e.removed| && a in done then Some(Key(key.row, e.kind, e.removed[a]))
    else Some(key)
  }

  /** `after` is exactly what the changes in `done` make of `before`. */
  ghost predicate Cleaned(before: Contributors, after: Contributors, e: Edit, done: set<nat>) {
    forall key: Key :: ComesFrom(before, after, key, Source(e, done, key))
  }

  predicate ComesFrom(before: Contributors, after: Contributors, key: Key, source: Option<Key>) {
    && (key in after <==> source.Some? && source.value in before)
    && (key in after ==> after[key] == before[source.value])
  }

  lemma CleanedAt(before: Contributors, after: Contributors, e: Edit, done: set<nat>, key: Key)
    requires Cleaned(before, after, e, done)
    ensures ComesFrom(before, after, key, Source(e, done, key))
  {
  }

  lemma IndexOfDistinct(names: seq<string>, i: nat)
    requires Distinct(names) && i < |names|
    ensures IndexOf(names, names[i]) == i
  {
  }

  lemma RenameCleans(before: Contributors, m: Contributors, e: Edit, done: set<nat>, i: nat)
    requires Distinct(e.removed) && Distinct(e.added) && (forall n | n in e.added :: n !in e.removed)
    requires Cleaned(before, m, e, done)
    requires i < |e.removed| && i < |e.added| && i !in done
    requires forall id | id in e.ids :: Key(id, e.kind, e.added[i]) !in m
    ensures Cleaned(before, Renamed(m, e.ids, e.kind, e.removed[i], e.added[i]), e, done + {i})
  {
    var m' := Renamed(m, e.ids, e.kind, e.removed[i], e.added[i]);
    IndexOfDistinct(e.removed, i);
    IndexOfDistinct(e.added, i);
    forall key: Key
      ensures ComesFrom(before, m', key, Source(e, done + {i}, key))
    {
      CleanedAt(before, m, e, done, key);
      if e.Covers(key) && key.name == e.added[i] {
        var from := Key(key.row, e.kind, e.removed[i]);
        CleanedAt(before, m, e, done, from);
        assert key in m' <==> from in m;
      }
    }
  }

  lemma DeleteCleans(before: Contributors, m: Contributors, e: Edit, done: set<nat>, i: nat)
    requires Distinct(e.removed) && Cleaned(before, m, e, done)
    requires |e.added| <= i < |e.removed| && i !in done
    ensures Cleaned(before, WithoutNamed(m, e.ids, e.kind, e.removed[i]), e, done + {i})
  {
    IndexOfDistinct(e.removed, i);
    forall key: Key
      ensures ComesFrom(before, WithoutNamed(m, e.ids, e.kind, e.removed[i]), key, Source(e, done + {i}, key))
    {
      CleanedAt(before, m, e, done, key);
    }
  }

  /** An added name is free, and a removed name still stands where it stood, until its own change. */
  lemma NamesUntouched(before: Contributors, m: Contributors, e: Edit, current: seq<string>, done: set<nat>, i: nat, id: RowId)
    requires IsEditOf(e, before, current) && Cleaned(before, m, e, done)
    requires i < |e.removed| && i !in done && id in e.ids
    ensures i < |e.added| ==> Key(id, e.kind, e.added[i]) !in m
    ensures ComesFrom(before, m, Key(id, e.kind, e.removed[i]), Some(Key(id, e.kind, e.removed[i])))
  {
    IndexOfDistinct(e.removed, i);
    CleanedAt(before, m, e, done, Key(id, e.kind, e.removed[i]));
    if i < |e.added| {
      IndexOfDistinct(e.added, i);
      var key := Key(id, e.kind, e.added[i]);
      CleanedAt(before, m, e, done, key);
      assert key in before ==> key.name in NamesIn(before, e.ids, e.kind);
    }
  }

  lemma ChangeCleans(before: Contributors, m: Contributors, e: Edit, current: seq<string>, done: set<nat>, i: nat)
    requires IsEditOf(e, before, current) && Cleaned(before, m, e, done)
    requires i < |e.removed| && i !in done
    ensures Changed(m, e, i).Some? && Cleaned(before, Changed(m, e, i).value, e, done + {i})
  {
    forall id | id in e.ids
      ensures i < |e.added| ==> Key(id, e.kind, e.added[i]) !in m
    {
      NamesUntouched(before, m, e, current, done, i, id);
    }
    if i < |e.added| {
      RenameCleans(before, m, e, done, i);
    } else {
      DeleteCleans(before, m, e, done, i);
    }
  }

  function Members(order: seq<nat>): set<nat> {
    set i | i in order
  }

  lemma LastIsNew(order: seq<nat>)
    requires order != [] && Distinct(order)
    ensures var prefix, last := order[..|order| - 1], order[|order| - 1];
            Distinct(prefix) && last !in Members(prefix) && Members(order) == Members(prefix) + {last}
  {
  }

  /** In whatever order the changes run, none is refused, and the table is the one that Source describes. */
  lemma {:induction false} ChangesCommute(m: Contributors, e: Edit, current: seq<string>, order: seq<nat>)
    requires IsEditOf(e, m, current) && Distinct(order) && Below(order, |e.removed|)
    ensures RunChanges(m, e, order).Some? && Cleaned(m, RunChanges(m, e, order).value, e, Members(order))
    decreases |order|
  {
    if order != [] {
      var prefix, i := order[..|order| - 1], order[|order| - 1];
      LastIsNew(order);
      ChangesCommute(m, e, current, prefix);
      ChangeCleans(m, RunChanges(m, e, prefix).value, e, current, Members(prefix), i);
    }
  }

  lemma CleanedUnique(before: Contributors, a: Contributors, b: Contributors, e: Edit, done: set<nat>)
    requires Cleaned(before, a, e, done) && Cleaned(before, b, e, done)
    ensures a == b
  {
    forall key: Key
      ensures key in a <==> key in b
      ensures key in a ==> a[key] == b[key]
    {
      CleanedAt(before, a, e, done, key);
      CleanedAt(before, b, e, done, key);
    }
  }

  // ---------- What a complete clean-up leaves ----------

  ghost predicate Complete(order: seq<nat>, n: nat) {
    && Distinct(order) && Below(order, n)
    && forall i | 0 <= i < n :: i in order
  }

  function InOrder(n: nat): seq<nat> {
    if n == 0 then [] else InOrder(n - 1) + [n - 1]
  }

  lemma {:induction false} InOrderComplete(n: nat)
    ensures |InOrder(n)| == n && Complete(InOrder(n), n)
    ensures forall i :: 0 <= i < n ==> InOrder(n)[i] == i
  {
    if n > 0 {
      InOrderComplete(n - 1);
    }
  }

  /** Every complete order leaves the table that the order of issue leaves. */
  lemma OrderIsIrrelevant(m: Contributors, e: Edit, current: seq<string>, order: seq<nat>)
    requires IsEditOf(e, m, current) && Complete(order, |e.removed|)
    ensures Below(InOrder(|e.removed|), |e.removed|)
    ensures RunChanges(m, e, order).Some?
    ensures RunChanges(m, e, order) == RunChanges(m, e, InOrder(|e.removed|))
  {
    InOrderComplete(|e.removed|);
    ChangesCommute(m, e, current, order);
    ChangesCommute(m, e, current, InOrder(|e.removed|));
    assert Members(order) == Members(InOrder(|e.removed|));
    CleanedUnique(m, RunChanges(m, e, order).value, RunChanges(m, e, InOrder(|e.removed|)).value, e, Members(order));
  }

  /** Only current names are left for the kind, and rows that bore one are as they were. */
  lemma OnlyCurrentNamesLeft(m: Contributors, e: Edit, current: seq<string>, order: seq<nat>, key: Key)
    requires IsEditOf(e, m, current) && Complete(order, |e.removed|)
    ensures RunChanges(m, e, order).Some?
    ensures var m' := RunChanges(m, e, order).value;
            && (e.Covers(key) && key in m' ==> key.name in current)
            && (key in m && (e.Covers(key) ==> key.name in current) ==> key in m' && m'[key] == m[key])
  {
    ChangesCommute(m, e, current, order);
    CleanedAt(m, RunChanges(m, e, order).value, e, Members(order), key);
    if e.Covers(key) {
      assert key in m ==> key.name in NamesIn(m, e.ids, e.kind);
      var r := IndexOf(e.removed, key.name);
      assert r >= 0 ==> r in order;
    }
  }

  // ---------- Amounts are conserved ----------

  function NamesAt(m: Contributors, row: RowId, kind: Kind): set<string> {
    set key | key in m && key.row == row && key.kind == kind :: key.name
  }

  function AmountAt(m: Contributors, key: Key): int {
    if key in m then AmountOf(m[key].amount) else 0
  }

  /** The amounts that one row's contributors of one kind hold, by name; no amount counts as zero. */
  function AmountsOf(m: Contributors, row: RowId, kind: Kind): map<string, int> {
    map name | name in NamesAt(m, row, kind) :: AmountAt(m, Key(row, kind, name))
  }

  lemma NameAt(m: Contributors, row: RowId, kind: Kind, name: string)
    ensures name in AmountsOf(m, row, kind) <==> Key(row, kind, name) in m
  {
  }

  lemma SameAmounts(m: Contributors, m': Contributors, row: RowId, kind: Kind)
    requires forall name :: Key(row, kind, name) in m <==> Key(row, kind, name) in m'
    requires forall name | Key(row, kind, name) in m :: m[Key(row, kind, name)] == m'[Key(row, kind, name)]
    ensures AmountsOf(m, row, kind) == AmountsOf(m', row, kind)
  {
  }

  lemma RenamedAmount(m: Contributors, e: Edit, from: string, to: string, row: RowId, name: string)
    requires from != to && row in e.ids && Key(row, e.kind, from) in m && Key(row, e.kind, to) !in m
    ensures from in AmountsOf(m, row, e.kind)
    ensures var before, after := AmountsOf(m, row, e.kind), AmountsOf(Renamed(m, e.ids, e.kind, from, to), row, e.kind);
            var moved := (before - {from})[to := before[from]];
            (name in after <==> name in moved) && (name in after ==> after[name] == moved[name])
  {
    var m' := Renamed(m, e.ids, e.kind, from, to);
    NameAt(m, row, e.kind, from);
    NameAt(m, row, e.kind, name);
    NameAt(m', row, e.kind, name);
    assert Key(row, e.kind, name) in m' <==> name == to || (name != from && Key(row, e.kind, name) in m);
  }

  lemma RenameConserves(m: Contributors, e: Edit, from: string, to: string, row: RowId)
    requires from != to && !Collides(m, e.ids, e.kind, from, to) && row in e.ids
    ensures Sum(AmountsOf(Renamed(m, e.ids, e.kind, from, to), row, e.kind)) == Sum(AmountsOf(m, row, e.kind))
  {
    var m' := Renamed(m, e.ids, e.kind, from, to);
    if Key(row, e.kind, from) in m {
      var before, after := AmountsOf(m, row, e.kind), AmountsOf(m', row, e.kind);
      assert Key(row, e.kind, to) !in m;
      NameAt(m, row, e.kind, from);
      NameAt(m, row, e.kind, to);
      SumRekeyed(before, from, to);
      forall name: string
        ensures name in after <==> name in (before - {from})[to := before[from]]
        ensures name in after ==> after[name] == (before - {from})[to := before[from]][name]
      {
        RenamedAmount(m, e, from, to, row, name);
      }
      assert after == (before - {from})[to := before[from]];
    } else {
      SameAmounts(m, m', row, e.kind);
    }
  }

  lemma DeletionDrops(m: Contributors, e: Edit, name: string, row: RowId)
    requires row in e.ids
    ensures Sum(AmountsOf(WithoutNamed(m, e.ids, e.kind, name), row, e.kind)) ==
            Sum(AmountsOf(m, row, e.kind)) - AmountAt(m, Key(row, e.kind, name))
  {
    var m' := WithoutNamed(m, e.ids, e.kind, name);
    var before, after := AmountsOf(m, row, e.kind), AmountsOf(m', row, e.kind);
    forall n: string
      ensures n in after <==> n in before && n != name
    {
      NameAt(m, row, e.kind, n);
      NameAt(m', row, e.kind, n);
    }
    assert after == before - {name};
    NameAt(m, row, e.kind, name);
    if name in before {
      SumWithout(before, name);
    } else {
      assert before - {name} == before;
    }
  }

  function SumAt(m: Contributors, row: RowId, kind: Kind, names: seq<string>): int {
    if names == [] then 0
    else SumAt(m, row, kind, names[..|names| - 1]) + AmountAt(m, Key(row, kind, names[|names| - 1]))
  }

  /** Of the first n removed names, those that find no added name. */
  function Unpaired(e: Edit, n: nat): seq<string>
    requires n <= |e.removed|
  {
    if n <= |e.added| then [] else e.removed[|e.added|..n]
  }

  lemma UnpairedGrows(m: Contributors, e: Edit, row: RowId, n: nat)
    requires n < |e.removed|
    ensures SumAt(m, row, e.kind, Unpaired(e, n + 1)) ==
            SumAt(m, row, e.kind, Unpaired(e, n)) +
            (if n < |e.added| then 0 else AmountAt(m, Key(row, e.kind, e.removed[n])))
  {
    if n >= |e.added| {
      var names := Unpaired(e, n + 1);
      assert names[..|names| - 1] == Unpaired(e, n);
    }
  }

  lemma InOrderPrefix(n: nat)
    ensures InOrder(n + 1)[..|InOrder(n + 1)| - 1] == InOrder(n)
  {
  }

  lemma {:induction false} ConservedInOrder(m: Contributors, e: Edit, current: seq<string>, n: nat, row: RowId)
    requires IsEditOf(e, m, current) && n <= |e.removed| && row in e.ids
    ensures Below(InOrder(n), |e.removed|) && RunChanges(m, e, InOrder(n)).Some?
    ensures Sum(AmountsOf(RunChanges(m, e, InOrder(n)).value, row, e.kind)) ==
            Sum(AmountsOf(m, row, e.kind)) - SumAt(m, row, e.kind, Unpaired(e, n))
    decreases n
  {
    InOrderComplete(n);
    if n > 0 {
      ConservedInOrder(m, e, current, n - 1, row);
      var m1 := RunChanges(m, e, InOrder(n - 1)).value;
      StepConserves(m, m1, e, current, n - 1, row);
      InOrderPrefix(n - 1);
      assert RunChanges(m, e, InOrder(n)) == Changed(m1, e, n - 1);
      UnpairedGrows(m, e, row, n - 1);
    }
  }

  /** The next change keeps the sum, or drops the amount that the deleted row had from the start. */
  lemma StepConserves(m: Contributors, m1: Contributors, e: Edit, current: seq<string>, i: nat, row: RowId)
    requires IsEditOf(e, m, current) && i < |e.removed| && row in e.ids
    requires Below(InOrder(i), |e.removed|) && RunChanges(m, e, InOrder(i)) == Some(m1)
    ensures Changed(m1, e, i).Some?
    ensures Sum(AmountsOf(Changed(m1, e, i).value, row, e.kind)) ==
            Sum(AmountsOf(m1, row, e.kind)) -
            (if i < |e.added| then 0 else AmountAt(m, Key(row, e.kind, e.removed[i])))
  {
    InOrderComplete(i);
    ChangesCommute(m, e, current, InOrder(i));
    ChangeCleans(m, m1, e, current, Members(InOrder(i)), i);
    NamesUntouched(m, m1, e, current, Members(InOrder(i)), i, row);
    if i < |e.added| {
      assert e.removed[i] in e.removed && e.added[i] in e.added;
      RenameConserves(m1, e, e.removed[i], e.added[i], row);
    } else {
      DeletionDrops(m1, e, e.removed[i], row);
    }
  }

  /**
   * A clean-up takes from each row's contributions exactly the amounts under the removed names that
   * found no added name to become.
   */
  lemma CleanupConserves(m: Contributors, e: Edit, current: seq<string>, order: seq<nat>, row: RowId)
    requires IsEditOf(e, m, current) && Complete(order, |e.removed|) && row in e.ids
    ensures RunChanges(m, e, order).Some?
    ensures Sum(AmountsOf(RunChanges(m, e, order).value, row, e.kind)) ==
            Sum(AmountsOf(m, row, e.kind)) - SumAt(m, row, e.kind, Unpaired(e, |e.removed|))
  {
    OrderIsIrrelevant(m, e, current, order);
    ConservedInOrder(m, e, current, |e.removed|, row);
  }
}

/**
 * Assigning areas to an account (src/plugins/accounts/services/account-upsert-service.js): the
 * stored rows are replaced only when a sorted and joined text of them differs from that of the new ones.
 */
module AccountAreas {
  import opened Wrappers
  import Decimal
  import Texts
  import Sorting

  /** A stored row or a requested area; primary may be absent in either. */
  datatype Assignment = Assignment(areaId: nat, primary: Option<bool>) {
    /** What the assignment means: an absent primary is false. */
    function Plain(): (nat, bool) {
      (areaId, primary.GetOr(false))
    }
  }

  function Label(a: (nat, bool)): string {
    Decimal.ToString(a.0) + ":" + (if a.1 then "true" else "false")
  }

  function PlainAll(areas: seq<Assignment>): seq<(nat, bool)> {
    seq(|areas|, i requires 0 <= i < |areas| => areas[i].Plain())
  }

  function Labels(areas: seq<(nat, bool)>): seq<string> {
    seq(|areas|, i requires 0 <= i < |areas| => Label(areas[i]))
  }

  /** The default order of Array.prototype.sort: by code units, a prefix first. */
  predicate TextLeq(a: string, b: string) {
    a == [] || (b != [] && (a[0] < b[0] || (a[0] == b[0] && TextLeq(a[1..], b[1..]))))
  }

  function Join(parts: seq<string>): string {
    if parts == [] then "" else if |parts| == 1 then parts[0] else parts[0] + "|" + Join(parts[1..])
  }

  function CreateAreaSet(areas: seq<Assignment>): string {
    Join(Sorting.Sort(Labels(PlainAll(areas)), TextLeq))
  }

  predicate HasAreaChanges(existing: seq<Assignment>, requested: seq<Assignment>) {
    |existing| != |requested| || CreateAreaSet(existing) != CreateAreaSet(requested)
  }

  // ---------- The text order ----------

  lemma {:induction false} TextLeqTotal(a: string, b: string)
    ensures TextLeq(a, b) || TextLeq(b, a)
  {
    if a != [] && b != [] && a[0] == b[0] {
      TextLeqTotal(a[1..], b[1..]);
    }
  }

  lemma {:induction false} TextLeqTransitive(a: string, b: string, c: string)
    requires TextLeq(a, b) && TextLeq(b, c)
    ensures TextLeq(a, c)
  {
    if a != [] && a[0] == b[0] == c[0] {
      TextLeqTransitive(a[1..], b[1..], c[1..]);
    }
  }

  lemma {:induction false} TextLeqAntisymmetric(a: string, b: string)
    requires TextLeq(a, b) && TextLeq(b, a)
    ensures a == b
  {
    if a != [] {
      TextLeqAntisymmetric(a[1..], b[1..]);
      assert a == [a[0]] + a[1..] && b == [b[0]] + b[1..];
    }
  }

  lemma TextLeqIsOrder()
    ensures Sorting.TotalPreorder(TextLeq) && Sorting.Antisymmetric(TextLeq)
  {
    forall a, b
      ensures TextLeq(a, b) || TextLeq(b, a)
    {
      TextLeqTotal(a, b);
    }
    forall a, b, c | TextLeq(a, b) && TextLeq(b, c)
      ensures TextLeq(a, c)
    {
      TextLeqTransitive(a, b, c);
    }
    forall a, b | TextLeq(a, b) && TextLeq(b, a)
      ensures a == b
    {
      TextLeqAntisymmetric(a, b);
    }
  }

  // ---------- Nothing is lost in the text ----------

  lemma LabelInjective(a: (nat, bool), b: (nat, bool))
    requires Label(a) == Label(b)
    ensures a == b
  {
    var first, second := if a.1 then "true" else "false", if b.1 then "true" else "false";
    Texts.SplitAtFirst(Decimal.ToString(a.0), first, Decimal.ToString(b.0), second, ':');
    Decimal.ToStringInjective(a.0, b.0);
    assert |"true"| != |"false"|;
  }

  lemma LabelHasNoBar(a: (nat, bool))
    ensures '|' !in Label(a)
  {
  }

  predicate NoBars(parts: seq<string>) {
    forall i :: 0 <= i < |parts| ==> '|' !in parts[i]
  }

  /** Texts without bars can be told apart after joining, if there are equally many. */
  lemma {:induction false} JoinInjective(a: seq<string>, b: seq<string>)
    requires |a| == |b| && NoBars(a) && NoBars(b) && Join(a) == Join(b)
    ensures a == b
  {
    if |a| == 1 {
      assert a == [a[0]] && b == [b[0]];
    } else if |a| > 1 {
      Texts.SplitAtFirst(a[0], Join(a[1..]), b[0], Join(b[1..]), '|');
      JoinInjective(a[1..], b[1..]);
      assert a == [a[0]] + a[1..] && b == [b[0]] + b[1..];
    }
  }

  lemma {:induction false} LabelsOfMultiset(areas: seq<(nat, bool)>, a: (nat, bool))
    ensures multiset(Labels(areas))[Label(a)] == multiset(areas)[a]
  {
    if areas != [] {
      var rest := areas[1..];
      LabelsOfMultiset(rest, a);
      assert areas == [areas[0]] + rest;
      assert Labels(areas) == [Label(areas[0])] + Labels(rest);
      if Label(areas[0]) == Label(a) {
        LabelInjective(areas[0], a);
      }
    }
  }

  lemma LabelInMultiset(areas: seq<(nat, bool)>, text: string)
    requires text in multiset(Labels(areas))
    ensures exists a :: text == Label(a)
  {
  }

  /** Two lists of assignments have the same labels if and only if they are permutations of each other. */
  lemma LabelsSameExactly(a: seq<(nat, bool)>, b: seq<(nat, bool)>)
    ensures multiset(Labels(a)) == multiset(Labels(b)) <==> multiset(a) == multiset(b)
  {
    forall x
      ensures multiset(Labels(a))[Label(x)] == multiset(a)[x] && multiset(Labels(b))[Label(x)] == multiset(b)[x]
    {
      LabelsOfMultiset(a, x);
      LabelsOfMultiset(b, x);
    }
    if multiset(Labels(a)) == multiset(Labels(b)) {
      forall x
        ensures multiset(a)[x] == multiset(b)[x]
      {
        assert multiset(Labels(a))[Label(x)] == multiset(Labels(b))[Label(x)];
      }
    }
    if multiset(a) == multiset(b) {
      forall text
        ensures multiset(Labels(a))[text] == multiset(Labels(b))[text]
      {
        if text in multiset(Labels(a)) { LabelInMultiset(a, text); }
        if text in multiset(Labels(b)) { LabelInMultiset(b, text); }
      }
    }
  }

  /** The text is canonical: no change is seen if and only if both lists hold the same areas equally often. */
  lemma NoChangeExactly(existing: seq<Assignment>, requested: seq<Assignment>)
    ensures !HasAreaChanges(existing, requested) <==> multiset(PlainAll(existing)) == multiset(PlainAll(requested))
  {
    var a, b := Labels(PlainAll(existing)), Labels(PlainAll(requested));
    var sortedA, sortedB := Sorting.Sort(a, TextLeq), Sorting.Sort(b, TextLeq);
    TextLeqIsOrder();
    LabelsSameExactly(PlainAll(existing), PlainAll(requested));
    Sorting.SortPermutes(a, TextLeq);
    Sorting.SortPermutes(b, TextLeq);
    Sorting.SortSorts(a, TextLeq);
    Sorting.SortSorts(b, TextLeq);
    if multiset(a) == multiset(b) {
      Sorting.SortedUnique(sortedA, sortedB, TextLeq);
      assert |a| == |multiset(a)| && |b| == |multiset(b)|;
    }
    if !HasAreaChanges(existing, requested) {
      SortedNoBars(PlainAll(existing));
      SortedNoBars(PlainAll(requested));
      assert |sortedA| == |multiset(sortedA)| && |sortedB| == |multiset(sortedB)|;
      assert |a| == |multiset(a)| && |b| == |multiset(b)|;
      JoinInjective(sortedA, sortedB);
    }
  }

  lemma SortedNoBars(areas: seq<(nat, bool)>)
    ensures NoBars(Sorting.Sort(Labels(areas), TextLeq))
  {
    var labels := Labels(areas);
    var sorted := Sorting.Sort(labels, TextLeq);
    Sorting.SortPermutes(labels, TextLeq);
    forall i | 0 <= i < |sorted|
      ensures '|' !in sorted[i]
    {
      assert sorted[i] in multiset(labels);
      LabelInMultiset(areas, sorted[i]);
      var a :| sorted[i] == Label(a);
      LabelHasNoBar(a);
    }
  }

  // ---------- The table ----------

  class AccountUpsertService {
    /** pafs_core_user_areas, by user. */
    var userAreas: map<int, seq<Assignment>>

    /** The users whose cached areas have been evicted. */
    var evicted: set<int>

    constructor ()
      ensures userAreas == map[] && evicted == {}
    {
      userAreas, evicted := map[], {};
    }

    function Stored(user: int): seq<Assignment>
      reads this
    {
      if user in userAreas then userAreas[user] else []
    }

    method ReplaceUserAreas(user: int, areas: seq<Assignment>)
      modifies this
      ensures PlainAll(Stored(user)) == PlainAll(areas) && evicted == old(evicted) + {user}
      ensures forall other :: other != user ==> Stored(other) == old(Stored(other))
    {
      var rows := seq(|areas|, i requires 0 <= i < |areas| => Assignment(areas[i].areaId, Some(areas[i].primary.GetOr(false))));
      userAreas := userAreas[user := rows];
      evicted := evicted + {user};
    }

    /**
     * The user ends up with exactly the requested areas, other users keep theirs, and the cache entry stays
     * only when the areas of the user are what they were.
     */
    method ManageUserAreas(user: int, areas: Option<seq<Assignment>>)
      modifies this
      ensures areas.Some? ==> multiset(PlainAll(Stored(user))) == multiset(PlainAll(areas.value))
      ensures areas.None? ==> Stored(user) == old(Stored(user))
      ensures forall other :: other != user ==> Stored(other) == old(Stored(other))
      ensures multiset(PlainAll(Stored(user))) != old(multiset(PlainAll(Stored(user)))) ==> user in evicted
      ensures old(evicted) <= evicted
      ensures multiset(PlainAll(Stored(user))) == old(multiset(PlainAll(Stored(user)))) ==>
                Stored(user) == old(Stored(user)) && evicted == old(evicted)
    {
      if areas.None? {
        return;
      }
      NoChangeExactly(Stored(user), areas.value);
      if !HasAreaChanges(Stored(user), areas.value) {
        return;
      }
      ReplaceUserAreas(user, areas.value);
    }
  }
}

/** Project reference numbers (src/plugins/projects/services/project-reference-service.js). */
module ReferenceNumbers {
  import Decimal
  import Texts

  const LOW_LIMIT: nat := 999
  const TEMPLATE := "C501E"

  datatype Counter = Counter(high: nat, low: nat)

  type Counters = map<string, Counter>

  /** The row after one INSERT ... ON CONFLICT DO UPDATE. */
  function Incremented(counters: Counters, rfcc: string): Counter {
    if rfcc !in counters then Counter(0, 1)
    else
      var c := counters[rfcc];
      Counter(if c.low >= LOW_LIMIT then c.high + 1 else c.high, if c.low >= LOW_LIMIT then 1 else c.low + 1)
  }

  function PadStart(s: string, width: nat): string
    decreases width - |s|
  {
    if |s| >= width then s else PadStart("0" + s, width)
  }

  function FormatCounterParts(c: Counter): string {
    PadStart(Decimal.ToString(c.high), 3) + "A/" + PadStart(Decimal.ToString(c.low), 3) + "A"
  }

  function Reference(rfcc: string, c: Counter): string {
    rfcc + TEMPLATE + "/" + FormatCounterParts(c)
  }

  // ---------- The k-th counter ----------

  function Kth(k: nat): Counter
    requires k > 0
  {
    Counter((k - 1) / LOW_LIMIT, (k - 1) % LOW_LIMIT + 1)
  }

  lemma NextOfKth(k: nat)
    requires k > 0
    ensures var c := Kth(k);
            Kth(k + 1) == if c.low >= LOW_LIMIT then Counter(c.high + 1, 1) else Counter(c.high, c.low + 1)
  {
  }

  lemma KthInjective(j: nat, k: nat)
    requires j > 0 && k > 0 && Kth(j) == Kth(k)
    ensures j == k
  {
  }

  // ---------- Different counters, different numbers ----------

  lemma {:induction false} PadValue(s: string)
    requires Decimal.AllDigits(s)
    ensures Decimal.Value("0" + s) == Decimal.Value(s)
  {
    var t := "0" + s;
    if s == [] {
      assert t[..0] == [];
    } else {
      assert t[..|t| - 1] == "0" + s[..|s| - 1];
      PadValue(s[..|s| - 1]);
    }
  }

  lemma {:induction false} PadStartKeeps(s: string, width: nat)
    requires Decimal.AllDigits(s)
    ensures Decimal.AllDigits(PadStart(s, width))
    ensures Decimal.Value(PadStart(s, width)) == Decimal.Value(s)
    ensures |PadStart(s, width)| == if |s| >= width then |s| else width
    decreases width - |s|
  {
    if |s| < width {
      PadValue(s);
      PadStartKeeps("0" + s, width);
    }
  }

  function Part(n: nat): string {
    PadStart(Decimal.ToString(n), 3) + "A"
  }

  lemma PartsDiffer(m: nat, n: nat)
    requires Part(m) == Part(n)
    ensures m == n
  {
    PadStartKeeps(Decimal.ToString(m), 3);
    PadStartKeeps(Decimal.ToString(n), 3);
    var p, q := PadStart(Decimal.ToString(m), 3), PadStart(Decimal.ToString(n), 3);
    assert p == Part(m)[..|Part(m)| - 1] && q == Part(n)[..|Part(n)| - 1];
    Decimal.ValueOfToString(m);
    Decimal.ValueOfToString(n);
  }

  lemma PartHasNoSlash(n: nat)
    ensures '/' !in Part(n) && |Part(n)| >= 4 && (|Part(n)| == 4 <==> n < 1000)
    ensures Decimal.AllDigits(Part(n)[..|Part(n)| - 1]) && Part(n)[|Part(n)| - 1] == 'A'
  {
    var s := Decimal.ToString(n);
    PadStartKeeps(s, 3);
    Decimal.ToStringLength(n);
    assert Part(n)[..|Part(n)| - 1] == PadStart(s, 3);
  }

  /** Whatever the RFCC codes look like, equal reference numbers come from the same code and counter. */
  lemma ReferenceInjective(rfcc: string, c: Counter, rfcc': string, c': Counter)
    requires Reference(rfcc, c) == Reference(rfcc', c')
    ensures rfcc == rfcc' && c == c'
  {
    Shape(rfcc, c);
    Shape(rfcc', c');
    PartHasNoSlash(c.high);
    PartHasNoSlash(c'.high);
    PartHasNoSlash(c.low);
    PartHasNoSlash(c'.low);
    Texts.SplitAtLast(rfcc + TEMPLATE + "/" + Part(c.high), Part(c.low), rfcc' + TEMPLATE + "/" + Part(c'.high), Part(c'.low), '/');
    Texts.SplitAtLast(rfcc + TEMPLATE, Part(c.high), rfcc' + TEMPLATE, Part(c'.high), '/');
    PartsDiffer(c.high, c'.high);
    PartsDiffer(c.low, c'.low);
    assert rfcc == (rfcc + TEMPLATE)[..|rfcc + TEMPLATE| - 5];
    assert rfcc' == (rfcc' + TEMPLATE)[..|rfcc' + TEMPLATE| - 5];
  }

  lemma Shape(rfcc: string, c: Counter)
    ensures Reference(rfcc, c) == rfcc + TEMPLATE + "/" + Part(c.high) + "/" + Part(c.low)
  {
  }

  /** A number in at least three digits. */
  ghost predicate InThreeDigits(digits: string, n: nat) {
    Decimal.AllDigits(digits) && Decimal.Value(digits) == n && |digits| >= 3 && (n < 1000 ==> |digits| == 3)
  }

  lemma PartReads(n: nat) returns (digits: string)
    ensures Part(n) == digits + "A" && InThreeDigits(digits, n)
  {
    digits := PadStart(Decimal.ToString(n), 3);
    PadStartKeeps(Decimal.ToString(n), 3);
    Decimal.ValueOfToString(n);
    Decimal.ToStringLength(n);
  }

  /** How a number reads: the code, C501E, and the two parts, each with an A. */
  lemma ReferenceReads(rfcc: string, c: Counter) returns (high: string, low: string)
    ensures Reference(rfcc, c) == rfcc + "C501E/" + high + "A/" + low + "A"
    ensures InThreeDigits(high, c.high) && InThreeDigits(low, c.low)
  {
    high := PartReads(c.high);
    low := PartReads(c.low);
    Shape(rfcc, c);
    Regrouped(rfcc, high, low);
  }

  lemma Regrouped(rfcc: string, high: string, low: string)
    ensures rfcc + TEMPLATE + "/" + (high + "A") + "/" + (low + "A") == rfcc + "C501E/" + high + "A/" + low + "A"
  {
    assert TEMPLATE + "/" == "C501E/" && "A" + "/" == "A/";
    assert rfcc + TEMPLATE + "/" == rfcc + "C501E/";
    assert high + "A" + "/" == high + "A/";
  }

  // ---------- The pattern ----------

  const RFCC_CODES: set<string> :=
    {"AC", "AE", "AN", "NO", "NW", "SN", "SO", "SW", "TH", "TR", "TS", "WX", "YO"}

  predicate AllUpper(s: string) {
    forall i :: 0 <= i < |s| ==> 'A' <= s[i] <= 'Z'
  }

  /** Between `low` and `high` digits followed by between `few` and `many` capital letters. */
  ghost predicate DigitsThenLetters(s: string, low: nat, high: nat, few: nat, many: nat) {
    exists i :: 0 <= i <= |s| && low <= i <= high && few <= |s| - i <= many &&
                Decimal.AllDigits(s[..i]) && AllUpper(s[i..])
  }

  /** PROJECT_REFERENCE_NUMBER: three segments between slashes. */
  ghost predicate MatchesPattern(s: string) {
    exists first: string, second: string, third: string ::
      s == first + "/" + second + "/" + third && IsFirstSegment(first) &&
      DigitsThenLetters(second, 2, 3, 0, 1) && DigitsThenLetters(third, 2, 4, 1, 2)
  }

  ghost predicate IsFirstSegment(s: string) {
    |s| >= 3 && s[..2] in RFCC_CODES && 'A' <= s[2] <= 'Z' && DigitsThenLetters(s[3..], 3, 4, 0, 1)
  }

  lemma SegmentsHaveNoSlash(s: string, low: nat, high: nat, few: nat, many: nat)
    requires DigitsThenLetters(s, low, high, few, many)
    ensures '/' !in s && |s| <= high + many
  {
  }

  lemma TemplateSegment(rfcc: string)
    ensures IsFirstSegment(rfcc + TEMPLATE) <==> rfcc in RFCC_CODES
  {
    var s := rfcc + TEMPLATE;
    if rfcc in RFCC_CODES {
      assert |rfcc| == 2 && s[..2] == rfcc && s[2..] == TEMPLATE;
      assert s[3..] == "501E";
      assert s[3..][..3] == "501" && s[3..][3..] == "E";
    }
    if IsFirstSegment(s) {
      var t := s[3..];
      var i :| 0 <= i <= |t| && 3 <= i <= 4 && 0 <= |t| - i <= 1 && Decimal.AllDigits(t[..i]) && AllUpper(t[i..]);
      assert s[|rfcc| + 1] == '5';
      TemplateIsNoNumber();
      assert |rfcc| == 3 ==> t == TEMPLATE;
      assert |rfcc| == 2 ==> s[..2] == rfcc;
    }
  }

  lemma TemplateIsNoNumber()
    ensures !DigitsThenLetters(TEMPLATE, 3, 4, 0, 1)
  {
    forall i | 3 <= i <= 4
      ensures !Decimal.AllDigits(TEMPLATE[..i])
    {
      assert TEMPLATE[..i][0] == 'C';
    }
  }

  /** A number fits the pattern if and only if its code is a known one and the high part has three digits. */
  lemma FitsExactly(rfcc: string, c: Counter)
    requires c.low <= LOW_LIMIT
    ensures MatchesPattern(Reference(rfcc, c)) <==> rfcc in RFCC_CODES && c.high <= 999
  {
    Shape(rfcc, c);
    PartHasNoSlash(c.high);
    PartHasNoSlash(c.low);
    TemplateSegment(rfcc);
    var second, third := Part(c.high), Part(c.low);
    if rfcc in RFCC_CODES && c.high <= 999 {
      assert second[3..] == "A" && third[3..] == "A";
      assert DigitsThenLetters(second, 2, 3, 0, 1) && DigitsThenLetters(third, 2, 4, 1, 2);
      assert MatchesPattern((rfcc + TEMPLATE) + "/" + second + "/" + third);
    }
    if MatchesPattern(Reference(rfcc, c)) {
      var f: string, s: string, t: string :| Reference(rfcc, c) == f + "/" + s + "/" + t && IsFirstSegment(f) &&
        DigitsThenLetters(s, 2, 3, 0, 1) && DigitsThenLetters(t, 2, 4, 1, 2);
      SegmentsHaveNoSlash(s, 2, 3, 0, 1);
      SegmentsHaveNoSlash(t, 2, 4, 1, 2);
      Texts.SplitAtLast(f + "/" + s, t, rfcc + TEMPLATE + "/" + second, third, '/');
      Texts.SplitAtLast(f, s, rfcc + TEMPLATE, second, '/');
    }
  }

  /** So the numbers of a known code fit as long as at most 999,000 have been issued for it. */
  lemma KthFitsExactly(rfcc: string, k: nat)
    requires k > 0 && rfcc in RFCC_CODES
    ensures MatchesPattern(Reference(rfcc, Kth(k))) <==> k <= 999_000
  {
    FitsExactly(rfcc, Kth(k));
  }

  // ---------- The service ----------

  /** One number given out: for which code, and as how manieth of that code. */
  datatype Issue = Issue(rfcc: string, k: nat)

  function NumberOf(issue: Issue): string
    requires issue.k > 0
  {
    Reference(issue.rfcc, Kth(issue.k))
  }

  ghost function CountOf(issues: seq<Issue>, rfcc: string): nat {
    if issues == [] then 0
    else CountOf(issues[..|issues| - 1], rfcc) + (if issues[|issues| - 1].rfcc == rfcc then 1 else 0)
  }

  /** Every issue has its place among those of its code. */
  ghost predicate Ranked(issues: seq<Issue>) {
    forall i :: 0 <= i < |issues| ==> issues[i].k > 0 && issues[i].k == CountOf(issues[..i + 1], issues[i].rfcc)
  }

  ghost predicate Reflects(counters: Counters, issues: seq<Issue>) {
    forall rfcc ::
      if CountOf(issues, rfcc) == 0 then rfcc !in counters
      else rfcc in counters && counters[rfcc] == Kth(CountOf(issues, rfcc))
  }

  lemma {:induction false} CountGrows(issues: seq<Issue>, n: nat, rfcc: string)
    requires n <= |issues|
    ensures CountOf(issues[..n], rfcc) <= CountOf(issues, rfcc)
  {
    if n < |issues| {
      var rest := issues[..|issues| - 1];
      assert rest[..n] == issues[..n];
      CountGrows(rest, n, rfcc);
    } else {
      assert issues[..n] == issues;
    }
  }

  lemma CountOfAppend(issues: seq<Issue>, issue: Issue, rfcc: string)
    ensures CountOf(issues + [issue], rfcc) == CountOf(issues, rfcc) + (if issue.rfcc == rfcc then 1 else 0)
  {
  }

  lemma RankGrows(issues: seq<Issue>, i: nat, j: nat)
    requires Ranked(issues) && i < j < |issues| && issues[i].rfcc == issues[j].rfcc
    ensures issues[i].k < issues[j].k
  {
    var before := issues[..j];
    assert before[..i + 1] == issues[..i + 1];
    CountGrows(before, i + 1, issues[i].rfcc);
    assert issues[..j + 1] == before + [issues[j]];
    CountOfAppend(before, issues[j], issues[i].rfcc);
  }

  /** No two of the numbers given out are the same. */
  lemma NumbersDiffer(issues: seq<Issue>, i: nat, j: nat)
    requires Ranked(issues) && i < j < |issues|
    ensures NumberOf(issues[i]) != NumberOf(issues[j])
  {
    var a, b := issues[i], issues[j];
    if a.rfcc == b.rfcc {
      RankGrows(issues, i, j);
    }
    if NumberOf(a) == NumberOf(b) {
      ReferenceInjective(a.rfcc, Kth(a.k), b.rfcc, Kth(b.k));
      KthInjective(a.k, b.k);
    }
  }

  lemma IssueKeepsRanked(issues: seq<Issue>, issue: Issue)
    requires Ranked(issues) && issue.k == CountOf(issues, issue.rfcc) + 1
    ensures Ranked(issues + [issue])
  {
    var more := issues + [issue];
    CountOfAppend(issues, issue, issue.rfcc);
    forall i | 0 <= i < |more|
      ensures more[i].k > 0 && more[i].k == CountOf(more[..i + 1], more[i].rfcc)
    {
      if i < |issues| {
        assert more[i] == issues[i] && more[..i + 1] == issues[..i + 1];
      } else {
        assert more[..i + 1] == more;
      }
    }
  }

  lemma IncrementedIsNext(counters: Counters, issues: seq<Issue>, rfcc: string)
    requires Reflects(counters, issues)
    ensures var k := CountOf(issues, rfcc) + 1;
            && Incremented(counters, rfcc) == Kth(k)
            && Reflects(counters[rfcc := Kth(k)], issues + [Issue(rfcc, k)])
  {
    var k := CountOf(issues, rfcc) + 1;
    if k > 1 {
      NextOfKth(k - 1);
    }
    forall other
      ensures CountOf(issues + [Issue(rfcc, k)], other) == CountOf(issues, other) + (if other == rfcc then 1 else 0)
    {
      CountOfAppend(issues, Issue(rfcc, k), other);
    }
  }

  /** What the next number of a code has to be, and the record of it. */
  ghost function Next(issues: seq<Issue>, rfcc: string): (issue: Issue)
    ensures issue.k > 0
  {
    Issue(rfcc, CountOf(issues, rfcc) + 1)
  }

  ghost predicate NotAmong(reference: string, issues: seq<Issue>)
    requires Ranked(issues)
  {
    forall i :: 0 <= i < |issues| ==> NumberOf(issues[i]) != reference
  }

  ghost predicate Agrees(counters: Counters, issues: seq<Issue>) {
    Ranked(issues) && Reflects(counters, issues)
  }

  lemma IssueAgrees(counters: Counters, issues: seq<Issue>, rfcc: string)
    requires Agrees(counters, issues)
    ensures Agrees(counters[rfcc := Incremented(counters, rfcc)], issues + [Next(issues, rfcc)])
    ensures Reference(rfcc, Incremented(counters, rfcc)) == NumberOf(Next(issues, rfcc))
    ensures NotAmong(NumberOf(Next(issues, rfcc)), issues)
  {
    IncrementedIsNext(counters, issues, rfcc);
    IssueKeepsRanked(issues, Next(issues, rfcc));
    NextIsNew(issues, rfcc);
  }

  lemma NextIsNew(issues: seq<Issue>, rfcc: string)
    requires Ranked(issues)
    ensures NotAmong(NumberOf(Next(issues, rfcc)), issues)
  {
    var next := Next(issues, rfcc);
    IssueKeepsRanked(issues, next);
    forall i | 0 <= i < |issues|
      ensures NumberOf(issues[i]) != NumberOf(next)
    {
      NumbersDiffer(issues + [next], i, |issues|);
    }
  }

  class ReferenceService {
    var counters: Counters

    ghost var issues: seq<Issue>

    ghost predicate Valid()
      reads this
    {
      Agrees(counters, issues)
    }

    constructor ()
      ensures Valid() && issues == []
    {
      counters := map[];
      issues := [];
    }

    /** The k-th number of a code is made from the k-th counter, whatever was issued for other codes. */
    method GenerateProjectReferenceNumber(rfcc: string) returns (reference: string)
      requires Valid()
      modifies this
      ensures Valid() && issues == old(issues) + [Next(old(issues), rfcc)]
      ensures reference == NumberOf(Next(old(issues), rfcc)) && NotAmong(reference, old(issues))
    {
      var counter := Incremented(counters, rfcc);
      IssueAgrees(counters, issues, rfcc);
      issues := issues + [Next(issues, rfcc)];
      counters := counters[rfcc := counter];
      reference := Reference(rfcc, counter);
    }
  }
}

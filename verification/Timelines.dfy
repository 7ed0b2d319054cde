/**
 * The stages of a project's timeline: what one save submits, what is checked of it
 * (src/common/schemas/project/important-dates.js, src/plugins/projects/helpers/levels and
 * src/plugins/projects/helpers/project-validations), and what it writes. The levels are all those at which an
 * existing project's stages, financial years or type can be written.
 */
module Timelines {
  import opened Wrappers
  import opened FinancialYears

  const STAGES: nat := 5
  const START_CONSTRUCTION: nat := 3
  const READY_FOR_SERVICE: nat := 4

  // ---------- What is stored ----------

  datatype StoredDate = StoredDate(month: Option<int>, year: Option<int>) {
    predicate IsSet() {
      month.Some? && year.Some?
    }

    function Get(): Date
      requires IsSet()
    {
      Date(month.value, year.value)
    }
  }

  /**
   * Outline case started and completed, contract awarded, construction started, ready for service; STR and
   * STU projects have the shortened timeline of the first and the last.
   */
  datatype Timeline = Timeline(stages: seq<StoredDate>, shortened: bool, start: Option<int>, end: Option<int>) {
    predicate Valid() {
      |stages| == STAGES
    }
  }

  /** The stage that a stage has to follow. */
  function PreviousStage(shortened: bool, j: nat): (p: nat)
    requires 0 < j < STAGES
    ensures p < j
  {
    if shortened && j == READY_FOR_SERVICE then 0 else j - 1
  }

  predicate InRange(t: Timeline, j: nat)
    requires t.Valid() && j < STAGES
  {
    t.stages[j].IsSet() ==> IsWithinFinancialYearRange(t.stages[j].Get(), t.start.GetOr(0), t.end.GetOr(0))
  }

  predicate InOrder(t: Timeline, j: nat)
    requires t.Valid() && 0 < j < STAGES
  {
    var previous := t.stages[PreviousStage(t.shortened, j)];
    t.stages[j].IsSet() && previous.IsSet() ==> CompareMonthYear(previous.Get(), t.stages[j].Get()) < 0
  }

  /** Every stage that is set lies within the project's years and after the stage it has to follow. */
  ghost predicate Validated(t: Timeline)
    requires t.Valid()
  {
    && (forall j :: 0 <= j < STAGES ==> InRange(t, j))
    && (forall j :: 0 < j < STAGES ==> InOrder(t, j))
  }

  // ---------- What a save submits ----------

  datatype Field = Absent | Null | Value(n: int)

  /** Number(field), where None is NaN. */
  function NumberOf(f: Field): Option<int> {
    match f
    case Absent => None
    case Null => Some(0)
    case Value(n) => Some(n)
  }

  datatype SentDate = SentDate(month: Field, year: Field) {
    predicate IsGiven() {
      month.Value? && year.Value?
    }

    function Get(): Date
      requires IsGiven()
    {
      Date(month.n, year.n)
    }
  }

  const NOT_SENT := SentDate(Absent, Absent)

  /** A level of the form; Stage is one of the five stages. */
  datatype Level =
    | Stage(i: nat)
    | EarliestWithGia
    | FinancialStartYear
    | FinancialEndYear
    | ProjectType
    | WholeLifeBenefits
    | ClearStaleData

  /** `shortened` says whether a project type that is sent is STR or STU; `earliest` goes with an early start. */
  datatype Payload = Payload(level: Level, stages: seq<SentDate>, shortened: Option<bool>, start: Field, end: Field,
                             earliest: Option<Date>) {
    /** One of the stages before the last. */
    predicate IsEarlierStage() {
      level.Stage? && level.i < READY_FOR_SERVICE
    }
  }

  /** The stages whose fields a level knows. */
  function Carried(level: Level): set<nat> {
    match level
    case Stage(i) =>
      if i == 0 then {0} else if i < READY_FOR_SERVICE then {i - 1, i} else {0, START_CONSTRUCTION, READY_FOR_SERVICE}
    case EarliestWithGia => {0}
    case ClearStaleData => {0, 1, 2, START_CONSTRUCTION, READY_FOR_SERVICE}
    case _ => {}
  }

  predicate IsSchemaDate(d: SentDate) {
    d.IsGiven() && 1 <= d.month.n <= 12 && 2000 <= d.year.n <= 2100
  }

  predicate IsSchemaYear(f: Field) {
    f.Value? && 2000 <= f.n <= 2100
  }

  /** The stages that have to be there, with a month and a year. */
  predicate StagesFit(p: Payload) {
    && |p.stages| == STAGES
    && (forall j :: 0 <= j < STAGES && j !in Carried(p.level) ==> p.stages[j] == NOT_SENT)
    && match p.level
       case Stage(i) =>
         && i < STAGES && IsSchemaDate(p.stages[i]) && (0 < i < READY_FOR_SERVICE ==> IsSchemaDate(p.stages[i - 1]))
       case EarliestWithGia => IsSchemaDate(p.stages[0])
       case _ => true
  }

  predicate YearsFit(p: Payload) {
    match p.level
    case Stage(_) => !p.start.Null? && !p.end.Null?
    case EarliestWithGia => !p.start.Null? && p.end.Absent?
    case FinancialStartYear => IsSchemaYear(p.start) && p.end.Absent?
    case FinancialEndYear => p.start.Absent? && IsSchemaYear(p.end)
    case ClearStaleData => true
    case _ => p.start.Absent? && p.end.Absent?
  }

  predicate TypeFits(p: Payload) {
    match p.level
    case Stage(i) => i < READY_FOR_SERVICE ==> p.shortened.None?
    case ProjectType => p.shortened.Some?
    case WholeLifeBenefits => true
    case _ => p.shortened.None?
  }

  predicate FitsSchema(p: Payload) {
    StagesFit(p) && YearsFit(p) && TypeFits(p) && (p.earliest.Some? ==> p.level.EarliestWithGia?)
  }

  datatype TimelineError = DateOutsideFinancialRange | DateNotAfterPreviousStage

  /** The schema's check of one date; it sees the payload only, and what is not a number it leaves alone. */
  function ValidateStandardTimelineDate(d: SentDate, previous: Option<SentDate>, start: Field, end: Field): Option<TimelineError> {
    var month, year := NumberOf(d.month), NumberOf(d.year);
    if month.None? || year.None? then None
    else
      var date := Date(month.value, year.value);
      if !IsWithinFinancialYearRange(date, NumberOf(start).GetOr(0), NumberOf(end).GetOr(0)) then
        Some(DateOutsideFinancialRange)
      else if previous.None? || NumberOf(previous.value.month).None? || NumberOf(previous.value.year).None? then None
      else if CompareMonthYear(date, Date(NumberOf(previous.value.month).value, NumberOf(previous.value.year).value)) <= 0 then
        Some(DateNotAfterPreviousStage)
      else None
  }

  /** The stage that the payload's own project type makes the one to follow. */
  function ComparedWith(p: Payload, j: nat): (previous: nat)
    requires 0 < j < STAGES
    ensures previous < j
  {
    PreviousStage(p.shortened == Some(true), j)
  }

  function SchemaCheck(p: Payload, j: nat): Option<TimelineError>
    requires FitsSchema(p) && j < STAGES
  {
    ValidateStandardTimelineDate(p.stages[j], if j == 0 then None else Some(p.stages[ComparedWith(p, j)]), p.start, p.end)
  }

  /** The stages that the schema checks: those carried, but at the last stage only its own, and no stale ones. */
  predicate IsChecked(p: Payload, j: nat) {
    match p.level
    case Stage(i) => j == i || (i < READY_FOR_SERVICE && j in Carried(p.level))
    case EarliestWithGia => j == 0
    case _ => false
  }

  /** validateTimelineBoundaries: the stage itself against the stored years; a null compares like 0. */
  predicate WithinStoredYears(t: Timeline, d: Date) {
    && !(t.start.Some? && (d.year < t.start.value || (d.year == t.start.value && d.month < START_MONTH)))
    && !(d.year > t.end.GetOr(0) + 1 || (d.year == t.end.GetOr(0) + 1 && d.month > END_MONTH))
  }

  function Written(stored: Option<int>, f: Field): Option<int> {
    match f
    case Absent => stored
    case Null => None
    case Value(n) => Some(n)
  }

  /** validateFinancialYears: the years as they will be, if both are there. */
  predicate YearsInOrder(t: Timeline, p: Payload) {
    var start, end := Written(t.start, p.start), Written(t.end, p.end);
    start.Some? && end.Some? ==> start.value <= end.value
  }

  /** A year that is saved on its own is not a past one. */
  predicate YearsNotPast(p: Payload, now: Date) {
    && (p.level.FinancialStartYear? && p.start.Value? ==> p.start.n >= ToFinancialYear(now))
    && (p.level.FinancialEndYear? && p.end.Value? ==> p.end.n >= ToFinancialYear(now))
  }

  ghost predicate Accepted(t: Timeline, p: Payload, now: Date)
    requires t.Valid()
  {
    && FitsSchema(p)
    && (forall j :: 0 <= j < STAGES && IsChecked(p, j) ==> SchemaCheck(p, j) == None)
    && (p.level.Stage? ==> WithinStoredYears(t, p.stages[p.level.i].Get()))
    && (p.earliest.Some? ==> ValidateEarliestWithGia(p.earliest.value, Some(p.stages[0].Get()), now) == None)
    && YearsNotPast(p, now) && YearsInOrder(t, p)
  }

  /** Everything that the payload carries is written, the stages it was compared with included. */
  function Save(t: Timeline, p: Payload): (t': Timeline)
    requires t.Valid() && FitsSchema(p)
    ensures t'.Valid()
  {
    Timeline(seq(STAGES, j requires 0 <= j < STAGES =>
                   StoredDate(Written(t.stages[j].month, p.stages[j].month), Written(t.stages[j].year, p.stages[j].year))),
             p.shortened.GetOr(t.shortened), Written(t.start, p.start), Written(t.end, p.end))
  }

  /** What is sent is written, a null by emptying the field; what is left out stays. */
  ghost predicate IsWritten(before: Option<int>, f: Field, after: Option<int>) {
    (f.Absent? ==> after == before) && (f.Null? ==> after == None) && (f.Value? ==> after == Some(f.n))
  }

  lemma SaveExactly(t: Timeline, p: Payload)
    requires t.Valid() && FitsSchema(p)
    ensures var t' := Save(t, p);
            && (forall j :: 0 <= j < STAGES ==>
                  && IsWritten(t.stages[j].month, p.stages[j].month, t'.stages[j].month)
                  && IsWritten(t.stages[j].year, p.stages[j].year, t'.stages[j].year))
            && IsWritten(t.start, p.start, t'.start) && IsWritten(t.end, p.end, t'.end)
            && (if p.shortened.Some? then t'.shortened == p.shortened.value else t'.shortened == t.shortened)
  {
  }

  // ---------- What acceptance means for the sent date ----------

  /** Null end years refuse every date of the schema; null start years refuse none. */
  lemma WithinStoredYearsExactly(t: Timeline, d: Date)
    requires 1 <= d.month <= 12 && 2000 <= d.year
    ensures WithinStoredYears(t, d) <==>
            (t.start.Some? ==> t.start.value <= ToFinancialYear(d)) && t.end.Some? && ToFinancialYear(d) <= t.end.value
  {
  }

  function Given(f: Field): bool {
    f.Value? && f.n != 0
  }

  /** The date of a payload is refused for lying outside the payload's years first, and then for not coming later. */
  lemma DateCheckedExactly(d: SentDate, previous: Option<SentDate>, start: Field, end: Field)
    requires IsSchemaDate(d) && (previous.Some? ==> previous.value == NOT_SENT || IsSchemaDate(previous.value))
    ensures var outside := Given(start) && Given(end) && !(start.n <= ToFinancialYear(d.Get()) <= end.n);
            var late := previous.Some? && previous.value != NOT_SENT && Rank(d.Get()) <= Rank(previous.value.Get());
            ValidateStandardTimelineDate(d, previous, start, end) ==
            if outside then Some(DateOutsideFinancialRange) else if late then Some(DateNotAfterPreviousStage) else None
  {
    WithinExactly(d.Get(), NumberOf(start).GetOr(0), NumberOf(end).GetOr(0));
    if previous.Some? && previous.value != NOT_SENT {
      CompareExactly(d.Get(), previous.value.Get());
    }
  }

  /** The date lies in the years of the payload, where it has them. */
  predicate InSentYears(p: Payload, d: Date) {
    Given(p.start) && Given(p.end) ==> p.start.n <= ToFinancialYear(d) <= p.end.n
  }

  /**
   * A save of one of the first four stages is accepted if and only if its date lies in the stored years, both
   * sent dates lie in the sent years, it comes later than the stage sent along, and the years are in order.
   */
  lemma StageAcceptedExactly(t: Timeline, p: Payload, now: Date)
    requires t.Valid() && FitsSchema(p) && p.IsEarlierStage()
    ensures var i, d := p.level.i, p.stages[p.level.i].Get();
            Accepted(t, p, now) <==>
            && (t.start.Some? ==> t.start.value <= ToFinancialYear(d)) && t.end.Some? && ToFinancialYear(d) <= t.end.value
            && InSentYears(p, d) && YearsInOrder(t, p)
            && (i > 0 ==> InSentYears(p, p.stages[i - 1].Get()) && Rank(p.stages[i - 1].Get()) < Rank(d))
  {
    var i := p.level.i;
    assert p.shortened.None? && p.earliest.None? && IsSchemaDate(p.stages[i]);
    WithinStoredYearsExactly(t, p.stages[i].Get());
    forall j | 0 <= j < STAGES && IsChecked(p, j)
      ensures j == i || j + 1 == i
      ensures SchemaCheck(p, j) == None <==>
              InSentYears(p, p.stages[j].Get()) && (j == i && i > 0 ==> Rank(p.stages[i - 1].Get()) < Rank(p.stages[i].Get()))
    {
      var previous := if j == 0 then None else Some(p.stages[ComparedWith(p, j)]);
      assert j > 0 ==> ComparedWith(p, j) == j - 1;
      DateCheckedExactly(p.stages[j], previous, p.start, p.end);
    }
    assert IsChecked(p, i) && (i > 0 ==> IsChecked(p, i - 1));
  }

  /** The last stage is compared with the start of construction, or on a shortened timeline with that of the outline case. */
  lemma ReadyForServiceAcceptedExactly(t: Timeline, p: Payload, now: Date, previous: SentDate)
    requires t.Valid() && FitsSchema(p) && p.level == Stage(4)
    requires previous == if p.shortened == Some(true) then p.stages[0] else p.stages[3]
    requires previous == NOT_SENT || IsSchemaDate(previous)
    ensures var d := p.stages[4].Get();
            Accepted(t, p, now) <==>
            && (t.start.Some? ==> t.start.value <= ToFinancialYear(d)) && t.end.Some? && ToFinancialYear(d) <= t.end.value
            && InSentYears(p, d) && YearsInOrder(t, p)
            && (previous != NOT_SENT ==> Rank(previous.Get()) < Rank(d))
  {
    WithinStoredYearsExactly(t, p.stages[4].Get());
    assert previous == p.stages[ComparedWith(p, 4)];
    DateCheckedExactly(p.stages[4], Some(previous), p.start, p.end);
    assert IsChecked(p, 4) && p.earliest.None?;
    assert SchemaCheck(p, 4) == ValidateStandardTimelineDate(p.stages[4], Some(previous), p.start, p.end);
  }

  /**
   * The earliest start has to lie before the start of the outline case that is sent along and in no financial
   * year that is over; the years only have to be in order.
   */
  lemma EarliestAcceptedExactly(t: Timeline, p: Payload, now: Date)
    requires t.Valid() && FitsSchema(p) && p.level.EarliestWithGia? && p.earliest.Some? && 1 <= p.earliest.value.month <= 12
    ensures Accepted(t, p, now) <==>
            && Rank(p.earliest.value) < Rank(p.stages[0].Get()) && ToFinancialYear(now) <= ToFinancialYear(p.earliest.value)
            && YearsInOrder(t, p)
  {
    DateCheckedExactly(p.stages[0], None, p.start, p.end);
    EarliestWithGiaExactly(p.earliest.value, p.stages[0].Get(), now);
    assert forall j :: 0 <= j < STAGES && IsChecked(p, j) ==> j == 0;
    assert SchemaCheck(p, 0) == ValidateStandardTimelineDate(p.stages[0], None, p.start, p.end);
  }

  /** A financial year on its own must not be over, nor pass the other one. */
  lemma YearAcceptedExactly(t: Timeline, p: Payload, now: Date)
    requires t.Valid() && FitsSchema(p) && (p.level.FinancialStartYear? || p.level.FinancialEndYear?)
    ensures var year := if p.level.FinancialStartYear? then p.start.n else p.end.n;
            Accepted(t, p, now) <==>
            && ToFinancialYear(now) <= year
            && (p.level.FinancialStartYear? && t.end.Some? ==> year <= t.end.value)
            && (p.level.FinancialEndYear? && t.start.Some? ==> t.start.value <= year)
  {
  }

  // ---------- What a save leaves unchecked ----------

  /** The date and the years are what they were. */
  predicate KeepsRange(t: Timeline, p: Payload, j: nat)
    requires t.Valid() && FitsSchema(p) && j < STAGES
  {
    var t' := Save(t, p);
    t'.stages[j] == t.stages[j] && t'.start == t.start && t'.end == t.end
  }

  /** The save compares the date with the years that will be stored. */
  predicate ChecksRange(t: Timeline, p: Payload, j: nat)
    requires t.Valid() && FitsSchema(p) && j < STAGES
  {
    var t' := Save(t, p);
    && IsChecked(p, j) && p.stages[j].IsGiven()
    && ((p.start.Value? && p.end.Value?) || (p.level == Stage(j) && t'.start == t.start && t'.end == t.end))
  }

  /** The date and the one it has to follow are what they were. */
  predicate KeepsOrder(t: Timeline, p: Payload, j: nat)
    requires t.Valid() && FitsSchema(p) && 0 < j < STAGES
  {
    var t' := Save(t, p);
    var previous := PreviousStage(t'.shortened, j);
    && previous == PreviousStage(t.shortened, j)
    && t'.stages[j] == t.stages[j] && t'.stages[previous] == t.stages[previous]
  }

  /** The save compares the date with the one that it will have to follow. */
  predicate ChecksOrder(t: Timeline, p: Payload, j: nat)
    requires t.Valid() && FitsSchema(p) && 0 < j < STAGES
  {
    var previous := PreviousStage(Save(t, p).shortened, j);
    IsChecked(p, j) && p.stages[j].IsGiven() && previous == ComparedWith(p, j) && p.stages[previous].IsGiven()
  }

  /** What is left: stages that the save changes, or whose neighbour or years it changes, without looking. */
  ghost predicate LeftoversFit(t: Timeline, p: Payload)
    requires t.Valid() && FitsSchema(p)
  {
    && (forall j :: 0 <= j < STAGES && !KeepsRange(t, p, j) && !ChecksRange(t, p, j) ==> InRange(Save(t, p), j))
    && (forall j :: 0 < j < STAGES && !KeepsOrder(t, p, j) && !ChecksOrder(t, p, j) ==> InOrder(Save(t, p), j))
  }

  /** A validated timeline is still validated after an accepted save if and only if those fit as well. */
  lemma SaveKeepsValidatedExactly(t: Timeline, p: Payload, now: Date)
    requires t.Valid() && Validated(t) && Accepted(t, p, now)
    ensures Validated(Save(t, p)) <==> LeftoversFit(t, p)
  {
    forall j | 0 <= j < STAGES
      ensures KeepsRange(t, p, j) || ChecksRange(t, p, j) ==> InRange(Save(t, p), j)
    {
      if KeepsRange(t, p, j) || ChecksRange(t, p, j) { RangeHolds(t, p, now, j); }
    }
    forall j | 0 < j < STAGES
      ensures KeepsOrder(t, p, j) || ChecksOrder(t, p, j) ==> InOrder(Save(t, p), j)
    {
      if KeepsOrder(t, p, j) || ChecksOrder(t, p, j) { OrderHolds(t, p, now, j); }
    }
  }

  lemma RangeHolds(t: Timeline, p: Payload, now: Date, j: nat)
    requires t.Valid() && Validated(t) && Accepted(t, p, now) && j < STAGES
    requires KeepsRange(t, p, j) || ChecksRange(t, p, j)
    ensures InRange(Save(t, p), j)
  {
    assert InRange(t, j);
    if !KeepsRange(t, p, j) {
      assert SchemaCheck(p, j) == None;
    }
  }

  lemma OrderHolds(t: Timeline, p: Payload, now: Date, j: nat)
    requires t.Valid() && Validated(t) && Accepted(t, p, now) && 0 < j < STAGES
    requires KeepsOrder(t, p, j) || ChecksOrder(t, p, j)
    ensures InOrder(Save(t, p), j)
  {
    assert InOrder(t, j);
    if !KeepsOrder(t, p, j) {
      assert SchemaCheck(p, j) == None;
    }
  }

  // ---------- What that means for each level ----------

  /** Years that are sent are the stored ones. */
  predicate SendsYearsBack(t: Timeline, p: Payload) {
    Written(t.start, p.start) == t.start && Written(t.end, p.end) == t.end
  }

  predicate SendsBack(t: Timeline, p: Payload, j: nat)
    requires t.Valid() && FitsSchema(p) && j < STAGES
  {
    Save(t, p).stages[j] == t.stages[j]
  }

  predicate IsSetAfter(t: Timeline, j: nat, d: Date)
    requires t.Valid() && j < STAGES
  {
    t.stages[j].IsSet() ==> CompareMonthYear(d, t.stages[j].Get()) < 0
  }

  /**
   * A stage before the last, with the project's years sent back or left out: the timeline is still validated
   * if and only if the stage that is sent along lies within the years and after the stored one before it, and
   * both sent stages come before the stored ones that follow them.
   */
  lemma StageKeepsValidatedExactly(t: Timeline, p: Payload, now: Date)
    requires t.Valid() && Validated(t) && Accepted(t, p, now) && p.IsEarlierStage() && SendsYearsBack(t, p)
    ensures var i, d := p.level.i, p.stages[p.level.i].Get();
            Validated(Save(t, p)) <==>
            && (i > 0 ==> InRange(Save(t, p), i - 1))
            && (i > 1 && t.stages[i - 2].IsSet() ==> CompareMonthYear(t.stages[i - 2].Get(), p.stages[i - 1].Get()) < 0)
            && (!(t.shortened && i == START_CONSTRUCTION) ==> IsSetAfter(t, i + 1, d))
            && (t.shortened && i == 0 ==> IsSetAfter(t, READY_FOR_SERVICE, d))
            && (t.shortened && i == 1 ==> IsSetAfter(t, READY_FOR_SERVICE, p.stages[0].Get()))
  {
    var t' := Save(t, p);
    forall j | 0 <= j < STAGES && j + 1 != p.level.i
      ensures InRange(t', j)
    {
      assert InRange(t, j);
      RangeHolds(t, p, now, j);
    }
    OrderAfterStage(t, p, now, 1);
    OrderAfterStage(t, p, now, 2);
    OrderAfterStage(t, p, now, 3);
    OrderAfterStage(t, p, now, 4);
    assert InOrder(t', 1) && InOrder(t', 2) && InOrder(t', 3) && InOrder(t', 4) <==>
           (forall j :: 0 < j < STAGES ==> InOrder(t', j));
  }

  /** One stage against the one it has to follow, in terms of what was stored and what is sent. */
  lemma OrderAfterStage(t: Timeline, p: Payload, now: Date, j: nat)
    requires t.Valid() && Validated(t) && Accepted(t, p, now) && p.IsEarlierStage() && 0 < j < STAGES
    ensures var i, previous := p.level.i, PreviousStage(t.shortened, j);
            InOrder(Save(t, p), j) <==>
            && (j + 1 == i && t.stages[j - 1].IsSet() ==> CompareMonthYear(t.stages[j - 1].Get(), p.stages[j].Get()) < 0)
            && (previous == i ==> IsSetAfter(t, j, p.stages[i].Get()))
            && (previous + 1 == i && j != i ==> IsSetAfter(t, j, p.stages[i - 1].Get()))
  {
    assert InOrder(t, j);
    if KeepsOrder(t, p, j) || ChecksOrder(t, p, j) {
      OrderHolds(t, p, now, j);
    }
  }

  /** The last stage, with its type and the stage it has to follow sent back: nothing is left unchecked. */
  lemma ReadyForServiceKeepsValidated(t: Timeline, p: Payload, now: Date)
    requires t.Valid() && Validated(t) && Accepted(t, p, now) && p.level == Stage(READY_FOR_SERVICE) && SendsYearsBack(t, p)
    requires SendsBack(t, p, 0) && SendsBack(t, p, START_CONSTRUCTION) && (p.shortened == Some(true)) == t.shortened
    requires var previous := PreviousStage(t.shortened, READY_FOR_SERVICE);
             t.stages[previous].IsSet() ==> p.stages[previous].IsGiven()
    ensures Validated(Save(t, p))
  {
    SaveKeepsValidatedExactly(t, p, now);
    var t' := Save(t, p);
    assert t'.shortened == t.shortened;
    assert ChecksRange(t, p, READY_FOR_SERVICE);
    forall j | 0 <= j < STAGES && j != READY_FOR_SERVICE
      ensures KeepsRange(t, p, j) && (j > 0 ==> KeepsOrder(t, p, j))
    {
    }
  }

  /**
   * The earliest start with grant-in-aid, the first year sent back: if and only if the start of the outline case
   * that is sent along lies in the stored years and before the stages that follow it.
   */
  lemma EarliestKeepsValidatedExactly(t: Timeline, p: Payload, now: Date)
    requires t.Valid() && Validated(t) && Accepted(t, p, now) && p.level.EarliestWithGia? && SendsYearsBack(t, p)
    ensures var d := p.stages[0].Get();
            Validated(Save(t, p)) <==>
            InRange(Save(t, p), 0) && IsSetAfter(t, 1, d) && (t.shortened ==> IsSetAfter(t, READY_FOR_SERVICE, d))
  {
    SaveKeepsValidatedExactly(t, p, now);
    var t' := Save(t, p);
    assert forall j :: 0 < j < STAGES ==> KeepsRange(t, p, j);
    assert KeepsOrder(t, p, 2) && KeepsOrder(t, p, 3) && (t.shortened || KeepsOrder(t, p, 4));
    assert InOrder(t', 1) <==> IsSetAfter(t, 1, p.stages[0].Get());
    assert t.shortened ==> (InOrder(t', 4) <==> IsSetAfter(t, 4, p.stages[0].Get()));
    assert !ChecksOrder(t, p, 1) && !ChecksOrder(t, p, 4);
    OrderHoldsAll(t, p, now);
  }

  lemma OrderHoldsAll(t: Timeline, p: Payload, now: Date)
    requires t.Valid() && Validated(t) && Accepted(t, p, now)
    ensures forall j :: 0 < j < STAGES && KeepsOrder(t, p, j) ==> InOrder(Save(t, p), j)
  {
    forall j | 0 < j < STAGES && KeepsOrder(t, p, j)
      ensures InOrder(Save(t, p), j)
    {
      OrderHolds(t, p, now, j);
    }
  }

  /** A financial year on its own: if and only if every stored stage lies within the new years. */
  lemma YearKeepsValidatedExactly(t: Timeline, p: Payload, now: Date)
    requires t.Valid() && Validated(t) && Accepted(t, p, now) && (p.level.FinancialStartYear? || p.level.FinancialEndYear?)
    ensures var start, end := Written(t.start, p.start).GetOr(0), Written(t.end, p.end).GetOr(0);
            Validated(Save(t, p)) <==>
            start == 0 || end == 0 ||
            forall j :: 0 <= j < STAGES && t.stages[j].IsSet() ==> start <= ToFinancialYear(t.stages[j].Get()) <= end
  {
    var t' := Save(t, p);
    assert forall j :: 0 <= j < STAGES ==> t'.stages[j] == t.stages[j];
    forall j | 0 <= j < STAGES && t.stages[j].IsSet()
      ensures InRange(t', j) <==> t'.start.GetOr(0) == 0 || t'.end.GetOr(0) == 0 ||
                                  t'.start.GetOr(0) <= ToFinancialYear(t.stages[j].Get()) <= t'.end.GetOr(0)
    {
      WithinExactly(t.stages[j].Get(), t'.start.GetOr(0), t'.end.GetOr(0));
    }
    forall j | 0 < j < STAGES
      ensures InOrder(t', j)
    {
      assert InOrder(t, j);
    }
  }

  /** A project type: if and only if readiness for service still follows the stage it now has to follow. */
  lemma TypeKeepsValidatedExactly(t: Timeline, p: Payload, now: Date)
    requires t.Valid() && Validated(t) && Accepted(t, p, now) && (p.level.ProjectType? || p.level.WholeLifeBenefits?)
    ensures var previous := t.stages[PreviousStage(p.shortened.GetOr(t.shortened), READY_FOR_SERVICE)];
            Validated(Save(t, p)) <==> (previous.IsSet() ==> IsSetAfter(t, READY_FOR_SERVICE, previous.Get()))
  {
    var t' := Save(t, p);
    assert forall j :: 0 <= j < STAGES ==> t'.stages[j] == t.stages[j];
    forall j | 0 <= j < STAGES
      ensures InRange(t', j) && (0 < j < READY_FOR_SERVICE ==> InOrder(t', j))
    {
      assert InRange(t, j) && (j > 0 ==> InOrder(t, j));
    }
    assert Validated(t') <==> InOrder(t', READY_FOR_SERVICE);
  }

  // ---------- Saves that break a validated timeline ----------

  function Sent(month: int, year: int): SentDate {
    SentDate(Value(month), Value(year))
  }

  function At(month: int, year: int): StoredDate {
    StoredDate(Some(month), Some(year))
  }

  const UNSET := StoredDate(None, None)

  /** Moving the stage that is sent along, where no later stage is stored. */
  lemma ContextBreaksOrder(now: Date) returns (t: Timeline, p: Payload)
    ensures t.Valid() && Validated(t) && Accepted(t, p, now) && !Validated(Save(t, p))
    ensures t.stages == [At(4, 2027), At(5, 2027), UNSET, UNSET, UNSET]
    ensures p.level == Stage(2) && p.stages == [NOT_SENT, Sent(5, 2026), Sent(6, 2026), NOT_SENT, NOT_SENT]
  {
    t := Timeline([At(4, 2027), At(5, 2027), UNSET, UNSET, UNSET], false, Some(2025), Some(2031));
    p := Payload(Stage(2), [NOT_SENT, Sent(5, 2026), Sent(6, 2026), NOT_SENT, NOT_SENT], None, Absent, Absent, None);
    assert !InOrder(Save(t, p), 1);
  }

  /** Leaving out the start of construction, which is then not compared with. */
  lemma OmittedContextBreaksOrder(now: Date) returns (t: Timeline, p: Payload)
    ensures t.Valid() && Validated(t) && Accepted(t, p, now) && !Validated(Save(t, p))
    ensures p.level == Stage(READY_FOR_SERVICE) && p.stages[START_CONSTRUCTION] == NOT_SENT
  {
    t := Timeline([UNSET, UNSET, UNSET, At(5, 2028), UNSET], false, Some(2025), Some(2031));
    p := Payload(Stage(4), [NOT_SENT, NOT_SENT, NOT_SENT, NOT_SENT, Sent(4, 2027)], None, Absent, Absent, None);
    assert !InOrder(Save(t, p), 4);
  }

  /** Moving a stage beyond one that follows it. */
  lemma LaterStageOvertaken(now: Date) returns (t: Timeline, p: Payload)
    ensures t.Valid() && Validated(t) && Accepted(t, p, now) && !Validated(Save(t, p))
    ensures p.level == Stage(START_CONSTRUCTION) && SendsYearsBack(t, p)
    ensures FitsSchema(p) && SendsBack(t, p, 2)
  {
    t := Timeline([UNSET, UNSET, At(4, 2026), At(4, 2027), At(4, 2028)], false, Some(2025), Some(2031));
    p := Payload(Stage(3), [NOT_SENT, NOT_SENT, Sent(4, 2026), Sent(5, 2028), NOT_SENT], None, Absent, Absent, None);
    assert !InOrder(Save(t, p), 4);
  }

  /** Moving the start of the outline case along with the earliest start, beyond the stages that follow it. */
  lemma EarliestBreaksOrder(now: Date) returns (t: Timeline, p: Payload)
    requires ToFinancialYear(now) <= 2028
    ensures t.Valid() && Validated(t) && Accepted(t, p, now) && !Validated(Save(t, p))
    ensures t.stages == [At(4, 2027), At(5, 2027), UNSET, UNSET, UNSET]
    ensures p.level.EarliestWithGia? && p.earliest == Some(Date(5, 2028)) && p.stages[0] == Sent(6, 2028)
  {
    t := Timeline([At(4, 2027), At(5, 2027), UNSET, UNSET, UNSET], false, Some(2025), Some(2031));
    p := Payload(EarliestWithGia, [Sent(6, 2028), NOT_SENT, NOT_SENT, NOT_SENT, NOT_SENT], None, Absent, Absent, Some(Date(5, 2028)));
    assert !InOrder(Save(t, p), 1);
  }

  /** A later first year, past a stage; and a type whose last stage has to follow another. */
  lemma YearAndTypeBreak(now: Date) returns (t: Timeline, p: Payload, q: Payload)
    requires ToFinancialYear(now) <= 2028
    ensures t.Valid() && Validated(t) && t.shortened
    ensures Accepted(t, p, now) && p.level.FinancialStartYear? && !Validated(Save(t, p))
    ensures Accepted(t, q, now) && q.level.ProjectType? && !Validated(Save(t, q))
  {
    t := Timeline([At(4, 2027), UNSET, UNSET, At(4, 2030), At(4, 2029)], true, Some(2025), Some(2031));
    var none := [NOT_SENT, NOT_SENT, NOT_SENT, NOT_SENT, NOT_SENT];
    p := Payload(FinancialStartYear, none, None, Value(2028), Absent, None);
    q := Payload(ProjectType, none, Some(false), Absent, Absent, None);
    assert !InRange(Save(t, p), 0);
    assert !InOrder(Save(t, q), 4);
  }

  // ---------- The construction window ----------

  /** The first and last financial year of construction, if both of its dates are set. */
  function Window(t: Timeline): Option<(int, int)>
    requires t.Valid()
  {
    var first, last := t.stages[START_CONSTRUCTION], t.stages[READY_FOR_SERVICE];
    if first.IsSet() && last.IsSet() then Some((ToFinancialYear(first.Get()), ToFinancialYear(last.Get()))) else None
  }

  function MidYear(t: Timeline): Option<int>
    requires t.Valid()
  {
    if Window(t).None? then None else Some((Window(t).value.0 + Window(t).value.1) / 2)
  }

  /** The year in the middle, the earlier one of two. */
  lemma MidYearExactly(t: Timeline, first: Date, last: Date)
    requires t.Valid() && t.stages[3] == At(first.month, first.year) && t.stages[4] == At(last.month, last.year)
    ensures MidYear(t).Some? && 0 <= ToFinancialYear(first) + ToFinancialYear(last) - 2 * MidYear(t).value <= 1
  {
  }

  /**
   * The years of a validated window are project years, the mid-year too; the mid-year lies in the window
   * if and only if the window is not empty, and on a full timeline it never is.
   */
  lemma WindowInsideExactly(t: Timeline)
    requires t.Valid() && Validated(t) && Window(t).Some?
    ensures var w, mid := Window(t).value, MidYear(t).value;
            && (w.0 <= mid <= w.1 <==> w.0 <= w.1)
            && (!t.shortened ==> w.0 <= w.1)
            && (t.start.GetOr(0) != 0 && t.end.GetOr(0) != 0 ==>
                  && t.start.value <= w.0 <= t.end.value && t.start.value <= w.1 <= t.end.value
                  && t.start.value <= mid <= t.end.value)
  {
    var first, last := t.stages[START_CONSTRUCTION].Get(), t.stages[READY_FOR_SERVICE].Get();
    assert InRange(t, START_CONSTRUCTION) && InRange(t, READY_FOR_SERVICE) && InOrder(t, READY_FOR_SERVICE);
    WithinExactly(first, t.start.GetOr(0), t.end.GetOr(0));
    WithinExactly(last, t.start.GetOr(0), t.end.GetOr(0));
    if !t.shortened {
      LaterDateLaterYear(first, last);
    }
  }

  /** On a shortened timeline the end is not compared with the start of construction, and the window may be empty. */
  lemma ShortenedMayBeInverted() returns (t: Timeline)
    ensures t.Valid() && Validated(t) && t.shortened && Window(t) == Some((2030, 2026))
  {
    t := Timeline([At(4, 2025), UNSET, UNSET, At(4, 2030), At(4, 2026)], true, Some(2025), Some(2031));
  }

  // ---------- Funding within the window ----------

  function TotalWithin(rows: seq<(int, int)>, first: int, last: int): int {
    if rows == [] then 0
    else
      var row := rows[|rows| - 1];
      TotalWithin(rows[..|rows| - 1], first, last) + (if first <= row.0 <= last then row.1 else 0)
  }

  /** The rows add up; each counts when its year lies between the two. */
  lemma {:induction false} TotalAdds(a: seq<(int, int)>, b: seq<(int, int)>, first: int, last: int)
    ensures TotalWithin(a + b, first, last) == TotalWithin(a, first, last) + TotalWithin(b, first, last)
    ensures |b| == 1 ==> TotalWithin(b, first, last) == if first <= b[0].0 && b[0].0 <= last then b[0].1 else 0
  {
    if b == [] {
      assert a + b == a;
    } else {
      assert (a + b)[..|a + b| - 1] == a + b[..|b| - 1];
      TotalAdds(a, b[..|b| - 1], first, last);
    }
  }

  /** _constructionTotalProjectFunding */
  function ConstructionTotalProjectFunding(t: Timeline, rows: seq<(int, int)>): int
    requires t.Valid()
  {
    if Window(t).None? || rows == [] then 0
    else TotalWithin(rows, Window(t).value.0, Window(t).value.1)
  }

  lemma {:induction false} TotalSplits(rows: seq<(int, int)>, first: int, middle: int, last: int)
    requires first <= middle + 1 <= last + 1
    ensures TotalWithin(rows, first, last) == TotalWithin(rows, first, middle) + TotalWithin(rows, middle + 1, last)
  {
    if rows != [] {
      TotalSplits(rows[..|rows| - 1], first, middle, last);
    }
  }

  /** Funding before, within and after the window. */
  function SplitTotal(rows: seq<(int, int)>, start: int, end: int, w: (int, int)): int {
    TotalWithin(rows, start, w.0 - 1) + TotalWithin(rows, w.0, w.1) + TotalWithin(rows, w.1 + 1, end)
  }

  /**
   * For a window of project years, the three parts add up to all funding of the project, whatever the rows, if
   * and only if the window does not end more than a year before it starts.
   */
  lemma WindowConservesExactly(start: int, end: int, w: (int, int))
    requires start <= w.0 <= end && start <= w.1 <= end
    ensures (forall rows :: TotalWithin(rows, start, end) == SplitTotal(rows, start, end, w)) <==> w.0 <= w.1 + 1
  {
    if w.0 <= w.1 + 1 {
      forall rows
        ensures TotalWithin(rows, start, end) == SplitTotal(rows, start, end, w)
      {
        TotalSplits(rows, start, w.0 - 1, end);
        TotalSplits(rows, w.0, w.1, end);
      }
    } else {
      var rows := [(w.1 + 1, 1)];
      TotalAdds([], rows, start, w.0 - 1);
      TotalAdds([], rows, w.0, w.1);
      TotalAdds([], rows, w.1 + 1, end);
      TotalAdds([], rows, start, end);
      assert TotalWithin(rows, start, end) == 1 && SplitTotal(rows, start, end, w) == 2;
    }
  }

  /** So on a full timeline that is validated nothing is lost and nothing counted twice. */
  lemma WindowConserves(t: Timeline, rows: seq<(int, int)>)
    requires t.Valid() && Validated(t) && Window(t).Some? && t.start.GetOr(0) != 0 && t.end.GetOr(0) != 0
    requires Window(t).value.0 <= Window(t).value.1 + 1
    ensures TotalWithin(rows, t.start.value, t.end.value) ==
            TotalWithin(rows, t.start.value, Window(t).value.0 - 1) + ConstructionTotalProjectFunding(t, rows) +
            TotalWithin(rows, Window(t).value.1 + 1, t.end.value)
  {
    WindowInsideExactly(t);
    WindowConservesExactly(t.start.value, t.end.value, Window(t).value);
  }
}

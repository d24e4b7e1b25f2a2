/**
 * The eligibility rule of `OnArtForMoreThanXmonthsCalcultion`: for every patient
 * of a cohort, is the date of the last viral-load result at least three
 * calendar months after the date the patient started antiretroviral therapy?
 *
 * The two upstream calculations (ART start date, last viral-load observation
 * in the past twelve months) arrive as maps. A Java `CalculationResultMap.get`
 * yields `null` both for a patient without an entry and for an entry holding
 * `null`; here the first is a missing key and the second a `None` entry.
 */
module OnArtForMoreThanXMonths {
  import opened Wrappers
  import opened Dates

  type PatientId = int

  /** The threshold of the rule, in calendar months. */
  const Months := 3

  /** The ART start date calculation's per-patient result; its value may be null. */
  datatype SimpleResult = SimpleResult(value: Option<Date>)

  /** A viral-load observation; only its date-time matters to the rule. */
  datatype Obs = Obs(obsDatetime: Date)

  /** The two kinds of reference the cohort loop checks for null together. */
  datatype Object = ResultObject(result: SimpleResult) | ObsObject(obs: Obs)

  /** `CalculationResultMap.get` (and `obsResultForPatient`): null when absent. */
  function Lookup<V>(m: map<PatientId, Option<V>>, ptId: PatientId): (r: Option<V>)
    ensures r.Some? <==> ptId in m && m[ptId].Some?
    ensures r.Some? ==> m[ptId] == r
  {
    if ptId in m then m[ptId] else None
  }

  /** `checkNotNull`: scans the arguments and answers false at the first null. */
  method CheckNotNull<T>(objects: seq<Option<T>>) returns (r: bool)
    ensures r <==> forall i | 0 <= i < |objects| :: objects[i].Some?
  {
    for i := 0 to |objects|
      invariant forall j | 0 <= j < i :: objects[j].Some?
    {
      if objects[i].None? {
        return false;
      }
    }
    return true;
  }

  /** `isAtLeastThreeMonthsLater`: the last viral load is on or after the three-month mark. */
  function IsAtLeastThreeMonthsLater(artStartDate: Date, lastVlDate: Date): (r: bool)
    ensures r <==> Stamp(AddMonths(artStartDate, Months)) <= Stamp(lastVlDate)
  {
    StampOrdersLikeCompare(lastVlDate, AddMonths(artStartDate, Months));
    Compare(lastVlDate, AddMonths(artStartDate, Months)) >= 0
  }

  /**
   * What one patient's entry must be: true exactly when there is an ART start
   * result holding a date, there is a last viral-load observation, and that
   * observation is not before the start date plus three months.
   */
  predicate OnArtForMoreThanThreeMonths(art: Option<SimpleResult>, lastVl: Option<Obs>)
  {
    match art
    case Some(SimpleResult(Some(start))) =>
      lastVl.Some? && !Before(lastVl.value.obsDatetime, AddMonths(start, Months))
    case _ => false
  }

  /** The whole result map the calculation must return for a cohort. */
  function Expected(cohort: seq<PatientId>, arvsInitiationDateMap: map<PatientId, Option<SimpleResult>>,
                    lastVl: map<PatientId, Option<Obs>>): map<PatientId, bool>
  {
    map ptId | ptId in cohort ::
      OnArtForMoreThanThreeMonths(Lookup(arvsInitiationDateMap, ptId), Lookup(lastVl, ptId))
  }

  predicate NoDuplicates(s: seq<PatientId>)
  {
    forall i, j | 0 <= i < j < |s| :: s[i] != s[j]
  }

  function Members(s: seq<PatientId>): set<PatientId>
  {
    set ptId | ptId in s
  }

  /** A cohort without repeated ids has as many members as entries. */
  lemma {:induction false} MembersOfDistinctCohort(s: seq<PatientId>)
    requires NoDuplicates(s)
    ensures |Members(s)| == |s|
  {
    if s != [] {
      var rest := s[1..];
      assert NoDuplicates(rest);
      MembersOfDistinctCohort(rest);
      assert Members(s) == {s[0]} + Members(rest);
      assert s[0] !in Members(rest);
    }
  }

  /**
   * `evaluate`: one pass over the cohort that puts one boolean per patient
   * into a fresh map, false unless both upstream values are there and the
   * viral load is at least three months after the ART start.
   */
  method Evaluate(cohort: seq<PatientId>, arvsInitiationDateMap: map<PatientId, Option<SimpleResult>>,
                  lastVl: map<PatientId, Option<Obs>>)
    returns (result: map<PatientId, bool>)
    ensures result.Keys == Members(cohort)
    ensures forall ptId | ptId in result ::
      result[ptId] == OnArtForMoreThanThreeMonths(Lookup(arvsInitiationDateMap, ptId), Lookup(lastVl, ptId))
    ensures result == Expected(cohort, arvsInitiationDateMap, lastVl)
    ensures NoDuplicates(cohort) ==> |result| == |cohort|
  {
    result := map[];
    for i := 0 to |cohort|
      invariant result.Keys == Members(cohort[..i])
      invariant forall ptId | ptId in result ::
        result[ptId] == OnArtForMoreThanThreeMonths(Lookup(arvsInitiationDateMap, ptId), Lookup(lastVl, ptId))
    {
      var ptId := cohort[i];
      var isOnArtForMoreThan3Months := false;
      var artStartDateResult := Lookup(arvsInitiationDateMap, ptId);
      var lastVlObs := Lookup(lastVl, ptId);
      var objects := [
        if artStartDateResult.Some? then Some(ResultObject(artStartDateResult.value)) else None,
        if lastVlObs.Some? then Some(ObsObject(lastVlObs.value)) else None];
      var bothPresent := CheckNotNull(objects);
      assert bothPresent <==> objects[0].Some? && objects[1].Some?;
      if bothPresent {
        var artStartDate := artStartDateResult.value.value;
        var lastVlDate := lastVlObs.value.obsDatetime;
        var startPresent := CheckNotNull([artStartDate]);
        assert startPresent <==> [artStartDate][0].Some?;
        if startPresent && IsAtLeastThreeMonthsLater(artStartDate.value, lastVlDate) {
          isOnArtForMoreThan3Months := true;
        }
      }
      assert isOnArtForMoreThan3Months == OnArtForMoreThanThreeMonths(artStartDateResult, lastVlObs) by {
        if artStartDateResult.Some? && artStartDateResult.value.value.Some? && lastVlObs.Some? {
          StampOrdersLikeCompare(lastVlObs.value.obsDatetime, AddMonths(artStartDateResult.value.value.value, Months));
        }
      }
      assert cohort[..i + 1] == cohort[..i] + [ptId];
      result := result[ptId := isOnArtForMoreThan3Months];
    }
    assert cohort[..|cohort|] == cohort;
    if NoDuplicates(cohort) {
      MembersOfDistinctCohort(cohort);
    }
  }

  // Properties of the rule, stated on the map the calculation returns.

  /** No ART start result for a patient: false, whatever the viral-load data. */
  lemma AbsentArtStartIsFalse(cohort: seq<PatientId>, arvsInitiationDateMap: map<PatientId, Option<SimpleResult>>,
                              lastVl: map<PatientId, Option<Obs>>, ptId: PatientId)
    requires ptId in cohort
    requires Lookup(arvsInitiationDateMap, ptId).None?
    ensures !Expected(cohort, arvsInitiationDateMap, lastVl)[ptId]
  {
  }

  /** No last viral-load observation for a patient: false, whatever the ART start date. */
  lemma AbsentLastViralLoadIsFalse(cohort: seq<PatientId>, arvsInitiationDateMap: map<PatientId, Option<SimpleResult>>,
                                   lastVl: map<PatientId, Option<Obs>>, ptId: PatientId)
    requires ptId in cohort
    requires Lookup(lastVl, ptId).None?
    ensures !Expected(cohort, arvsInitiationDateMap, lastVl)[ptId]
  {
  }

  /** An ART start result whose date value is null: false. */
  lemma NullArtStartDateIsFalse(cohort: seq<PatientId>, arvsInitiationDateMap: map<PatientId, Option<SimpleResult>>,
                                lastVl: map<PatientId, Option<Obs>>, ptId: PatientId)
    requires ptId in cohort
    requires Lookup(arvsInitiationDateMap, ptId) == Some(SimpleResult(None))
    ensures !Expected(cohort, arvsInitiationDateMap, lastVl)[ptId]
  {
  }

  /** Both dates present: true exactly when the viral load is on or after start plus three months. */
  lemma BothPresentComparesWithThreshold(cohort: seq<PatientId>, arvsInitiationDateMap: map<PatientId, Option<SimpleResult>>,
                                         lastVl: map<PatientId, Option<Obs>>, ptId: PatientId,
                                         start: Date, obs: Obs)
    requires ptId in cohort
    requires Lookup(arvsInitiationDateMap, ptId) == Some(SimpleResult(Some(start)))
    requires Lookup(lastVl, ptId) == Some(obs)
    ensures Expected(cohort, arvsInitiationDateMap, lastVl)[ptId]
            <==> Stamp(AddMonths(start, Months)) <= Stamp(obs.obsDatetime)
  {
    StampOrdersLikeCompare(obs.obsDatetime, AddMonths(start, Months));
  }

  /**
   * The boundary is inclusive: a viral load dated exactly three months after the
   * start counts, and one dated any time before that mark does not.
   */
  lemma ThresholdIsInclusive(start: Date, lastVlDate: Date)
    ensures OnArtForMoreThanThreeMonths(Some(SimpleResult(Some(start))), Some(Obs(AddMonths(start, Months))))
    ensures Before(lastVlDate, AddMonths(start, Months)) ==>
              !OnArtForMoreThanThreeMonths(Some(SimpleResult(Some(start))), Some(Obs(lastVlDate)))
  {
  }

  /** A viral load on or before the ART start date never qualifies. */
  lemma ViralLoadNotAfterStartIsFalse(start: Date, lastVlDate: Date)
    requires Compare(lastVlDate, start) <= 0
    ensures !OnArtForMoreThanThreeMonths(Some(SimpleResult(Some(start))), Some(Obs(lastVlDate)))
  {
    AddMonthsIsLater(start, Months);
    CompareIsTotalOrder(lastVlDate, start, AddMonths(start, Months));
  }

  /** A later viral load keeps a qualifying patient qualifying. */
  lemma LaterViralLoadStaysEligible(art: Option<SimpleResult>, vlDate: Date, laterVlDate: Date)
    requires OnArtForMoreThanThreeMonths(art, Some(Obs(vlDate)))
    requires Compare(vlDate, laterVlDate) <= 0
    ensures OnArtForMoreThanThreeMonths(art, Some(Obs(laterVlDate)))
  {
    var threshold := AddMonths(art.value.value.value, Months);
    CompareIsTotalOrder(threshold, vlDate, laterVlDate);
    CompareIsTotalOrder(laterVlDate, threshold, vlDate);
    CompareIsTotalOrder(vlDate, threshold, laterVlDate);
  }

  /** An earlier ART start at the same time of day keeps a qualifying patient qualifying. */
  lemma EarlierStartStaysEligible(start: Date, earlierStart: Date, lastVlDate: Date)
    requires OnArtForMoreThanThreeMonths(Some(SimpleResult(Some(start))), Some(Obs(lastVlDate)))
    requires earlierStart.millis == start.millis
    requires Compare(earlierStart, start) <= 0
    ensures OnArtForMoreThanThreeMonths(Some(SimpleResult(Some(earlierStart))), Some(Obs(lastVlDate)))
  {
    var t, t' := AddMonths(start, Months), AddMonths(earlierStart, Months);
    AddMonthsMonotone(earlierStart, start, Months);
    CompareIsTotalOrder(t', t, lastVlDate);
    CompareIsTotalOrder(lastVlDate, t', t);
    CompareIsTotalOrder(t, lastVlDate, t');
  }

  /** A patient's entry depends on that patient's own two inputs and nothing else. */
  lemma EntryDependsOnlyOnOwnInputs(cohort: seq<PatientId>, arts: map<PatientId, Option<SimpleResult>>,
                                    vls: map<PatientId, Option<Obs>>,
                                    cohort': seq<PatientId>, arts': map<PatientId, Option<SimpleResult>>,
                                    vls': map<PatientId, Option<Obs>>, ptId: PatientId)
    requires ptId in cohort && ptId in cohort'
    requires Lookup(arts, ptId) == Lookup(arts', ptId)
    requires Lookup(vls, ptId) == Lookup(vls', ptId)
    ensures Expected(cohort, arts, vls)[ptId] == Expected(cohort', arts', vls')[ptId]
  {
  }

  /**
   * The examples of the rule on concrete dates: midnight in the first four, and
   * in the last two a start at 14:00, where a viral load on the anniversary
   * morning is still too early.
   */
  lemma BoundaryExamples()
    ensures OnArtForMoreThanThreeMonths(Some(SimpleResult(Some(LocalDateTime(2021, 1, 15, 0)))),
                                        Some(Obs(LocalDateTime(2021, 4, 15, 0))))
    ensures !OnArtForMoreThanThreeMonths(Some(SimpleResult(Some(LocalDateTime(2021, 1, 15, 0)))),
                                         Some(Obs(LocalDateTime(2021, 4, 14, 0))))
    ensures OnArtForMoreThanThreeMonths(Some(SimpleResult(Some(LocalDateTime(2021, 1, 31, 0)))),
                                        Some(Obs(LocalDateTime(2021, 4, 30, 0))))
    ensures !OnArtForMoreThanThreeMonths(Some(SimpleResult(Some(LocalDateTime(2021, 1, 31, 0)))),
                                         Some(Obs(LocalDateTime(2021, 4, 29, 0))))
    ensures !OnArtForMoreThanThreeMonths(Some(SimpleResult(Some(LocalDateTime(2021, 1, 15, 14 * 3_600_000)))),
                                         Some(Obs(LocalDateTime(2021, 4, 15, 9 * 3_600_000))))
    ensures OnArtForMoreThanThreeMonths(Some(SimpleResult(Some(LocalDateTime(2021, 1, 15, 14 * 3_600_000)))),
                                        Some(Obs(LocalDateTime(2021, 4, 15, 14 * 3_600_000))))
  {
    AddMonthsExamples();
  }

  /** `addMonths(context.getNow(), -12)`: the start of the viral-load lookback window. */
  function OneYearBefore(now: Date): (r: Date)
    ensures Before(r, now)
    ensures MonthIndex(r) == MonthIndex(now) - 12 && r.millis == now.millis
    ensures r.day == now.day || (now.day > r.day && r.day == DaysInMonth(r.year, r.month))
  {
    SubtractMonthsIsEarlier(now, 12);
    AddMonths(now, -12)
  }
}

# On ART for more than three months — a Dafny model

The EPTS reports module of OpenMRS classifies patients for the viral-load
suppression (PVLS) indicators. One of its patient calculations,
`OnArtForMoreThanXmonthsCalcultion`, marks every patient of a cohort `true`
when the patient's last viral-load observation of the past twelve months is
dated at or after the instant three calendar months after the patient's ART
(antiretroviral therapy) start date-time, time of day included, and `false`
otherwise. A missing ART start
result, a null start date, or a missing viral-load observation all give
`false`. None of them is an error.

This project models that calculation:

- `wrappers.dfy`: `Option`, where `None` plays the part of a Java `null`.
- `dates.dfy` (module `Dates`): the date-times the calculation compares.
  A `Date` is a valid local (year, month, day, millisecond of day).
  `Compare` plays `Date.compareTo`. `Stamp` is a linear counterpart of
  `getTime` with the same order. `AddMonths` is calendar-month addition.
- `on_art.dfy` (module `OnArtForMoreThanXMonths`): the cohort loop `Evaluate`
  and the helpers `CheckNotNull` and `IsAtLeastThreeMonthsLater`, written as in
  the source. `Evaluate` is proved against the per-patient predicate
  `OnArtForMoreThanThreeMonths` and the whole-map function `Expected`. The
  properties of the rule are lemmas about those two.

Inputs that come from code outside this file are parameters:

- the ART start date results are a `map<PatientId, Option<SimpleResult>>`;
- the last viral-load observations are a `map<PatientId, Option<Obs>>`;
- the cohort is a `seq<PatientId>` in the collection's iteration order.

`CalculationResultMap.get` returns `null` for a patient with no entry and for
an entry that holds `null`. `Lookup` treats both the same way.

`EptsCalculationUtils.addMonths` is defined outside
`OnArtForMoreThanXmonthsCalcultion` and is not modelled. `AddMonths` assumes it behaves like `Calendar.add(Calendar.MONTH, n)`:

- it moves `n` calendar months;
- it keeps the day of the month, or clamps it to the last day of a shorter
  target month;
- it keeps the time of day.

Every lemma about the threshold rests on that assumption. None of them follows
from `OnArtForMoreThanXmonthsCalcultion` itself.

## Model

| member | source | states |
|---|---|---|
| `Dates.Compare` | api/src/main/java/org/openmrs/module/eptsreports/reporting/calculation/pvls/OnArtForMoreThanXmonthsCalcultion.java:91 | the three-way comparison is -1, 0 or 1, and is 0 exactly when the two date-times are equal |
| `Dates.StampOrdersLikeCompare` | api/src/main/java/org/openmrs/module/eptsreports/reporting/calculation/pvls/OnArtForMoreThanXmonthsCalcultion.java:91 | comparing field by field gives the sign of the difference of two linear time stamps, as `compareTo` compares `getTime` values |
| `Dates.CompareIsTotalOrder` | api/src/main/java/org/openmrs/module/eptsreports/reporting/calculation/pvls/OnArtForMoreThanXmonthsCalcultion.java:91 | the comparison is antisymmetric and transitive, also mixing strict and non-strict steps |
| `Dates.AddMonths` | api/src/main/java/org/openmrs/module/eptsreports/reporting/calculation/pvls/OnArtForMoreThanXmonthsCalcultion.java:90 | (assumed calendar semantics) the result is a valid date exactly `n` months on, with the same day unless that day does not exist in the target month, in which case the last day of that month, and the same time of day |
| `Dates.AddZeroMonths` | api/src/main/java/org/openmrs/module/eptsreports/reporting/calculation/pvls/OnArtForMoreThanXmonthsCalcultion.java:90 | adding zero months returns the same date-time |
| `Dates.AddMonthsIsLater` | api/src/main/java/org/openmrs/module/eptsreports/reporting/calculation/pvls/OnArtForMoreThanXmonthsCalcultion.java:90 | adding a positive number of months gives a strictly later date-time, clamping included |
| `Dates.SubtractMonthsIsEarlier` | api/src/main/java/org/openmrs/module/eptsreports/reporting/calculation/pvls/OnArtForMoreThanXmonthsCalcultion.java:63-64 | subtracting a positive number of months gives a strictly earlier date-time |
| `Dates.AddMonthsMonotone` | api/src/main/java/org/openmrs/module/eptsreports/reporting/calculation/pvls/OnArtForMoreThanXmonthsCalcultion.java:90 | for two date-times with the same time of day, month addition keeps their order (clamping may merge them, never swap them) |
| `Dates.ClampingCanReorderTimesOfDay` | api/src/main/java/org/openmrs/module/eptsreports/reporting/calculation/pvls/OnArtForMoreThanXmonthsCalcultion.java:90 | with different times of day the order can flip: 30 Jan 23:00 is before 31 Jan 01:00, and one month later 28 Feb 01:00 is before 28 Feb 23:00 |
| `Dates.AddMonthsExamples` | api/src/main/java/org/openmrs/module/eptsreports/reporting/calculation/pvls/OnArtForMoreThanXmonthsCalcultion.java:90 | 2021-01-15 + 3 months is 2021-04-15; 2021-01-31 + 3 is 2021-04-30; 2019-11-30 + 3 is 2020-02-29; 2020-11-30 + 3 is 2021-02-28; 2024-02-29 - 12 is 2023-02-28 |
| `OnArtForMoreThanXMonths.OneYearBefore` | api/src/main/java/org/openmrs/module/eptsreports/reporting/calculation/pvls/OnArtForMoreThanXmonthsCalcultion.java:63-64 | the lookback start is twelve calendar months before "now", on the same day of the month unless that month is shorter (then its last day), at the same time of day, and strictly earlier |
| `OnArtForMoreThanXMonths.Lookup` | api/src/main/java/org/openmrs/module/eptsreports/reporting/calculation/pvls/OnArtForMoreThanXmonthsCalcultion.java:72-75 | a patient's upstream value is non-null exactly when the map has an entry for the patient that is not null, and then it is that entry |
| `OnArtForMoreThanXMonths.CheckNotNull` | api/src/main/java/org/openmrs/module/eptsreports/reporting/calculation/pvls/OnArtForMoreThanXmonthsCalcultion.java:94-100 | the answer is true exactly when no argument is null; the loop returns false at the first null |
| `OnArtForMoreThanXMonths.IsAtLeastThreeMonthsLater` | api/src/main/java/org/openmrs/module/eptsreports/reporting/calculation/pvls/OnArtForMoreThanXmonthsCalcultion.java:89-91 | true exactly when the time stamp of start + 3 months is not greater than that of the viral-load date (inclusive) |
| `OnArtForMoreThanXMonths.MembersOfDistinctCohort` | api/src/main/java/org/openmrs/module/eptsreports/reporting/calculation/pvls/OnArtForMoreThanXmonthsCalcultion.java:70 | a cohort without repeated ids has as many distinct members as entries |
| `OnArtForMoreThanXMonths.Evaluate` | api/src/main/java/org/openmrs/module/eptsreports/reporting/calculation/pvls/OnArtForMoreThanXmonthsCalcultion.java:46-87 | the returned map has an entry for every cohort id and for no other id; each entry is the per-patient rule applied to that patient's own inputs; with distinct ids there are exactly as many entries as cohort entries |
| `OnArtForMoreThanXMonths.AbsentArtStartIsFalse` | api/src/main/java/org/openmrs/module/eptsreports/reporting/calculation/pvls/OnArtForMoreThanXmonthsCalcultion.java:71-76 | a patient with no ART start result gets false, whatever the viral-load data |
| `OnArtForMoreThanXMonths.AbsentLastViralLoadIsFalse` | api/src/main/java/org/openmrs/module/eptsreports/reporting/calculation/pvls/OnArtForMoreThanXmonthsCalcultion.java:74-76 | a patient with no last viral-load observation gets false, whatever the ART start date |
| `OnArtForMoreThanXMonths.NullArtStartDateIsFalse` | api/src/main/java/org/openmrs/module/eptsreports/reporting/calculation/pvls/OnArtForMoreThanXmonthsCalcultion.java:77-81 | an ART start result whose date value is null gives false |
| `OnArtForMoreThanXMonths.BothPresentComparesWithThreshold` | api/src/main/java/org/openmrs/module/eptsreports/reporting/calculation/pvls/OnArtForMoreThanXmonthsCalcultion.java:79-81 | with both dates present the entry is true exactly when the viral-load date is on or after start + 3 months |
| `OnArtForMoreThanXMonths.ThresholdIsInclusive` | api/src/main/java/org/openmrs/module/eptsreports/reporting/calculation/pvls/OnArtForMoreThanXmonthsCalcultion.java:89-91 | a viral load dated exactly at start + 3 months qualifies; one dated any time before that does not |
| `OnArtForMoreThanXMonths.ViralLoadNotAfterStartIsFalse` | api/src/main/java/org/openmrs/module/eptsreports/reporting/calculation/pvls/OnArtForMoreThanXmonthsCalcultion.java:89-91 | a viral load dated on or before the ART start never qualifies |
| `OnArtForMoreThanXMonths.LaterViralLoadStaysEligible` | api/src/main/java/org/openmrs/module/eptsreports/reporting/calculation/pvls/OnArtForMoreThanXmonthsCalcultion.java:91 | moving the viral-load date later keeps a qualifying patient qualifying |
| `OnArtForMoreThanXMonths.EarlierStartStaysEligible` | api/src/main/java/org/openmrs/module/eptsreports/reporting/calculation/pvls/OnArtForMoreThanXmonthsCalcultion.java:89-91 | moving the ART start earlier, at the same time of day, keeps a qualifying patient qualifying |
| `OnArtForMoreThanXMonths.EntryDependsOnlyOnOwnInputs` | api/src/main/java/org/openmrs/module/eptsreports/reporting/calculation/pvls/OnArtForMoreThanXmonthsCalcultion.java:70-85 | a patient's entry is the same for any two cohorts and upstream maps that agree on that patient's two values |
| `OnArtForMoreThanXMonths.BoundaryExamples` | api/src/main/java/org/openmrs/module/eptsreports/reporting/calculation/pvls/OnArtForMoreThanXmonthsCalcultion.java:79-91 | start 2021-01-15: a viral load on 2021-04-15 qualifies, on 2021-04-14 not; start 2021-01-31: on 2021-04-30 qualifies, on 2021-04-29 not; the time of day counts: start 2021-01-15 14:00 and a viral load on 2021-04-15 09:00 does not qualify, one at 14:00 that day does |

The loop invariant of `Evaluate` says that after each iteration the map holds
exactly one entry per id seen so far, and that each entry is still the rule's
value for that id. So a later iteration never changes another patient's
entry. A repeated id is written again with the same value.

## Left out

- Metadata lookups through `HivMetadata`, and the location read from the context cache (lines 50-57): these read configuration from services outside this file.
- Finding `InitialArtStartDateCalculation` in the component registry and running it (lines 60-62): its output is the `arvsInitiationDateMap` input.
- `EptsCalculations.lastObs` (lines 65-68): the database query for the last viral load across the three encounter types, at the location, inside the twelve-month window. Its reduced output is the `lastVl` input. The window start itself is modelled as `OneYearBefore`.
- `EptsCalculationUtils.addMonths` and `obsResultForPatient` are defined outside `OnArtForMoreThanXmonthsCalcultion` and are not modelled. `AddMonths` is an assumed calendar definition. `Lookup` stands for `obsResultForPatient`, with null for an absent result.
- The Julian calendar: the model applies the Gregorian leap-year rule to every year, whereas Java's default `GregorianCalendar` uses Julian rules before October 1582 (so 1499-11-29 + 3 months is 1500-02-29 there and 1500-02-28 here).
- Time zones and daylight-saving shifts: a `Date` is read in one fixed zone with no DST, so `Compare` matches `compareTo` only under that reading.
- A null `obsDatetime` on an observation: the model has none. In the source it would throw in `compareTo`.
- A start result holding a value that is not a `Date`: the model has none. In the source the cast throws.
- The observed viral-load value: the rule never reads it.
- Spring wiring (`@Component`, `@Autowired`) and the result wrappers `BooleanResult` and `CalculationResultMap`: the result is a `map<PatientId, bool>`.
- Purity across calls (the same inputs give the same map): `Evaluate`'s result equals the function `Expected` of its inputs, so no separate statement is needed.

/** Weekday scheduling of activities (src/utils/dayUtils.js). A date enters
    only through its weekday, `date.getDay()`, an index 0..6 from Sunday. The
    translated labels of getActiveDaysString are replaced by what they
    name: the every-day label, or the list of day names shown. */
module DayUtils {
  import opened Common
  import opened Model
  import Sorting

  /** The weekday index `Date.prototype.getDay` yields. */
  type Weekday = d: nat | d < 7

  /** getAllDays: the seven day names, Monday first. */
  function AllDays(): (days: seq<string>)
    ensures |days| == 7 && NoDups(days)
  {
    ["monday", "tuesday", "wednesday", "thursday", "friday", "saturday", "sunday"]
  }

  /** getDayOfWeek: the name of the weekday, Sunday first. */
  function DayOfWeek(d: Weekday): (name: string)
    ensures name in AllDays()
    ensures d == 0 ==> name == "sunday"
    ensures d > 0 ==> name == AllDays()[d - 1]
  {
    ["sunday", "monday", "tuesday", "wednesday", "thursday", "friday", "saturday"][d]
  }

  /** Different weekdays have different names. */
  lemma DayOfWeekInjective(a: Weekday, b: Weekday)
    ensures DayOfWeek(a) == DayOfWeek(b) <==> a == b
  {
  }

  predicate IsDayName(day: string) {
    day in AllDays()
  }

  /** isDayActive: an activity without a day list (missing, `'all'`, or any
      value that is not an array) shows every day; with one, exactly on the
      listed weekdays. */
  predicate IsDayActive(a: Activity, d: Weekday) {
    match a.activeDays
    case Days(days) => DayOfWeek(d) in days
    case _ => true
  }

  /** An activity is active on every weekday exactly when it has no day
      list or its list names every day. */
  lemma ActiveEveryDay(a: Activity)
    ensures (forall d: Weekday :: IsDayActive(a, d)) <==>
      !a.activeDays.Days? || forall n | n in AllDays() :: n in a.activeDays.days
  {
    if a.activeDays.Days? && forall d: Weekday :: IsDayActive(a, d) {
      forall n | n in AllDays()
        ensures n in a.activeDays.days
      {
        var i :| 0 <= i < 7 && AllDays()[i] == n;
        var d: Weekday := if i == 6 then 0 else i + 1;
        assert IsDayActive(a, d);
      }
    }
  }

  function IsActiveOn(d: Weekday): Activity -> bool {
    (a: Activity) => IsDayActive(a, d)
  }

  /** getActivitiesForDate: the active activities, in list order. */
  function ActivitiesForDate(acts: seq<Activity>, d: Weekday): (r: seq<Activity>)
    ensures forall a :: a in r <==> a in acts && IsDayActive(a, d)
    ensures |r| <= |acts|
  {
    Filter(IsActiveOn(d), acts)
  }

  /** The selection keeps list order: it distributes over concatenation, and
      keeps a list whose activities are all active whole. */
  lemma ActivitiesForDateInOrder(a: seq<Activity>, b: seq<Activity>, d: Weekday)
    ensures ActivitiesForDate(a + b, d) == ActivitiesForDate(a, d) + ActivitiesForDate(b, d)
    ensures (forall i :: 0 <= i < |a| ==> IsDayActive(a[i], d)) ==> ActivitiesForDate(a, d) == a
  {
    FilterConcat(IsActiveOn(d), a, b);
    if forall i :: 0 <= i < |a| ==> IsDayActive(a[i], d) {
      FilterKeepsAll(IsActiveOn(d), a);
    }
  }

  /** What getActiveDaysString shows: the every-day label, or day names. */
  datatype DaysLabel = EveryDay | DayList(days: seq<string>)

  /** A day's position Monday first; -1 for a string that names no day. */
  function DayIndex(day: string): int {
    IndexOf(AllDays(), day)
  }

  /** getActiveDaysString: the every-day label without a day list or with
      seven entries; otherwise the listed days sorted Monday first (strings
      naming no day sort before Monday, where `indexOf` puts them). */
  function ActiveDaysString(a: Activity): (r: DaysLabel)
    ensures !a.activeDays.Days? ==> r == EveryDay
    ensures a.activeDays.Days? && |a.activeDays.days| == 7 ==> r == EveryDay
    ensures a.activeDays.Days? && |a.activeDays.days| != 7 ==>
      r.DayList? && Sorting.SortedBy(r.days, DayIndex) && multiset(r.days) == multiset(a.activeDays.days)
  {
    match a.activeDays
    case Days(days) => if |days| == 7 then EveryDay else DayList(Sorting.SortBy(days, DayIndex))
    case _ => EveryDay
  }

  lemma DayIndexOfName(x: string, y: string)
    requires IsDayName(x) && IsDayName(y)
    ensures 0 <= DayIndex(x) < 7
    ensures DayIndex(x) == DayIndex(y) ==> x == y
  {
  }

  lemma DistinctDayIndices(days: seq<string>)
    requires NoDups(days) && forall n | n in days :: IsDayName(n)
    ensures forall i, j :: 0 <= i < j < |days| ==> DayIndex(days[i]) != DayIndex(days[j])
  {
    forall i, j | 0 <= i < j < |days|
      ensures DayIndex(days[i]) != DayIndex(days[j])
    {
      DayIndexOfName(days[i], days[j]);
    }
  }

  /** Day names in strict week order, Monday first. */
  predicate InWeekOrder(days: seq<string>) {
    forall i, j :: 0 <= i < j < |days| ==> 0 <= DayIndex(days[i]) < DayIndex(days[j])
  }

  /** A list of valid day names without repeats comes out in week order. */
  lemma ActiveDaysStringWeekOrder(a: Activity)
    requires a.activeDays.Days? && |a.activeDays.days| != 7
    requires NoDups(a.activeDays.days) && forall n | n in a.activeDays.days :: IsDayName(n)
    ensures InWeekOrder(ActiveDaysString(a).days)
  {
    var r := Sorting.SortBy(a.activeDays.days, DayIndex);
    SortedWeekOrder(a.activeDays.days, r);
    assert ActiveDaysString(a).days == r;
  }

  lemma SortedWeekOrder(days: seq<string>, r: seq<string>)
    requires NoDups(days) && forall n | n in days :: IsDayName(n)
    requires r == Sorting.SortBy(days, DayIndex)
    ensures InWeekOrder(r)
  {
    forall i | 0 <= i < |r|
      ensures 0 <= DayIndex(r[i])
    {
      assert r[i] in multiset(r);
      DayIndexOfName(r[i], r[i]);
    }
    DistinctDayIndices(days);
    Sorting.PermutationKeepsDistinct(days, r, DayIndex);
    Sorting.SortedDistinctIsStrict(r, DayIndex);
  }

  /** isValidActiveDays: `'all'`, or a non-empty array of day names. */
  predicate IsValidActiveDays(v: ActiveDays) {
    match v
    case All => true
    case Days(days) => (forall n | n in days :: IsDayName(n)) && |days| > 0
    case _ => false
  }

  /** normalizeActiveDays: the day names of an array in their order, or
      `'all'` for anything else, for no valid name, or for seven of them. */
  function NormalizeActiveDays(v: ActiveDays): (r: ActiveDays)
    ensures IsValidActiveDays(r)
    ensures !v.Days? ==> r == All
    ensures v.Days? ==> var kept := Filter(IsDayName, v.days);
      r == if |kept| == 0 || |kept| == 7 then All else Days(kept)
  {
    match v
    case Days(days) =>
      var kept := Filter(IsDayName, days);
      if |kept| == 7 then All else if |kept| == 0 then All else Days(kept)
    case _ => All
  }

  /** Normalising twice is normalising once. */
  lemma NormalizeIdempotent(v: ActiveDays)
    ensures NormalizeActiveDays(NormalizeActiveDays(v)) == NormalizeActiveDays(v)
  {
    var r := NormalizeActiveDays(v);
    if r.Days? {
      FilterIdempotent(IsDayName, v.days);
    }
  }

  /** A valid value normalises to itself, except a seven-entry list, which becomes `'all'`. */
  lemma NormalizeValid(v: ActiveDays)
    requires IsValidActiveDays(v)
    ensures v.Days? && |v.days| == 7 ==> NormalizeActiveDays(v) == All
    ensures !(v.Days? && |v.days| == 7) ==> NormalizeActiveDays(v) == v
  {
    if v.Days? {
      forall i | 0 <= i < |v.days|
        ensures IsDayName(v.days[i])
      {
        assert v.days[i] in v.days;
      }
      FilterKeepsAll(IsDayName, v.days);
    }
  }
}

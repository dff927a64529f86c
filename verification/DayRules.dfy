/** The positional day forms, `n#k`, `nL`, `nW`, `L` and `L-n`, against their counting meanings. */
module DayRules {
  import opened Calendar
  import opened CronExpression

  /** How many of the first `d` days of the month starting at day `first` fall on weekday `dow`. */
  function Occurrences(first: int, dow: int, d: nat): nat {
    if d == 0 then 0
    else Occurrences(first, dow, d - 1) + (if CronDow(first + d - 1) == dow then 1 else 0)
  }

  /** No day after the `d`-th of the month falls on weekday `dow`. */
  ghost predicate NoLaterOccurrence(y: int, m: int, dow: int, d: int)
    requires 1 <= m <= 12
  {
    forall d' {:trigger DayNumber(y, m, d')} :: d < d' <= DaysInMonth(y, m) ==> CronDow(DayNumber(y, m, d')) != dow
  }

  predicate WorkingDay(y: int, m: int, d: int) {
    ValidDate(y, m, d) && Weekday(DayNumber(y, m, d)) < 5
  }

  function Distance(a: int, b: int): int { if a < b then b - a else a - b }

  /** `d` is the one Monday-to-Friday day of the month strictly nearer to `target` than any other. */
  ghost predicate NearestWorkingDay(y: int, m: int, target: int, d: int) {
    WorkingDay(y, m, d) &&
    forall d' {:trigger WorkingDay(y, m, d')} ::
      WorkingDay(y, m, d') && d' != d ==> Distance(d, target) < Distance(d', target)
  }

  // ---- weekday arithmetic --------------------------------------------------------------------

  lemma SevenDivides(x: int, t: int)
    ensures (x + 7 * t) % 7 == x % 7
  {
  }

  lemma SameResidue(r: int, t: int)
    requires 0 <= r < 7
    ensures (r + t) % 7 == r <==> t % 7 == 0
  {
  }

  lemma DivisionStep7(x: int)
    ensures (x + 1) / 7 == x / 7 + (if (x + 1) % 7 == 0 then 1 else 0)
  {
  }

  lemma CronDowIs(n: int)
    ensures CronDow(n) == (n + 1) % 7
  {
  }

  lemma DayNumberShift(y: int, m: int, d: int, k: int)
    requires 1 <= m <= 12
    ensures DayNumber(y, m, d + k) == DayNumber(y, m, d) + k
  {
  }

  /** Weekdays recur after seven days and not sooner. */
  lemma WeekdayRecurs(n: int, k: int)
    requires 0 < k <= 7
    ensures CronDow(n + k) == CronDow(n) <==> k == 7
  {
    hide CronDow;
    CronDowIs(n);
    CronDowIs(n + k);
    var r := (n + 1) % 7;
    SevenDivides(r + k, (n + 1) / 7);
    SameResidue(r, k);
  }

  lemma Neighbours(n: int)
    ensures var r := n % 7;
            && (n + 1) % 7 == (if r == 6 then 0 else r + 1)
            && (n - 1) % 7 == (if r == 0 then 6 else r - 1)
            && (r < 5 ==> (n + 2) % 7 == r + 2)
            && (r >= 5 ==> (n + 2) % 7 == r - 5)
            && (r >= 2 ==> (n - 2) % 7 == r - 2)
  {
  }

  // ---- n#k -----------------------------------------------------------------------------------

  lemma MeetsWeekday(x: int, dow: int, j: int)
    requires 0 <= dow < 7
    ensures (x + j) % 7 == dow <==> (j - (dow - x) % 7) % 7 == 0
  {
    var lead, q := (dow - x) % 7, (dow - x) / 7;
    assert x + j == dow + (j - lead) + 7 * (-q);
    SevenDivides(dow + (j - lead), -q);
    SameResidue(dow, j - lead);
  }

  lemma {:induction false} OccurrencesClosedForm(first: int, dow: int, d: nat)
    requires 0 <= dow < 7
    ensures Occurrences(first, dow, d) == (d + 6 - (dow - first - 1) % 7) / 7
    decreases d
  {
    hide CronDow;
    var lead := (dow - (first + 1)) % 7;
    if d == 0 {
    } else {
      OccurrencesClosedForm(first, dow, d - 1);
      CronDowIs(first + d - 1);
      MeetsWeekday(first + 1, dow, d - 1);
      DivisionStep7(d + 5 - lead);
      SevenDivides(d - 1 - lead, 1);
    }
  }

  /** `n#k` holds exactly on the k-th such weekday counted from the 1st. */
  lemma NthIsCounted(y: int, m: int, d: int, dow: int)
    requires ValidDate(y, m, d) && CronDow(DayNumber(y, m, d)) == dow
    ensures (d - 1) / 7 + 1 == Occurrences(DayNumber(y, m, 1), dow, d)
  {
    hide CronDow, DayNumber;
    var first := DayNumber(y, m, 1);
    CronDowIs(first + d - 1);
    DayNumberShift(y, m, 1, d - 1);
    OccurrencesClosedForm(first, dow, d);
    MeetsWeekday(first + 1, dow, d - 1);
  }

  // ---- nL ------------------------------------------------------------------------------------

  /** `nL` holds exactly when no later day of the month has that weekday. */
  lemma LastIsLast(y: int, m: int, d: int, dow: int)
    requires ValidDate(y, m, d) && CronDow(DayNumber(y, m, d)) == dow
    ensures d + 7 > LastDayOfMonth(y, m) <==> NoLaterOccurrence(y, m, dow, d)
  {
    hide CronDow, DayNumber, LastDayOfMonth;
    LastDayIsMonthLength(y, m);
    forall d' | d < d' <= d + 7 ensures CronDow(DayNumber(y, m, d')) == dow <==> d' == d + 7 {
      DayNumberShift(y, m, d, d' - d);
      WeekdayRecurs(DayNumber(y, m, d), d' - d);
    }
    if d + 7 <= DaysInMonth(y, m) {
      assert CronDow(DayNumber(y, m, d + 7)) == dow;
    }
  }

  // ---- nW ------------------------------------------------------------------------------------

  /** Across a month boundary or not, `nW` picks the unique nearest working day. */
  lemma NearestIsNearest(y: int, m: int, target: int)
    requires ValidDate(y, m, target)
    ensures NearestWorkingDay(y, m, target, NearestWeekdayTo(y, m, target))
  {
    hide DayNumber, LastDayOfMonth;
    LastDayIsMonthLength(y, m);
    Neighbours(DayNumber(y, m, target));
    DayNumberShift(y, m, target, -2);
    DayNumberShift(y, m, target, -1);
    DayNumberShift(y, m, target, 1);
    DayNumberShift(y, m, target, 2);
    var r := NearestWeekdayTo(y, m, target);
    forall d' | WorkingDay(y, m, d') && d' != r ensures Distance(r, target) < Distance(d', target) {
      assert d' == target - 1 || d' == target || d' == target + 1 || Distance(d', target) >= 2;
    }
  }

  /** Only one day can be the nearest working day. */
  lemma NearestIsUnique(y: int, m: int, target: int, d: int, d': int)
    requires NearestWorkingDay(y, m, target, d) && NearestWorkingDay(y, m, target, d')
    ensures d == d'
  {
    assert WorkingDay(y, m, d) && WorkingDay(y, m, d');
  }

  // ---- the whole day rule --------------------------------------------------------------------

  ghost predicate DomMeaning(e: Fields, y: int, m: int, d: int) {
    var last := DaysInMonth(y, m);
    || d in e.daysOfMonth
    || (e.lastDayOfMonth && d == last)
    || (e.lastDomOffset.Some? && d + e.lastDomOffset.value == last)
    || (e.nearestWeekday.Some? &&
        NearestWorkingDay(y, m, if e.nearestWeekday.value < last then e.nearestWeekday.value else last, d))
  }

  ghost predicate DowMeaning(e: Fields, y: int, m: int, d: int)
    requires ValidDate(y, m, d)
  {
    var dow := CronDow(DayNumber(y, m, d));
    || (e.nthDow.Some? && dow == e.nthDow.value.0 && Occurrences(DayNumber(y, m, 1), dow, d) == e.nthDow.value.1)
    || (e.lastDow.Some? && dow == e.lastDow.value && NoLaterOccurrence(y, m, dow, d))
    || dow in e.daysOfWeek
  }

  lemma DomMeans(e: Fields, n: int)
    requires NearestInRange(e)
    ensures DomMatches(e, n) == Match <==> DomMeaning(e, YearOfDay(n), MonthOfDay(n), DayOfDay(n))
  {
    var y, m, d := YearOfDay(n), MonthOfDay(n), DayOfDay(n);
    LastDayIsMonthLength(y, m);
    if e.nearestWeekday.Some? {
      var target := if e.nearestWeekday.value < DaysInMonth(y, m) then e.nearestWeekday.value else DaysInMonth(y, m);
      NearestIsNearest(y, m, target);
      if NearestWorkingDay(y, m, target, d) {
        NearestIsUnique(y, m, target, d, NearestWeekdayTo(y, m, target));
      }
    }
  }

  lemma DowMeans(e: Fields, n: int)
    ensures DowMatches(e, n) <==> DowMeaning(e, YearOfDay(n), MonthOfDay(n), DayOfDay(n))
  {
    hide YearOfDay, MonthOfDay, CronDow, LastDayOfMonth, NoLaterOccurrence, Occurrences;
    var y, m, d := YearOfDay(n), MonthOfDay(n), DayOfDay(n);
    NthIsCounted(y, m, d, CronDow(n));
    LastIsLast(y, m, d, CronDow(n));
  }

  /** The OR rule over the meanings: with both day fields restricted either may accept the day, with one
      restricted only that one counts, with none every day is accepted. */
  lemma DayMeans(e: Fields, y: int, m: int, d: int)
    requires NearestInRange(e) && ValidDate(y, m, d)
    ensures DayMatches(e, DayNumber(y, m, d)) == Match <==>
      || (!e.domRestricted && !e.dowRestricted)
      || (e.domRestricted && DomMeaning(e, y, m, d))
      || (e.dowRestricted && DowMeaning(e, y, m, d))
  {
    hide DomMatches, DowMatches, DomMeaning, DowMeaning;
    DateRoundTrip(y, m, d);
    DomMeans(e, DayNumber(y, m, d));
    DowMeans(e, DayNumber(y, m, d));
    NothingRaises(e, DayNumber(y, m, d));
  }

  /** A date and a time of day match exactly when each of month, hour, minute and second is allowed and the day
      is accepted under the OR rule. */
  lemma MatchMeans(e: Fields, y: int, m: int, d: int, h: int, mi: int, s: int)
    requires NearestInRange(e) && ValidDate(y, m, d) && 0 <= h < 24 && 0 <= mi < 60 && 0 <= s < 60
    ensures Matches(e, WallTime(DayNumber(y, m, d), h, mi, s)) <==>
      && m in e.months && h in e.hours && mi in e.minutes && s in e.seconds
      && (|| (!e.domRestricted && !e.dowRestricted)
          || (e.domRestricted && DomMeaning(e, y, m, d))
          || (e.dowRestricted && DowMeaning(e, y, m, d)))
  {
    hide DomMeaning, DowMeaning, DayMatches, DayNumber, YearOfDay, MonthOfDay, DayOfDay, WallTime, DayOf, Hour, Minute;
    hide Second;
    WallTimeRoundTrip(DayNumber(y, m, d), h, mi, s);
    DateRoundTrip(y, m, d);
    DayMeans(e, y, m, d);
  }

  // ---- known dates ---------------------------------------------------------------------------

  /** 13 March 2026 is a Friday, and the third Friday of April 2026 is the 17th. */
  lemma KnownWeekdays()
    ensures CronDow(DayNumber(2026, 3, 13)) == 5
    ensures CronDow(DayNumber(2026, 4, 17)) == 5 && Occurrences(DayNumber(2026, 4, 1), 5, 17) == 3
  {
    hide Occurrences;
    MonthTable(2026);
    NthIsCounted(2026, 4, 17, 5);
  }

  /** `15W` falls on Friday the 14th in August 2026 and on Monday the 16th in November 2026. */
  lemma KnownNearest()
    ensures NearestWeekdayTo(2026, 8, 15) == 14 && NearestWeekdayTo(2026, 11, 15) == 16
  {
    hide LastDayOfMonth, DaysBeforeMonth;
    MonthTable(2026);
    LastDayIsMonthLength(2026, 11);
  }
}

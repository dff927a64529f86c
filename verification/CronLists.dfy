/** What a comma-separated day list accepts, against the union of what its entries name. */
module CronLists {
  import opened Calendar
  import opened Wrappers
  import opened CronExpression
  import opened CronParse
  import opened DayRules

  // ---- which positional entries are recorded -------------------------------------------------

  function NthOf(item: DowItem): Option<(int, int)> {
    if item.Nth? && item.dow.Number? && item.nth.Number? then Some((item.dow.value % 7, item.nth.value)) else None
  }

  function LastDowOf(item: DowItem): Option<int> {
    if item.LastOf? && item.dow.Number? then Some(item.dow.value % 7) else None
  }

  function MinusOf(item: DomItem): Option<int> {
    if item.LastDayMinus? && item.n.Number? then Some(item.n.value) else None
  }

  function NearestOf(item: DomItem): Option<int> {
    if item.Nearest? && item.n.Number? then Some(item.n.value) else None
  }

  /** All entries of one kind say the same. */
  ghost predicate Agree<I, V>(items: seq<I>, kind: I -> Option<V>) {
    forall x, y :: x in items && y in items && kind(x).Some? && kind(y).Some? ==> kind(x) == kind(y)
  }

  /** Every entry of one kind is the recorded one. */
  ghost predicate AllKept<I, V>(items: seq<I>, kind: I -> Option<V>, recorded: Option<V>) {
    forall x :: x in items && kind(x).Some? ==> kind(x) == recorded
  }

  /** What is recorded of one kind is said by some entry, and is nothing only if no entry is of the kind. */
  ghost predicate SaidBySome<I, V>(items: seq<I>, kind: I -> Option<V>, recorded: Option<V>) {
    match recorded
    case None => forall x :: x in items ==> kind(x).None?
    case Some(_) => exists x :: x in items && kind(x) == recorded
  }

  lemma DowRecordedIsSaid(items: seq<DowItem>, nth: Option<(int, int)>, lastDow: Option<int>)
    requires NthRecorded(items, |items|, nth) && LastOfRecorded(items, |items|, lastDow)
    ensures SaidBySome(items, NthOf, nth) && SaidBySome(items, LastDowOf, lastDow)
  {
    if nth.Some? {
      var i :| LastNth(items, i, |items|) && DowItemParses(items[i])
               && nth.value == (items[i].dow.value % 7, items[i].nth.value);
      assert items[i] in items && NthOf(items[i]) == nth;
    }
    if lastDow.Some? {
      var i :| LastLastOf(items, i, |items|) && DowItemParses(items[i]) && lastDow.value == items[i].dow.value % 7;
      assert items[i] in items && LastDowOf(items[i]) == lastDow;
    }
  }

  lemma DomRecordedIsSaid(items: seq<DomItem>, offset: Option<int>, nearest: Option<int>)
    requires MinusRecorded(items, |items|, offset) && NearestRecorded(items, |items|, nearest)
    ensures SaidBySome(items, MinusOf, offset) && SaidBySome(items, NearestOf, nearest)
  {
    if offset.Some? {
      var i :| LastMinus(items, i, |items|) && items[i] == LastDayMinus(Number(offset.value));
      assert items[i] in items && MinusOf(items[i]) == offset;
    }
    if nearest.Some? {
      var i :| LastNearest(items, i, |items|) && items[i] == Nearest(Number(nearest.value));
      assert items[i] in items && NearestOf(items[i]) == nearest;
    }
  }

  /** A positional entry at the end of a list is the one recorded. */
  lemma LastOneIsRecorded(dow: seq<DowItem>, weekday: DowItem, nth: Option<(int, int)>, lastDow: Option<int>,
                          dom: seq<DomItem>, day: DomItem, offset: Option<int>, nearest: Option<int>)
    requires NthRecorded(dow + [weekday], |dow| + 1, nth) && LastOfRecorded(dow + [weekday], |dow| + 1, lastDow)
    requires MinusRecorded(dom + [day], |dom| + 1, offset) && NearestRecorded(dom + [day], |dom| + 1, nearest)
    ensures NthOf(weekday).Some? ==> nth == NthOf(weekday)
    ensures LastDowOf(weekday).Some? ==> lastDow == LastDowOf(weekday)
    ensures MinusOf(day).Some? ==> offset == MinusOf(day)
    ensures NearestOf(day).Some? ==> nearest == NearestOf(day)
  {
    assert (dow + [weekday])[|dow|] == weekday && (dom + [day])[|dom|] == day;
  }

  /** No `n#k` entry of a list is lost exactly when all of them say the same; and so for `nL`. */
  lemma DowEntriesKeptIff(items: seq<DowItem>, nth: Option<(int, int)>, lastDow: Option<int>)
    requires NthRecorded(items, |items|, nth) && LastOfRecorded(items, |items|, lastDow)
    ensures AllKept(items, NthOf, nth) <==> Agree(items, NthOf)
    ensures AllKept(items, LastDowOf, lastDow) <==> Agree(items, LastDowOf)
  {
    DowRecordedIsSaid(items, nth, lastDow);
  }

  /** And so for `L-n` and for `nW`. */
  lemma DomEntriesKeptIff(items: seq<DomItem>, offset: Option<int>, nearest: Option<int>)
    requires MinusRecorded(items, |items|, offset) && NearestRecorded(items, |items|, nearest)
    ensures AllKept(items, MinusOf, offset) <==> Agree(items, MinusOf)
    ensures AllKept(items, NearestOf, nearest) <==> Agree(items, NearestOf)
  {
    DomRecordedIsSaid(items, offset, nearest);
  }

  // ---- months to look at ---------------------------------------------------------------------

  /** A common year whose March opens on the given weekday. */
  lemma MarchOpeningOn(dow: int) returns (y: int)
    requires 0 <= dow < 7
    ensures !IsLeap(y) && CronDow(DayNumber(y, 3, 1)) == dow
  {
    hide CronDow, DayNumber;
    y := [2026, 2027, 2033, 2034, 2029, 2030, 2031][dow];
    MarchStarts(y);
  }

  lemma MarchStarts(y: int)
    ensures CronDow(DayNumber(y, 3, 1)) == (DaysBeforeYear(y) + DaysInYear(y) - 305) % 7
  {
    MonthTable(y);
    CronDowIs(DayNumber(y, 3, 1));
  }

  /** A leap year whose March opens on the given weekday. */
  lemma LeapMarchOpeningOn(dow: int) returns (y: int)
    requires 0 <= dow < 7
    ensures IsLeap(y) && CronDow(DayNumber(y, 3, 1)) == dow
  {
    hide CronDow, DayNumber;
    y := [2020, 2004, 2016, 2000, 2012, 2024, 2008][dow];
    MarchStarts(y);
  }

  /** A month of any length opens on every weekday in some year. */
  lemma MonthOpeningOn(days: int, dow: int) returns (y: int, m: int)
    requires 28 <= days <= 31 && 0 <= dow < 7
    ensures 1 <= m <= 12 && DaysInMonth(y, m) == days && CronDow(DayNumber(y, m, 1)) == dow
  {
    hide CronDow, DayNumber, IsLeap;
    if days == 29 {
      y := LeapMarchOpeningOn((dow + 1) % 7);
    } else if days == 30 {
      y := MarchOpeningOn((dow + 4) % 7);
    } else {
      y := MarchOpeningOn(dow);
    }
    m := if days <= 29 then 2 else if days == 30 then 4 else 3;
    MarchIsNear(y);
  }

  /** February and April open where March does, but for the leap day and three days more. */
  lemma MarchIsNear(y: int)
    ensures CronDow(DayNumber(y, 4, 1)) == (CronDow(DayNumber(y, 3, 1)) + 3) % 7
    ensures CronDow(DayNumber(y, 2, 1)) == (CronDow(DayNumber(y, 3, 1)) + (if IsLeap(y) then 6 else 0)) % 7
  {
    hide CronDow, DayNumber, IsLeap;
    var n := DayNumber(y, 3, 1);
    MarchDays(y);
    DowShift(n, 31);
    SevenDivides(CronDow(n) + 3, 4);
    if IsLeap(y) {
      DowShift(n, -29);
      SevenDivides(CronDow(n) - 29, 5);
    } else {
      DowShift(n, -28);
      SevenDivides(CronDow(n) - 28, 4);
    }
  }

  lemma MarchDays(y: int)
    ensures DayNumber(y, 4, 1) == DayNumber(y, 3, 1) + 31
    ensures DayNumber(y, 2, 1) == DayNumber(y, 3, 1) - (if IsLeap(y) then 29 else 28)
  {
  }

  lemma DowShift(n: int, k: int)
    ensures CronDow(n + k) == (CronDow(n) + k) % 7
  {
    CronDowIs(n);
    CronDowIs(n + k);
    SevenDivides(n + k + 1, -((n + 1) / 7));
  }

  /** February 2026 has four of every weekday. */
  lemma FourOfEach(dow: int)
    requires 0 <= dow < 7
    ensures DaysInMonth(2026, 2) == 28 && CronDow(DayNumber(2026, 2, 22 + dow)) == dow
  {
    hide DaysBeforeMonth, DaysInYear;
    MonthTable(2026);
  }

  // ---- weekday lists -------------------------------------------------------------------------

  /** The entry names day `n`. */
  ghost predicate DowNames(item: DowItem, n: int) {
    var y, m, d, dow := YearOfDay(n), MonthOfDay(n), DayOfDay(n), CronDow(n);
    match item
    case DowPlain(plain) => ItemValues(plain, 0, 7).Some? && dow in Normalised(ItemValues(plain, 0, 7).value)
    case Nth(_, _) => NthOf(item).Some? && NthOf(item).value == (dow, Occurrences(DayNumber(y, m, 1), dow, d))
    case LastOf(_) => LastDowOf(item) == Some(dow) && NoLaterOccurrence(y, m, dow, d)
  }

  /** A plain entry denotes the weekday. */
  ghost predicate DowPlainly(items: seq<DowItem>, dow: int) { exists i :: DowDenotes(items, i, dow) }

  /** The days a positional entry names are accepted on account of some entry that is kept: the last of its
      own kind, a plain one, or the last `nL` for a fifth weekday. */
  ghost predicate DowCovered(items: seq<DowItem>, item: DowItem) {
    match item
    case DowPlain(_) => true
    case Nth(_, _) =>
      NthOf(item).Some? ==>
        (var (dow, nth) := NthOf(item).value;
         || DowPlainly(items, dow)
         || (exists i :: LastNth(items, i, |items|) && NthOf(items[i]) == NthOf(item))
         || (nth == 5 && exists i :: LastLastOf(items, i, |items|) && LastDowOf(items[i]) == Some(dow)))
    case LastOf(_) =>
      LastDowOf(item).Some? ==>
        || DowPlainly(items, LastDowOf(item).value)
        || exists i :: LastLastOf(items, i, |items|) && LastDowOf(items[i]) == LastDowOf(item)
  }

  /** The same in terms of what the list was parsed to. */
  ghost predicate DowHeld(e: Fields, item: DowItem) {
    match item
    case DowPlain(_) => true
    case Nth(_, _) =>
      NthOf(item).Some? ==>
        (var (dow, nth) := NthOf(item).value;
         dow in e.daysOfWeek || e.nthDow == NthOf(item) || (nth == 5 && e.lastDow == Some(dow)))
    case LastOf(_) => LastDowOf(item).Some? ==> LastDowOf(item).value in e.daysOfWeek || e.lastDow == LastDowOf(item)
  }

  lemma CoveredIsHeld(e: Fields, items: seq<DowItem>, item: DowItem)
    requires DowRecorded(e, DowList(items))
    ensures DowCovered(items, item) <==> DowHeld(e, item)
  {
    hide DowDenotes;
    if NthOf(item).Some? {
      LastNthIs(items, e.nthDow, NthOf(item).value);
      LastDowIs(items, e.lastDow, NthOf(item).value.0);
    }
    if LastDowOf(item).Some? {
      LastDowIs(items, e.lastDow, LastDowOf(item).value);
    }
  }

  lemma LastNthIs(items: seq<DowItem>, recorded: Option<(int, int)>, p: (int, int))
    requires NthRecorded(items, |items|, recorded)
    ensures recorded == Some(p) <==> exists i :: LastNth(items, i, |items|) && NthOf(items[i]) == Some(p)
  {
    if recorded.Some? {
      var j :| LastNth(items, j, |items|) && DowItemParses(items[j])
               && recorded.value == (items[j].dow.value % 7, items[j].nth.value);
      assert NthOf(items[j]) == recorded;
      forall i | LastNth(items, i, |items|) ensures i == j {
      }
    }
  }

  lemma LastDowIs(items: seq<DowItem>, recorded: Option<int>, dow: int)
    requires LastOfRecorded(items, |items|, recorded)
    ensures recorded == Some(dow) <==> exists i :: LastLastOf(items, i, |items|) && LastDowOf(items[i]) == Some(dow)
  {
    if recorded.Some? {
      var j :| LastLastOf(items, j, |items|) && DowItemParses(items[j]) && recorded.value == items[j].dow.value % 7;
      assert LastDowOf(items[j]) == recorded;
      forall i | LastLastOf(items, i, |items|) ensures i == j {
      }
    }
  }

  lemma FifthIsLast(n: int)
    requires Occurrences(DayNumber(YearOfDay(n), MonthOfDay(n), 1), CronDow(n), DayOfDay(n)) == 5
    ensures NoLaterOccurrence(YearOfDay(n), MonthOfDay(n), CronDow(n), DayOfDay(n))
  {
    hide YearOfDay, MonthOfDay, CronDow, NoLaterOccurrence, Occurrences;
    var y, m, d := YearOfDay(n), MonthOfDay(n), DayOfDay(n);
    NthIsCounted(y, m, d, CronDow(n));
    LastIsLast(y, m, d, CronDow(n));
    LastDayIsMonthLength(y, m);
  }

  /** What a held entry names is accepted. */
  lemma HeldIsAccepted(e: Fields, items: seq<DowItem>, i: int, n: int)
    requires DowRecorded(e, DowList(items)) && 0 <= i < |items| && DowHeld(e, items[i]) && DowNames(items[i], n)
    ensures DowMatches(e, n)
  {
    hide YearOfDay, MonthOfDay, DayOfDay, CronDow, NoLaterOccurrence, Occurrences, ItemValues, Normalised, DowMatches;
    DowMeans(e, n);
    if items[i].DowPlain? {
      assert DowDenotes(items, i, CronDow(n));
    }
    if NthOf(items[i]).Some? && NthOf(items[i]).value.1 == 5 {
      FifthIsLast(n);
    }
  }

  /** What is accepted is named by some entry. */
  lemma AcceptedIsNamed(e: Fields, items: seq<DowItem>, n: int)
    requires DowRecorded(e, DowList(items)) && DowMatches(e, n)
    ensures exists item :: item in items && DowNames(item, n)
  {
    hide YearOfDay, MonthOfDay, DayOfDay, CronDow, NoLaterOccurrence, Occurrences, ItemValues, Normalised, DowMatches;
    DowMeans(e, n);
    DowRecordedIsSaid(items, e.nthDow, e.lastDow);
    if CronDow(n) in e.daysOfWeek {
      var i :| DowDenotes(items, i, CronDow(n));
      assert items[i] in items && DowNames(items[i], n);
    }
  }

  lemma DayOfMonthDay(y: int, m: int, d: int, dow: int)
    requires ValidDate(y, m, d) && CronDow(DayNumber(y, m, d)) == dow
    ensures var n := DayNumber(y, m, d);
            && CronDow(n) == dow && YearOfDay(n) == y && MonthOfDay(n) == m && DayOfDay(n) == d
            && Occurrences(DayNumber(y, m, 1), dow, d) == (d - 1) / 7 + 1
            && (NoLaterOccurrence(y, m, dow, d) <==> d + 7 > DaysInMonth(y, m))
  {
    hide CronDow, NoLaterOccurrence, Occurrences, YearOfDay, MonthOfDay, DayNumber;
    DateRoundTrip(y, m, d);
    NthIsCounted(y, m, d, dow);
    LastIsLast(y, m, d, dow);
    LastDayIsMonthLength(y, m);
  }

  lemma DayOfMonthDow(y: int, m: int, d: int, opening: int)
    requires 1 <= m <= 12 && CronDow(DayNumber(y, m, 1)) == opening
    ensures CronDow(DayNumber(y, m, d)) == (opening + d - 1) % 7
  {
    hide CronDow, DayNumber;
    DayNumberShift(y, m, 1, d - 1);
    DowShift(DayNumber(y, m, 1), d - 1);
  }

  /** An entry that is not held names a day that is not accepted. */
  lemma NotHeldIsLost(e: Fields, item: DowItem) returns (n: int)
    requires DowItemParses(item) && !DowHeld(e, item)
    ensures DowNames(item, n) && !DowMatches(e, n)
  {
    hide CronDow, NoLaterOccurrence, Occurrences, YearOfDay, MonthOfDay, DayOfDay, DayNumber, DowMatches, ItemValues;
    var dow := item.dow.value % 7;
    var k := if item.Nth? then item.nth.value else 5;
    if item.LastOf? && e.nthDow == Some((dow, 5)) {
      FourOfEach(dow);
      DayOfMonthDay(2026, 2, 22 + dow, dow);
      n := DayNumber(2026, 2, 22 + dow);
    } else {
      var y, m := MonthOpeningOn(31, dow);
      DayOfMonthDow(y, m, 7 * k - 6, dow);
      SevenDivides(dow, k - 1);
      DayOfMonthDay(y, m, 7 * k - 6, dow);
      n := DayNumber(y, m, 7 * k - 6);
    }
    DowMeans(e, n);
  }

  /** A weekday list accepts exactly the days its entries name if and only if every positional entry is
      covered: of two `n#k` entries that differ, the earlier loses days unless its weekday is there plainly
      too, or it asks for the fifth and the last such weekday is recorded. */
  lemma DowListIsUnionIff(e: Fields, items: seq<DowItem>)
    requires DowRecorded(e, DowList(items)) && forall i :: 0 <= i < |items| ==> DowItemParses(items[i])
    ensures (forall n :: DowMatches(e, n) <==> exists item :: item in items && DowNames(item, n)) <==>
      (forall item :: item in items ==> DowCovered(items, item))
  {
    hide DowMatches, DowNames, DowCovered, DowHeld, DowRecorded;
    if forall item :: item in items ==> DowCovered(items, item) {
      forall n ensures DowMatches(e, n) <==> exists item :: item in items && DowNames(item, n) {
        if DowMatches(e, n) {
          AcceptedIsNamed(e, items, n);
        }
        if item :| item in items && DowNames(item, n) {
          var i :| 0 <= i < |items| && items[i] == item;
          CoveredIsHeld(e, items, item);
          HeldIsAccepted(e, items, i, n);
        }
      }
    } else {
      var item :| item in items && !DowCovered(items, item);
      CoveredIsHeld(e, items, item);
      var n := NotHeldIsLost(e, item);
    }
  }

  /** `n#k` parses exactly when it names some day at all. */
  lemma NthParsesIffItNamesADay(a: int, k: int)
    requires 0 <= a <= 7
    ensures DowItemParses(Nth(Number(a), Number(k))) <==> exists n :: DowNames(Nth(Number(a), Number(k)), n)
  {
    hide CronDow, NoLaterOccurrence, Occurrences, YearOfDay, MonthOfDay, DayOfDay, DayNumber, ItemValues;
    var item, dow := Nth(Number(a), Number(k)), a % 7;
    if 1 <= k <= 5 {
      var y, m := MonthOpeningOn(31, dow);
      DayOfMonthDow(y, m, 7 * k - 6, dow);
      SevenDivides(dow, k - 1);
      DayOfMonthDay(y, m, 7 * k - 6, dow);
      assert DowNames(item, DayNumber(y, m, 7 * k - 6));
    }
    forall n | DowNames(item, n) ensures 1 <= k <= 5 {
      NthIsCounted(YearOfDay(n), MonthOfDay(n), DayOfDay(n), CronDow(n));
    }
  }

  /** `MON#1,MON#3` does not accept Monday 5 January 2026, the first of its month. */
  lemma FirstMondayIsLost(e: Fields)
    requires DowRecorded(e, DowList([Nth(Number(1), Number(1)), Nth(Number(1), Number(3))]))
    ensures var n := DayNumber(2026, 1, 5); DowNames(Nth(Number(1), Number(1)), n) && !DowMatches(e, n)
  {
    hide CronDow, NoLaterOccurrence, Occurrences, YearOfDay, MonthOfDay, DayOfDay, DowMatches, ItemValues;
    var items := [Nth(Number(1), Number(1)), Nth(Number(1), Number(3))];
    var n := DayNumber(2026, 1, 5);
    CronDowIs(n);
    DayOfMonthDay(2026, 1, 5, 1);
    DowRecordedIsSaid(items, e.nthDow, e.lastDow);
    assert LastNth(items, 1, 2);
    LastNthIs(items, e.nthDow, (1, 3));
    DowMeans(e, n);
  }

  // ---- day-of-month lists --------------------------------------------------------------------

  /** The entry names day `n`. */
  ghost predicate DomNames(item: DomItem, n: int) {
    var y, m, d := YearOfDay(n), MonthOfDay(n), DayOfDay(n);
    var last := DaysInMonth(y, m);
    match item
    case DomPlain(plain) => ItemValues(plain, 1, 31).Some? && d in ItemValues(plain, 1, 31).value
    case LastDay => d == last
    case LastDayMinus(_) => MinusOf(item).Some? && d + MinusOf(item).value == last
    case Nearest(_) => NearestOf(item).Some? && NearestWorkingDay(y, m, Capped(NearestOf(item).value, last), d)
  }

  function Capped(v: int, last: int): int { if v < last then v else last }

  /** Day `d` of a month of `last` days is accepted on account of a plain entry or of `L`. */
  ghost predicate DomPlainly(items: seq<DomItem>, d: int, last: int) {
    (exists i :: DomDenotes(items, i, d)) || (d == last && LastDay in items)
  }

  /** In a month of `last` days, the day `offset` before its last is so accepted, or there is none. */
  ghost predicate MinusPlainly(items: seq<DomItem>, offset: int, last: int) {
    1 <= last - offset <= last ==> DomPlainly(items, last - offset, last)
  }

  /** The days an `L-n` entry names are accepted on account of some entry that is kept. */
  ghost predicate MinusCovered(items: seq<DomItem>, item: DomItem) {
    MinusOf(item).Some? ==>
      || (exists i :: LastMinus(items, i, |items|) && MinusOf(items[i]) == MinusOf(item))
      || forall last :: 28 <= last <= 31 ==> MinusPlainly(items, MinusOf(item).value, last)
  }

  /** All `nW` entries ask for the same day, numbers past the end of the longest month being alike. */
  ghost predicate NearestAlike(items: seq<DomItem>) {
    forall x, y :: x in items && y in items && NearestOf(x).Some? && NearestOf(y).Some? ==>
      Capped(NearestOf(x).value, 31) == Capped(NearestOf(y).value, 31)
  }

  lemma LastMinusIs(items: seq<DomItem>, recorded: Option<int>, offset: int)
    requires MinusRecorded(items, |items|, recorded)
    ensures recorded == Some(offset) <==> exists i :: LastMinus(items, i, |items|) && MinusOf(items[i]) == Some(offset)
  {
    if recorded.Some? {
      var j :| LastMinus(items, j, |items|) && items[j] == LastDayMinus(Number(recorded.value));
      assert MinusOf(items[j]) == recorded;
      forall i | LastMinus(items, i, |items|) ensures i == j {
      }
    }
  }

  lemma DayInMonth(n: int)
    ensures var last := DaysInMonth(YearOfDay(n), MonthOfDay(n)); 28 <= last <= 31 && 1 <= DayOfDay(n) <= last
  {
  }

  lemma CoveredDayIsAccepted(e: Fields, items: seq<DomItem>, i: int, n: int)
    requires DomRecorded(e, DomList(items)) && NearestInRange(e) && NearestAlike(items)
    requires 0 <= i < |items| && MinusCovered(items, items[i]) && DomNames(items[i], n)
    ensures DomMatches(e, n) == Match
  {
    hide YearOfDay, MonthOfDay, DayOfDay, ItemValues, DomMatches, NearestWorkingDay, DaysInMonth;
    DomMeans(e, n);
    DayInMonth(n);
    DomRecordedIsSaid(items, e.lastDomOffset, e.nearestWeekday);
    var last := DaysInMonth(YearOfDay(n), MonthOfDay(n));
    match items[i]
    case DomPlain(_) => assert DomDenotes(items, i, DayOfDay(n));
    case LastDay =>
    case LastDayMinus(_) =>
      LastMinusIs(items, e.lastDomOffset, MinusOf(items[i]).value);
      assert e.lastDomOffset != MinusOf(items[i]) ==> MinusPlainly(items, MinusOf(items[i]).value, last);
    case Nearest(_) =>
      assert items[i] in items;
  }

  lemma AcceptedDayIsNamed(e: Fields, items: seq<DomItem>, n: int)
    requires DomRecorded(e, DomList(items)) && NearestInRange(e) && DomMatches(e, n) == Match
    ensures exists item :: item in items && DomNames(item, n)
  {
    hide YearOfDay, MonthOfDay, DayOfDay, ItemValues, DomMatches, NearestWorkingDay, DaysInMonth;
    DomMeans(e, n);
    DomRecordedIsSaid(items, e.lastDomOffset, e.nearestWeekday);
    var last := DaysInMonth(YearOfDay(n), MonthOfDay(n));
    if DayOfDay(n) in e.daysOfMonth {
      var i :| DomDenotes(items, i, DayOfDay(n));
      assert items[i] in items && DomNames(items[i], n);
    } else if e.lastDayOfMonth && DayOfDay(n) == last {
      assert DomNames(LastDay, n);
    } else if e.lastDomOffset.Some? && DayOfDay(n) + e.lastDomOffset.value == last {
      var x :| x in items && MinusOf(x) == e.lastDomOffset;
      assert DomNames(x, n);
    } else {
      var x :| x in items && NearestOf(x) == e.nearestWeekday;
      assert DomNames(x, n);
    }
  }

  /** Every day of a month of any length falls on every weekday in some year. */
  lemma DayFallsOn(last: int, d: int, dow: int) returns (y: int, m: int)
    requires 28 <= last <= 31 && 1 <= d <= last && 0 <= dow < 7
    ensures ValidDate(y, m, d) && DaysInMonth(y, m) == last && CronDow(DayNumber(y, m, d)) == dow
  {
    hide DayNumber, DaysInMonth, CronDow;
    var opening := (dow + 1 - d) % 7;
    y, m := MonthOpeningOn(last, opening);
    DayOfMonthDow(y, m, d, opening);
    Reopens(dow, d);
  }

  lemma Reopens(dow: int, d: int)
    requires 0 <= dow < 7
    ensures ((dow + 1 - d) % 7 + d - 1) % 7 == dow
  {
    SevenDivides(dow, -((dow + 1 - d) / 7));
  }

  lemma RestDays(n: int)
    ensures Weekday(n) < 5 <==> 1 <= CronDow(n) <= 5
  {
  }

  /** An entry that is not covered names a Saturday that is not accepted. */
  lemma NotCoveredIsLost(e: Fields, items: seq<DomItem>, item: DomItem) returns (n: int)
    requires DomRecorded(e, DomList(items)) && NearestInRange(e) && DomItemParses(item) && !MinusCovered(items, item)
    ensures DomNames(item, n) && DomMatches(e, n) != Match
  {
    hide YearOfDay, MonthOfDay, DayOfDay, ItemValues, DomMatches, DayNumber, DaysInMonth, CronDow;
    var offset := MinusOf(item).value;
    LastMinusIs(items, e.lastDomOffset, offset);
    var last :| 28 <= last <= 31 && !MinusPlainly(items, offset, last);
    var y, m := DayFallsOn(last, last - offset, 6);
    n := DayNumber(y, m, last - offset);
    RestDays(n);
    DateRoundTrip(y, m, last - offset);
    DomMeans(e, n);
  }

  /** So a day-of-month list whose `nW` entries agree accepts exactly the days its entries name if and only if
      every `L-n` entry is covered: an earlier one that differs loses its day unless plain entries or `L`
      accept it in months of every length. */
  lemma AgreeingListIsUnionIff(e: Fields, items: seq<DomItem>)
    requires DomRecorded(e, DomList(items)) && forall i :: 0 <= i < |items| ==> DomItemParses(items[i])
    requires NearestInRange(e) && NearestAlike(items)
    ensures (forall n :: DomMatches(e, n) == Match <==> exists item :: item in items && DomNames(item, n)) <==>
      (forall item :: item in items ==> MinusCovered(items, item))
  {
    hide DomMatches, DomNames, MinusCovered, DomRecorded, NearestAlike;
    if forall item :: item in items ==> MinusCovered(items, item) {
      forall n ensures DomMatches(e, n) == Match <==> exists item :: item in items && DomNames(item, n) {
        if DomMatches(e, n) == Match {
          AcceptedDayIsNamed(e, items, n);
        }
        if item :| item in items && DomNames(item, n) {
          var i :| 0 <= i < |items| && items[i] == item;
          CoveredDayIsAccepted(e, items, i, n);
        }
      }
    } else {
      var item :| item in items && !MinusCovered(items, item);
      var n := NotCoveredIsLost(e, items, item);
    }
  }

  /** Where `target` is a weekend day, the nearest working day is a Monday or a Friday. */
  lemma NearestIsNoWednesday(y: int, m: int, target: int, d: int)
    requires ValidDate(y, m, target) && d != target && CronDow(DayNumber(y, m, d)) == 3
    ensures !NearestWorkingDay(y, m, target, d)
  {
    hide DayNumber, LastDayOfMonth;
    var n := DayNumber(y, m, target);
    var picked := NearestWeekdayTo(y, m, target);
    NearestIsNearest(y, m, target);
    if NearestWorkingDay(y, m, target, d) {
      NearestIsUnique(y, m, target, d, picked);
      DayNumberShift(y, m, target, d - target);
      Neighbours(n);
      CronDowIs(n + (d - target));
    }
  }

  /** In a list of `nW` entries, each within a month, none loses its days if and only if they agree. */
  lemma NearestListIsUnionIff(e: Fields, items: seq<DomItem>)
    requires DomRecorded(e, DomList(items))
    requires forall item :: item in items ==> NearestOf(item).Some? && NearestOf(item).value >= 1
    ensures (forall n :: DomMatches(e, n) == Match <==> exists item :: item in items && DomNames(item, n)) <==>
      NearestAlike(items)
  {
    hide DomMatches, DomNames, DomRecorded;
    NearestListRecords(e, items);
    if NearestAlike(items) {
      forall i | 0 <= i < |items| ensures DomItemParses(items[i]) {
        assert items[i] in items;
      }
      AgreeingListIsUnionIff(e, items);
    } else {
      var x :| x in items && Capped(NearestOf(x).value, 31) != Capped(e.nearestWeekday.value, 31);
      var n := NearestIsLost(e, x);
    }
  }

  lemma NearestListRecords(e: Fields, items: seq<DomItem>)
    requires DomRecorded(e, DomList(items))
    requires forall item :: item in items ==> NearestOf(item).Some? && NearestOf(item).value >= 1
    ensures NearestInRange(e) && e.daysOfMonth == {} && !e.lastDayOfMonth && e.lastDomOffset == None
    ensures e.nearestWeekday.None? ==> items == []
  {
    DomRecordedIsSaid(items, e.lastDomOffset, e.nearestWeekday);
    assert forall i :: 0 <= i < |items| ==> items[i] in items;
    assert forall v :: v !in e.daysOfMonth;
    if items != [] {
      assert items[0] in items;
    }
  }

  lemma NearestIsLost(e: Fields, item: DomItem) returns (n: int)
    requires e.daysOfMonth == {} && !e.lastDayOfMonth && e.lastDomOffset == None
    requires NearestInRange(e) && e.nearestWeekday.Some? && NearestOf(item).Some? && NearestOf(item).value >= 1
    requires Capped(NearestOf(item).value, 31) != Capped(e.nearestWeekday.value, 31)
    ensures DomNames(item, n) && DomMatches(e, n) != Match
  {
    hide YearOfDay, MonthOfDay, DayOfDay, DomMatches, DayNumber, CronDow;
    var d := Capped(NearestOf(item).value, 31);
    var y, m := DayFallsOn(31, d, 3);
    n := DayNumber(y, m, d);
    RestDays(n);
    DateRoundTrip(y, m, d);
    NearestIsNoWednesday(y, m, Capped(e.nearestWeekday.value, 31), d);
    DomMeans(e, n);
    assert WorkingDay(y, m, d);
  }

  // ---- any day-of-month list, month by month -------------------------------------------------

  /** The working day nearest to `target` in a month of `last` days that opens on weekday `opening`. */
  function Picked(target: int, last: int, opening: int): int {
    var dow := (opening + target - 1) % 7;
    if 1 <= dow <= 5 then target
    else if dow == 6 then (if target > 1 then target - 1 else target + 2)
    else if target < last then target + 1 else target - 2
  }

  /** In such a month, the entry names day `d`. */
  predicate ShapeNames(item: DomItem, last: int, opening: int, d: int) {
    match item
    case DomPlain(plain) => ItemValues(plain, 1, 31).Some? && d in ItemValues(plain, 1, 31).value
    case LastDay => d == last
    case LastDayMinus(_) => MinusOf(item).Some? && d + MinusOf(item).value == last
    case Nearest(_) => NearestOf(item).Some? && d == Picked(Capped(NearestOf(item).value, last), last, opening)
  }

  /** The entry is recorded: it is plain, or `L`, or says what the last of its kind says. */
  ghost predicate DomKept(items: seq<DomItem>, item: DomItem) {
    match item
    case DomPlain(_) => true
    case LastDay => true
    case LastDayMinus(_) => exists i :: LastMinus(items, i, |items|) && MinusOf(items[i]) == MinusOf(item)
    case Nearest(_) => exists i :: LastNearest(items, i, |items|) && NearestOf(items[i]) == NearestOf(item)
  }

  /** In such a month, an entry that is recorded names day `d`. */
  ghost predicate ShapeAccepts(items: seq<DomItem>, last: int, opening: int, d: int) {
    exists item :: item in items && DomKept(items, item) && ShapeNames(item, last, opening, d)
  }

  /** In months of every length that open on every weekday, recorded entries accept what the entry names. */
  ghost predicate DomCovered(items: seq<DomItem>, item: DomItem) {
    forall last, opening, d {:trigger ShapeNames(item, last, opening, d)} ::
      28 <= last <= 31 && 0 <= opening < 7 && 1 <= d <= last && ShapeNames(item, last, opening, d)
      ==> ShapeAccepts(items, last, opening, d)
  }

  lemma LastNearestIs(items: seq<DomItem>, recorded: Option<int>, target: int)
    requires NearestRecorded(items, |items|, recorded)
    ensures recorded == Some(target) <==>
      exists i :: LastNearest(items, i, |items|) && NearestOf(items[i]) == Some(target)
  {
    if recorded.Some? {
      var j :| LastNearest(items, j, |items|) && items[j] == Nearest(Number(recorded.value));
      assert NearestOf(items[j]) == recorded;
      forall i | LastNearest(items, i, |items|) ensures i == j {
      }
    }
  }

  lemma PickedIsNearest(y: int, m: int, target: int, d: int)
    requires ValidDate(y, m, target)
    ensures NearestWorkingDay(y, m, target, d) <==>
      d == Picked(target, DaysInMonth(y, m), CronDow(DayNumber(y, m, 1)))
  {
    hide DayNumber, CronDow, LastDayOfMonth, NearestWorkingDay, DaysInMonth;
    var n := DayNumber(y, m, target);
    DayOfMonthDow(y, m, target, CronDow(DayNumber(y, m, 1)));
    WeekdayOf(n);
    LastDayIsMonthLength(y, m);
    NearestIsNearest(y, m, target);
    if NearestWorkingDay(y, m, target, d) {
      NearestIsUnique(y, m, target, d, NearestWeekdayTo(y, m, target));
    }
  }

  lemma WeekdayOf(n: int)
    ensures Weekday(n) < 5 <==> 1 <= CronDow(n) <= 5
    ensures Weekday(n) == 5 <==> CronDow(n) == 6
  {
  }

  /** What an entry names depends on the shape of the month alone. */
  lemma NamesByShape(item: DomItem, y: int, m: int, d: int)
    requires ValidDate(y, m, d) && (NearestOf(item).Some? ==> NearestOf(item).value >= 1)
    ensures DomNames(item, DayNumber(y, m, d)) <==>
      ShapeNames(item, DaysInMonth(y, m), CronDow(DayNumber(y, m, 1)), d)
  {
    hide YearOfDay, MonthOfDay, DayOfDay, DayNumber, CronDow, ItemValues, NearestWorkingDay, Picked;
    DateRoundTrip(y, m, d);
    if NearestOf(item).Some? {
      PickedIsNearest(y, m, Capped(NearestOf(item).value, DaysInMonth(y, m)), d);
    }
  }

  /** And so does what the list accepts. */
  lemma AcceptsByShape(e: Fields, items: seq<DomItem>, y: int, m: int, d: int)
    requires DomRecorded(e, DomList(items)) && NearestInRange(e) && ValidDate(y, m, d)
    ensures DomMatches(e, DayNumber(y, m, d)) == Match <==>
      ShapeAccepts(items, DaysInMonth(y, m), CronDow(DayNumber(y, m, 1)), d)
  {
    hide YearOfDay, MonthOfDay, DayOfDay, DayNumber, CronDow, ItemValues, NearestWorkingDay, Picked, DomMatches;
    hide DaysInMonth;
    var n, last, opening := DayNumber(y, m, d), DaysInMonth(y, m), CronDow(DayNumber(y, m, 1));
    DateRoundTrip(y, m, d);
    DomMeans(e, n);
    if DomMeaning(e, y, m, d) {
      MeaningIsShape(e, items, y, m, d);
    }
    if item :| item in items && DomKept(items, item) && ShapeNames(item, last, opening, d) {
      ShapeIsMeaning(e, items, item, y, m, d);
    }
  }

  lemma MeaningIsShape(e: Fields, items: seq<DomItem>, y: int, m: int, d: int)
    requires DomRecorded(e, DomList(items)) && NearestInRange(e) && ValidDate(y, m, d) && DomMeaning(e, y, m, d)
    ensures ShapeAccepts(items, DaysInMonth(y, m), CronDow(DayNumber(y, m, 1)), d)
  {
    hide DayNumber, CronDow, ItemValues, NearestWorkingDay, Picked, DaysInMonth;
    var last, opening := DaysInMonth(y, m), CronDow(DayNumber(y, m, 1));
    if d in e.daysOfMonth {
      var i :| DomDenotes(items, i, d);
      assert items[i] in items && ShapeNames(items[i], last, opening, d);
    } else if e.lastDayOfMonth && d == last {
      assert ShapeNames(LastDay, last, opening, d);
    } else if e.lastDomOffset.Some? && d + e.lastDomOffset.value == last {
      LastMinusIs(items, e.lastDomOffset, e.lastDomOffset.value);
      var i :| LastMinus(items, i, |items|) && MinusOf(items[i]) == e.lastDomOffset;
      assert items[i] in items && DomKept(items, items[i]) && ShapeNames(items[i], last, opening, d);
    } else {
      LastNearestIs(items, e.nearestWeekday, e.nearestWeekday.value);
      var i :| LastNearest(items, i, |items|) && NearestOf(items[i]) == e.nearestWeekday;
      CappedIsADay(y, m, e.nearestWeekday.value);
      PickedIsNearest(y, m, Capped(e.nearestWeekday.value, last), d);
      assert items[i] in items && DomKept(items, items[i]) && ShapeNames(items[i], last, opening, d);
    }
  }

  lemma ShapeIsMeaning(e: Fields, items: seq<DomItem>, item: DomItem, y: int, m: int, d: int)
    requires DomRecorded(e, DomList(items)) && NearestInRange(e) && ValidDate(y, m, d)
    requires item in items && DomKept(items, item)
    requires ShapeNames(item, DaysInMonth(y, m), CronDow(DayNumber(y, m, 1)), d)
    ensures DomMeaning(e, y, m, d)
  {
    hide DayNumber, CronDow, ItemValues, NearestWorkingDay, Picked, DaysInMonth;
    match item
    case DomPlain(_) =>
      var i :| 0 <= i < |items| && items[i] == item;
      assert DomDenotes(items, i, d);
    case LastDay =>
    case LastDayMinus(_) => LastMinusIs(items, e.lastDomOffset, MinusOf(item).value);
    case Nearest(_) =>
      LastNearestIs(items, e.nearestWeekday, NearestOf(item).value);
      CappedIsADay(y, m, NearestOf(item).value);
      PickedIsNearest(y, m, Capped(NearestOf(item).value, DaysInMonth(y, m)), d);
  }

  lemma CappedIsADay(y: int, m: int, target: int)
    requires 1 <= m <= 12 && target >= 1
    ensures ValidDate(y, m, Capped(target, DaysInMonth(y, m)))
  {
  }

  /** Any day-of-month list whose `nW` numbers are at least 1 accepts exactly the days its entries name if and
      only if every entry is covered: entries of every kind, agreeing or not, and however days are shared
      among them. */
  lemma DomListIsUnionIff(e: Fields, items: seq<DomItem>)
    requires DomRecorded(e, DomList(items))
    requires forall item :: item in items && NearestOf(item).Some? ==> NearestOf(item).value >= 1
    ensures (forall n :: DomMatches(e, n) == Match <==> exists item :: item in items && DomNames(item, n)) <==>
      (forall item :: item in items ==> DomCovered(items, item))
  {
    hide DomMatches, DomNames, DomRecorded, ShapeNames, DomKept, DaysInMonth, DayNumber, YearOfDay, MonthOfDay;
    RecordedIsInRange(e, items);
    if forall item :: item in items ==> DomCovered(items, item) {
      forall n ensures DomMatches(e, n) == Match <==> exists item :: item in items && DomNames(item, n) {
        var y, m, d := YearOfDay(n), MonthOfDay(n), DayOfDay(n);
        DayInMonth(n);
        CoveredMonth(e, items, y, m, d);
      }
    } else {
      var item :| item in items && !DomCovered(items, item);
      var n := UncoveredIsLost(e, items, item);
    }
  }

  lemma RecordedIsInRange(e: Fields, items: seq<DomItem>)
    requires DomRecorded(e, DomList(items))
    requires forall item :: item in items && NearestOf(item).Some? ==> NearestOf(item).value >= 1
    ensures NearestInRange(e)
  {
    DomRecordedIsSaid(items, e.lastDomOffset, e.nearestWeekday);
  }

  lemma CoveredMonth(e: Fields, items: seq<DomItem>, y: int, m: int, d: int)
    requires DomRecorded(e, DomList(items)) && NearestInRange(e) && ValidDate(y, m, d)
    requires forall item :: item in items && NearestOf(item).Some? ==> NearestOf(item).value >= 1
    requires forall item :: item in items ==> DomCovered(items, item)
    ensures var n := DayNumber(y, m, d);
            DomMatches(e, n) == Match <==> exists item :: item in items && DomNames(item, n)
  {
    hide DomMatches, DomNames, DomRecorded, ShapeNames, DomKept, DayNumber, CronDow;
    var last, opening := DaysInMonth(y, m), CronDow(DayNumber(y, m, 1));
    OpeningIsAWeekday(DayNumber(y, m, 1));
    AcceptsByShape(e, items, y, m, d);
    forall item | item in items
      ensures DomNames(item, DayNumber(y, m, d)) <==> ShapeNames(item, last, opening, d)
    {
      NamesByShape(item, y, m, d);
    }
  }

  lemma OpeningIsAWeekday(n: int)
    ensures 0 <= CronDow(n) < 7
  {
  }

  /** An entry that is not covered names a day that is not accepted. */
  lemma UncoveredIsLost(e: Fields, items: seq<DomItem>, item: DomItem) returns (n: int)
    requires DomRecorded(e, DomList(items)) && NearestInRange(e) && item in items && !DomCovered(items, item)
    requires NearestOf(item).Some? ==> NearestOf(item).value >= 1
    ensures DomNames(item, n) && DomMatches(e, n) != Match
  {
    hide DomMatches, DomNames, DomRecorded, ShapeNames, DomKept, DayNumber, CronDow, DaysInMonth;
    var last, opening, d :| 28 <= last <= 31 && 0 <= opening < 7 && 1 <= d <= last
      && ShapeNames(item, last, opening, d) && !ShapeAccepts(items, last, opening, d);
    var y, m := MonthOpeningOn(last, opening);
    n := DayNumber(y, m, d);
    NamesByShape(item, y, m, d);
    AcceptsByShape(e, items, y, m, d);
  }
}

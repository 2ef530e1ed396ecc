/**
 * The statistics screen: per-item totals over a period with their targets and
 * percentages, sorted by total; the overall statistics (total, active days, daily
 * average, best day, streak, targets completed today) that feed the achievement
 * evaluator; the seven-day trend; and the history of past days.
 */
module Analytics {
  import opened Wrappers
  import opened Table
  import opened Database
  import opened Rounding
  import opened Streak
  import opened Achievements

  // ---------------------------------------------------------------------------
  // Per-item period totals
  // ---------------------------------------------------------------------------

  datatype Period = Daily | Weekly | Monthly

  /**
   * The dates a period sums: `date = DATE('now')`; `date >= DATE('now', '-7 days')`,
   * which is eight days counting today; `date >= DATE('now', 'start of month')`.
   */
  predicate InWindow(period: Period, date: int, today: int, monthStart: int) {
    match period
    case Daily => date == today
    case Weekly => date >= today - 7
    case Monthly => date >= monthStart
  }

  /** The `WHERE` clause of the period query for one item. */
  function PeriodSel(item: Item, period: Period, today: int, monthStart: int): RecordKey -> bool {
    (k: RecordKey) => k.item == item && InWindow(period, k.date, today, monthStart)
  }

  /** `SUM(count) ... || 0`: the item's total over the period, 0 when it has no row. */
  function PeriodTotal(records: Records, item: Item, period: Period, today: int, monthStart: int): nat {
    Sum(records, PeriodSel(item, period, today, monthStart))
  }

  /** `targetResult[0]?.target || 100`: a missing target row, or a target of 0, reads as 100. */
  function AnalyticsTarget(targets: Targets, item: Item): (r: int)
    ensures r != 0
    ensures Lookup(targets, item).Some? && Lookup(targets, item).value != 0 ==> r == Lookup(targets, item).value
    ensures Lookup(targets, item).None? || Lookup(targets, item).value == 0 ==> r == 100
  {
    var t := Lookup(targets, item).GetOr(0);
    if t != 0 then t else 100
  }

  /**
   * `target > 0 ? Math.round((total / target) * 100) : 0`: the total as a percentage
   * of the target, rounded to the nearest integer and not capped at 100.
   */
  function Percentage(total: nat, target: int): (p: int)
    ensures target <= 0 ==> p == 0
    ensures target > 0 ==> p >= 0 && (2 * p - 1) * target <= 200 * total < (2 * p + 1) * target
  {
    if target > 0 then
      RoundDivNonNegative(100 * total, target);
      RoundDiv(100 * total, target)
    else 0
  }

  /** Reaching the target shows at least 100%. */
  lemma PercentageOfMetTarget(total: nat, target: int)
    requires 0 < target <= total
    ensures Percentage(total, target) >= 100
  {
    RoundDivExact(100, target);
    RoundDivMonotone(100 * target, 100 * total, target);
  }

  /** Staying at or below the target shows at most 100%. */
  lemma PercentageOfUnmetTarget(total: nat, target: int)
    requires 0 < target && total <= target
    ensures Percentage(total, target) <= 100
  {
    RoundDivExact(100, target);
    RoundDivMonotone(100 * total, 100 * target, target);
  }

  /** The percentage is not capped: two and a half times the target shows 250%. */
  lemma PercentageNotCapped()
    ensures Percentage(250, 100) == 250
  {
    RoundDivExact(250, 100);
  }

  /** One row of the per-period list. */
  datatype PeriodEntry = PeriodEntry(item: Item, total: nat, target: int, percentage: int)

  function Entry(records: Records, targets: Targets, item: Item, period: Period, today: int, monthStart: int): PeriodEntry {
    var total := PeriodTotal(records, item, period, today, monthStart);
    var target := AnalyticsTarget(targets, item);
    PeriodEntry(item, total, target, Percentage(total, target))
  }

  function Entries(records: Records, targets: Targets, items: seq<Item>, period: Period, today: int, monthStart: int): seq<PeriodEntry> {
    seq(|items|, i requires 0 <= i < |items| => Entry(records, targets, items[i], period, today, monthStart))
  }

  /**
   * The items the list covers: every built-in item, then the custom items newest
   * first. When reading the custom items fails (`customsFail`) the built-in items
   * are still listed.
   */
  function Items(defaultIds: seq<int>, customs: seq<CustomItem>, customsFail: bool): (r: seq<Item>)
    ensures |r| == |defaultIds| + (if customsFail then 0 else |customs|)
    ensures forall i :: 0 <= i < |defaultIds| ==> r[i] == Item(defaultIds[i], Default)
    ensures !customsFail ==> forall j :: 0 <= j < |customs| ==> r[|defaultIds| + j] == Item(customs[j].id, Custom)
  {
    seq(|defaultIds|, i requires 0 <= i < |defaultIds| => Item(defaultIds[i], Default))
      + if customsFail then [] else seq(|customs|, j requires 0 <= j < |customs| => Item(customs[j].id, Custom))
  }

  // ---------------------------------------------------------------------------
  // Sorting by total, largest first; `Array.prototype.sort` is stable
  // ---------------------------------------------------------------------------

  predicate SortedDesc(s: seq<PeriodEntry>) {
    forall i, j :: 0 <= i < j < |s| ==> s[i].total >= s[j].total
  }

  /** `[x]` when `x` has total `t`, otherwise nothing. */
  function Keep(x: PeriodEntry, t: nat): seq<PeriodEntry> {
    if x.total == t then [x] else []
  }

  /** The entries with total `t`, in order. */
  function WithTotal(s: seq<PeriodEntry>, t: nat): seq<PeriodEntry> {
    if s == [] then [] else Keep(s[0], t) + WithTotal(s[1..], t)
  }

  /** Places `x` after every entry whose total is at least its own. */
  function InsertByTotal(x: PeriodEntry, s: seq<PeriodEntry>): (r: seq<PeriodEntry>)
    requires SortedDesc(s)
    ensures SortedDesc(r)
    ensures multiset(r) == multiset(s) + multiset{x}
  {
    if s == [] || x.total > s[0].total then [x] + s
    else
      var rest := s[1..];
      SortedSplit(s);
      var tail := InsertByTotal(x, rest);
      BoundedBy(tail, rest, x, s[0].total);
      SortedJoin(s[0], tail);
      assert s == [s[0]] + rest;
      [s[0]] + tail
  }

  /** The rest of a sorted list is sorted and bounded by its head. */
  lemma SortedSplit(s: seq<PeriodEntry>)
    requires s != [] && SortedDesc(s)
    ensures SortedDesc(s[1..])
    ensures forall k :: 0 <= k < |s[1..]| ==> s[1..][k].total <= s[0].total
  {
    assert forall k :: 0 <= k < |s[1..]| ==> s[1..][k] == s[k + 1];
  }

  /** A head at least as large as every entry of a sorted list keeps it sorted. */
  lemma SortedJoin(h: PeriodEntry, s: seq<PeriodEntry>)
    requires SortedDesc(s)
    requires forall k :: 0 <= k < |s| ==> s[k].total <= h.total
    ensures SortedDesc([h] + s)
  {
    var r := [h] + s;
    assert forall k :: 1 <= k < |r| ==> r[k] == s[k - 1];
  }

  /** Adding `x` to the entries of `s` keeps every total within a bound that `x` and `s` keep. */
  lemma BoundedBy(r: seq<PeriodEntry>, s: seq<PeriodEntry>, x: PeriodEntry, bound: nat)
    requires multiset(r) == multiset(s) + multiset{x}
    requires x.total <= bound
    requires forall k :: 0 <= k < |s| ==> s[k].total <= bound
    ensures forall j :: 0 <= j < |r| ==> r[j].total <= bound
  {
    forall j | 0 <= j < |r| ensures r[j].total <= bound {
      assert r[j] in multiset(r);
      if r[j] != x {
        assert r[j] in multiset(s);
        var k :| 0 <= k < |s| && s[k] == r[j];
      }
    }
  }

  /** `list.sort((a, b) => b.total - a.total)`. */
  function SortByTotal(s: seq<PeriodEntry>): (r: seq<PeriodEntry>)
    ensures SortedDesc(r)
    ensures multiset(r) == multiset(s)
  {
    if s == [] then []
    else
      assert s == s[..|s| - 1] + [s[|s| - 1]];
      InsertByTotal(s[|s| - 1], SortByTotal(s[..|s| - 1]))
  }

  lemma {:induction false} WithTotalAppend(s: seq<PeriodEntry>, x: PeriodEntry, t: nat)
    ensures WithTotal(s + [x], t) == WithTotal(s, t) + Keep(x, t)
  {
    if s == [] {
      assert [x][1..] == [];
      assert WithTotal([x], t) == Keep(x, t) + [];
    } else {
      assert (s + [x])[1..] == s[1..] + [x];
      WithTotalAppend(s[1..], x, t);
      assert Keep(s[0], t) + (WithTotal(s[1..], t) + Keep(x, t))
          == (Keep(s[0], t) + WithTotal(s[1..], t)) + Keep(x, t);
    }
  }

  lemma {:induction false} WithTotalNone(s: seq<PeriodEntry>, t: nat)
    requires forall i :: 0 <= i < |s| ==> s[i].total < t
    ensures WithTotal(s, t) == []
  {
    if s != [] {
      WithTotalNone(s[1..], t);
    }
  }

  /** Putting in front an entry with a larger total than all the others adds it to its total's list. */
  lemma WithTotalPrepend(x: PeriodEntry, s: seq<PeriodEntry>, t: nat)
    requires forall i :: 0 <= i < |s| ==> s[i].total < x.total
    ensures WithTotal([x] + s, t) == WithTotal(s, t) + Keep(x, t)
  {
    assert ([x] + s)[1..] == s;
    if x.total == t {
      WithTotalNone(s, t);
      assert WithTotal(s, t) + Keep(x, t) == Keep(x, t) + [];
    } else {
      assert WithTotal(s, t) + Keep(x, t) == Keep(x, t) + WithTotal(s, t);
    }
  }

  lemma {:induction false} WithTotalInsert(x: PeriodEntry, s: seq<PeriodEntry>, t: nat)
    requires SortedDesc(s)
    ensures WithTotal(InsertByTotal(x, s), t) == WithTotal(s, t) + Keep(x, t)
  {
    if s == [] || x.total > s[0].total {
      WithTotalPrepend(x, s, t);
    } else {
      SortedSplit(s);
      var tail := InsertByTotal(x, s[1..]);
      assert InsertByTotal(x, s) == [s[0]] + tail;
      assert ([s[0]] + tail)[1..] == tail;
      WithTotalInsert(x, s[1..], t);
      calc {
        WithTotal(InsertByTotal(x, s), t);
        Keep(s[0], t) + WithTotal(tail, t);
        Keep(s[0], t) + (WithTotal(s[1..], t) + Keep(x, t));
        { ConcatAssoc(Keep(s[0], t), WithTotal(s[1..], t), Keep(x, t)); }
        WithTotal(s, t) + Keep(x, t);
      }
    }
  }

  lemma ConcatAssoc(a: seq<PeriodEntry>, b: seq<PeriodEntry>, c: seq<PeriodEntry>)
    ensures a + (b + c) == (a + b) + c
  {
  }

  /**
   * The sort is stable: the entries of any one total keep the order they had, so
   * items with equal totals stay in list order (built-in items before custom ones).
   */
  lemma {:induction false} SortStable(s: seq<PeriodEntry>, t: nat)
    ensures WithTotal(SortByTotal(s), t) == WithTotal(s, t)
  {
    if s != [] {
      var init, last := s[..|s| - 1], s[|s| - 1];
      assert s == init + [last];
      calc {
        WithTotal(SortByTotal(s), t);
        WithTotal(InsertByTotal(last, SortByTotal(init)), t);
        { WithTotalInsert(last, SortByTotal(init), t); }
        WithTotal(SortByTotal(init), t) + Keep(last, t);
        { SortStable(init, t); }
        WithTotal(init, t) + Keep(last, t);
        { WithTotalAppend(init, last, t); }
        WithTotal(s, t);
      }
    }
  }

  /**
   * `loadAnalytics(period)`: one entry per item, built in a loop, then sorted by
   * total, largest first.
   */
  method LoadAnalytics(db: Db, defaultIds: seq<int>, period: Period, today: int, monthStart: int, customsFail: bool)
    returns (entries: seq<PeriodEntry>)
    ensures |entries| == |Items(defaultIds, db.customs, customsFail)|
    ensures SortedDesc(entries)
    ensures entries == SortByTotal(Entries(db.records, db.targets, Items(defaultIds, db.customs, customsFail), period, today, monthStart))
  {
    var items := Items(defaultIds, db.customs, customsFail);
    var data: seq<PeriodEntry> := [];
    for i := 0 to |items|
      invariant data == Entries(db.records, db.targets, items[..i], period, today, monthStart)
    {
      var total := PeriodTotal(db.records, items[i], period, today, monthStart);
      var target := AnalyticsTarget(db.targets, items[i]);
      EntriesSnoc(db.records, db.targets, items, period, today, monthStart, i);
      data := data + [PeriodEntry(items[i], total, target, Percentage(total, target))];
    }
    assert items[..|items|] == items;
    entries := SortByTotal(data);
    assert |multiset(entries)| == |multiset(data)|;
  }

  lemma EntriesSnoc(records: Records, targets: Targets, items: seq<Item>, period: Period, today: int, monthStart: int, i: nat)
    requires i < |items|
    ensures Entries(records, targets, items[..i + 1], period, today, monthStart)
         == Entries(records, targets, items[..i], period, today, monthStart) + [Entry(records, targets, items[i], period, today, monthStart)]
  {
    assert items[..i + 1] == items[..i] + [items[i]];
  }

  /** Every item appears in the sorted list, with its own total, target and percentage. */
  lemma EveryItemListed(records: Records, targets: Targets, items: seq<Item>, period: Period, today: int, monthStart: int, i: nat)
    requires i < |items|
    ensures Entry(records, targets, items[i], period, today, monthStart)
         in SortByTotal(Entries(records, targets, items, period, today, monthStart))
  {
    var s := Entries(records, targets, items, period, today, monthStart);
    assert s[i] in multiset(s);
  }

  /** The day's total is part of the week's. */
  lemma DailyWithinWeekly(records: Records, item: Item, today: int, monthStart: int)
    ensures PeriodTotal(records, item, Daily, today, monthStart) <= PeriodTotal(records, item, Weekly, today, monthStart)
  {
    SumMonotone(records, PeriodSel(item, Daily, today, monthStart), PeriodSel(item, Weekly, today, monthStart));
  }

  /** The day's total is part of the month's, once the month has started. */
  lemma DailyWithinMonthly(records: Records, item: Item, today: int, monthStart: int)
    requires monthStart <= today
    ensures PeriodTotal(records, item, Daily, today, monthStart) <= PeriodTotal(records, item, Monthly, today, monthStart)
  {
    SumMonotone(records, PeriodSel(item, Daily, today, monthStart), PeriodSel(item, Monthly, today, monthStart));
  }

  /** With one row per item and date, the day's total is the count on today's row, or 0. */
  lemma DailyTotalIsTodaysCount(records: Records, item: Item, today: int, monthStart: int)
    requires UniqueKeys(records)
    ensures PeriodTotal(records, item, Daily, today, monthStart) == Lookup(records, RecordKey(item, today)).GetOr(0)
  {
    SumOneKey(records, PeriodSel(item, Daily, today, monthStart), RecordKey(item, today));
  }

  // ---------------------------------------------------------------------------
  // General statistics
  // ---------------------------------------------------------------------------

  /** A date and the sum of every count recorded on it. */
  datatype DayTotal = DayTotal(date: int, total: nat)

  datatype Stats = Stats(total: nat, days: nat, avgDaily: int, bestDay: Option<DayTotal>, streak: nat, completedTargets: nat)

  function Everything(): RecordKey -> bool {
    (_: RecordKey) => true
  }

  function OnDate(date: int): RecordKey -> bool {
    (k: RecordKey) => k.date == date
  }

  /** `SUM(count) ... WHERE date = d` across every item. */
  function DayTotalOf(records: Records, date: int): nat {
    Sum(records, OnDate(date))
  }

  /** A date with no record sums to 0. */
  lemma InactiveDayTotal(records: Records, date: int)
    requires date !in DatesOf(records)
    ensures DayTotalOf(records, date) == 0
  {
    forall i | 0 <= i < |records| ensures !OnDate(date)(records[i].key) {
      assert records[i].key.date in DatesOf(records);
    }
    SumNoneSelected(records, OnDate(date));
  }

  /** `days > 0 ? Math.round(total / days) : 0`: never a division by zero. */
  function AverageDaily(total: nat, days: nat): (r: int)
    ensures days == 0 ==> r == 0
    ensures days > 0 ==> r >= 0 && (2 * r - 1) * days <= 2 * total < (2 * r + 1) * days
  {
    if days > 0 then
      RoundDivNonNegative(total, days);
      RoundDiv(total, days)
    else 0
  }

  /** The date with the largest total among `ds`, the first one listed on a tie. */
  function MaxDay(records: Records, ds: seq<int>): (r: DayTotal)
    requires ds != []
    ensures r.date in ds && r.total == DayTotalOf(records, r.date)
    ensures forall d :: d in ds ==> DayTotalOf(records, d) <= r.total
  {
    var head := DayTotal(ds[0], DayTotalOf(records, ds[0]));
    if |ds| == 1 then head
    else
      var m := MaxDay(records, ds[1..]);
      assert forall d :: d in ds ==> d == ds[0] || d in ds[1..];
      if head.total >= m.total then head else m
  }

  /**
   * `GROUP BY date ORDER BY total DESC LIMIT 1`: a date with the largest daily
   * total, or none when there are no records.
   */
  function BestDay(records: Records): (r: Option<DayTotal>)
    ensures r.None? <==> records == []
    ensures r.Some? ==> r.value.date in DatesOf(records) && r.value.total == DayTotalOf(records, r.value.date)
    ensures r.Some? ==> forall d :: d in DatesOf(records) ==> DayTotalOf(records, d) <= r.value.total
  {
    var ds := DistinctDatesDesc(records);
    assert records != [] ==> records[0].key.date in ds;
    if ds == [] then None else Some(MaxDay(records, ds))
  }

  /** The items with a record today. */
  function ActiveToday(records: Records, today: int): set<Item> {
    set i | 0 <= i < |records| && records[i].key.date == today :: records[i].key.item
  }

  /**
   * The completed-targets query: the items with a record today whose summed count
   * today reaches `COALESCE(target, 100)`. Only a missing target row becomes 100;
   * a stored target of 0 is reached by any count.
   */
  function CompletedItems(records: Records, targets: Targets, today: int): set<Item> {
    set it | it in ActiveToday(records, today)
      && PeriodTotal(records, it, Daily, today, today) >= Lookup(targets, it).GetOr(100)
  }

  /** A completed item had a record today and its count today reached its target. */
  lemma CompletedMeansReached(records: Records, targets: Targets, today: int, it: Item)
    requires UniqueKeys(records)
    requires it in CompletedItems(records, targets, today)
    ensures RecordKey(it, today) in Keys(records)
    ensures Lookup(records, RecordKey(it, today)).value >= Lookup(targets, it).GetOr(100)
  {
    var i :| 0 <= i < |records| && records[i].key.date == today && records[i].key.item == it;
    assert records[i].key == RecordKey(it, today);
    DailyTotalIsTodaysCount(records, it, today, today);
  }

  /** An item with a target row of 0 counts as completed as soon as it has a record today. */
  lemma ZeroTargetCompleted(records: Records, targets: Targets, today: int, it: Item)
    requires Lookup(targets, it) == Some(0)
    requires RecordKey(it, today) in Keys(records)
    ensures it in CompletedItems(records, targets, today)
  {
    var i :| 0 <= i < |records| && records[i].key == RecordKey(it, today);
    assert it in ActiveToday(records, today);
  }

  /** An item without a target row needs 100 today to count as completed. */
  lemma MissingTargetIsHundred(records: Records, targets: Targets, today: int, it: Item)
    requires it !in Keys(targets)
    requires it in ActiveToday(records, today)
    ensures it in CompletedItems(records, targets, today) <==> PeriodTotal(records, it, Daily, today, today) >= 100
  {
  }

  /** The statistics `loadGeneralStats` computes. */
  function GeneralStats(records: Records, targets: Targets, today: int): Stats {
    var total := Sum(records, Everything());
    var days := |DatesOf(records)|;
    Stats(total, days, AverageDaily(total, days), BestDay(records),
          StreakOf(StreakDates(records, today), today), |CompletedItems(records, targets, today)|)
  }

  /** With no records every statistic is zero and there is no best day. */
  lemma EmptyStats(targets: Targets, today: int)
    ensures GeneralStats([], targets, today) == Stats(0, 0, 0, None, 0, 0)
  {
    assert DatesOf([]) == {};
    assert ActiveToday([], today) == {};
  }

  /**
   * `loadGeneralStats`: compute the statistics, the streak with its loop, then hand
   * them to the achievement evaluator.
   */
  method LoadGeneralStats(db: Db, rules: seq<Rule<Stats>>, today: int, notifyFails: string -> bool)
    returns (stats: Stats, unlocked: seq<string>, notified: seq<string>)
    requires db.Valid()
    modifies db`achievements
    ensures db.Valid()
    ensures stats == GeneralStats(db.records, db.targets, today)
    ensures unlocked == Unlocks(rules, stats, old(db.achievements))
    ensures db.achievements == old(db.achievements) + unlocked
    ensures notified == Delivered(unlocked, notifyFails)
  {
    var total := Sum(db.records, Everything());
    var days := |DatesOf(db.records)|;
    var avgDaily := AverageDaily(total, days);
    var bestDay := BestDay(db.records);
    var streak := ComputeStreak(StreakDates(db.records, today), today);
    var completed := |CompletedItems(db.records, db.targets, today)|;
    stats := Stats(total, days, avgDaily, bestDay, streak, completed);
    unlocked, notified := CheckAchievements(db, rules, stats, notifyFails);
  }

  // ---------------------------------------------------------------------------
  // Seven-day trend and history
  // ---------------------------------------------------------------------------

  /** The dates the trend query groups: active dates from today - 7 on, most recent first. */
  function TrendDates(records: Records, today: int): (r: seq<int>)
    ensures forall d :: d in r <==> d in DatesOf(records) && d >= today - 7
  {
    Since(DistinctDatesDesc(records), today - 7)
  }

  /**
   * The trend query: one row per active date from today - 7 on, oldest first, with
   * that date's total.
   */
  function TrendRows(records: Records, today: int): seq<DayTotal> {
    var ds := TrendDates(records, today);
    seq(|ds|, i requires 0 <= i < |ds| => DayTotal(ds[|ds| - 1 - i], DayTotalOf(records, ds[|ds| - 1 - i])))
  }

  /** `rows.find(r => r.date === date)`. */
  function FindDate(rows: seq<DayTotal>, date: int): (r: Option<DayTotal>)
    ensures r.Some? ==> r.value in rows && r.value.date == date
    ensures r.None? ==> forall i :: 0 <= i < |rows| ==> rows[i].date != date
  {
    if rows == [] then None
    else if rows[0].date == date then Some(rows[0])
    else
      var r := FindDate(rows[1..], date);
      assert forall i :: 1 <= i < |rows| ==> rows[i] == rows[1..][i - 1];
      r
  }

  /** The total the trend shows for one day: the matching row's, or 0 when there is none. */
  lemma TrendDayTotal(records: Records, today: int, date: int)
    requires today - 7 <= date
    ensures (match FindDate(TrendRows(records, today), date)
             case Some(row) => row.total
             case None => 0) == DayTotalOf(records, date)
  {
    var ds := TrendDates(records, today);
    var rows := TrendRows(records, today);
    match FindDate(rows, date)
    case Some(row) =>
      var i :| 0 <= i < |rows| && rows[i] == row;
    case None =>
      assert date !in ds by {
        forall k | 0 <= k < |ds| ensures ds[k] != date {
          assert rows[|ds| - 1 - k].date == ds[k];
        }
      }
      InactiveDayTotal(records, date);
  }

  /**
   * `loadDailyTrend`: for i from 6 down to 0, the day today - i and its total, so
   * exactly seven days, oldest first, ending today; a day without records shows 0.
   */
  method LoadDailyTrend(db: Db, today: int) returns (trend: seq<DayTotal>)
    ensures |trend| == 7
    ensures forall j :: 0 <= j < 7 ==> trend[j] == DayTotal(today - 6 + j, DayTotalOf(db.records, today - 6 + j))
  {
    var rows := TrendRows(db.records, today);
    trend := [];
    var i := 6;
    while i >= 0
      invariant -1 <= i <= 6
      invariant |trend| == 6 - i
      invariant forall j :: 0 <= j < |trend| ==> trend[j] == DayTotal(today - 6 + j, DayTotalOf(db.records, today - 6 + j))
    {
      var date := today - i;
      var record := FindDate(rows, date);
      var total := if record.Some? then record.value.total else 0;
      TrendDayTotal(db.records, today, date);
      trend := trend + [DayTotal(date, total)];
      i := i - 1;
    }
  }

  /** The leading dates of a descending list that are before `today` (`WHERE date < today`). */
  function Before(ds: seq<int>, today: int): (r: seq<int>)
    requires StrictlyDescending(ds)
    ensures StrictlyDescending(r)
    ensures forall d :: d in r <==> d in ds && d < today
  {
    if ds == [] then []
    else if ds[0] >= today then
      assert forall d :: d in ds <==> d == ds[0] || d in ds[1..];
      Before(ds[1..], today)
    else
      assert forall d :: d in ds[1..] ==> d < ds[0] by {
        forall d | d in ds[1..] ensures d < ds[0] {
          var k :| 0 <= k < |ds[1..]| && ds[1..][k] == d;
          assert ds[k + 1] == d;
        }
      }
      ds
  }

  /**
   * The dates the history lists: active dates before today, most recent first, at
   * most 30 of them; a past active date is missing only when 30 more recent ones
   * are listed.
   */
  function HistoryDates(records: Records, today: int): (r: seq<int>)
    ensures |r| <= 30 && StrictlyDescending(r)
    ensures forall d :: d in r ==> d in DatesOf(records) && d < today
    ensures forall d :: d in DatesOf(records) && d < today && d !in r ==> |r| == 30 && d < r[29]
  {
    var ds := Before(DistinctDatesDesc(records), today);
    if |ds| <= 30 then ds
    else
      LatestOf(ds, 30);
      ds[..30]
  }

  /** The first `n` dates of a descending list are its `n` most recent ones. */
  lemma LatestOf(ds: seq<int>, n: nat)
    requires StrictlyDescending(ds) && 0 < n < |ds|
    ensures StrictlyDescending(ds[..n])
    ensures forall d :: d in ds[..n] ==> d in ds
    ensures forall d :: d in ds && d !in ds[..n] ==> d < ds[..n][n - 1]
  {
    var r := ds[..n];
    assert forall k :: 0 <= k < n ==> ds[k] == r[k] && r[k] in r;
    forall d | d in ds && d !in r ensures d < r[n - 1] {
      var k :| 0 <= k < |ds| && ds[k] == d;
      assert k >= n;
    }
  }

  /** The distinct items with a record on `date` (`COUNT(DISTINCT zikir_id || zikir_type)`). */
  function ItemsOn(records: Records, date: int): set<Item> {
    set i | 0 <= i < |records| && records[i].key.date == date :: records[i].key.item
  }

  /** One row of the history: a past date, its total and how many items were counted. */
  datatype HistoryDay = HistoryDay(date: int, total: nat, itemCount: nat)

  /** One history row: the date, its total and the number of items counted on it. */
  function HistoryRow(records: Records, date: int): (r: HistoryDay)
    ensures r.date == date && r.total == DayTotalOf(records, date) && r.itemCount == |ItemsOn(records, date)|
    ensures date in DatesOf(records) ==> r.itemCount >= 1
  {
    assert date in DatesOf(records) ==> exists k :: 0 <= k < |records| && records[k].key.date == date;
    assert forall k :: 0 <= k < |records| && records[k].key.date == date ==> records[k].key.item in ItemsOn(records, date);
    HistoryDay(date, DayTotalOf(records, date), |ItemsOn(records, date)|)
  }

  /** `loadHistory`: the listed dates, each with its total and its number of items. */
  function History(records: Records, today: int): (r: seq<HistoryDay>)
    ensures |r| == |HistoryDates(records, today)| <= 30
    ensures forall i :: 0 <= i < |r| ==> r[i] == HistoryRow(records, HistoryDates(records, today)[i])
  {
    var ds := HistoryDates(records, today);
    seq(|ds|, i requires 0 <= i < |ds| => HistoryRow(records, ds[i]))
  }

  /**
   * The history lists past active days only, most recent first, each with its own
   * total and at least one item.
   */
  lemma HistoryRows(records: Records, today: int, i: nat)
    requires i < |History(records, today)|
    ensures History(records, today)[i].date < today && History(records, today)[i].date in DatesOf(records)
    ensures History(records, today)[i].total == DayTotalOf(records, History(records, today)[i].date)
    ensures History(records, today)[i].itemCount >= 1
    ensures i > 0 ==> History(records, today)[i - 1].date > History(records, today)[i].date
  {
    var ds := HistoryDates(records, today);
    assert ds[i] in ds;
  }
}

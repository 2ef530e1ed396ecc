/**
 * The current streak: how many consecutive days, ending today, have at least one
 * record. The screen asks the store for the distinct active dates of the last 30
 * days, most recent first, and walks them while the i-th date is i days before today.
 */
module Streak {
  import opened Table
  import opened Database

  /** The distinct dates that have at least one record. */
  function DatesOf(records: Records): set<int> {
    set i | 0 <= i < |records| :: records[i].key.date
  }

  predicate StrictlyDescending(ds: seq<int>) {
    forall i, j :: 0 <= i < j < |ds| ==> ds[i] > ds[j]
  }

  /** Adds `d` to a strictly descending list of dates, unless it is already there. */
  function InsertDate(d: int, ds: seq<int>): (r: seq<int>)
    requires StrictlyDescending(ds)
    ensures StrictlyDescending(r)
    ensures forall x :: x in r <==> x == d || x in ds
  {
    if ds == [] then [d]
    else if d == ds[0] then ds
    else if d > ds[0] then [d] + ds
    else
      var tail := InsertDate(d, ds[1..]);
      assert forall x :: x in ds <==> x == ds[0] || x in ds[1..];
      assert forall j :: 0 <= j < |tail| ==> tail[j] < ds[0] by {
        forall j | 0 <= j < |tail| ensures tail[j] < ds[0] {
          assert tail[j] in tail;
          if tail[j] != d {
            var k :| 0 <= k < |ds[1..]| && ds[1..][k] == tail[j];
            assert ds[k + 1] == tail[j];
          }
        }
      }
      [ds[0]] + tail
  }

  /** `SELECT DISTINCT date FROM zikir_records ORDER BY date DESC`. */
  function DistinctDatesDesc(records: Records): (r: seq<int>)
    ensures StrictlyDescending(r)
    ensures forall d :: d in r <==> d in DatesOf(records)
  {
    if records == [] then []
    else
      var rest := DistinctDatesDesc(records[1..]);
      assert DatesOf(records) == {records[0].key.date} + DatesOf(records[1..]) by {
        forall d | d in DatesOf(records) ensures d in {records[0].key.date} + DatesOf(records[1..]) {
          var i :| 0 <= i < |records| && records[i].key.date == d;
          if i > 0 { assert records[1..][i - 1].key.date == d; }
        }
        forall d | d in DatesOf(records[1..]) ensures d in DatesOf(records) {
          var i :| 0 <= i < |records[1..]| && records[1..][i].key.date == d;
          assert records[i + 1].key.date == d;
        }
      }
      InsertDate(records[0].key.date, rest)
  }

  /** The leading dates of a descending list that are `from` or later (`WHERE date >= from`). */
  function Since(ds: seq<int>, from: int): (r: seq<int>)
    requires StrictlyDescending(ds)
    ensures StrictlyDescending(r)
    ensures forall d :: d in r <==> d in ds && d >= from
  {
    if ds == [] || ds[0] < from then []
    else
      assert forall d :: d in ds <==> d == ds[0] || d in ds[1..];
      var tail := Since(ds[1..], from);
      assert forall j :: 0 <= j < |tail| ==> tail[j] < ds[0] by {
        forall j | 0 <= j < |tail| ensures tail[j] < ds[0] {
          assert tail[j] in tail;
          var k :| 0 <= k < |ds[1..]| && ds[1..][k] == tail[j];
          assert ds[k + 1] == tail[j];
        }
      }
      [ds[0]] + tail
  }

  /**
   * The streak the screen's loop computes from a most-recent-first list of dates:
   * the length of the run of leading dates today, today - 1, today - 2, ...
   */
  function StreakOf(dates: seq<int>, today: int): (r: nat)
    ensures r <= |dates|
    ensures forall i :: 0 <= i < r ==> dates[i] == today - i
    ensures r < |dates| ==> dates[r] != today - r
  {
    if dates == [] || dates[0] != today then 0
    else 1 + StreakOf(dates[1..], today - 1)
  }

  /** The streak is the first break in the sequence, so its prefix decomposes. */
  lemma {:induction false} StreakSplit(dates: seq<int>, today: int, i: nat)
    requires i <= |dates|
    requires forall j :: 0 <= j < i ==> dates[j] == today - j
    ensures StreakOf(dates, today) == i + StreakOf(dates[i..], today - i)
  {
    if i > 0 {
      assert dates[1..][i - 1..] == dates[i..];
      StreakSplit(dates[1..], today - 1, i - 1);
    } else {
      assert dates[0..] == dates;
    }
  }

  /**
   * The screen's loop: walk the dates, counting while the i-th date is exactly i
   * days before today, and stop at the first one that is not.
   */
  method ComputeStreak(dates: seq<int>, today: int) returns (streak: nat)
    ensures streak == StreakOf(dates, today)
  {
    streak := 0;
    var i := 0;
    while i < |dates|
      invariant 0 <= i <= |dates| && streak == i
      invariant forall j :: 0 <= j < i ==> dates[j] == today - j
    {
      var diffDays := today - dates[i];
      if diffDays == i {
        streak := streak + 1;
      } else {
        break;
      }
      i := i + 1;
    }
    StreakSplit(dates, today, i);
  }

  /** The dates the streak query returns: distinct, within the last 30 days, most recent first. */
  function StreakDates(records: Records, today: int): (r: seq<int>)
    ensures StrictlyDescending(r)
    ensures forall d :: d in r <==> d in DatesOf(records) && d >= today - 30
  {
    Since(DistinctDatesDesc(records), today - 30)
  }

  /** Without activity today the streak is 0, whatever happened on the days before. */
  lemma StreakNeedsToday(records: Records, today: int)
    requires today !in DatesOf(records)
    ensures StreakOf(StreakDates(records, today), today) == 0
  {
    var ds := StreakDates(records, today);
    if ds != [] {
      assert ds[0] in ds;
    }
  }

  /**
   * The 30-day lookback reaches back to today - 30, so the streak can never be
   * more than 31 days, however long the user has kept it up.
   */
  lemma StreakAtMost31(records: Records, today: int)
    ensures StreakOf(StreakDates(records, today), today) <= 31
  {
    var ds := StreakDates(records, today);
    var s := StreakOf(ds, today);
    if s > 0 {
      assert ds[s - 1] in ds;
    }
  }

  /** A streak of `n` means each of the last `n` days, today included, has a record. */
  lemma StreakDaysActive(records: Records, today: int, k: nat)
    requires k < StreakOf(StreakDates(records, today), today)
    ensures today - k in DatesOf(records)
  {
    var ds := StreakDates(records, today);
    assert ds[k] in ds;
  }

  /**
   * In a strictly descending list with nothing after today, if every day from
   * today back to today - k is present, those days are its first k + 1 entries.
   */
  lemma {:induction false} LeadingDays(ds: seq<int>, today: int, k: nat)
    requires StrictlyDescending(ds)
    requires forall x :: x in ds ==> x <= today
    requires forall d :: today - k <= d <= today ==> d in ds
    ensures k < |ds|
    ensures forall i :: 0 <= i <= k ==> ds[i] == today - i
  {
    assert today - k in ds;
    var j :| 0 <= j < |ds| && ds[j] == today - k;
    if k == 0 {
      assert ds[0] >= ds[j];
      assert ds[0] in ds;
    } else {
      LeadingDays(ds, today, k - 1);
      assert ds[k - 1] == today - (k - 1);
      assert j >= k;
      assert ds[k] >= ds[j] && ds[k] < ds[k - 1];
    }
  }

  /**
   * Every day from today back to today - (n - 1) has a record, and none is dated
   * after today (records are only ever written under the current date): then the
   * streak is at least n, up to the 31 days the lookback can see.
   */
  lemma StreakCountsConsecutiveDays(records: Records, today: int, n: nat)
    requires n <= 31
    requires forall d :: d in DatesOf(records) ==> d <= today
    requires forall d :: today - n < d <= today ==> d in DatesOf(records)
    ensures StreakOf(StreakDates(records, today), today) >= n
  {
    var ds := StreakDates(records, today);
    if n > 0 {
      LeadingDays(ds, today, n - 1);
      StreakSplit(ds, today, n);
    }
  }
}

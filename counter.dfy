/**
 * The counter screen of one item: today's count and the item's target as
 * component state over the shared database, the tap that adds one, the reset, the
 * target editor, deleting a custom item, and the progress display derived from the
 * count and the target.
 */
module Counter {
  import opened Wrappers
  import opened JsText
  import opened Table
  import opened Database
  import opened Rounding
  import opened Analytics

  /** `zikirTarget || 100`: a target of 0 counts as 100. */
  function EffectiveTarget(target: int): (r: int)
    ensures r != 0
    ensures target != 0 ==> r == target
  {
    if target != 0 then target else 100
  }

  /**
   * The global default target as the screen reads it: `parseInt(value) || 100` when
   * the setting has a row, 100 when it has none or the read fails (`readFails`).
   */
  function DefaultTarget(settings: Settings, readFails: bool): (r: int)
    ensures r != 0
    ensures !readFails && Lookup(settings, DefaultTargetKey).Some? ==> r == ParsedOr(Lookup(settings, DefaultTargetKey).value, 100)
    ensures readFails || DefaultTargetKey !in Keys(settings) ==> r == 100
  {
    if readFails then 100
    else match Lookup(settings, DefaultTargetKey)
      case Some(v) => ParsedOr(v, 100)
      case None => 100
  }

  /**
   * The target `loadZikirCount` settles on: the item's own target row when it holds
   * a non-zero value, the default target otherwise.
   */
  function ResolvedTarget(targets: Targets, settings: Settings, item: Item, readFails: bool): (r: int)
    ensures r != 0
    ensures Lookup(targets, item).Some? && Lookup(targets, item).value != 0 ==> r == Lookup(targets, item).value
    ensures Lookup(targets, item).None? || Lookup(targets, item).value == 0 ==> r == DefaultTarget(settings, readFails)
  {
    var t := Lookup(targets, item).GetOr(0);
    if t != 0 then t else DefaultTarget(settings, readFails)
  }

  /** The item's own target row, when it has one, decides; the stored default only fills a gap. */
  lemma OwnTargetWins(targets: Targets, settings: Settings, item: Item, t: int, readFails: bool)
    requires UniqueKeys(targets) && Row(item, t) in targets && t != 0
    ensures ResolvedTarget(targets, settings, item, readFails) == t
  {
    LookupUnique(targets, item, t);
  }

  /** With a stored default of "250" and no target row, the item's target is 250. */
  lemma StoredDefaultUsed(targets: Targets, item: Item)
    requires item !in Keys(targets)
    ensures ResolvedTarget(targets, [Row(DefaultTargetKey, "250")], item, false) == 250
  {
    var s := [Row(DefaultTargetKey, "250")];
    assert Lookup(s, DefaultTargetKey) == Some("250");
    assert "2"[..0] == "" && "25"[..1] == "2" && "250"[..2] == "25";
    assert DigitsValue("2", 10) == 2;
    assert DigitsValue("25", 10) == 25;
    assert DigitsValue("250", 10) == 250;
    ParseDecimal("250");
  }

  /** A stored default that does not parse, or parses to 0, falls back to 100. */
  lemma UnparsableDefaultIsHundred(targets: Targets, item: Item, value: string)
    requires item !in Keys(targets)
    requires ParseInt(value).None? || ParseInt(value) == Some(0)
    ensures ResolvedTarget(targets, [Row(DefaultTargetKey, value)], item, false) == 100
  {
    assert Lookup([Row(DefaultTargetKey, value)], DefaultTargetKey) == Some(value);
  }

  /** `zikirCount >= (zikirTarget || 100)`. */
  predicate Reached(count: nat, target: int) {
    count >= EffectiveTarget(target)
  }

  /** `Math.round((zikirCount / (zikirTarget || 100)) * 100)`. */
  function ProgressPercent(count: nat, target: int): (p: int)
    ensures var e := EffectiveTarget(target);
      e > 0 ==> (2 * p - 1) * e <= 200 * count < (2 * p + 1) * e
    ensures var e := EffectiveTarget(target);
      e < 0 ==> (2 * p - 1) * e >= 200 * count > (2 * p + 1) * e
  {
    RoundDiv(100 * count, EffectiveTarget(target))
  }

  /** The percentage text: "100%" with a check mark once reached, the rounded percentage before. */
  function ShownPercent(count: nat, target: int): (p: int)
    ensures Reached(count, target) ==> p == 100
    ensures !Reached(count, target) ==> p == ProgressPercent(count, target)
  {
    if Reached(count, target) then 100 else ProgressPercent(count, target)
  }

  /** Rounding shows 100% one tap before the target is reached: 199 of 200 reads "100%". */
  lemma HundredShownBeforeReached()
    ensures !Reached(199, 200) && ShownPercent(199, 200) == 100
  {
  }

  /**
   * `Math.min((zikirCount / (zikirTarget || 100)) * 100, 100)`: the width of the
   * progress bar in percent, never more than 100 and full exactly when reached.
   */
  function BarWidth(count: nat, target: int): (w: real)
    ensures w <= 100.0
    ensures EffectiveTarget(target) > 0 ==> w >= 0.0
    ensures EffectiveTarget(target) > 0 ==> (w == 100.0 <==> Reached(count, target))
  {
    var e := EffectiveTarget(target) as real;
    var ratio := count as real / e;
    assert e > 0.0 ==> (ratio >= 1.0 <==> count as real >= e) by {
      if e > 0.0 {
        assert ratio * e == count as real;
      }
    }
    var w := ratio * 100.0;
    if w < 100.0 then w else 100.0
  }

  /** The motivation message the screen shows, from the best tier down. */
  datatype Tier = Begin | Started | Good | Halfway | Great | Almost | Completed

  function Rank(t: Tier): nat {
    match t
    case Begin => 0
    case Started => 1
    case Good => 2
    case Halfway => 3
    case Great => 4
    case Almost => 5
    case Completed => 6
  }

  /** Reached, then at least 90, 75, 50 or 25 percent, then any count, then nothing yet. */
  function MotivationTier(count: nat, target: int): (t: Tier)
    ensures t == Completed <==> Reached(count, target)
    ensures t == Begin <==> !Reached(count, target) && ProgressPercent(count, target) < 25 && count == 0
    ensures !Reached(count, target) ==>
      var p := ProgressPercent(count, target);
      && (t == Almost <==> p >= 90)
      && (t == Great <==> 75 <= p < 90)
      && (t == Halfway <==> 50 <= p < 75)
      && (t == Good <==> 25 <= p < 50)
      && (t == Started <==> p < 25 && count > 0)
  {
    var p := ProgressPercent(count, target);
    if Reached(count, target) then Completed
    else if p >= 90 then Almost
    else if p >= 75 then Great
    else if p >= 50 then Halfway
    else if p >= 25 then Good
    else if count > 0 then Started
    else Begin
  }

  /** With a positive target, counting further never moves the message to a lower tier. */
  lemma TierMonotone(c1: nat, c2: nat, target: int)
    requires EffectiveTarget(target) > 0 && c1 <= c2
    ensures Rank(MotivationTier(c1, target)) <= Rank(MotivationTier(c2, target))
  {
    RoundDivMonotone(100 * c1, 100 * c2, EffectiveTarget(target));
  }

  /**
   * One tap, on the counts the analytics screen sums: when the screen's count is the
   * count stored today, every period whose window contains today grows by exactly one.
   */
  lemma IncrementAddsOne(records: Records, item: Item, today: int, period: Period, monthStart: int)
    requires InWindow(period, today, today, monthStart)
    ensures PeriodTotal(Upsert(records, RecordKey(item, today), Lookup(records, RecordKey(item, today)).GetOr(0) + 1), item, period, today, monthStart)
         == PeriodTotal(records, item, period, today, monthStart) + 1
  {
    var key := RecordKey(item, today);
    var sel := PeriodSel(item, period, today, monthStart);
    assert sel(key);
    SumUpsert(records, key, Lookup(records, key).GetOr(0) + 1, sel);
  }

  /** A tap on one item leaves every other item's totals as they were. */
  lemma IncrementKeepsOtherItems(records: Records, item: Item, other: Item, today: int, n: nat, period: Period, monthStart: int)
    requires other != item
    ensures PeriodTotal(Upsert(records, RecordKey(item, today), n), other, period, today, monthStart)
         == PeriodTotal(records, other, period, today, monthStart)
  {
    SumUpsert(records, RecordKey(item, today), n, PeriodSel(other, period, today, monthStart));
  }

  class CounterScreen {
    const db: Db
    /** `(zikir.id, zikir.type || 'default')`. */
    const item: Item
    /** `zikir.type`, which may be missing. */
    const kind: Option<Kind>
    /** `zikirCount`: today's count as the screen holds it. */
    var count: nat
    /** `zikirTarget`: 0 until loaded. */
    var target: int
    /** `newTarget`: the text in the target editor. */
    var targetInput: string

    constructor (db: Db, id: int, kind: Option<Kind>)
      ensures this.db == db && this.kind == kind && item == Item(id, kind.GetOr(Default))
      ensures count == 0 && target == 0 && targetInput == ""
    {
      this.db := db;
      this.kind := kind;
      item := Item(id, kind.GetOr(Default));
      count, target, targetInput := 0, 0, "";
    }

    /**
     * `loadZikirCount`: today's count, or 0 without a row; then the resolved target,
     * seeding a target row with the default when the item had none.
     */
    method LoadCount(today: int, settingsFail: bool)
      requires db.Valid()
      modifies this`count, this`target, db`targets
      ensures db.Valid()
      ensures count == Lookup(db.records, RecordKey(item, today)).GetOr(0)
      ensures target == ResolvedTarget(old(db.targets), db.settings, item, settingsFail)
      ensures item in Keys(old(db.targets)) ==> db.targets == old(db.targets)
      ensures item !in Keys(old(db.targets)) ==> db.targets == old(db.targets) + [Row(item, DefaultTarget(db.settings, settingsFail))]
    {
      count := Lookup(db.records, RecordKey(item, today)).GetOr(0);
      var existing := Lookup(db.targets, item);
      var defaultTarget := 100;
      if !settingsFail {
        match Lookup(db.settings, DefaultTargetKey)
        case Some(v) =>
          defaultTarget := ParsedOr(v, 100);
        case None =>
      }
      var t := defaultTarget;
      if existing.Some? {
        t := if existing.value != 0 then existing.value else defaultTarget;
      } else {
        db.targets := db.targets + [Row(item, defaultTarget)];
        assert Upsert(old(db.targets), item, defaultTarget) == db.targets;
        t := defaultTarget;
      }
      target := t;
    }

    /**
     * `incrementZikir`: write count + 1 to today's row (update the first row with the
     * key, or insert one), then show it; celebrate when the new count equals the
     * effective target exactly.
     */
    method Increment(today: int) returns (celebrate: bool)
      requires db.Valid()
      modifies this`count, db`records
      ensures db.Valid()
      ensures count == old(count) + 1
      ensures db.records == Upsert(old(db.records), RecordKey(item, today), count)
      ensures celebrate <==> count == EffectiveTarget(target)
    {
      var newCount := count + 1;
      var t := if target != 0 then target else 100;
      var key := RecordKey(item, today);
      var existing := IndexOf(db.records, key);
      if existing.Some? {
        db.records := db.records[existing.value := Row(key, newCount)];
      } else {
        db.records := db.records + [Row(key, newCount)];
      }
      count := newCount;
      celebrate := newCount == t;
    }

    /** `resetZikir`: today's count of this item becomes 0; its row, if any, stays. */
    method Reset(today: int)
      requires db.Valid()
      modifies this`count, db`records
      ensures db.Valid()
      ensures count == 0
      ensures db.records == UpdateWhere(old(db.records), RecordKey(item, today), 0)
    {
      var key := RecordKey(item, today);
      UpdateWhereIsUpsert(db.records, key, 0);
      db.records := UpdateWhere(db.records, key, 0);
      count := 0;
    }

    /** Typing into the target editor. */
    method EditTarget(text: string)
      modifies this`targetInput
      ensures targetInput == text
    {
      targetInput := text;
    }

    /**
     * `setTarget`: `parseInt` of the editor text; NaN or a negative number is refused
     * with nothing written; otherwise the target row is updated or inserted, 0
     * included, and the editor is cleared.
     */
    method SetTarget() returns (accepted: bool)
      requires db.Valid()
      modifies this`target, this`targetInput, db`targets
      ensures db.Valid()
      ensures accepted <==> ParseInt(old(targetInput)).Some? && ParseInt(old(targetInput)).value >= 0
      ensures !accepted ==> target == old(target) && targetInput == old(targetInput) && db.targets == old(db.targets)
      ensures accepted ==> target == ParseInt(old(targetInput)).value && targetInput == ""
      ensures accepted ==> db.targets == Upsert(old(db.targets), item, target)
    {
      var parsed := ParseInt(targetInput);
      if parsed.None? || parsed.value < 0 {
        return false;
      }
      var value := parsed.value;
      var existing := IndexOf(db.targets, item);
      if existing.Some? {
        db.targets := db.targets[existing.value := Row(item, value)];
      } else {
        db.targets := db.targets + [Row(item, value)];
      }
      target := value;
      targetInput := "";
      accepted := true;
    }

    /**
     * `deleteCustomZikir`, once confirmed: only a custom item can be deleted; it goes
     * with all its records and its target row.
     */
    method DeleteCustom() returns (deleted: bool)
      requires db.Valid()
      modifies db`customs, db`records, db`targets
      ensures db.Valid()
      ensures deleted <==> kind == Some(Custom)
      ensures !deleted ==> db.customs == old(db.customs) && db.records == old(db.records) && db.targets == old(db.targets)
      ensures deleted ==> db.customs == WithoutCustom(old(db.customs), item.id)
      ensures deleted ==> db.records == DeleteWhere(old(db.records), RecordsOfCustom(item.id))
      ensures deleted ==> db.targets == DeleteWhere(old(db.targets), TargetOfCustom(item.id))
    {
      if kind != Some(Custom) {
        return false;
      }
      db.DeleteCustom(item.id);
      deleted := true;
    }
  }

  /** After a reset, today's count of the item reads 0 if it had a row, and nothing else changes. */
  lemma ResetScope(records: Records, item: Item, today: int, k: RecordKey)
    requires UniqueKeys(records)
    ensures Lookup(UpdateWhere(records, RecordKey(item, today), 0), k)
         == if k == RecordKey(item, today) && k in Keys(records) then Some(0) else Lookup(records, k)
  {
    UpdateWhereIsUpsert(records, RecordKey(item, today), 0);
  }

  /** After loading, the screen's count is the day's total the analytics screen shows for the item. */
  lemma LoadedCountIsDailyTotal(records: Records, item: Item, today: int)
    requires UniqueKeys(records)
    ensures Lookup(records, RecordKey(item, today)).GetOr(0) == PeriodTotal(records, item, Daily, today, today)
  {
    DailyTotalIsTodaysCount(records, item, today, today);
  }
}

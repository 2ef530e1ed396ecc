/**
 * The settings screen: its component state over the shared database, the
 * boolean and text settings it saves and reloads, the bulk overwrite of every
 * item's target when the default target changes, the reset of all counting data,
 * and the reminder-time picker with its `HH:MM` text form.
 */
module Settings {
  import opened Wrappers
  import opened JsText
  import opened Table
  import opened Database
  import opened Analytics
  import opened Counter

  const HapticKey := "hapticEnabled"
  const ReminderKey := "reminderEnabled"
  const ReminderTimeKey := "reminderTime"

  /** `value.toString()` of a boolean, as `saveSetting` stores it. */
  function BoolText(b: bool): (r: string)
    ensures r == "true" <==> b
  {
    if b then "true" else "false"
  }

  /**
   * What `loadSettings` makes of a boolean setting: `value === 'true'` when the key
   * has a row, the screen's current value when it has none.
   */
  predicate StoredFlag(settings: Settings, key: string, current: bool) {
    match Lookup(settings, key)
    case Some(v) => v == "true"
    case None => current
  }

  /** A saved boolean loads back as itself. */
  lemma FlagRoundTrip(settings: Settings, key: string, b: bool, current: bool)
    ensures StoredFlag(Upsert(settings, key, BoolText(b)), key, current) == b
  {
  }

  /** A new default target is accepted when `parseInt` yields a number that is at least 1. */
  predicate AcceptedDefault(value: string) {
    ParseInt(value).Some? && ParseInt(value).value >= 1
  }

  /**
   * The target table after `n` has been written, update or insert, for each item
   * of `items` in turn: every listed item now has target `n`, whatever it had
   * before, and every other item keeps what it had.
   */
  function OverwriteTargets(targets: Targets, items: seq<Item>, n: int): (r: Targets)
    ensures UniqueKeys(targets) ==> UniqueKeys(r)
    ensures forall it :: it in items ==> Lookup(r, it) == Some(n)
    ensures forall it :: it !in items ==> Lookup(r, it) == Lookup(targets, it)
    decreases |items|
  {
    if items == [] then targets
    else
      var init := items[..|items| - 1];
      var last := items[|items| - 1];
      assert forall it :: it in items <==> it in init || it == last by {
        assert items == init + [last];
      }
      Upsert(OverwriteTargets(targets, init, n), last, n)
  }

  /** One more item at the end of the list is one more upsert after the rest. */
  lemma OverwriteSnoc(targets: Targets, items: seq<Item>, it: Item, n: int)
    ensures OverwriteTargets(targets, items + [it], n) == Upsert(OverwriteTargets(targets, items, n), it, n)
  {
    assert (items + [it])[..|items|] == items;
  }

  /** Writing one list of items and then another is writing their concatenation. */
  lemma {:induction false} OverwriteAppend(targets: Targets, a: seq<Item>, b: seq<Item>, n: int)
    ensures OverwriteTargets(targets, a + b, n) == OverwriteTargets(OverwriteTargets(targets, a, n), b, n)
    decreases |b|
  {
    if b == [] {
      assert a + b == a;
    } else {
      var init := b[..|b| - 1];
      var last := b[|b| - 1];
      assert a + b == (a + init) + [last];
      assert b == init + [last];
      OverwriteSnoc(targets, a + init, last, n);
      OverwriteSnoc(OverwriteTargets(targets, a, n), init, last, n);
      OverwriteAppend(targets, a, init, n);
    }
  }

  /** The built-in items, in list order. */
  function DefaultItems(ids: seq<int>): (r: seq<Item>)
    ensures r == Items(ids, [], false)
  {
    seq(|ids|, i requires 0 <= i < |ids| => Item(ids[i], Default))
  }

  /** The custom items, in table order. */
  function CustomItems(customs: seq<CustomItem>): (r: seq<Item>)
    ensures |r| == |customs|
    ensures forall j :: 0 <= j < |r| ==> r[j] == Item(customs[j].id, Custom)
  {
    seq(|customs|, j requires 0 <= j < |customs| => Item(customs[j].id, Custom))
  }

  /** After a default-target change to `n`, the counter reads `n` back as the stored default. */
  lemma DefaultReadBack(settings: Settings, n: int)
    requires n != 0
    ensures DefaultTarget(Upsert(settings, DefaultTargetKey, IntToString(n)), false) == n
  {
    ParseIntToString(n);
  }

  /**
   * After a default-target change to `n`, the counter screen of any default item
   * resolves its target to `n`, even when the item had its own target before.
   */
  lemma ChangedDefaultItemResolves(targets: Targets, settings: Settings, defaultIds: seq<int>,
                                   customs: seq<CustomItem>, n: int, i: nat, readFails: bool)
    requires n != 0 && i < |defaultIds|
    ensures ResolvedTarget(OverwriteTargets(targets, Items(defaultIds, customs, false), n),
                           settings, Item(defaultIds[i], Default), readFails) == n
  {
    var items := Items(defaultIds, customs, false);
    assert items[i] == Item(defaultIds[i], Default);
  }

  /** The same for every custom item that existed when the default changed. */
  lemma ChangedCustomItemResolves(targets: Targets, settings: Settings, defaultIds: seq<int>,
                                  customs: seq<CustomItem>, n: int, j: nat, readFails: bool)
    requires n != 0 && j < |customs|
    ensures ResolvedTarget(OverwriteTargets(targets, Items(defaultIds, customs, false), n),
                           settings, Item(customs[j].id, Custom), readFails) == n
  {
    var items := Items(defaultIds, customs, false);
    assert items[|defaultIds| + j] == Item(customs[j].id, Custom);
  }

  /** The hour picker's minus button: one hour earlier, 0 wrapping to 23. */
  function HourDown(h: int): (r: int)
    ensures 0 <= h <= 23 ==> 0 <= r <= 23 && r == (h + 23) % 24
  {
    if h <= 0 then 23 else h - 1
  }

  /** The hour picker's plus button: one hour later, 23 wrapping to 0; it undoes the minus button. */
  function HourUp(h: int): (r: int)
    ensures 0 <= h <= 23 ==> 0 <= r <= 23 && r == (h + 1) % 24
    ensures 0 <= h <= 23 ==> HourDown(r) == h
  {
    if h >= 23 then 0 else h + 1
  }

  /** The minute picker's minus button: one minute earlier, 0 wrapping to 59. */
  function MinuteDown(m: int): (r: int)
    ensures 0 <= m <= 59 ==> 0 <= r <= 59 && r == (m + 59) % 60
  {
    if m <= 0 then 59 else m - 1
  }

  /** The minute picker's plus button: one minute later, 59 wrapping to 0; it undoes the minus button. */
  function MinuteUp(m: int): (r: int)
    ensures 0 <= m <= 59 ==> 0 <= r <= 59 && r == (m + 1) % 60
    ensures 0 <= m <= 59 ==> MinuteDown(r) == m
  {
    if m >= 59 then 0 else m + 1
  }

  /** The reminder time as the picker holds it. */
  datatype Time = Time(hours: int, minutes: int)

  /** `` `${String(h).padStart(2, '0')}:${String(m).padStart(2, '0')}` ``. */
  function FormatTime(h: int, m: int): string {
    PadStart2(IntToString(h)) + ":" + PadStart2(IntToString(m))
  }

  /**
   * Reading a stored time back into the picker: split at ':', then
   * `parseInt(parts[0]) || 9` and `parseInt(parts[1]) || 0`, a missing second
   * part parsing as NaN.
   */
  function ParseTime(time: string): (r: Time)
    ensures r.hours != 0
  {
    var parts := Split(time, ':');
    Time(ParsedOr(parts[0], 9), if |parts| >= 2 then ParsedOr(parts[1], 0) else 0)
  }

  /** A formatted number holds no ':', so the separator is the only one. */
  lemma NoColonInNumber(n: int)
    ensures ':' !in PadStart2(IntToString(n))
  {
    var s := IntToString(n);
    var r := PadStart2(s);
    if n >= 0 {
      assert AllDigits(s, 10);
    } else {
      assert s == "-" + NatToString(-n);
      assert forall i :: 0 < i < |s| ==> s[i] == NatToString(-n)[i - 1];
    }
    forall i | 0 <= i < |r| ensures r[i] != ':' {
      if |s| < 2 && i < 2 - |s| {
        assert IsDigit(r[..2 - |s|][i], 10);
      } else if |s| < 2 {
        assert r[i] == r[2 - |s|..][i - (2 - |s|)];
      }
    }
  }

  /**
   * Saving the picker's time and reading it back gives the same minutes and the
   * same hour, except that hour 0 comes back as 9: `"00"` parses to 0, which
   * `|| 9` replaces.
   */
  lemma FormatThenParse(h: int, m: int)
    ensures ParseTime(FormatTime(h, m)) == Time(if h == 0 then 9 else h, m)
  {
    var a := PadStart2(IntToString(h));
    var b := PadStart2(IntToString(m));
    NoColonInNumber(h);
    NoColonInNumber(m);
    assert FormatTime(h, m) == a + [':'] + b;
    SplitAt(a, ':', b);
    assert Split(FormatTime(h, m), ':') == [a, b];
    ParseIntPadded(h);
    ParseIntPadded(m);
  }

  /** A reminder set at midnight, `"00:mm"`, reloads into the picker at 9 o'clock. */
  lemma MidnightReloadsAtNine(m: int)
    ensures ParseTime(FormatTime(0, m)) == Time(9, m)
  {
    FormatThenParse(0, m);
  }

  /** The reminder time the screen shows before anything is loaded. */
  const InitialReminderTime: string := "09:00"

  /** The screen's initial reminder time reads back as the picker's initial 9:00. */
  lemma DefaultTimeParses()
    ensures ParseTime(InitialReminderTime) == Time(9, 0)
  {
    assert DecDigit(9) == '9' && DecDigit(0) == '0';
    assert IntToString(9) == "9" && IntToString(0) == "0";
    assert PadStart2("9") == "09" by { assert seq(1, _ => '0') + "9" == "09"; }
    assert PadStart2("0") == "00" by { assert seq(1, _ => '0') + "0" == "00"; }
    assert FormatTime(9, 0) == "09:00";
    FormatThenParse(9, 0);
  }

  class SettingsScreen {
    const db: Db
    /** `defaultTarget`: the default target as text. */
    var defaultTargetText: string
    var hapticEnabled: bool
    var reminderEnabled: bool
    /** `reminderTime`: the saved reminder time, `HH:MM`. */
    var reminderTime: string
    /** The picker's hour and minute before they are confirmed. */
    var tempHours: int
    var tempMinutes: int

    /** The picker shows what the saved reminder time reads back as. */
    predicate PickerMatchesSaved()
      reads this
    {
      ParseTime(reminderTime) == Time(tempHours, tempMinutes)
    }

    constructor (db: Db)
      ensures this.db == db
      ensures defaultTargetText == "100" && hapticEnabled && !reminderEnabled
      ensures reminderTime == InitialReminderTime && tempHours == 9 && tempMinutes == 0
      ensures PickerMatchesSaved()
    {
      this.db := db;
      defaultTargetText, hapticEnabled, reminderEnabled := "100", true, false;
      reminderTime, tempHours, tempMinutes := InitialReminderTime, 9, 0;
      new;
      DefaultTimeParses();
    }

    /**
     * `loadSettings`: each setting that has a row replaces the screen's value; a
     * stored reminder time also resets the picker to what it parses as.
     */
    method LoadSettings()
      modifies this`defaultTargetText, this`hapticEnabled, this`reminderEnabled
      modifies this`reminderTime, this`tempHours, this`tempMinutes
      ensures defaultTargetText == Lookup(db.settings, DefaultTargetKey).GetOr(old(defaultTargetText))
      ensures hapticEnabled == StoredFlag(db.settings, HapticKey, old(hapticEnabled))
      ensures reminderEnabled == StoredFlag(db.settings, ReminderKey, old(reminderEnabled))
      ensures reminderTime == Lookup(db.settings, ReminderTimeKey).GetOr(old(reminderTime))
      ensures Lookup(db.settings, ReminderTimeKey).Some? ==> PickerMatchesSaved()
      ensures Lookup(db.settings, ReminderTimeKey).None? ==> tempHours == old(tempHours) && tempMinutes == old(tempMinutes)
    {
      var settings := db.settings;
      var targetResult := Lookup(settings, DefaultTargetKey);
      if targetResult.Some? {
        defaultTargetText := targetResult.value;
      }
      var hapticResult := Lookup(settings, HapticKey);
      if hapticResult.Some? {
        hapticEnabled := hapticResult.value == "true";
      }
      var reminderResult := Lookup(settings, ReminderKey);
      if reminderResult.Some? {
        reminderEnabled := reminderResult.value == "true";
      }
      LoadReminderTime(Lookup(settings, ReminderTimeKey));
    }

    /** The stored reminder time, when there is one, and the picker set to what it parses as. */
    method LoadReminderTime(stored: Option<string>)
      modifies this`reminderTime, this`tempHours, this`tempMinutes
      ensures reminderTime == stored.GetOr(old(reminderTime))
      ensures stored.Some? ==> PickerMatchesSaved()
      ensures stored.None? ==> tempHours == old(tempHours) && tempMinutes == old(tempMinutes)
    {
      if stored.Some? {
        var time := stored.value;
        reminderTime := time;
        var picked := ParseTime(time);
        tempHours, tempMinutes := picked.hours, picked.minutes;
      }
    }

    /** The haptic switch: flip it and save it as `"true"` or `"false"`. */
    method ToggleHaptic()
      requires db.Valid()
      modifies this`hapticEnabled, db`settings
      ensures db.Valid()
      ensures hapticEnabled == !old(hapticEnabled)
      ensures db.settings == Upsert(old(db.settings), HapticKey, BoolText(hapticEnabled))
    {
      var newValue := !hapticEnabled;
      db.SaveSetting(HapticKey, BoolText(newValue));
      hapticEnabled := newValue;
    }

    /** The reminder switch: flip it and save it; scheduling the reminder is not modelled. */
    method ToggleReminder()
      requires db.Valid()
      modifies this`reminderEnabled, db`settings
      ensures db.Valid()
      ensures reminderEnabled == !old(reminderEnabled)
      ensures db.settings == Upsert(old(db.settings), ReminderKey, BoolText(reminderEnabled))
    {
      var newValue := !reminderEnabled;
      db.SaveSetting(ReminderKey, BoolText(newValue));
      reminderEnabled := newValue;
    }

    /** Writes `n` as the item's target: update its first row, or insert one. */
    method WriteTarget(it: Item, n: int)
      requires db.Valid()
      modifies db`targets
      ensures db.Valid()
      ensures db.targets == Upsert(old(db.targets), it, n)
    {
      var existing := IndexOf(db.targets, it);
      if existing.Some? {
        db.targets := db.targets[existing.value := Row(it, n)];
      } else {
        db.targets := db.targets + [Row(it, n)];
      }
    }

    /**
     * One of the two loops of `handleDefaultTargetChange`: write `n` as the target
     * of each item in turn, counting the rows written.
     */
    method WriteTargets(items: seq<Item>, n: int) returns (count: nat)
      requires db.Valid()
      modifies db`targets
      ensures db.Valid()
      ensures db.targets == OverwriteTargets(old(db.targets), items, n)
      ensures count == |items|
    {
      count := 0;
      var i := 0;
      while i < |items|
        invariant 0 <= i <= |items| && count == i
        invariant db.Valid()
        invariant db.targets == OverwriteTargets(old(db.targets), items[..i], n)
      {
        assert items[..i + 1] == items[..i] + [items[i]];
        OverwriteSnoc(old(db.targets), items[..i], items[i], n);
        WriteTarget(items[i], n);
        count := count + 1;
        i := i + 1;
      }
      assert items[..i] == items;
    }

    /**
     * `handleDefaultTargetChange`: a value that does not parse to a number of at
     * least 1 is refused before anything is written. Otherwise the number is saved
     * as the default and then written as the target of every default item and of
     * every custom item, overriding targets set on the counter screen; the result
     * is how many target rows were written.
     */
    method ChangeDefaultTarget(value: string, defaultIds: seq<int>) returns (updatedCount: Option<nat>)
      requires db.Valid()
      modifies this`defaultTargetText, db`settings, db`targets
      ensures db.Valid()
      ensures updatedCount.Some? <==> AcceptedDefault(value)
      ensures updatedCount.None? ==>
        defaultTargetText == old(defaultTargetText) && db.settings == old(db.settings) && db.targets == old(db.targets)
      ensures updatedCount.Some? ==> defaultTargetText == value
      ensures updatedCount.Some? ==>
        db.settings == Upsert(old(db.settings), DefaultTargetKey, IntToString(ParseInt(value).value))
      ensures updatedCount.Some? ==>
        db.targets == OverwriteTargets(old(db.targets), Items(defaultIds, db.customs, false), ParseInt(value).value)
      ensures updatedCount.Some? ==> updatedCount.value == |defaultIds| + |db.customs|
    {
      var parsed := ParseInt(value);
      if parsed.None? || parsed.value < 1 {
        return None;
      }
      var n := parsed.value;
      db.SaveSetting(DefaultTargetKey, IntToString(n));
      defaultTargetText := value;
      var defaults := WriteTargets(DefaultItems(defaultIds), n);
      var customs := WriteTargets(CustomItems(db.customs), n);
      OverwriteAppend(old(db.targets), DefaultItems(defaultIds), CustomItems(db.customs), n);
      assert Items(defaultIds, db.customs, false) == DefaultItems(defaultIds) + CustomItems(db.customs);
      updatedCount := Some(defaults + customs);
    }

    /**
     * The confirmed reset of all data: every record, every target and every custom
     * item is deleted; the achievements ledger and the settings stay as they are.
     */
    method ResetAllData()
      requires db.Valid()
      modifies db`records, db`targets, db`customs
      ensures db.Valid()
      ensures db.records == [] && db.targets == [] && db.customs == []
      ensures db.achievements == old(db.achievements) && db.settings == old(db.settings)
    {
      db.records := [];
      db.targets := [];
      db.customs := [];
    }

    method TapHourDown()
      modifies this`tempHours
      ensures tempHours == HourDown(old(tempHours))
    {
      tempHours := if tempHours <= 0 then 23 else tempHours - 1;
    }

    method TapHourUp()
      modifies this`tempHours
      ensures tempHours == HourUp(old(tempHours))
    {
      tempHours := if tempHours >= 23 then 0 else tempHours + 1;
    }

    method TapMinuteDown()
      modifies this`tempMinutes
      ensures tempMinutes == MinuteDown(old(tempMinutes))
    {
      tempMinutes := if tempMinutes <= 0 then 59 else tempMinutes - 1;
    }

    method TapMinuteUp()
      modifies this`tempMinutes
      ensures tempMinutes == MinuteUp(old(tempMinutes))
    {
      tempMinutes := if tempMinutes >= 59 then 0 else tempMinutes + 1;
    }

    /**
     * `handleTimePickerConfirm`: format the picker's time, keep it and save it.
     * The picker then matches the saved time unless its hour is 0, which would
     * read back as 9.
     */
    method ConfirmTime()
      requires db.Valid()
      modifies this`reminderTime, db`settings
      ensures db.Valid()
      ensures reminderTime == FormatTime(tempHours, tempMinutes)
      ensures db.settings == Upsert(old(db.settings), ReminderTimeKey, reminderTime)
      ensures PickerMatchesSaved() <==> tempHours != 0
    {
      var newTime := PadStart2(IntToString(tempHours)) + ":" + PadStart2(IntToString(tempMinutes));
      reminderTime := newTime;
      db.SaveSetting(ReminderTimeKey, newTime);
      FormatThenParse(tempHours, tempMinutes);
    }

    /** The picker's cancel button: back to what the saved time parses as. */
    method CancelTime()
      modifies this`tempHours, this`tempMinutes
      ensures PickerMatchesSaved()
    {
      var timeParts := Split(reminderTime, ':');
      tempHours := ParsedOr(timeParts[0], 9);
      tempMinutes := if |timeParts| >= 2 then ParsedOr(timeParts[1], 0) else 0;
    }
  }
}

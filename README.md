# Dhikr counter: the counting, statistics and settings core

This project models the logic of a devotional counting app. The user taps a
counter to log repetitions of a phrase (a *zikir*, dhikr) and sets daily targets.
The app shows period totals and overall statistics, and unlocks achievement
badges. In the app this logic sits inside React Native screen components around
an SQLite database. Here it is written as Dafny, and its promises are proved.

- **The database** (`database.dfy`, `table.dfy`) holds five tables as sequences
  of rows, in class `Database.Db`:
  - `zikir_records` is keyed by (item, date);
  - `zikir_targets` is keyed by item;
  - `settings` maps text keys to text values;
  - the `achievements` ledger;
  - `custom_zikirs`.

  The schema's UNIQUE constraints are the class invariant `Db.Valid`. The SQL
  statements the screens issue become functions on rows:
  - `SELECT … LIMIT 1` is `Lookup`;
  - the read-then-update-or-insert is `Upsert`;
  - `UPDATE … WHERE` is `UpdateWhere`;
  - `DELETE … WHERE` is `DeleteWhere`;
  - `SUM` is `Sum`.
- **Statistics** (`analytics.dfy`, `streak.dfy`, `achievements.dfy`) cover:
  - period totals with percentages, sorted by total;
  - the overall statistics, including the streak loop;
  - the achievement evaluator, which appends to its ledger only;
  - the seven-day trend and the history.
- **The counter screen** (`counter.dfy`) is class `Counter.CounterScreen`. It
  covers loading the count and target, the increment, the reset, setting a
  target, deleting a custom item, and the progress display.
- **The settings screen** (`settings.dfy`) is class `Settings.SettingsScreen`.
  It covers:
  - saved settings;
  - the bulk overwrite of every target when the default changes;
  - the reset of all data;
  - the reminder-time picker with its `HH:MM` form.
- **The home screen** (`home.dfy`) is class `Home.HomeScreen`. It covers creating
  and deleting custom items and the language switch.
- **JavaScript built-ins** are written out where the results depend on them:
  - `parseInt`, `String(n)`, `padStart`, `trim` and `split` in `js_text.dfy`;
  - `Math.round` in `rounding.dfy`.

Dates are integer day numbers. `today` and the first day of the current month
are parameters. The default item list (`ZIKIR_LIST`) and the achievement rule
table are parameters too, because src/constants is not part of this model.

Where the code and the design description of the app disagree, the model follows
the code:
- The weekly window is `date >= today - 7`. That is eight days, not a rolling
  seven.
- The streak query looks back to `today - 30`. A streak can therefore reach 31
  (`Streak.StreakAtMost31`, `Streak.StreakCountsConsecutiveDays`), not 30.
  Streak badges above 31 days can never unlock.
- Resetting all data deletes records, targets and custom items only. The
  achievement ledger and the settings survive (`Settings.SettingsScreen.ResetAllData`).
- The completed-targets count replaces only a *missing* target row by 100. A
  target of 0 is met by any count (`Analytics.ZeroTargetCompleted`).

## Model

| member | source | states |
|---|---|---|
| Table.Lookup | src/utils/database.js:95-109 | the first row's value for a key is found exactly when the key has a row |
| Table.Upsert | src/screens/SettingsScreen.js:125-147 | after the read-then-write the key reads back the new value; every other key reads as before; the key set grows by the key alone; uniqueness is kept |
| Table.UpdateWhereIsUpsert | src/utils/database.js:78-88 | on a table with unique keys, `UPDATE … WHERE key = ?` on an existing key is the same upsert, and on a missing key it changes nothing |
| Table.DeleteWhereLookup | src/screens/HomeScreen.js:120-131 | after a `DELETE … WHERE`, a dropped key has no row and every other key reads as before |
| Table.DeleteWhereUnique | src/utils/database.js:23 | deleting rows keeps keys unique |
| Table.SumUpsert | src/screens/CounterScreen.js:176-193 | a sum after an upsert gains the new value and loses the old one, for rows the condition selects |
| Table.SumMonotone | src/screens/AnalyticsScreen.js:83-94 | a wider condition never sums to less |
| Table.SumOneKey | src/screens/CounterScreen.js:109-120 | with unique keys, summing the one row of a key is that row's value, or 0 without one |
| Database.LoadSetting | src/utils/database.js:95-109 | the default when the key is absent or the read fails, otherwise the stored value |
| Database.Db.SaveSetting | src/utils/database.js:72-92 | the settings table becomes the upsert of the key; keys stay unique |
| Database.SaveThenLoad | src/utils/database.js:72-104 | after saving `v` under `k`, loading `k` gives `v` whatever the default |
| Database.SaveKeepsOtherKeys | src/utils/database.js:79-82 | saving one key leaves what every other key loads unchanged |
| Database.Db.constructor | src/utils/database.js:7-54 | a fresh database is empty and satisfies every UNIQUE constraint |
| Database.Db.InsertAchievement | src/utils/database.js:51 | the UNIQUE ledger takes a key exactly when it is absent |
| Database.Db.InsertCustom | src/utils/database.js:10 | a duplicate name is refused with nothing changed; otherwise the row gets the next id and heads the newest-first list |
| Database.Db.DeleteCustom | src/screens/HomeScreen.js:120-132 | the item's row, records and target rows are deleted, nothing else; the invariant is kept |
| Database.WithoutCustomMembers | src/screens/HomeScreen.js:120 | the remaining rows are exactly the rows with another id |
| Database.WithoutCustomValid | src/utils/database.js:10 | deleting a custom item keeps names unique and the list newest first |
| Database.DeleteCustomScope | src/screens/CounterScreen.js:52-64 | after the cascade the deleted item has no record or target, and every other item's rows read as before |
| Streak.DistinctDatesDesc | src/screens/AnalyticsScreen.js:149-156 | distinct active dates, strictly descending, exactly the dates with a record |
| Streak.StreakOf | src/screens/AnalyticsScreen.js:158-166 | the streak is the length of the leading run `today, today-1, …` and stops at the first date off that run |
| Streak.StreakSplit | src/screens/AnalyticsScreen.js:158-166 | a leading run of `i` consecutive days contributes exactly `i` to the streak |
| Streak.ComputeStreak | src/screens/AnalyticsScreen.js:154-166 | the loop with its `break` computes `StreakOf` |
| Streak.StreakDates | src/screens/AnalyticsScreen.js:149-156 | the query's dates are exactly the active dates from `today - 30` on, strictly descending |
| Streak.StreakNeedsToday | src/screens/AnalyticsScreen.js:158-166 | without a record today the streak is 0 |
| Streak.StreakAtMost31 | src/screens/AnalyticsScreen.js:151 | the lookback to `today - 30` caps the streak at 31 |
| Streak.StreakDaysActive | src/screens/AnalyticsScreen.js:158-166 | each of the streak's days has a record |
| Streak.StreakCountsConsecutiveDays | src/screens/AnalyticsScreen.js:149-166 | with records on each of the last `n <= 31` days and none in the future, the streak is at least `n` |
| Achievements.Unlocks | src/screens/AnalyticsScreen.js:221-257 | one evaluation unlocks at most one key per rule |
| Achievements.UnlocksSound | src/screens/AnalyticsScreen.js:222-234 | only keys whose condition holds and that the ledger lacked are unlocked |
| Achievements.UnlocksComplete | src/screens/AnalyticsScreen.js:222-234 | afterwards the ledger holds the key of every rule whose condition holds |
| Achievements.UnlocksKeepUnique | src/utils/database.js:51 | the ledger keeps one row per key |
| Achievements.NothingNew | src/screens/AnalyticsScreen.js:224-229 | when every earned key is already recorded, nothing is unlocked |
| Achievements.EvaluateTwice | src/screens/AnalyticsScreen.js:221-257 | a second run with the same statistics unlocks nothing |
| Achievements.RecordedKeyNotUnlocked | src/screens/AnalyticsScreen.js:229 | a recorded key is never unlocked again, whatever the statistics |
| Achievements.UnlocksSnoc | src/screens/AnalyticsScreen.js:221 | evaluating one more rule adds that rule's own step on the ledger as it stands |
| Achievements.Delivered | src/screens/AnalyticsScreen.js:237-251 | the notified keys are exactly the unlocked keys whose notification did not fail |
| Achievements.DeliveredAppend | src/screens/AnalyticsScreen.js:237-251 | one more unlock adds its notification unless that notification fails |
| Achievements.CheckAchievements | src/screens/AnalyticsScreen.js:218-261 | the loop appends exactly `Unlocks` to the ledger and never removes a key; a failed notification does not undo the insert |
| Achievements.Badges | src/screens/AnalyticsScreen.js:199-216 | one badge per rule, in order, unlocked exactly when the ledger has its key |
| Achievements.BadgesAfterCheck | src/screens/AnalyticsScreen.js:193-210 | after an evaluation every earned badge and every badge unlocked before shows as unlocked |
| Analytics.AnalyticsTarget | src/screens/AnalyticsScreen.js:99-105 | the target row's value, or 100 when it is missing or 0 |
| Analytics.Percentage | src/screens/AnalyticsScreen.js:111 | total/target·100 rounded to nearest (half up), never negative, 0 for a non-positive target |
| Analytics.PercentageOfMetTarget | src/screens/AnalyticsScreen.js:111 | a met target shows at least 100% |
| Analytics.PercentageOfUnmetTarget | src/screens/AnalyticsScreen.js:111 | a total up to the target shows at most 100% |
| Analytics.PercentageNotCapped | src/screens/AnalyticsScreen.js:111 | the percentage is not clamped: 250 of 100 shows 250% |
| Analytics.Items | src/screens/AnalyticsScreen.js:64-77 | every built-in item, then every custom item; when reading custom items fails the built-in items are still listed |
| Analytics.InsertByTotal | src/screens/AnalyticsScreen.js:117 | inserting into a list sorted by total keeps it sorted and adds exactly that entry |
| Analytics.SortByTotal | src/screens/AnalyticsScreen.js:117 | the result is sorted by total, largest first, and is a permutation of the input |
| Analytics.WithTotalAppend | src/screens/AnalyticsScreen.js:117 | the entries of one total in a list extended at the end |
| Analytics.WithTotalNone | src/screens/AnalyticsScreen.js:117 | a list whose totals are all smaller has no entry of that total |
| Analytics.WithTotalPrepend | src/screens/AnalyticsScreen.js:117 | an entry larger than all others, put in front, joins its total's entries |
| Analytics.WithTotalInsert | src/screens/AnalyticsScreen.js:117 | insertion places an entry after the earlier entries of its own total |
| Analytics.SortStable | src/screens/AnalyticsScreen.js:117 | the sort is stable: entries with equal totals keep their list order |
| Analytics.LoadAnalytics | src/screens/AnalyticsScreen.js:61-122 | one entry per item with its period total, target and percentage, sorted by total, largest first |
| Analytics.EveryItemListed | src/screens/AnalyticsScreen.js:79-117 | every item's own entry appears in the sorted list |
| Analytics.DailyWithinWeekly | src/screens/AnalyticsScreen.js:83-94 | the day's total never exceeds the week's |
| Analytics.DailyWithinMonthly | src/screens/AnalyticsScreen.js:83-94 | once the month has started, the day's total never exceeds the month's |
| Analytics.DailyTotalIsTodaysCount | src/screens/AnalyticsScreen.js:83-97 | with unique keys, the daily total is today's row count, or 0 |
| Analytics.InactiveDayTotal | src/screens/AnalyticsScreen.js:281 | a date without records totals 0 |
| Analytics.AverageDaily | src/screens/AnalyticsScreen.js:139 | total/days rounded to nearest, 0 when there are no days, so no division by zero |
| Analytics.MaxDay | src/screens/AnalyticsScreen.js:142-146 | a listed date whose total is at least every listed date's |
| Analytics.BestDay | src/screens/AnalyticsScreen.js:142-146 | none exactly when there are no records, otherwise an active date with the largest daily total |
| Analytics.CompletedMeansReached | src/screens/AnalyticsScreen.js:169-179 | a completed item has a record today whose count reaches `COALESCE(target, 100)` |
| Analytics.ZeroTargetCompleted | src/screens/AnalyticsScreen.js:169-179 | a target row of 0 is completed by any record today |
| Analytics.MissingTargetIsHundred | src/screens/AnalyticsScreen.js:169-179 | an active item without a target row is completed exactly when its count today reaches 100 |
| Analytics.EmptyStats | src/screens/AnalyticsScreen.js:124-188 | with no records every statistic is 0 and there is no best day |
| Analytics.LoadGeneralStats | src/screens/AnalyticsScreen.js:124-197 | the statistics are total, active days, average, best day, the looped streak and completed targets; then the ledger grows by exactly what the rules unlock |
| Analytics.TrendDates | src/screens/AnalyticsScreen.js:265-269 | the trend query's dates are the active dates from `today - 7` on |
| Analytics.FindDate | src/screens/AnalyticsScreen.js:278 | `find` returns a row of that date, or none when no row has it |
| Analytics.TrendDayTotal | src/screens/AnalyticsScreen.js:265-283 | the total the trend takes for a day is that day's sum, 0 without records |
| Analytics.LoadDailyTrend | src/screens/AnalyticsScreen.js:263-289 | exactly seven entries, `today-6` through `today` in ascending order, each with that day's total |
| Analytics.Before | src/screens/AnalyticsScreen.js:303 | the descending dates before today, exactly those |
| Analytics.HistoryDates | src/screens/AnalyticsScreen.js:298-312 | at most 30 past active dates, most recent first; an active past date is missing only when 30 more recent ones are listed |
| Analytics.HistoryRow | src/screens/AnalyticsScreen.js:301 | a date's total and its number of distinct items, at least one on an active date |
| Analytics.History | src/screens/AnalyticsScreen.js:298-312 | one row per listed date, at most 30 |
| Analytics.HistoryRows | src/screens/AnalyticsScreen.js:298-312 | each history row is a past active date with its own total and at least one item, strictly descending |
| Counter.EffectiveTarget | src/screens/CounterScreen.js:173 | `zikirTarget \|\| 100` is never 0 and keeps any non-zero target |
| Counter.DefaultTarget | src/screens/CounterScreen.js:129-141 | `parseInt` of the stored default `\|\| 100`, or 100 without a row or when the read fails |
| Counter.ResolvedTarget | src/screens/CounterScreen.js:143-161 | the item's non-zero target row wins; otherwise the default |
| Counter.OwnTargetWins | src/screens/CounterScreen.js:145-148 | a non-zero target row decides whatever the default |
| Counter.StoredDefaultUsed | src/screens/CounterScreen.js:136-150 | a stored default "250" and no row give 250 |
| Counter.UnparsableDefaultIsHundred | src/screens/CounterScreen.js:137 | a stored default that is NaN or 0 falls back to 100 |
| Counter.ProgressPercent | src/screens/CounterScreen.js:408 | count/effective target·100, rounded to nearest |
| Counter.ShownPercent | src/screens/CounterScreen.js:407-411 | "100%" once reached, the rounded percentage before |
| Counter.HundredShownBeforeReached | src/screens/CounterScreen.js:408-410 | 199 of 200 is not reached, yet shows 100% |
| Counter.BarWidth | src/screens/CounterScreen.js:397-398 | the bar is at most 100% wide, not negative, and full exactly when reached |
| Counter.MotivationTier | src/screens/CounterScreen.js:414-465 | completed exactly when reached; before that, "almost" exactly from 90%, "great" from 75% to below 90%, "halfway" from 50% to below 75%, "good" from 25% to below 50%, "started" below 25% with a count, "begin" with nothing counted |
| Counter.TierMonotone | src/screens/CounterScreen.js:451-465 | counting further never moves the message to a lower tier |
| Counter.IncrementAddsOne | src/screens/CounterScreen.js:170-193 | a tap adds exactly one to every period total whose window contains today |
| Counter.IncrementKeepsOtherItems | src/screens/CounterScreen.js:176-193 | a tap on one item leaves every other item's totals unchanged |
| Counter.CounterScreen.constructor | src/screens/CounterScreen.js:106 | a missing type means a built-in item |
| Counter.CounterScreen.LoadCount | src/screens/CounterScreen.js:102-165 | the count is today's row or 0; the target resolves as above; a missing target row is seeded with the default, otherwise targets are unchanged |
| Counter.CounterScreen.Increment | src/screens/CounterScreen.js:167-225 | count + 1 written by upsert to today's row, keys stay unique; celebrate exactly when the new count equals the effective target |
| Counter.CounterScreen.Reset | src/screens/CounterScreen.js:227-256 | today's row of the item is set to 0 and kept; the count shows 0 |
| Counter.CounterScreen.EditTarget | src/screens/CounterScreen.js:258-261 | the editor holds the typed text |
| Counter.CounterScreen.SetTarget | src/screens/CounterScreen.js:258-298 | NaN or a negative value is refused with nothing written; otherwise the target row is upserted, 0 included, and the editor cleared |
| Counter.CounterScreen.DeleteCustom | src/screens/CounterScreen.js:36-81 | only a custom item is deleted, with its records and target rows |
| Counter.ResetScope | src/screens/CounterScreen.js:242-247 | after a reset only today's row of the item reads 0, and only if it existed |
| Counter.LoadedCountIsDailyTotal | src/screens/CounterScreen.js:109-120 | the loaded count equals the item's daily total on the statistics screen |
| JsText.Trim | src/screens/HomeScreen.js:62 | empty exactly when the text is all white space; no white space at either end |
| JsText.TrimIdempotent | src/screens/HomeScreen.js:78-85 | trimming twice is trimming once |
| JsText.ParsedOr | src/screens/SettingsScreen.js:116-117 | `parseInt(s) \|\| fallback`: the parsed value unless NaN or 0 |
| JsText.ParseIntToString | src/screens/SettingsScreen.js:185 | `parseInt(String(n)) == n` |
| JsText.ParseIntPadded | src/screens/SettingsScreen.js:325 | `parseInt(String(n).padStart(2, '0')) == n` |
| JsText.Split | src/screens/SettingsScreen.js:115 | at least one field, none containing the separator; a text without it is one field |
| JsText.SplitAt | src/screens/SettingsScreen.js:115 | splitting `a + sep + b` gives `a` then the fields of `b` |
| Rounding.RoundDiv | src/screens/AnalyticsScreen.js:111 | `Math.round(a / b)`: the nearest integer, halves rounding up |
| Rounding.RoundDivMonotone | src/screens/CounterScreen.js:408 | rounding is monotonic in the numerator |
| Rounding.RoundDivExact | src/screens/AnalyticsScreen.js:111 | an exact quotient rounds to itself |
| Settings.BoolText | src/screens/SettingsScreen.js:294-297 | `String(b)` is "true" exactly for true |
| Settings.FlagRoundTrip | src/screens/SettingsScreen.js:88-95 | a saved boolean loads back as itself |
| Settings.OverwriteTargets | src/screens/SettingsScreen.js:191-281 | every listed item's target becomes `n`, overrides included; every other item is unchanged; keys stay unique |
| Settings.OverwriteSnoc | src/screens/SettingsScreen.js:191-234 | one more item is one more upsert |
| Settings.OverwriteAppend | src/screens/SettingsScreen.js:191-281 | the built-in loop followed by the custom loop overwrites the concatenated list |
| Settings.DefaultItems | src/screens/SettingsScreen.js:191 | the built-in items in list order, as the statistics list them |
| Settings.CustomItems | src/screens/SettingsScreen.js:236-237 | one custom item per row of `custom_zikirs` |
| Settings.DefaultReadBack | src/screens/SettingsScreen.js:185-186 | after saving default `n`, the counter screen reads `n` back as the default |
| Settings.ChangedDefaultItemResolves | src/screens/SettingsScreen.js:191-234 | after the change every built-in item resolves to the new target, even with its own target before |
| Settings.ChangedCustomItemResolves | src/screens/SettingsScreen.js:237-281 | likewise for every custom item |
| Settings.HourDown | src/screens/SettingsScreen.js:627 | in range it stays in range, and it is `(h + 23) mod 24` |
| Settings.HourUp | src/screens/SettingsScreen.js:641 | in range it stays in range, it is `(h + 1) mod 24`, and the minus button undoes it |
| Settings.MinuteDown | src/screens/SettingsScreen.js:663 | in range it stays in range, and it is `(m + 59) mod 60` |
| Settings.MinuteUp | src/screens/SettingsScreen.js:677 | in range it stays in range, it is `(m + 1) mod 60`, and the minus button undoes it |
| Settings.ParseTime | src/screens/SettingsScreen.js:114-118 | the parsed hour is never 0 |
| Settings.NoColonInNumber | src/screens/SettingsScreen.js:325 | a padded number contains no ':' |
| Settings.FormatThenParse | src/screens/SettingsScreen.js:114-118 | reading back a formatted time gives the same minutes and hour, except hour 0 reads back as 9 |
| Settings.MidnightReloadsAtNine | src/screens/SettingsScreen.js:116 | "00:mm" reloads with hour 9 |
| Settings.SettingsScreen.constructor | src/screens/SettingsScreen.js:33-38 | the initial state, whose picker matches "09:00" |
| Settings.SettingsScreen.LoadSettings | src/screens/SettingsScreen.js:76-123 | each stored setting replaces the screen value; a stored time also sets the picker to what it parses as |
| Settings.SettingsScreen.ToggleHaptic | src/screens/SettingsScreen.js:294-301 | the flag flips and is saved as its text |
| Settings.SettingsScreen.ToggleReminder | src/screens/SettingsScreen.js:303-306 | the flag flips and is saved as its text |
| Settings.SettingsScreen.WriteTarget | src/screens/SettingsScreen.js:192-233 | the target row is updated or inserted, i.e. upserted |
| Settings.SettingsScreen.WriteTargets | src/screens/SettingsScreen.js:191-234 | the loop overwrites each listed item's target and counts one per item |
| Settings.SettingsScreen.ChangeDefaultTarget | src/screens/SettingsScreen.js:163-292 | refused with nothing written unless `parseInt` gives at least 1; otherwise the default is saved, every item's target is overwritten, and the count is the number of items |
| Settings.SettingsScreen.ResetAllData | src/screens/SettingsScreen.js:476-481 | records, targets and custom items are emptied; achievements and settings are unchanged |
| Settings.SettingsScreen.TapHourDown | src/screens/SettingsScreen.js:626-630 | the picker hour becomes `HourDown` of itself |
| Settings.SettingsScreen.TapHourUp | src/screens/SettingsScreen.js:640-644 | the picker hour becomes `HourUp` of itself |
| Settings.SettingsScreen.TapMinuteDown | src/screens/SettingsScreen.js:662-666 | the picker minute becomes `MinuteDown` of itself |
| Settings.SettingsScreen.TapMinuteUp | src/screens/SettingsScreen.js:676-680 | the picker minute becomes `MinuteUp` of itself |
| Settings.SettingsScreen.ConfirmTime | src/screens/SettingsScreen.js:324-328 | the zero-padded `HH:MM` is kept and saved; the picker matches the saved time exactly when its hour is not 0 |
| Settings.SettingsScreen.CancelTime | src/screens/SettingsScreen.js:692-696 | the picker returns to what the saved time parses as |
| Home.IndexIn | src/screens/HomeScreen.js:162 | `indexOf`: the first position of the value, or -1 exactly when it is absent |
| Home.NextLanguage | src/screens/HomeScreen.js:160-165 | always one of tr, en, ar; an unknown language gives tr |
| Home.LanguageCycle | src/screens/HomeScreen.js:160-165 | tr → en → ar → tr: three presses visit the other two and come back |
| Home.ArabicText | src/screens/HomeScreen.js:79 | `arabic.trim() \|\| null`: none exactly when all white space, else the trimmed text |
| Home.HomeScreen.LoadCustoms | src/screens/HomeScreen.js:52-59 | the list becomes the table, or stays when the read fails |
| Home.HomeScreen.EditForm | src/screens/HomeScreen.js:28-29 | the form holds the typed text |
| Home.HomeScreen.CreateCustom | src/screens/HomeScreen.js:61-101 | an all-white-space name is refused; a duplicate name is refused with list, table and form unchanged; otherwise the trimmed item heads both table and list and the form is cleared |
| Home.HomeScreen.DeleteCustom | src/screens/HomeScreen.js:107-147 | the item, its records and its target rows go; the list is re-read, or, when that read fails, keeps showing the deleted item |
| Home.WithoutAbsent | src/screens/HomeScreen.js:120 | deleting an id no row has changes nothing |
| Home.CreateThenDelete | src/screens/HomeScreen.js:78-120 | deleting the item just created restores the list from before |
| Home.CreatedNameFound | src/screens/HomeScreen.js:62-80 | a created name is not empty, starts with no white space, and is found by name |

## Left out

- I/O failures are not modelled except where the code tolerates them. The
  modelled cases are the failed read of the default target, the failed read of
  custom items in the statistics list and on the home screen, and a failed
  achievement notification. Elsewhere a thrown SQLite error aborts a handler
  part-way, for example the outer `try` of `checkAchievements` after some inserts.
  The model runs every handler to completion.
- Settings.SettingsScreen.WriteTarget: the fallback from a failed INSERT
  (UNIQUE conflict) to an UPDATE is not modelled. Handlers run one at a time
  here, so the insert happens only when no row exists and cannot conflict. The
  returned count is therefore exactly the number of items, where the source
  promises only at most that.
- Settings.SettingsScreen.ChangeDefaultTarget: the unused read of the old
  default target is left out. It has no effect on the result.
- The reads and writes of `settingsScreen.saveSetting` differ from those of
  `database.saveSetting`. The first updates by row id, the second by key. Under
  the UNIQUE constraint both are the same upsert (`Table.UpdateWhereIsUpsert`),
  and both are modelled by `Database.Db.SaveSetting`.
- Floating point is not modelled. `Math.round` of the ratios is computed
  exactly on integers, so a product such as 29/200·100, which JavaScript
  evaluates to 14.499…, rounds here as the exact 14.5. Counter.BarWidth uses
  exact reals. Trend-bar heights are not modelled.
- `parseInt` on very long digit strings (loss of precision, exponent form) is
  not modelled.
- The theme setting, notifications and their content, reminder scheduling,
  haptics, alerts, confirmation dialogs, localized texts, navigation and the
  celebration animation are left out. They are UI or OS services; the model
  records only whether an achievement notification was delivered.
- The clock, time zones, DST and the UTC date strings of the trend are left out.
  Dates are day numbers, and `today` and the month start are parameters.
- The schema change `ALTER TABLE … ADD COLUMN arabic` when creating a custom
  item is left out. The model's table always has the column.
- `created_at`: the newest-first order is modelled by increasing ids.
  Timestamps that tie within a second are not modelled.
- Best-day ties: SQL leaves the order of equal totals unspecified. The model
  picks the most recent of the tied dates.
- The achievement rule table, ZIKIR_LIST and the translations live in
  src/constants, which is not part of this model. Rules are a parameter, as
  `(key, condition)` pairs.
- The counter screen without an item (`if (!zikir) return`) is left out. The
  screen is always built for an item.
- async/await interleaving and React re-render timing are left out. Each
  handler runs atomically against the state it reads.

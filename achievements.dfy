/**
 * The achievement evaluator: a fixed table of rules, each a key and a condition
 * on the freshly computed statistics, and the append-only ledger of unlocked keys.
 * A key is added when its condition holds and it is not yet in the ledger, so a
 * badge unlocks at most once, ever. The rule table itself is a parameter.
 */
module Achievements {
  import opened Database

  /** One entry of the rule table: a badge key and the condition that unlocks it. */
  datatype Rule<!S> = Rule(key: string, holds: S -> bool)

  /** Some rule with key `k` has its condition met by `stats`. */
  predicate Earned<S>(rules: seq<Rule<S>>, stats: S, k: string) {
    exists i :: 0 <= i < |rules| && rules[i].key == k && rules[i].holds(stats)
  }

  /** The key the rule adds to `ledger`: its own when its condition holds and the key is absent. */
  function Step<S>(rule: Rule<S>, stats: S, ledger: seq<string>): seq<string> {
    if rule.holds(stats) && rule.key !in ledger then [rule.key] else []
  }

  /**
   * The keys one evaluation adds, in rule order, to a ledger that starts as
   * `ledger`: each rule whose condition holds and whose key is not in the ledger
   * as it stands when that rule is reached.
   */
  function Unlocks<S>(rules: seq<Rule<S>>, stats: S, ledger: seq<string>): (r: seq<string>)
    ensures |r| <= |rules|
  {
    if rules == [] then []
    else
      var now := Step(rules[0], stats, ledger);
      now + Unlocks(rules[1..], stats, ledger + now)
  }

  /** Only earned keys are unlocked, and only keys the ledger did not hold. */
  lemma {:induction false} UnlocksSound<S>(rules: seq<Rule<S>>, stats: S, ledger: seq<string>)
    ensures forall j :: 0 <= j < |Unlocks(rules, stats, ledger)| ==>
      Unlocks(rules, stats, ledger)[j] !in ledger && Earned(rules, stats, Unlocks(rules, stats, ledger)[j])
  {
    if rules != [] {
      var now := Step(rules[0], stats, ledger);
      var rest := Unlocks(rules[1..], stats, ledger + now);
      UnlocksSound(rules[1..], stats, ledger + now);
      forall j | 0 <= j < |rest| ensures Earned(rules, stats, rest[j]) {
        var i :| 0 <= i < |rules[1..]| && rules[1..][i].key == rest[j] && rules[1..][i].holds(stats);
        assert rules[i + 1].key == rest[j];
      }
      assert rules[0].key in now ==> Earned(rules, stats, rules[0].key);
    }
  }

  /** The ledger after an evaluation still has at most one row per key. */
  lemma {:induction false} UnlocksKeepUnique<S>(rules: seq<Rule<S>>, stats: S, ledger: seq<string>)
    requires NoDuplicates(ledger)
    ensures NoDuplicates(ledger + Unlocks(rules, stats, ledger))
  {
    if rules != [] {
      var now := Step(rules[0], stats, ledger);
      UnlocksKeepUnique(rules[1..], stats, ledger + now);
      AppendAssoc(ledger, now, Unlocks(rules[1..], stats, ledger + now));
    }
  }

  /** After an evaluation the ledger holds the key of every rule whose condition holds. */
  lemma {:induction false} UnlocksComplete<S>(rules: seq<Rule<S>>, stats: S, ledger: seq<string>)
    ensures forall i :: 0 <= i < |rules| && rules[i].holds(stats) ==> rules[i].key in ledger + Unlocks(rules, stats, ledger)
  {
    if rules != [] {
      var now := Step(rules[0], stats, ledger);
      var rest := Unlocks(rules[1..], stats, ledger + now);
      var full := ledger + Unlocks(rules, stats, ledger);
      UnlocksComplete(rules[1..], stats, ledger + now);
      AppendAssoc(ledger, now, rest);
      forall i | 0 <= i < |rules| && rules[i].holds(stats) ensures rules[i].key in full {
        if i == 0 {
          assert rules[0].key in ledger + now;
        } else {
          assert rules[i] == rules[1..][i - 1];
        }
      }
    }
  }

  /** When every earned key is already in the ledger, an evaluation adds nothing. */
  lemma {:induction false} NothingNew<S>(rules: seq<Rule<S>>, stats: S, ledger: seq<string>)
    requires forall i :: 0 <= i < |rules| && rules[i].holds(stats) ==> rules[i].key in ledger
    ensures Unlocks(rules, stats, ledger) == []
  {
    if rules != [] {
      assert forall i :: 1 <= i < |rules| ==> rules[i] == rules[1..][i - 1];
      assert Step(rules[0], stats, ledger) == [];
      assert ledger + [] == ledger;
      NothingNew(rules[1..], stats, ledger);
    }
  }

  /** Evaluating twice with the same statistics: the second run unlocks nothing. */
  lemma EvaluateTwice<S>(rules: seq<Rule<S>>, stats: S, ledger: seq<string>)
    ensures Unlocks(rules, stats, ledger + Unlocks(rules, stats, ledger)) == []
  {
    UnlocksComplete(rules, stats, ledger);
    NothingNew(rules, stats, ledger + Unlocks(rules, stats, ledger));
  }

  /** A key already in the ledger is never unlocked again, whatever the statistics. */
  lemma RecordedKeyNotUnlocked<S>(rules: seq<Rule<S>>, stats: S, ledger: seq<string>, k: string)
    requires k in ledger
    ensures k !in Unlocks(rules, stats, ledger)
  {
    UnlocksSound(rules, stats, ledger);
  }

  /** Evaluating one more rule at the end adds that rule's step on the ledger reached so far. */
  lemma {:induction false} UnlocksSnoc<S>(rules: seq<Rule<S>>, rule: Rule<S>, stats: S, ledger: seq<string>)
    ensures Unlocks(rules + [rule], stats, ledger)
         == Unlocks(rules, stats, ledger) + Step(rule, stats, ledger + Unlocks(rules, stats, ledger))
  {
    if rules == [] {
      assert [rule][1..] == [];
      assert ledger + [] == ledger;
    } else {
      var now := Step(rules[0], stats, ledger);
      assert (rules + [rule])[1..] == rules[1..] + [rule];
      UnlocksSnoc(rules[1..], rule, stats, ledger + now);
      AppendAssoc(ledger, now, Unlocks(rules[1..], stats, ledger + now));
    }
  }

  lemma AppendAssoc(a: seq<string>, b: seq<string>, c: seq<string>)
    ensures a + b + c == a + (b + c)
  {
  }

  /** The unlocked keys whose notification went out, in unlock order. */
  function Delivered(unlocked: seq<string>, notifyFails: string -> bool): (r: seq<string>)
    ensures forall k :: k in r <==> k in unlocked && !notifyFails(k)
  {
    if unlocked == [] then []
    else
      var tail := Delivered(unlocked[1..], notifyFails);
      assert forall k :: k in unlocked <==> k == unlocked[0] || k in unlocked[1..];
      if notifyFails(unlocked[0]) then tail else [unlocked[0]] + tail
  }

  lemma {:induction false} DeliveredAppend(unlocked: seq<string>, k: string, notifyFails: string -> bool)
    ensures Delivered(unlocked + [k], notifyFails)
         == Delivered(unlocked, notifyFails) + (if notifyFails(k) then [] else [k])
  {
    if unlocked == [] {
      assert [k][1..] == [];
    } else {
      assert (unlocked + [k])[1..] == unlocked[1..] + [k];
      DeliveredAppend(unlocked[1..], k, notifyFails);
    }
  }

  /**
   * `checkAchievements`: for each rule in turn, when its condition holds and the
   * ledger has no row with its key, insert the key and then try to notify the user.
   * A failing notification (`notifyFails`) is swallowed after the insert, so it
   * changes what is `notified`, never what is unlocked.
   */
  method CheckAchievements<S>(db: Db, rules: seq<Rule<S>>, stats: S, notifyFails: string -> bool)
    returns (unlocked: seq<string>, notified: seq<string>)
    requires db.Valid()
    modifies db`achievements
    ensures db.Valid()
    ensures unlocked == Unlocks(rules, stats, old(db.achievements))
    ensures db.achievements == old(db.achievements) + unlocked
    ensures notified == Delivered(unlocked, notifyFails)
  {
    unlocked, notified := [], [];
    ghost var start := db.achievements;
    var i := 0;
    while i < |rules|
      invariant 0 <= i <= |rules|
      invariant db.Valid()
      invariant db.achievements == start + unlocked
      invariant unlocked == Unlocks(rules[..i], stats, start)
      invariant notified == Delivered(unlocked, notifyFails)
    {
      var rule := rules[i];
      assert rules[..i + 1] == rules[..i] + [rule];
      UnlocksSnoc(rules[..i], rule, stats, start);
      if rule.holds(stats) && rule.key !in db.achievements {
        var _ := db.InsertAchievement(rule.key);
        AppendAssoc(start, unlocked, [rule.key]);
        DeliveredAppend(unlocked, rule.key, notifyFails);
        unlocked := unlocked + [rule.key];
        if !notifyFails(rule.key) {
          notified := notified + [rule.key];
        }
      } else {
        assert unlocked + [] == unlocked;
      }
      i := i + 1;
    }
    assert rules[..i] == rules;
  }

  /** One badge as the achievements list shows it. */
  datatype Badge = Badge(key: string, unlocked: bool)

  /**
   * `loadAchievements`: every rule of the table, in order, marked unlocked exactly
   * when the ledger holds its key.
   */
  function Badges<S>(rules: seq<Rule<S>>, ledger: seq<string>): (r: seq<Badge>)
    ensures |r| == |rules|
    ensures forall i :: 0 <= i < |r| ==> r[i].key == rules[i].key
    ensures forall i :: 0 <= i < |r| ==> (r[i].unlocked <==> rules[i].key in ledger)
  {
    seq(|rules|, i requires 0 <= i < |rules| => Badge(rules[i].key, rules[i].key in ledger))
  }

  /**
   * After an evaluation, every badge whose condition holds shows as unlocked, and
   * every badge unlocked before still does.
   */
  lemma BadgesAfterCheck<S>(rules: seq<Rule<S>>, stats: S, ledger: seq<string>, i: nat)
    requires i < |rules|
    ensures rules[i].holds(stats) || rules[i].key in ledger
        ==> Badges(rules, ledger + Unlocks(rules, stats, ledger))[i].unlocked
  {
    UnlocksComplete(rules, stats, ledger);
  }
}

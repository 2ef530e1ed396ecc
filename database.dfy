/**
 * The application's SQLite database as five in-memory tables, with the UNIQUE
 * constraints the schema declares as the object invariant, and the statements
 * several screens share: the settings upsert and lookup, and the insert and
 * cascading delete of a custom item.
 */
module Database {
  import opened Wrappers
  import opened Table

  /** `zikir_type`: a built-in item from the fixed list, or one the user created. */
  datatype Kind = Default | Custom

  /** A countable phrase, identified by `(zikir_id, zikir_type)`. */
  datatype Item = Item(id: int, kind: Kind)

  /** The UNIQUE key of `zikir_records`. Dates are day numbers. */
  datatype RecordKey = RecordKey(item: Item, date: int)

  /** A row of `custom_zikirs`; `arabic` is NULL when the user gave no Arabic text. */
  datatype CustomItem = CustomItem(id: int, name: string, arabic: Option<string>)

  /** `zikir_records`: the count of one item on one day. */
  type Records = seq<Row<RecordKey, nat>>

  /** `zikir_targets`: the daily goal of one item. */
  type Targets = seq<Row<Item, int>>

  /** `settings`: text values under text keys. */
  type Settings = seq<Row<string, string>>

  /** The key-value setting that holds the global default target. */
  const DefaultTargetKey := "defaultTarget"

  /** `achievement_key TEXT NOT NULL UNIQUE`. */
  predicate NoDuplicates(ledger: seq<string>) {
    forall i, j :: 0 <= i < j < |ledger| ==> ledger[i] != ledger[j]
  }

  /** `name TEXT NOT NULL UNIQUE`. */
  predicate UniqueNames(customs: seq<CustomItem>) {
    forall i, j :: 0 <= i < j < |customs| ==> customs[i].name != customs[j].name
  }

  /**
   * `SELECT * FROM custom_zikirs ORDER BY created_at DESC`: ids are handed out in
   * increasing order, so the newest item, with the largest id, comes first.
   */
  predicate NewestFirst(customs: seq<CustomItem>) {
    forall i, j :: 0 <= i < j < |customs| ==> customs[i].id > customs[j].id
  }

  predicate HasName(customs: seq<CustomItem>, name: string) {
    exists i :: 0 <= i < |customs| && customs[i].name == name
  }

  /** `DELETE FROM custom_zikirs WHERE id = ?`. */
  function WithoutCustom(customs: seq<CustomItem>, id: int): seq<CustomItem> {
    if customs == [] then []
    else
      var tail := WithoutCustom(customs[1..], id);
      if customs[0].id == id then tail else [customs[0]] + tail
  }

  /** The rows left after the delete are exactly the rows with another id. */
  lemma {:induction false} WithoutCustomMembers(customs: seq<CustomItem>, id: int)
    ensures forall i :: 0 <= i < |WithoutCustom(customs, id)| ==>
      WithoutCustom(customs, id)[i] in customs && WithoutCustom(customs, id)[i].id != id
    ensures forall i :: 0 <= i < |customs| && customs[i].id != id ==> customs[i] in WithoutCustom(customs, id)
  {
    if customs != [] {
      var rest := customs[1..];
      WithoutCustomMembers(rest, id);
      assert forall i :: 1 <= i < |customs| ==> customs[i] == rest[i - 1];
    }
  }

  /** `WHERE zikir_id = id AND zikir_type = 'custom'` on `zikir_records`. */
  function RecordsOfCustom(id: int): RecordKey -> bool {
    (k: RecordKey) => k.item == Item(id, Custom)
  }

  /** `WHERE zikir_id = id AND zikir_type = 'custom'` on `zikir_targets`. */
  function TargetOfCustom(id: int): Item -> bool {
    (it: Item) => it == Item(id, Custom)
  }

  /** Deleting a custom item keeps the list newest first and the names unique. */
  lemma {:induction false} WithoutCustomValid(customs: seq<CustomItem>, id: int)
    requires NewestFirst(customs) && UniqueNames(customs)
    ensures NewestFirst(WithoutCustom(customs, id)) && UniqueNames(WithoutCustom(customs, id))
  {
    if customs != [] {
      var rest := customs[1..];
      assert NewestFirst(rest) && UniqueNames(rest) by {
        forall a, b | 0 <= a < b < |rest| ensures rest[a].id > rest[b].id && rest[a].name != rest[b].name {
          assert rest[a] == customs[a + 1] && rest[b] == customs[b + 1];
        }
      }
      WithoutCustomValid(rest, id);
      var tail := WithoutCustom(rest, id);
      if customs[0].id != id {
        var r := [customs[0]] + tail;
        assert WithoutCustom(customs, id) == r;
        forall a, b | 0 <= a < b < |r| ensures r[a].id > r[b].id && r[a].name != r[b].name {
          if a == 0 {
            WithoutCustomMembers(rest, id);
            var k :| 0 <= k < |rest| && rest[k] == tail[b - 1];
            assert r[b] == customs[k + 1];
          } else {
            assert r[a] == tail[a - 1] && r[b] == tail[b - 1];
          }
        }
      } else {
        assert WithoutCustom(customs, id) == tail;
      }
    }
  }

  /**
   * `loadSetting(key, defaultValue)`: the stored value, or the default when the key
   * has no row or the read fails (`readFails`).
   */
  function LoadSetting(settings: Settings, key: string, default: string, readFails: bool): (r: string)
    ensures readFails || key !in Keys(settings) ==> r == default
    ensures !readFails && key in Keys(settings) ==> Row(key, r) in settings
  {
    if readFails then default else Lookup(settings, key).GetOr(default)
  }

  class Db {
    var records: Records
    var targets: Targets
    var settings: Settings
    var achievements: seq<string>
    var customs: seq<CustomItem>
    /** The next id AUTOINCREMENT hands out; ids are never reused, even after a delete. */
    var nextCustomId: int

    /** The schema's UNIQUE constraints, and ids below the AUTOINCREMENT counter. */
    predicate Valid()
      reads this
    {
      && UniqueKeys(records)
      && UniqueKeys(targets)
      && UniqueKeys(settings)
      && NoDuplicates(achievements)
      && UniqueNames(customs)
      && NewestFirst(customs)
      && (forall i :: 0 <= i < |customs| ==> customs[i].id < nextCustomId)
    }

    /** `initDatabase` on a fresh file: every table exists and is empty. */
    constructor ()
      ensures Valid()
      ensures records == [] && targets == [] && settings == [] && achievements == [] && customs == []
    {
      records, targets, settings, achievements, customs := [], [], [], [], [];
      nextCustomId := 1;
    }

    /**
     * `saveSetting(key, value)`: read the key's row, then `UPDATE ... WHERE key = ?`
     * when it exists and `INSERT` otherwise.
     */
    method SaveSetting(key: string, value: string)
      requires Valid()
      modifies this`settings
      ensures Valid()
      ensures settings == Upsert(old(settings), key, value)
    {
      var existing := IndexOf(settings, key);
      if existing.Some? {
        UpdateWhereIsUpsert(settings, key, value);
        settings := UpdateWhere(settings, key, value);
      } else {
        settings := settings + [Row(key, value)];
      }
    }

    /**
     * `INSERT INTO achievements (achievement_key)`: the UNIQUE constraint rejects a
     * key the ledger already holds.
     */
    method InsertAchievement(key: string) returns (inserted: bool)
      requires Valid()
      modifies this`achievements
      ensures Valid()
      ensures inserted <==> key !in old(achievements)
      ensures achievements == if inserted then old(achievements) + [key] else old(achievements)
    {
      inserted := key !in achievements;
      if inserted {
        achievements := achievements + [key];
      }
    }

    /**
     * `INSERT INTO custom_zikirs (name, arabic)`: the UNIQUE constraint on `name`
     * rejects a duplicate; otherwise the row gets the next AUTOINCREMENT id.
     */
    method InsertCustom(name: string, arabic: Option<string>) returns (id: Option<int>)
      requires Valid()
      modifies this`customs, this`nextCustomId
      ensures Valid()
      ensures id.None? <==> HasName(old(customs), name)
      ensures id.None? ==> customs == old(customs) && nextCustomId == old(nextCustomId)
      ensures id.Some? ==> id.value == old(nextCustomId) && nextCustomId == old(nextCustomId) + 1
      ensures id.Some? ==> customs == [CustomItem(id.value, name, arabic)] + old(customs)
    {
      if exists i :: 0 <= i < |customs| && customs[i].name == name {
        id := None;
      } else {
        id := Some(nextCustomId);
        customs := [CustomItem(nextCustomId, name, arabic)] + customs;
        nextCustomId := nextCustomId + 1;
      }
    }

    /**
     * Deleting a custom item: its `custom_zikirs` row, then every `zikir_records`
     * and `zikir_targets` row of `(id, 'custom')`; nothing else.
     */
    method DeleteCustom(id: int)
      requires Valid()
      modifies this`customs, this`records, this`targets
      ensures Valid()
      ensures customs == WithoutCustom(old(customs), id)
      ensures records == DeleteWhere(old(records), RecordsOfCustom(id))
      ensures targets == DeleteWhere(old(targets), TargetOfCustom(id))
    {
      WithoutCustomValid(customs, id);
      WithoutCustomMembers(customs, id);
      customs := WithoutCustom(customs, id);
      DeleteWhereUnique(records, RecordsOfCustom(id));
      records := DeleteWhere(records, RecordsOfCustom(id));
      DeleteWhereUnique(targets, TargetOfCustom(id));
      targets := DeleteWhere(targets, TargetOfCustom(id));
    }
  }

  /** After `saveSetting(k, v)`, `loadSetting(k, d)` returns `v`. */
  lemma SaveThenLoad(settings: Settings, key: string, value: string, default: string)
    ensures LoadSetting(Upsert(settings, key, value), key, default, false) == value
  {
  }

  /** `saveSetting` on one key leaves what `loadSetting` returns for every other key unchanged. */
  lemma SaveKeepsOtherKeys(settings: Settings, key: string, value: string, other: string, default: string)
    requires other != key
    ensures LoadSetting(Upsert(settings, key, value), other, default, false)
         == LoadSetting(settings, other, default, false)
  {
  }

  /**
   * The cascade delete leaves every other item's records and targets as they were,
   * and the deleted item has none left.
   */
  lemma DeleteCustomScope(records: Records, targets: Targets, id: int, k: RecordKey, it: Item)
    requires UniqueKeys(records) && UniqueKeys(targets)
    ensures Lookup(DeleteWhere(records, RecordsOfCustom(id)), k)
         == if k.item == Item(id, Custom) then None else Lookup(records, k)
    ensures Lookup(DeleteWhere(targets, TargetOfCustom(id)), it)
         == if it == Item(id, Custom) then None else Lookup(targets, it)
  {
    DeleteWhereLookup(records, RecordsOfCustom(id), k);
    DeleteWhereLookup(targets, TargetOfCustom(id), it);
  }
}

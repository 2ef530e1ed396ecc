/**
 * A relational table with a UNIQUE key, as a sequence of rows in insertion order,
 * and the SQL statements the screens issue against it: `SELECT ... WHERE key = ?
 * LIMIT 1`, `INSERT`, `UPDATE ... WHERE key = ?`, `DELETE ... WHERE ...` and
 * `SUM(value)` over the rows a condition selects.
 */
module Table {
  import opened Wrappers

  /** One row; `key` is the column set the table declares UNIQUE. */
  datatype Row<K, V> = Row(key: K, value: V)

  /** The UNIQUE constraint: no two rows share a key. */
  predicate UniqueKeys<K(==), V>(rows: seq<Row<K, V>>) {
    forall i, j :: 0 <= i < j < |rows| ==> rows[i].key != rows[j].key
  }

  function Keys<K, V>(rows: seq<Row<K, V>>): set<K> {
    set i | 0 <= i < |rows| :: rows[i].key
  }

  /** `SELECT ... WHERE key = k LIMIT 1`: the position of the first row with key `k`. */
  function IndexOf<K(==), V>(rows: seq<Row<K, V>>, k: K): (r: Option<nat>)
    ensures r.Some? ==> r.value < |rows| && rows[r.value].key == k
    ensures r.Some? ==> forall j :: 0 <= j < r.value ==> rows[j].key != k
    ensures r.None? <==> k !in Keys(rows)
  {
    if rows == [] then None
    else if rows[0].key == k then Some(0)
    else
      assert Keys(rows) == {rows[0].key} + Keys(rows[1..]) by {
        forall x | x in Keys(rows) ensures x in {rows[0].key} + Keys(rows[1..]) {
          var i :| 0 <= i < |rows| && rows[i].key == x;
          if i > 0 { assert rows[1..][i - 1].key == x; }
        }
      }
      match IndexOf(rows[1..], k)
      case None => None
      case Some(i) => Some(i + 1)
  }

  /** The value in the first row with key `k`, if there is one. */
  function Lookup<K(==), V>(rows: seq<Row<K, V>>, k: K): (r: Option<V>)
    ensures r.Some? <==> k in Keys(rows)
    ensures r.Some? ==> Row(k, r.value) in rows
  {
    match IndexOf(rows, k)
    case None => None
    case Some(i) => Some(rows[i].value)
  }

  /**
   * The read-then-write the screens perform: when a row with key `k` exists, the
   * first such row gets value `v` (`UPDATE ... WHERE id = existing[0].id`);
   * otherwise the row is appended (`INSERT`).
   */
  function Upsert<K(==,!new), V>(rows: seq<Row<K, V>>, k: K, v: V): (r: seq<Row<K, V>>)
    ensures Lookup(r, k) == Some(v)
    ensures forall k' :: k' != k ==> Lookup(r, k') == Lookup(rows, k')
    ensures Keys(r) == Keys(rows) + {k}
    ensures |r| == if k in Keys(rows) then |rows| else |rows| + 1
    ensures UniqueKeys(rows) ==> UniqueKeys(r)
  {
    match IndexOf(rows, k)
    case Some(i) =>
      UpdateFacts(rows, i, k, v);
      rows[i := Row(k, v)]
    case None =>
      AppendFacts(rows, k, v);
      rows + [Row(k, v)]
  }

  /** The update half of `Upsert`: the first row with key `k` gets the new value. */
  lemma UpdateFacts<K(!new), V>(rows: seq<Row<K, V>>, i: nat, k: K, v: V)
    requires IndexOf(rows, k) == Some(i)
    ensures var r := rows[i := Row(k, v)];
      && Lookup(r, k) == Some(v)
      && (forall k' :: k' != k ==> Lookup(r, k') == Lookup(rows, k'))
      && Keys(r) == Keys(rows) && k in Keys(rows)
      && (UniqueKeys(rows) ==> UniqueKeys(r))
  {
    var r := rows[i := Row(k, v)];
    assert r[i].key in Keys(r);
    assert IndexOf(r, k).value == i;
    assert forall a :: 0 <= a < |r| ==> r[a].key == rows[a].key;
    forall k' | k' != k ensures IndexOf(r, k') == IndexOf(rows, k') {
      UpdateKeepsIndexOf(rows, i, v, k');
    }
    assert Keys(r) == Keys(rows) by {
      forall x | x in Keys(rows) ensures x in Keys(r) {
        var j :| 0 <= j < |rows| && rows[j].key == x;
        assert r[j].key == x;
      }
    }
  }

  /** The insert half of `Upsert`: a row with a new key is appended. */
  lemma AppendFacts<K(!new), V>(rows: seq<Row<K, V>>, k: K, v: V)
    requires IndexOf(rows, k).None?
    ensures var r := rows + [Row(k, v)];
      && Lookup(r, k) == Some(v)
      && (forall k' :: k' != k ==> Lookup(r, k') == Lookup(rows, k'))
      && Keys(r) == Keys(rows) + {k} && k !in Keys(rows)
      && (UniqueKeys(rows) ==> UniqueKeys(r))
  {
    var r := rows + [Row(k, v)];
    forall k' | k' != k ensures IndexOf(r, k') == IndexOf(rows, k') {
      AppendKeepsIndexOf(rows, Row(k, v), k');
    }
    assert Keys(r) == Keys(rows) + {k} by {
      forall x | x in Keys(rows) ensures x in Keys(r) {
        var j :| 0 <= j < |rows| && rows[j].key == x;
        assert r[j].key == x;
      }
      assert r[|rows|].key == k;
    }
    assert forall a :: 0 <= a < |rows| ==> r[a] == rows[a];
    if UniqueKeys(rows) {
      forall a, b | 0 <= a < b < |r| ensures r[a].key != r[b].key {
        if b == |rows| {
          assert rows[a].key in Keys(rows);
        }
      }
    }
  }

  /** Changing the value of a row with key `k` does not move the first row of any other key. */
  lemma {:induction false} UpdateKeepsIndexOf<K, V>(rows: seq<Row<K, V>>, i: nat, v: V, k': K)
    requires i < |rows| && rows[i].key != k'
    ensures IndexOf(rows[i := Row(rows[i].key, v)], k') == IndexOf(rows, k')
  {
    if i > 0 && rows[0].key != k' {
      assert rows[i := Row(rows[i].key, v)][1..] == rows[1..][i - 1 := Row(rows[i].key, v)];
      UpdateKeepsIndexOf(rows[1..], i - 1, v, k');
    }
  }

  /** Appending a row with another key does not move the first row of `k'`, nor create one. */
  lemma {:induction false} AppendKeepsIndexOf<K, V>(rows: seq<Row<K, V>>, x: Row<K, V>, k': K)
    requires x.key != k'
    ensures IndexOf(rows + [x], k') == IndexOf(rows, k')
  {
    if rows == [] {
      assert [x][1..] == [];
    } else if rows[0].key != k' {
      assert (rows + [x])[1..] == rows[1..] + [x];
      AppendKeepsIndexOf(rows[1..], x, k');
    }
  }

  /** `UPDATE ... SET value = v WHERE key = k`: every row with key `k`, and only those, gets `v`. */
  function UpdateWhere<K(==), V>(rows: seq<Row<K, V>>, k: K, v: V): (r: seq<Row<K, V>>)
    ensures |r| == |rows|
    ensures forall i :: 0 <= i < |rows| ==> r[i].key == rows[i].key
    ensures forall i :: 0 <= i < |rows| && rows[i].key != k ==> r[i] == rows[i]
    ensures forall i :: 0 <= i < |rows| && rows[i].key == k ==> r[i].value == v
  {
    if rows == [] then []
    else [if rows[0].key == k then Row(k, v) else rows[0]] + UpdateWhere(rows[1..], k, v)
  }

  /** `UPDATE ... WHERE key = k` on a table with unique keys is the update half of `Upsert`. */
  lemma {:induction false} UpdateWhereIsUpsert<K(!new), V>(rows: seq<Row<K, V>>, k: K, v: V)
    requires UniqueKeys(rows)
    ensures UpdateWhere(rows, k, v) == if k in Keys(rows) then Upsert(rows, k, v) else rows
  {
    var r := UpdateWhere(rows, k, v);
    match IndexOf(rows, k)
    case None =>
      assert r == rows;
    case Some(i) =>
      assert forall j :: 0 <= j < |rows| && j != i ==> rows[j].key != k;
      assert r == rows[i := Row(k, v)];
  }

  /** With unique keys, the value `Lookup` finds for `k` is the value of the one row with key `k`. */
  lemma LookupUnique<K, V>(rows: seq<Row<K, V>>, k: K, v: V)
    requires UniqueKeys(rows)
    ensures Lookup(rows, k) == Some(v) <==> Row(k, v) in rows
  {
    if Row(k, v) in rows {
      var j :| 0 <= j < |rows| && rows[j] == Row(k, v);
      var i := IndexOf(rows, k).value;
      assert i == j;
    }
  }

  /** `DELETE ... WHERE drop(key)`: the rows whose key `drop` selects go, the rest keep their order. */
  function DeleteWhere<K, V>(rows: seq<Row<K, V>>, drop: K -> bool): (r: seq<Row<K, V>>)
    ensures forall i :: 0 <= i < |r| ==> r[i] in rows && !drop(r[i].key)
    ensures forall i :: 0 <= i < |rows| && !drop(rows[i].key) ==> rows[i] in r
  {
    if rows == [] then []
    else
      var tail := DeleteWhere(rows[1..], drop);
      assert forall i :: 1 <= i < |rows| ==> rows[i] == rows[1..][i - 1];
      if drop(rows[0].key) then tail else [rows[0]] + tail
  }

  /** Deleting rows keeps the UNIQUE constraint. */
  lemma {:induction false} DeleteWhereUnique<K, V>(rows: seq<Row<K, V>>, drop: K -> bool)
    requires UniqueKeys(rows)
    ensures UniqueKeys(DeleteWhere(rows, drop))
  {
    if rows != [] {
      DeleteWhereUnique(rows[1..], drop);
      var tail := DeleteWhere(rows[1..], drop);
      forall j | 0 <= j < |tail| ensures tail[j].key != rows[0].key {
        assert tail[j] in rows[1..];
      }
    }
  }

  /**
   * After a delete on a table with unique keys, a key the condition selects has no
   * row and every other key keeps its value.
   */
  lemma DeleteWhereLookup<K, V>(rows: seq<Row<K, V>>, drop: K -> bool, k: K)
    requires UniqueKeys(rows)
    ensures Lookup(DeleteWhere(rows, drop), k) == if drop(k) then None else Lookup(rows, k)
  {
    var r := DeleteWhere(rows, drop);
    DeleteWhereUnique(rows, drop);
    if !drop(k) {
      match Lookup(rows, k)
      case Some(v) =>
        LookupUnique(rows, k, v);
        LookupUnique(r, k, v);
      case None =>
    }
  }

  /** `SELECT SUM(value) ... WHERE sel(key)`, with an empty selection summing to 0. */
  function Sum<K>(rows: seq<Row<K, nat>>, sel: K -> bool): nat {
    if rows == [] then 0
    else (if sel(rows[0].key) then rows[0].value else 0) + Sum(rows[1..], sel)
  }

  /** What a row adds to a sum. */
  function Share<K>(x: Row<K, nat>, sel: K -> bool): nat {
    if sel(x.key) then x.value else 0
  }

  /** The sum of a concatenation is the sum of the parts. */
  lemma {:induction false} SumAppend<K>(a: seq<Row<K, nat>>, b: seq<Row<K, nat>>, sel: K -> bool)
    ensures Sum(a + b, sel) == Sum(a, sel) + Sum(b, sel)
  {
    if a == [] {
      assert a + b == b;
    } else {
      assert (a + b)[1..] == a[1..] + b;
      SumAppend(a[1..], b, sel);
    }
  }

  /** Replacing one row changes the sum by the difference of the two rows' shares. */
  lemma {:induction false} SumReplace<K>(rows: seq<Row<K, nat>>, i: nat, x: Row<K, nat>, sel: K -> bool)
    requires i < |rows|
    ensures Sum(rows[i := x], sel) + Share(rows[i], sel) == Sum(rows, sel) + Share(x, sel)
  {
    if i > 0 {
      assert rows[i := x][1..] == rows[1..][i - 1 := x];
      SumReplace(rows[1..], i - 1, x, sel);
    }
  }

  /** A sum over rows none of which is selected is 0. */
  lemma {:induction false} SumNoneSelected<K>(rows: seq<Row<K, nat>>, sel: K -> bool)
    requires forall i :: 0 <= i < |rows| ==> !sel(rows[i].key)
    ensures Sum(rows, sel) == 0
  {
    if rows != [] {
      SumNoneSelected(rows[1..], sel);
    }
  }

  /**
   * An upsert changes a sum by the new value minus the old one when the key is
   * selected, and not at all otherwise.
   */
  lemma SumUpsert<K(!new)>(rows: seq<Row<K, nat>>, k: K, v: nat, sel: K -> bool)
    ensures Sum(Upsert(rows, k, v), sel) + (if sel(k) then Lookup(rows, k).GetOr(0) else 0)
         == Sum(rows, sel) + (if sel(k) then v else 0)
  {
    match IndexOf(rows, k)
    case Some(i) =>
      SumReplace(rows, i, Row(k, v), sel);
    case None =>
      SumAppend(rows, [Row(k, v)], sel);
      assert [Row(k, v)][1..] == [];
  }

  /** Selecting more rows never lowers a sum. */
  lemma {:induction false} SumMonotone<K>(rows: seq<Row<K, nat>>, narrow: K -> bool, wide: K -> bool)
    requires forall k :: narrow(k) ==> wide(k)
    ensures Sum(rows, narrow) <= Sum(rows, wide)
  {
    if rows != [] {
      SumMonotone(rows[1..], narrow, wide);
    }
  }

  /**
   * On a table with unique keys, a sum whose condition selects exactly one key is
   * that key's value, or 0 when it has no row.
   */
  lemma {:induction false} SumOneKey<K>(rows: seq<Row<K, nat>>, sel: K -> bool, k: K)
    requires UniqueKeys(rows)
    requires forall x :: sel(x) <==> x == k
    ensures Sum(rows, sel) == Lookup(rows, k).GetOr(0)
  {
    if rows != [] {
      if rows[0].key == k {
        assert forall i :: 0 <= i < |rows[1..]| ==> !sel(rows[1..][i].key) by {
          forall i | 0 <= i < |rows[1..]| ensures !sel(rows[1..][i].key) {
            assert rows[1..][i] == rows[i + 1];
          }
        }
        SumNoneSelected(rows[1..], sel);
      } else {
        SumOneKey(rows[1..], sel, k);
      }
    }
  }
}

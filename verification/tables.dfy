/**
 The effect of executing the statements built in `Sql` on MySQL tables, and the
 cursor rowcount each returns. A keyed table maps its primary key to the row;
 a table without a usable key is a log of rows in insertion order.

 Rowcounts follow MySQL's affected-rows convention with the connector's default
 client flags: an `INSERT ... ON DUPLICATE KEY UPDATE` reports 1 for a new row,
 2 for an existing row that changed and 0 for one set to its current values;
 an `UPDATE` reports the number of rows it actually changed.
 */
module Tables {
  import opened Values

  type Table<K> = map<K, Record>

  /** A keyed table after one statement, with the rowcount the cursor reports. */
  datatype Written<K> = Written(table: Table<K>, rowcount: int)

  /**
   `INSERT INTO t (...) VALUES (insert) ON DUPLICATE KEY UPDATE (update)` where the
   inserted row's primary key is `key`.
   */
  function Upsert<K>(t: Table<K>, key: K, insert: ValMap, update: ValMap): (w: Written<K>)
    ensures key in w.table
    ensures w.table - {key} == t - {key}
    ensures w.table.Keys == t.Keys + {key}
    ensures forall k :: k in t && k != key ==> w.table[k] == t[k]
    ensures w.rowcount in {0, 1, 2}
    ensures w.rowcount == 1 <==> key !in t
    ensures w.rowcount == 0 <==> w.table == t
  {
    if key !in t then
      Written(t[key := Overlay(map[], insert)], 1)
    else
      var r := Overlay(t[key], update);
      if r == t[key] then Written(t, 0) else Written(t[key := r], 2)
  }

  /** `UPDATE t SET (set) WHERE` the primary key equals `key`. */
  function Update<K>(t: Table<K>, key: K, set_: ValMap): (w: Written<K>)
    ensures w.table.Keys == t.Keys
    ensures w.table - {key} == t - {key}
    ensures forall k :: k != key && k in t ==> w.table[k] == t[k]
    ensures w.rowcount in {0, 1}
    ensures w.rowcount == 0 <==> w.table == t
    ensures key !in t ==> w.rowcount == 0
  {
    if key !in t then Written(t, 0)
    else
      var r := Overlay(t[key], set_);
      if r == t[key] then Written(t, 0) else Written(t[key := r], 1)
  }

  /** A plain `INSERT` into a table modelled as a log: one row appended, rowcount 1. */
  function Append(log: seq<Record>, insert: ValMap): (l: seq<Record>)
    ensures |l| == |log| + 1
    ensures l[..|log|] == log
  {
    log + [Overlay(map[], insert)]
  }

  /** The value an assignment list gives column `c` of a row that read `otherwise` before. */
  function AssignedOr(m: ValMap, c: string, otherwise: Value): Value
  {
    if Assigned(m, c).Some? then Assigned(m, c).value else otherwise
  }

  /**
   The row an upsert leaves under `key`: a new row holds the insert map's values and
   NULL in every other column; an existing row takes the update map's values and
   keeps every other column.
   */
  lemma UpsertReads<K>(t: Table<K>, key: K, insert: ValMap, update: ValMap, c: string)
    ensures var row := Upsert(t, key, insert, update).table[key];
            && (key !in t ==> Get(row, c) == AssignedOr(insert, c, Null))
            && (key in t ==> Get(row, c) == AssignedOr(update, c, Get(t[key], c)))
  {
  }

  /** The row an update leaves under a stored `key`: the set columns take their values, the others are kept. */
  lemma UpdateReads<K>(t: Table<K>, key: K, set_: ValMap, c: string)
    requires key in t
    ensures Get(Update(t, key, set_).table[key], c) == AssignedOr(set_, c, Get(t[key], c))
  {
  }

  /** The appended row holds the insert map's values and NULL in every other column. */
  lemma AppendReads(log: seq<Record>, insert: ValMap, c: string)
    ensures Get(Append(log, insert)[|log|], c) == AssignedOr(insert, c, Null)
  {
  }

  /** Replaying an upsert whose insert and update maps coincide changes nothing and reports 0. */
  lemma UpsertReplay<K>(t: Table<K>, key: K, m: ValMap)
    ensures var w := Upsert(t, key, m, m);
            Upsert(w.table, key, m, m) == Written(w.table, 0)
  {
    if key in t {
      OverlayIdempotent(t[key], m);
    } else {
      OverlayIdempotent(map[], m);
    }
  }

  /** Replaying an update changes nothing and reports 0. */
  lemma UpdateReplay<K>(t: Table<K>, key: K, m: ValMap)
    ensures var w := Update(t, key, m);
            Update(w.table, key, m) == Written(w.table, 0)
  {
    if key in t {
      OverlayIdempotent(t[key], m);
    }
  }
}

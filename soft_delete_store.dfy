/**
 * The table's rows as the plugin's statements see them: a map from
 * primary-key values to rows, each row carrying the nullable timestamp of its
 * soft-delete column. `Stamp` is the effect of an
 * `UPDATE ... SET <field> = now WHERE <conditions>` and `Purge` that of a
 * `DELETE ... WHERE <conditions>`; `Matched` is the set of rows either one
 * affects, whose size is the statement's `rowCount()`.
 */
module SoftDeleteStore {
  import opened Wrappers

  /** A column value of a row or an entity. */
  datatype Value = Null | Int(i: int) | Text(s: string)

  /** The values of a row's primary-key columns, in the table's primary-key order. */
  type Key = seq<Value>

  /**
   * A stored row: `deleted` is the soft-delete column (None is SQL NULL, an
   * active row; Some(t) marks a row soft-deleted at time t), `columns` are its
   * other columns, which no operation of the plugin writes.
   */
  datatype Row = Row(deleted: Option<int>, columns: map<string, Value>)

  type Store = map<Key, Row>

  /** A `where` clause, as the set of (key, row) pairs it accepts. */
  type Condition = (Key, Row) -> bool

  /** The rows a statement filtered by `cond` affects. */
  function Matched(rows: Store, cond: Condition): (r: set<Key>)
    ensures r <= rows.Keys
    ensures forall k | k in rows :: k in r <==> cond(k, rows[k])
  {
    set k | k in rows && cond(k, rows[k])
  }

  /** The condition `<pk columns> = <key>` built from an entity's primary-key values. */
  function KeyIs(key: Key): (r: Condition)
    ensures forall k: Key, row: Row :: r(k, row) <==> k == key
  {
    (k: Key, row: Row) => k == key
  }

  /** `<field> IS NOT NULL AND <field> <= until`: rows soft-deleted at or before `until`. */
  function DeletedBy(until: int): (r: Condition)
    ensures forall k: Key, row: Row | row.deleted.None? :: !r(k, row)
    ensures forall k: Key, row: Row | row.deleted.Some? :: r(k, row) <==> row.deleted.value <= until
  {
    (k: Key, row: Row) => row.deleted.Some? && row.deleted.value <= until
  }

  /** `UPDATE ... SET <field> = now WHERE cond`. */
  function Stamp(rows: Store, cond: Condition, now: int): (r: Store)
    ensures r.Keys == rows.Keys
    ensures forall k | k in rows :: r[k].columns == rows[k].columns
    ensures forall k | k in rows && cond(k, rows[k]) :: r[k].deleted == Some(now)
    ensures forall k | k in rows && !cond(k, rows[k]) :: r[k] == rows[k]
  {
    map k | k in rows :: if cond(k, rows[k]) then rows[k].(deleted := Some(now)) else rows[k]
  }

  /** `DELETE ... WHERE cond`. */
  function Purge(rows: Store, cond: Condition): (r: Store)
    ensures r.Keys == rows.Keys - Matched(rows, cond)
    ensures forall k | k in r :: r[k] == rows[k]
  {
    map k | k in rows && !cond(k, rows[k]) :: rows[k]
  }

  /** A delete's row count and the rows it leaves add up to the rows there were. */
  lemma PurgeCount(rows: Store, cond: Condition)
    ensures |Purge(rows, cond)| + |Matched(rows, cond)| == |rows|
  {
  }

  /** The effect `save` has on the store when it persists a cleared soft-delete column to the row under `key`. */
  function Revive(rows: Store, key: Key): (r: Store)
    ensures r.Keys == rows.Keys
    ensures key in rows ==> r[key] == rows[key].(deleted := None)
    ensures forall k | k in rows && k != key :: r[k] == rows[k]
  {
    if key in rows then rows[key := rows[key].(deleted := None)] else rows
  }

  /** The rows a select filtered by `<field> IS NULL` returns: the active ones. */
  function Visible(rows: Store): (r: Store)
    ensures forall k | k in r :: k in rows && rows[k].deleted.None? && r[k] == rows[k]
    ensures forall k | k in rows && rows[k].deleted.None? :: k in r
  {
    map k | k in rows && rows[k].deleted.None? :: rows[k]
  }

  /** An update filtered by one primary key affects that one row if it is stored, and none otherwise. */
  lemma MatchedKey(rows: Store, key: Key)
    ensures Matched(rows, KeyIs(key)) == if key in rows then {key} else {}
    ensures |Matched(rows, KeyIs(key))| > 0 <==> key in rows
  {
  }
}

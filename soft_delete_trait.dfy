/**
 * The soft-delete capability a table mixes in: resolution of the soft-delete
 * column, the soft-delete write path that replaces the physical delete of an
 * entity, bulk soft delete, hard delete of one entity or of every row
 * soft-deleted up to a cutoff, and restore.
 *
 * The collaborators the capability calls (the rules checker, the event
 * manager, the association cascade and `save`) are not modelled: their
 * outcomes are parameters, and the table's `calls` log records which of them
 * were invoked and in what order. Timestamps are integers and "now" is a
 * parameter.
 */
module SoftDeleteTrait {
  import opened Wrappers
  import opened SoftDeleteStore

  /** `MissingColumnException` and `InvalidArgumentException`. */
  datatype Error = MissingColumn(field: string, table: string) | InvalidArgument

  /** What the trait reads of its table: the alias, the schema's column names, the primary-key columns and the optional `softDeleteField` property. */
  datatype TableConfig = TableConfig(alias: string, schema: set<string>, primaryKey: seq<string>, softDeleteField: Option<string>)

  /** The soft-delete column used when the table sets no `softDeleteField`. */
  const DefaultField: string := "deleted"

  /** The column name the table asks for, before it is checked against the schema. */
  function ConfiguredField(cfg: TableConfig): (r: string)
    ensures cfg.softDeleteField.Some? ==> r == cfg.softDeleteField.value
    ensures cfg.softDeleteField.None? ==> r == "deleted"
  {
    match cfg.softDeleteField
    case Some(name) => name
    case None => DefaultField
  }

  /** `getSoftDeleteField()`: the configured column if the schema has it; `MissingColumnException` otherwise. */
  function SoftDeleteField(cfg: TableConfig): (r: Result<string, Error>)
    ensures r.Success? <==> ConfiguredField(cfg) in cfg.schema
    ensures r.Success? ==> r.value in cfg.schema && r.value == ConfiguredField(cfg)
    ensures r.Failure? ==> r.error == MissingColumn(ConfiguredField(cfg), cfg.alias)
    ensures cfg.softDeleteField.None? && r.Success? ==> r.value == "deleted"
  {
    var field := ConfiguredField(cfg);
    if field !in cfg.schema then Failure(MissingColumn(field, cfg.alias)) else Success(field)
  }

  /** `$entity->has($columns)`: every column is set to a non-null value. */
  predicate HasAll(fields: map<string, Value>, columns: seq<string>): (r: bool)
    ensures r <==> forall c | c in columns :: c in fields && fields[c] != Null
  {
    forall i :: 0 <= i < |columns| ==> columns[i] in fields && fields[columns[i]] != Null
  }

  /** `$entity->extract($primaryKey)`, as the key of the row it designates. */
  function Extract(fields: map<string, Value>, columns: seq<string>): (key: Key)
    requires HasAll(fields, columns)
    ensures |key| == |columns|
    ensures forall i :: 0 <= i < |columns| ==> key[i] == fields[columns[i]] && key[i] != Null
  {
    seq(|columns|, i requires 0 <= i < |columns| && columns[i] in fields => fields[columns[i]])
  }

  /** A persisted entity: `isNew()` and its field values. */
  class Entity {
    var isNew: bool
    var fields: map<string, Value>

    constructor (isNew: bool, fields: map<string, Value>)
      ensures this.isNew == isNew && this.fields == fields
    {
      this.isNew := isNew;
      this.fields := fields;
    }
  }

  /** The collaborators the trait invokes, in the order it invokes them. */
  datatype Call = RulesChecked | BeforeDelete | CascadeDelete | AfterDelete | Saved

  /** The outcome of dispatching `Model.beforeDelete`: not stopped, or stopped with a result. */
  datatype EventOutcome = Continue | Stopped(result: bool)

  /** What a delete does: its return value (or exception), the rows afterwards and the calls it made. */
  datatype DeleteRun = DeleteRun(result: Result<bool, Error>, rows: Store, calls: seq<Call>)

  /** The calls made before `Model.beforeDelete`: the rules checker, when the options ask for it. */
  function RulesCalls(checkRules: bool): (r: seq<Call>)
  {
    if checkRules then [RulesChecked] else []
  }

  /** True when `_processDelete` gets past the rules check and an unstopped `Model.beforeDelete`. */
  predicate ReachesUpdate(cfg: TableConfig, isNew: bool, fields: map<string, Value>,
                          checkRules: bool, rulesPass: bool, beforeDelete: EventOutcome)
  {
    !isNew && HasAll(fields, cfg.primaryKey) && (!checkRules || rulesPass) && beforeDelete.Continue?
  }

  /**
   * `_processDelete($entity, $options)`: the soft-delete write path. A new
   * entity is refused; an entity without all primary-key values throws;
   * failing rules and a stopped `Model.beforeDelete` return before anything
   * is written; otherwise the associations are cascaded and the row with the
   * entity's primary key is stamped with `now`, and `Model.afterDelete`
   * follows only if that update affected a row.
   */
  function DeleteSpec(cfg: TableConfig, rows: Store, isNew: bool, fields: map<string, Value>,
                      checkRules: bool, rulesPass: bool, beforeDelete: EventOutcome, now: int): (run: DeleteRun)
    ensures run.rows.Keys == rows.Keys
    ensures run.result == Success(true) ==> !isNew && HasAll(fields, cfg.primaryKey)
  {
    if isNew then DeleteRun(Success(false), rows, [])
    else if !HasAll(fields, cfg.primaryKey) then DeleteRun(Failure(InvalidArgument), rows, [])
    else if checkRules && !rulesPass then DeleteRun(Success(false), rows, [RulesChecked])
    else
      var before := RulesCalls(checkRules) + [BeforeDelete];
      if beforeDelete.Stopped? then DeleteRun(Success(beforeDelete.result), rows, before)
      else
        var update := UpdateSpec(cfg, rows, Extract(fields, cfg.primaryKey), now);
        DeleteRun(update.result, update.rows, before + update.calls)
  }

  /**
   * The tail of `_processDelete` once `Model.beforeDelete` let it through:
   * cascade to the associations, stamp the row with `key`, and dispatch
   * `Model.afterDelete` only if that update affected a row.
   */
  function UpdateSpec(cfg: TableConfig, rows: Store, key: Key, now: int): (run: DeleteRun)
    ensures run.rows.Keys == rows.Keys
  {
    match SoftDeleteField(cfg)
    case Failure(e) => DeleteRun(Failure(e), rows, [CascadeDelete])
    case Success(_) =>
      MatchedKey(rows, key);
      var success := |Matched(rows, KeyIs(key))| > 0;
      DeleteRun(Success(success), Stamp(rows, KeyIs(key), now),
                if success then [CascadeDelete, AfterDelete] else [CascadeDelete])
  }

  /** The decision chain of `_processDelete`, case by case, and what the cases have in common. */
  lemma DeleteChain(cfg: TableConfig, rows: Store, isNew: bool, fields: map<string, Value>,
                checkRules: bool, rulesPass: bool, beforeDelete: EventOutcome, now: int, run: DeleteRun)
    requires run == DeleteSpec(cfg, rows, isNew, fields, checkRules, rulesPass, beforeDelete, now)
    ensures isNew ==> run == DeleteRun(Success(false), rows, [])
    ensures !isNew && !HasAll(fields, cfg.primaryKey) ==> run == DeleteRun(Failure(InvalidArgument), rows, [])
    ensures !isNew && HasAll(fields, cfg.primaryKey) && checkRules && !rulesPass ==>
              run == DeleteRun(Success(false), rows, [RulesChecked])
    ensures !isNew && HasAll(fields, cfg.primaryKey) && (!checkRules || rulesPass) && beforeDelete.Stopped? ==>
              run == DeleteRun(Success(beforeDelete.result), rows, RulesCalls(checkRules) + [BeforeDelete])
    ensures ReachesUpdate(cfg, isNew, fields, checkRules, rulesPass, beforeDelete) && SoftDeleteField(cfg).Failure? ==>
              run == DeleteRun(Failure(SoftDeleteField(cfg).error), rows, RulesCalls(checkRules) + [BeforeDelete, CascadeDelete])
    ensures ReachesUpdate(cfg, isNew, fields, checkRules, rulesPass, beforeDelete) && SoftDeleteField(cfg).Success? ==>
              var key := Extract(fields, cfg.primaryKey);
              && run.result == Success(key in rows)
              && run.rows.Keys == rows.Keys
              && (key in rows ==> run.rows[key] == rows[key].(deleted := Some(now)))
              && (forall k | k in rows && k != key :: run.rows[k] == rows[k])
              && run.calls == RulesCalls(checkRules) + [BeforeDelete, CascadeDelete] + (if key in rows then [AfterDelete] else [])
    ensures CascadeDelete in run.calls <==> ReachesUpdate(cfg, isNew, fields, checkRules, rulesPass, beforeDelete)
    ensures AfterDelete in run.calls <==> CascadeDelete in run.calls && run.result == Success(true)
    ensures run.rows != rows ==> CascadeDelete in run.calls && run.result == Success(true)
  {
    if ReachesUpdate(cfg, isNew, fields, checkRules, rulesPass, beforeDelete) && SoftDeleteField(cfg).Success? {
      MatchedKey(rows, Extract(fields, cfg.primaryKey));
    }
  }

  /**
   * `hardDelete($entity)`: the full `delete($entity)` path first (with
   * CakePHP's default `checkRules` on); only when it returned true, the
   * physical delete of the rows with the entity's primary key, whose
   * success is that some row was removed.
   */
  function HardDeleteSpec(cfg: TableConfig, rows: Store, isNew: bool, fields: map<string, Value>,
                          rulesPass: bool, beforeDelete: EventOutcome, now: int): (run: DeleteRun)
    ensures var soft := DeleteSpec(cfg, rows, isNew, fields, true, rulesPass, beforeDelete, now);
            soft.result != Success(true) ==> run == soft
    ensures var soft := DeleteSpec(cfg, rows, isNew, fields, true, rulesPass, beforeDelete, now);
            soft.result == Success(true) ==>
              var key := Extract(fields, cfg.primaryKey);
              && run.result == Success(key in soft.rows)
              && run.rows.Keys == soft.rows.Keys - {key}
              && (forall k | k in run.rows :: run.rows[k] == soft.rows[k])
              && run.calls == soft.calls
    ensures run.rows.Keys <= rows.Keys
  {
    var soft := DeleteSpec(cfg, rows, isNew, fields, true, rulesPass, beforeDelete, now);
    if soft.result != Success(true) then soft
    else
      var key := Extract(fields, cfg.primaryKey);
      MatchedKey(soft.rows, key);
      var success := |Matched(soft.rows, KeyIs(key))| > 0;
      DeleteRun(Success(success), Purge(soft.rows, KeyIs(key)), soft.calls)
  }

  /** A table with the soft-delete capability, over its in-memory rows. */
  class Table {
    const config: TableConfig
    var rows: Store
    /** The collaborators invoked so far, in order: kept for observation only. */
    ghost var calls: seq<Call>

    constructor (config: TableConfig, rows: Store)
      ensures this.config == config && this.rows == rows && calls == []
    {
      this.config := config;
      this.rows := rows;
      calls := [];
    }

    /** `_processDelete($entity, $options)`, with `$options['checkRules']` as `checkRules`. */
    method ProcessDelete(entity: Entity, checkRules: bool, rulesPass: bool, beforeDelete: EventOutcome, now: int)
      returns (r: Result<bool, Error>)
      modifies this`rows, this`calls
      ensures var run := DeleteSpec(config, old(rows), entity.isNew, entity.fields, checkRules, rulesPass, beforeDelete, now);
              r == run.result && rows == run.rows && calls == old(calls) + run.calls
    {
      ghost var run := DeleteSpec(config, rows, entity.isNew, entity.fields, checkRules, rulesPass, beforeDelete, now);
      if entity.isNew {
        assert run == DeleteRun(Success(false), rows, []);
        return Success(false);
      }
      var primaryKey := config.primaryKey;
      if !HasAll(entity.fields, primaryKey) {
        assert run == DeleteRun(Failure(InvalidArgument), rows, []);
        return Failure(InvalidArgument);
      }
      if checkRules {
        calls := calls + [RulesChecked];
        if !rulesPass {
          assert run == DeleteRun(Success(false), rows, [RulesChecked]);
          return Success(false);
        }
      }
      calls := calls + [BeforeDelete];
      if beforeDelete.Stopped? {
        assert run == DeleteRun(Success(beforeDelete.result), rows, RulesCalls(checkRules) + [BeforeDelete]);
        return Success(beforeDelete.result);
      }
      var key := Extract(entity.fields, primaryKey);
      r := SoftDeleteRow(key, now);
    }

    /** The tail of `_processDelete` after an unstopped `Model.beforeDelete`, for the row with `key`. */
    method SoftDeleteRow(key: Key, now: int) returns (r: Result<bool, Error>)
      modifies this`rows, this`calls
      ensures var run := UpdateSpec(config, old(rows), key, now);
              r == run.result && rows == run.rows && calls == old(calls) + run.calls
    {
      calls := calls + [CascadeDelete];
      var conditions := KeyIs(key);
      var field := SoftDeleteField(config);
      if field.Failure? {
        return Failure(field.error);
      }
      MatchedKey(rows, key);
      var rowCount := |Matched(rows, conditions)|;
      rows := Stamp(rows, conditions, now);
      var success := rowCount > 0;
      if !success {
        return Success(success);
      }
      calls := calls + [AfterDelete];
      return Success(success);
    }

    /** `deleteAll($conditions)`: soft-deletes every matching row and returns how many there were. */
    method DeleteAll(conditions: Condition, now: int) returns (r: Result<nat, Error>)
      modifies this`rows
      ensures SoftDeleteField(config).Failure? ==> r == Failure(SoftDeleteField(config).error) && rows == old(rows)
      ensures SoftDeleteField(config).Success? ==>
                r == Success(|Matched(old(rows), conditions)|) && rows == Stamp(old(rows), conditions, now)
    {
      var field := SoftDeleteField(config);
      if field.Failure? {
        return Failure(field.error);
      }
      var rowCount := |Matched(rows, conditions)|;
      rows := Stamp(rows, conditions, now);
      return Success(rowCount);
    }

    /** `hardDelete($entity)`. */
    method HardDelete(entity: Entity, rulesPass: bool, beforeDelete: EventOutcome, now: int)
      returns (r: Result<bool, Error>)
      modifies this`rows, this`calls
      ensures var run := HardDeleteSpec(config, old(rows), entity.isNew, entity.fields, rulesPass, beforeDelete, now);
              r == run.result && rows == run.rows && calls == old(calls) + run.calls
    {
      var deleted := ProcessDelete(entity, true, rulesPass, beforeDelete, now);
      if deleted.Failure? {
        return Failure(deleted.error);
      }
      if !deleted.value {
        return Success(false);
      }
      var primaryKey := config.primaryKey;
      var conditions := KeyIs(Extract(entity.fields, primaryKey));
      var rowCount := |Matched(rows, conditions)|;
      rows := Purge(rows, conditions);
      var success := rowCount > 0;
      return Success(success);
    }

    /** `hardDeleteAll($until)`: physically removes every row soft-deleted at or before `until`. */
    method HardDeleteAll(until: int) returns (r: Result<nat, Error>)
      modifies this`rows
      ensures SoftDeleteField(config).Failure? ==> r == Failure(SoftDeleteField(config).error) && rows == old(rows)
      ensures SoftDeleteField(config).Success? ==>
                r == Success(|Matched(old(rows), DeletedBy(until))|) && rows == Purge(old(rows), DeletedBy(until))
      ensures r.Success? ==> |rows| + r.value == |old(rows)|
    {
      var field := SoftDeleteField(config);
      if field.Failure? {
        return Failure(field.error);
      }
      var conditions := DeletedBy(until);
      var rowCount := |Matched(rows, conditions)|;
      PurgeCount(rows, conditions);
      rows := Purge(rows, conditions);
      return Success(rowCount);
    }

    /**
     * `restore($entity)`: clears the entity's soft-delete field and returns
     * what `save` returns (`saveOk`). A successful save of a persisted
     * entity that carries its primary key writes the cleared column to its
     * row.
     */
    method Restore(entity: Entity, saveOk: bool) returns (r: Result<bool, Error>)
      modifies entity`fields, this`rows, this`calls
      ensures SoftDeleteField(config).Failure? ==>
                && r == Failure(SoftDeleteField(config).error)
                && entity.fields == old(entity.fields) && rows == old(rows) && calls == old(calls)
      ensures SoftDeleteField(config).Success? ==>
                && r == Success(saveOk)
                && entity.fields == old(entity.fields)[SoftDeleteField(config).value := Null]
                && calls == old(calls) + [Saved]
                && rows == if saveOk && !entity.isNew && HasAll(entity.fields, config.primaryKey)
                           then Revive(old(rows), Extract(entity.fields, config.primaryKey))
                           else old(rows)
    {
      var field := SoftDeleteField(config);
      if field.Failure? {
        return Failure(field.error);
      }
      entity.fields := entity.fields[field.value := Null];
      calls := calls + [Saved];
      if saveOk && !entity.isNew && HasAll(entity.fields, config.primaryKey) {
        rows := Revive(rows, Extract(entity.fields, config.primaryKey));
      }
      return Success(saveOk);
    }
  }
}

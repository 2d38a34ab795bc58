/**
 * The life of one row under the soft-delete capability: Active (the column is
 * NULL) to SoftDeleted (the column holds the deletion time), then back to
 * Active by `restore` or on to Purged (the row is gone) by `hardDelete` or
 * `hardDeleteAll`. The lemmas relate each operation to that lifecycle and to
 * what a default select (one filtered by `<field> IS NULL`) returns.
 */
module SoftDeleteLifecycle {
  import opened Wrappers
  import opened SoftDeleteStore
  import opened SoftDeleteTrait

  datatype RowState = Active | SoftDeleted(at: int) | Purged

  /** The state of the row stored under `key`. */
  function StateOf(rows: Store, key: Key): (r: RowState)
    ensures r == Purged <==> key !in rows
    ensures r == Active <==> key in Visible(rows)
  {
    if key !in rows then Purged
    else match rows[key].deleted
      case None => Active
      case Some(t) => SoftDeleted(t)
  }

  /** Soft-deleting by conditions: matched rows become SoftDeleted(now), whatever they were; nothing is revived or removed. */
  lemma StampLifecycle(rows: Store, cond: Condition, now: int, key: Key)
    ensures key in rows && cond(key, rows[key]) ==> StateOf(Stamp(rows, cond, now), key) == SoftDeleted(now)
    ensures !(key in rows && cond(key, rows[key])) ==> StateOf(Stamp(rows, cond, now), key) == StateOf(rows, key)
  {
  }

  /** `deleteAll`: a default select afterwards returns the rows it returned before, minus the matched ones. */
  lemma DeleteAllHides(rows: Store, cond: Condition, now: int)
    ensures Visible(Stamp(rows, cond, now)) == Visible(rows) - Matched(rows, cond)
  {
  }

  /** `deleteAll` matching no row returns 0 and leaves every row as it was. */
  lemma DeleteAllNoMatch(rows: Store, cond: Condition, now: int)
    requires Matched(rows, cond) == {}
    ensures |Matched(rows, cond)| == 0 && Stamp(rows, cond, now) == rows
  {
    var after := Stamp(rows, cond, now);
    forall k | k in rows ensures after[k] == rows[k] {
      assert k !in Matched(rows, cond);
    }
  }

  /** `hardDeleteAll(until)` keeps exactly the active rows and the rows soft-deleted after `until`. */
  lemma HardDeleteAllSurvivors(rows: Store, until: int, key: Key)
    ensures key in Purge(rows, DeletedBy(until)) <==>
              StateOf(rows, key) == Active || (StateOf(rows, key).SoftDeleted? && StateOf(rows, key).at > until)
  {
  }

  /** `hardDeleteAll` never changes what a default select returns. */
  lemma HardDeleteAllKeepsVisible(rows: Store, until: int)
    ensures Visible(Purge(rows, DeletedBy(until))) == Visible(rows)
  {
  }

  /** `restore` undoes a soft delete: reviving the stamped row gives back the rows as an earlier revive would have left them. */
  lemma RestoreUndoesSoftDelete(rows: Store, key: Key, now: int)
    ensures Revive(Stamp(rows, KeyIs(key), now), key) == Revive(rows, key)
  {
  }

  /** On an active row, soft delete followed by restore gives back exactly the rows there were. */
  lemma RestoreRoundTrip(rows: Store, key: Key, now: int)
    requires StateOf(rows, key) == Active
    ensures Revive(Stamp(rows, KeyIs(key), now), key) == rows
  {
  }

  /** A restored row is Active and a default select returns it again. */
  lemma RestoreShows(rows: Store, key: Key)
    requires key in rows
    ensures StateOf(Revive(rows, key), key) == Active && key in Visible(Revive(rows, key))
  {
  }

  /**
   * The soft-delete path of `delete($entity)` on a stored row: it succeeds,
   * the row becomes SoftDeleted(now), a default select no longer returns it,
   * and every other row is as it was.
   */
  lemma SoftDeleteHides(cfg: TableConfig, rows: Store, fields: map<string, Value>,
                        checkRules: bool, rulesPass: bool, now: int)
    requires ReachesUpdate(cfg, false, fields, checkRules, rulesPass, Continue)
    requires SoftDeleteField(cfg).Success? && Extract(fields, cfg.primaryKey) in rows
    ensures var run := DeleteSpec(cfg, rows, false, fields, checkRules, rulesPass, Continue, now);
            var key := Extract(fields, cfg.primaryKey);
            && run.result == Success(true)
            && StateOf(run.rows, key) == SoftDeleted(now)
            && Visible(run.rows) == Visible(rows) - {key}
            && (forall k | k != key :: StateOf(run.rows, k) == StateOf(rows, k))
  {
    var run := DeleteSpec(cfg, rows, false, fields, checkRules, rulesPass, Continue, now);
    DeleteChain(cfg, rows, false, fields, checkRules, rulesPass, Continue, now, run);
  }

  /**
   * `hardDelete` of a stored row whose delete goes through: the row is
   * Purged, a default select and a select with `withDeleted` both miss it,
   * and every other row is as it was.
   */
  lemma HardDeleteRemoves(cfg: TableConfig, rows: Store, fields: map<string, Value>, now: int)
    requires ReachesUpdate(cfg, false, fields, true, true, Continue)
    requires SoftDeleteField(cfg).Success? && Extract(fields, cfg.primaryKey) in rows
    ensures var run := HardDeleteSpec(cfg, rows, false, fields, true, Continue, now);
            var key := Extract(fields, cfg.primaryKey);
            && run.result == Success(true)
            && StateOf(run.rows, key) == Purged
            && run.calls == [RulesChecked, BeforeDelete, CascadeDelete, AfterDelete]
            && (forall k | k != key :: StateOf(run.rows, k) == StateOf(rows, k))
  {
    var run := DeleteSpec(cfg, rows, false, fields, true, true, Continue, now);
    DeleteChain(cfg, rows, false, fields, true, true, Continue, now, run);
  }

  /**
   * A `Model.beforeDelete` listener that stops the event with result true
   * makes `delete` report success without stamping or cascading; `hardDelete`
   * then removes the row anyway, so an Active row goes straight to Purged.
   */
  lemma HardDeleteAfterStoppedEvent(cfg: TableConfig, rows: Store, fields: map<string, Value>, now: int)
    requires HasAll(fields, cfg.primaryKey) && StateOf(rows, Extract(fields, cfg.primaryKey)) == Active
    ensures var run := HardDeleteSpec(cfg, rows, false, fields, true, Stopped(true), now);
            && run.result == Success(true)
            && StateOf(run.rows, Extract(fields, cfg.primaryKey)) == Purged
            && CascadeDelete !in run.calls && AfterDelete !in run.calls
  {
  }

  /** Purged is final: no operation brings back a row that is not stored. */
  lemma PurgedIsFinal(cfg: TableConfig, rows: Store, key: Key, cond: Condition, until: int, now: int,
                      isNew: bool, fields: map<string, Value>, checkRules: bool, rulesPass: bool,
                      beforeDelete: EventOutcome, other: Key)
    requires StateOf(rows, key) == Purged
    ensures StateOf(Stamp(rows, cond, now), key) == Purged
    ensures StateOf(Purge(rows, cond), key) == Purged
    ensures StateOf(Revive(rows, other), key) == Purged
    ensures StateOf(DeleteSpec(cfg, rows, isNew, fields, checkRules, rulesPass, beforeDelete, now).rows, key) == Purged
    ensures StateOf(HardDeleteSpec(cfg, rows, isNew, fields, rulesPass, beforeDelete, now).rows, key) == Purged
  {
  }
}

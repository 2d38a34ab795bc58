# Soft delete for CakePHP tables — a Dafny model

The plugin gives a CakePHP table "soft delete": deleting an entity does not
remove its row but stamps a nullable timestamp column (`deleted` unless the
table sets `softDeleteField`), and every select query on the table is
rewritten, just before it runs, to AND the condition `<Alias>.<field> IS NULL`
onto its filter unless the query's options ask for `withDeleted`.

The model has two halves.

- **The table capability** (`SoftDeleteTrait`). The table's rows are an
  in-memory map from primary-key values to rows, each row carrying its
  soft-delete timestamp (`SoftDeleteStore`). An update or delete statement is
  its effect on that map (`Stamp`, `Purge`) and its `rowCount()` is the number
  of rows it matched. The class `Table` has one method per operation of the
  trait (`ProcessDelete`, `DeleteAll`, `HardDelete`, `HardDeleteAll`,
  `Restore`) with the same early returns as the PHP; the stretch of
  `_processDelete` from the cascade on is its own method, `SoftDeleteRow`.
  Each method is proved against a specification function (`DeleteSpec`,
  `UpdateSpec`, `HardDeleteSpec`) or a statement function; `DeleteChain`
  states `DeleteSpec` case by case. The collaborators the trait calls are parameters: the
  rules check, the outcome of `Model.beforeDelete` (`Continue` or
  `Stopped(result)`) and the result of `save`. A ghost `calls` log records
  which collaborators were invoked, in order. `SoftDeleteLifecycle` puts each
  operation in terms of a row's life: Active, SoftDeleted(at), then Active
  again or Purged.
- **The read-query interceptor**. Both query classes (`SelectQuery` and the
  legacy `Query`) are classes over the part of a query that the hook touches:
  type, option bag, filter, `_beforeFindFired` flag and a log of hook steps.
  Their `TriggerBeforeFind` is proved equal to one shared function,
  `OrmQuery.Intercept`. That function takes as a parameter each override's own
  test of the options (`WithDeletedRequested`). `PhpArray` models the two PHP
  builtins those tests use: strict `in_array` and `array_key_exists`.

Timestamps are integers and "now" is a parameter. The base-class hook
`parent::triggerBeforeFind()` is reduced to setting the once-only flag.
CakePHP's `Table.php` is not among the modelled sources; its `aliasField`
is modelled by its rule: a field containing a dot is kept, any other gets
the alias and a dot prefixed.

Three behaviours of the code are worth stating on their own:

- `src/ORM/SelectQuery.php:24` accepts `withDeleted` as a strict value or as
  a key of the options; `src/ORM/Query.php:23` accepts only the strict value
  (`KeyOnlyOptionsDiffer`).
- A `Model.beforeDelete` listener that stops the event with result true makes
  `delete` return true with no stamp and no cascade, and `hardDelete` then
  removes the still-active row (`HardDeleteAfterStoppedEvent`).
- In `_processDelete` the soft-delete column is resolved only after
  `Model.beforeDelete` and the cascade. A missing column is therefore raised
  after both have run.

## Model

| member | source | states |
|---|---|---|
| `PhpArray.InArrayStrict` | src/ORM/SelectQuery.php:24 | strict `in_array` is true exactly when some entry's value is identical to the needle |
| `PhpArray.ArrayKeyExists` | src/ORM/SelectQuery.php:24 | `array_key_exists` is true exactly when some entry has the key, whatever its value |
| `SoftDeleteStore.Matched` | src/Model/Table/SoftDeleteTrait.php:108 | a statement affects exactly the stored rows its condition accepts; the same set gives the row count at lines 136, 154 and 176 |
| `SoftDeleteStore.KeyIs` | src/Model/Table/SoftDeleteTrait.php:102-105 | the conditions built from an entity's primary-key values accept a row exactly when its key is that entity's key, whatever the row holds (also at lines 150-151) |
| `SoftDeleteStore.DeletedBy` | src/Model/Table/SoftDeleteTrait.php:170-173 | `<field> IS NOT NULL AND <field> <= until` never accepts an active row and accepts a soft-deleted row exactly when it was deleted at or before `until` |
| `SoftDeleteStore.Stamp` | src/Model/Table/SoftDeleteTrait.php:130-134 | the update sets the field to `now` on exactly the matching rows, including rows already soft-deleted; every other row, every other column and the set of rows stay as they were |
| `SoftDeleteStore.Purge` | src/Model/Table/SoftDeleteTrait.php:169-174 | the delete removes exactly the matching rows and keeps every other row unchanged |
| `SoftDeleteStore.PurgeCount` | src/Model/Table/SoftDeleteTrait.php:174-176 | the delete's row count plus the rows it leaves equal the rows there were |
| `SoftDeleteStore.Revive` | src/Model/Table/SoftDeleteTrait.php:187-188 | persisting the cleared field sets the entity's row to NULL in that column and changes no other row |
| `SoftDeleteStore.Visible` | src/ORM/SelectQuery.php:28 | the `IS NULL` condition admits exactly the stored rows whose soft-delete column is NULL |
| `SoftDeleteStore.MatchedKey` | src/Model/Table/SoftDeleteTrait.php:102-108 | conditions built from one primary key match that row if it is stored and none otherwise, so the row count is positive iff the row exists |
| `SoftDeleteTrait.ConfiguredField` | src/Model/Table/SoftDeleteTrait.php:22-26 | the requested column is the table's `softDeleteField` when it is set and `'deleted'` otherwise |
| `SoftDeleteTrait.SoftDeleteField` | src/Model/Table/SoftDeleteTrait.php:20-39 | resolves to `softDeleteField` when set and to `'deleted'` otherwise; succeeds exactly when that name is a schema column (so any returned name is a column) and otherwise fails with `MissingColumn` naming the field and the table |
| `SoftDeleteTrait.HasAll` | src/Model/Table/SoftDeleteTrait.php:75 | `has($primaryKey)` holds exactly when every primary-key column is set on the entity to a non-null value |
| `SoftDeleteTrait.Extract` | src/Model/Table/SoftDeleteTrait.php:102 | the key has one non-null value per primary-key column, in order, taken from the entity |
| `SoftDeleteTrait.DeleteSpec` | src/Model/Table/SoftDeleteTrait.php:68-122 | `_processDelete` never adds or removes a stored row, and it returns true only for a persisted entity carrying all its primary-key values |
| `SoftDeleteTrait.UpdateSpec` | src/Model/Table/SoftDeleteTrait.php:95-121 | the cascade, update and `afterDelete` step never adds or removes a stored row |
| `SoftDeleteTrait.DeleteChain` | src/Model/Table/SoftDeleteTrait.php:68-122 | new entity: false, no call. Missing primary-key value: `InvalidArgument`. Failing rules: false, only the rule check. Stopped `beforeDelete`: the event's result, no cascade. Otherwise cascade and then resolve the field: a missing column throws, or only the entity's row is stamped, the result is true iff that row exists, and `afterDelete` is dispatched iff the result is true. The cascade happens iff the checks and the event let the delete through, and the store changes only on a true result of that path |
| `SoftDeleteTrait.HardDeleteSpec` | src/Model/Table/SoftDeleteTrait.php:143-160 | if `delete` returns false or throws, that is the whole outcome and nothing is removed; otherwise exactly the entity's row is removed and the result is true iff it was there |
| `SoftDeleteTrait.Table.ProcessDelete` | src/Model/Table/SoftDeleteTrait.php:68-122 | return value, rows and calls made are those of `DeleteSpec` |
| `SoftDeleteTrait.Table.SoftDeleteRow` | src/Model/Table/SoftDeleteTrait.php:95-121 | return value, rows and calls made by the part of `_processDelete` after an unstopped `beforeDelete` are those of `UpdateSpec` |
| `SoftDeleteTrait.Table.DeleteAll` | src/Model/Table/SoftDeleteTrait.php:128-137 | with a missing column it throws and changes nothing; otherwise it stamps the matching rows and returns their number, 0 included |
| `SoftDeleteTrait.Table.HardDelete` | src/Model/Table/SoftDeleteTrait.php:143-160 | return value, rows and calls made are those of `HardDeleteSpec`, with `delete` running the soft-delete path with rules checked |
| `SoftDeleteTrait.Table.HardDeleteAll` | src/Model/Table/SoftDeleteTrait.php:167-177 | with a missing column it throws and changes nothing; otherwise it removes the rows soft-deleted at or before `until` and returns their number, which is how many rows the table lost |
| `SoftDeleteTrait.Table.Restore` | src/Model/Table/SoftDeleteTrait.php:184-189 | with a missing column it throws before touching the entity; otherwise the entity's field becomes null, `save` is called, its result is returned unchanged, and only a successful save of a persisted, fully keyed entity clears its row |
| `SoftDeleteLifecycle.StateOf` | src/Model/Table/SoftDeleteTrait.php:101-189 | a row is Purged exactly when it is not stored, and Active exactly when a default select returns it |
| `SoftDeleteLifecycle.StampLifecycle` | src/Model/Table/SoftDeleteTrait.php:128-137 | a soft delete by conditions moves every matched row, active or already deleted, to SoftDeleted(now) and leaves the state of every other row as it was |
| `SoftDeleteLifecycle.DeleteAllHides` | src/Model/Table/SoftDeleteTrait.php:128-137 | after `deleteAll`, a default select returns what it returned before minus the matched rows |
| `SoftDeleteLifecycle.DeleteAllNoMatch` | src/Model/Table/SoftDeleteTrait.php:134-136 | a `deleteAll` that matches nothing returns 0 and leaves the rows unchanged |
| `SoftDeleteLifecycle.HardDeleteAllSurvivors` | src/Model/Table/SoftDeleteTrait.php:167-177 | a row survives `hardDeleteAll(until)` iff it is active or was soft-deleted after `until` |
| `SoftDeleteLifecycle.HardDeleteAllKeepsVisible` | src/Model/Table/SoftDeleteTrait.php:169-173 | `hardDeleteAll` never changes what a default select returns |
| `SoftDeleteLifecycle.RestoreUndoesSoftDelete` | src/Model/Table/SoftDeleteTrait.php:184-189 | restoring a row after soft-deleting it gives the same rows as restoring it without the soft delete |
| `SoftDeleteLifecycle.RestoreRoundTrip` | src/Model/Table/SoftDeleteTrait.php:184-189 | soft delete then restore of an active row gives back exactly the original rows |
| `SoftDeleteLifecycle.RestoreShows` | src/Model/Table/SoftDeleteTrait.php:187-188 | a restored row is active and a default select returns it again |
| `SoftDeleteLifecycle.SoftDeleteHides` | src/Model/Table/SoftDeleteTrait.php:101-121 | deleting a stored entity whose delete is not vetoed returns true and makes its row SoftDeleted(now); a default select then misses exactly that row, and every other row keeps its state |
| `SoftDeleteLifecycle.HardDeleteRemoves` | src/Model/Table/SoftDeleteTrait.php:143-160 | a hard delete of a stored entity whose delete goes through returns true and makes its row Purged with the full call sequence rules, before, cascade, after; every other row keeps its state |
| `SoftDeleteLifecycle.HardDeleteAfterStoppedEvent` | src/Model/Table/SoftDeleteTrait.php:143-160 | a `beforeDelete` stopped with true makes `hardDelete` remove an active row with no cascade and no `afterDelete` |
| `SoftDeleteLifecycle.PurgedIsFinal` | src/Model/Table/SoftDeleteTrait.php:101-189 | no operation brings back a row that is not stored |
| `OrmQuery.AliasField` | src/ORM/SelectQuery.php:26 | a field already holding a dot is kept; any other becomes alias, dot, field; the result always holds a dot (also `src/ORM/Query.php:25`) |
| `OrmQuery.IsNullCondition` | src/ORM/SelectQuery.php:26-28 | the exclusion is the aliased field followed by ` IS NULL` (also `src/ORM/Query.php:25-27`) |
| `OrmQuery.Intercept` | src/ORM/SelectQuery.php:17-31 | a fired or non-select query is unchanged. On a first select trigger the parent hook runs first and sets the flag. With `withDeleted`, nothing is added. A missing column throws and adds nothing. Otherwise exactly `<Alias>.<field> IS NULL` is appended after the existing conditions |
| `OrmQuery.SecondTriggerIsNoOp` | src/ORM/SelectQuery.php:19-20 | a second trigger changes nothing and returns normally |
| `OrmQuery.InterceptedOnce` | src/ORM/SelectQuery.php:19-20 | any positive number of triggers leaves the query as the first one did, with at most one condition added |
| `SoftDeleteSelectQuery.WithDeletedRequested` | src/ORM/SelectQuery.php:22-24 | suppression holds iff the options are an array holding `'withDeleted'` as a strict value or as a key |
| `SoftDeleteSelectQuery.SelectQuery.ParentTriggerBeforeFind` | src/ORM/SelectQuery.php:20 | the parent hook sets the fired flag and is logged |
| `SoftDeleteSelectQuery.SelectQuery.AndWhere` | src/ORM/SelectQuery.php:28 | the condition is appended to the filter and logged |
| `SoftDeleteSelectQuery.SelectQuery.TriggerBeforeFind` | src/ORM/SelectQuery.php:17-31 | the new query state and the outcome are those of `Intercept` with this class's option test |
| `SoftDeleteSelectQuery.SelectQueryOf` | src/Model/Table/SoftDeleteTrait.php:41-44 | the factory returns a fresh select query with empty options, bound to the table, not yet fired |
| `SoftDeleteSelectQuery.TriggerTwice` | src/ORM/SelectQuery.php:19-20 | two triggers in a row leave the query as the first one left it, add at most one condition, and the second returns normally |
| `SoftDeleteSelectQuery.ExclusionAddedIff` | src/ORM/SelectQuery.php:22-28 | on a first select trigger with the column present, a condition is added iff the options are not an array or hold `withDeleted` neither as value nor as key |
| `SoftDeleteSelectQuery.KeySuppressesWhateverValue` | src/ORM/SelectQuery.php:24 | a `withDeleted` key with any value, false or null included, suppresses the condition |
| `SoftDeleteSelectQuery.ListValueSuppresses` | src/ORM/SelectQuery.php:24 | a list holding `'withDeleted'` at any position, `['withDeleted']` included, suppresses the condition |
| `SoftDeleteLegacyQuery.WithDeletedRequested` | src/ORM/Query.php:21-23 | suppression holds iff the options are an array holding `'withDeleted'` as a strict value |
| `SoftDeleteLegacyQuery.Query.ParentTriggerBeforeFind` | src/ORM/Query.php:19 | the parent hook sets the fired flag and is logged |
| `SoftDeleteLegacyQuery.Query.AndWhere` | src/ORM/Query.php:27 | the condition is appended to the filter and logged |
| `SoftDeleteLegacyQuery.Query.TriggerBeforeFind` | src/ORM/Query.php:16-30 | the new query state and the outcome are those of `Intercept` with the legacy option test |
| `SoftDeleteLegacyQuery.ExclusionAddedIff` | src/ORM/Query.php:21-27 | on a first select trigger with the column present, a condition is added iff the options are not an array or lack `withDeleted` as a strict value |
| `SoftDeleteLegacyQuery.LegacySuppressionImpliesCurrent` | src/ORM/Query.php:23 | whenever the legacy query suppresses the condition, the current one does too |
| `SoftDeleteLegacyQuery.AgreeOnLists` | src/ORM/Query.php:23 | on list-shaped options the two option tests agree |
| `SoftDeleteLegacyQuery.KeyOnlyOptionsDiffer` | src/ORM/Query.php:23 | with `['withDeleted' => true]` the current query adds nothing while the legacy one adds the `IS NULL` condition |

## Left out

- SQL generation, the query builders, connections and statement execution: a statement is its effect on the in-memory rows, and `rowCount()` is the number of rows it matched.
- `updateQuery()` and `deleteQuery()`: these build CakePHP's own update and delete queries, which the plugin does not intercept. They are modelled only by the statements built from them (`Stamp`, `Purge`).
- `rowCount()` of an update counts matched rows. Some drivers count only rows whose value changed, which differs when a row already holds the same timestamp. That is not modelled.
- The rules checker, event dispatch, the association cascade and `save` are collaborators. Their outcomes are parameters and the `calls` log records that they were invoked. What the cascade does to other tables is not modelled.
- `save`: only its effect of clearing the restored row's column is modelled. Validation, save hooks, inserting a new entity and writing other changed fields are not.
- `Table::delete`: only its call of `_processDelete` with CakePHP's default options (rules checked) is modelled. Its transaction and its `Model.afterDeleteCommit` event are not.
- `SoftDeleteTrait.DeleteSpec`: the `Model.beforeDelete` result is taken as a boolean. `_processDelete` is declared `: bool` without strict types and returns `$event->getResult()` uncast, so an int or string result is coerced to a boolean, while a null, array or object result (a listener that stops the event without setting a result included) makes `_processDelete`, and with it `delete` and `hardDelete`, throw a `TypeError`. Neither case is modelled.
- `SoftDeleteTrait.Table.Restore`: `save` returns the entity or false; the model takes that result as a boolean. The exception `save` throws when a persisted entity lacks primary-key values is not modelled: in the model that case returns `saveOk` and leaves the rows unchanged.
- `date('Y-m-d H:i:s')`, `DateTime::format` and string comparison of timestamps: timestamps are integers and "now" is a parameter.
- Exception messages: only which exception is thrown is modelled.
- `parent::triggerBeforeFind()` is reduced to setting `_beforeFindFired`. `Model.beforeFind` listeners that change the query or its options are not modelled.
- Tables without a primary key: there, `where([])` matches every row, but in the model's keyed store the empty key designates at most one row.
- Concurrency, and the atomicity of the two statements of `hardDelete`: neither is implemented by the source, and neither is modelled.

/**
 * The current select query of the plugin: its `triggerBeforeFind()` adds the
 * soft-delete exclusion unless `withDeleted` is in the options, either as a
 * value (`['withDeleted']`) or as a key (`['withDeleted' => ...]`).
 */
module SoftDeleteSelectQuery {
  import opened Wrappers
  import opened PhpArray
  import opened SoftDeleteTrait
  import opened OrmQuery

  /** The option test of this override: an array holding `'withDeleted'` as a strict value or as a key. */
  function WithDeletedRequested(options: PhpValue): (r: bool)
    ensures r <==> options.Array? &&
                   ((exists i :: 0 <= i < |options.entries| && options.entries[i].value == Str(WithDeletedOption)) ||
                    (exists i :: 0 <= i < |options.entries| && options.entries[i].key == StrKey(WithDeletedOption)))
  {
    options.Array? &&
    (InArrayStrict(Str(WithDeletedOption), options.entries) || ArrayKeyExists(StrKey(WithDeletedOption), options.entries))
  }

  class SelectQuery {
    const repository: Table
    var kind: QueryKind
    var options: PhpValue
    var filter: seq<string>
    var beforeFindFired: bool
    var hooks: seq<Hook>

    function State(): QueryState
      reads this
    {
      QueryState(kind, options, filter, beforeFindFired, hooks)
    }

    constructor (repository: Table, kind: QueryKind, options: PhpValue)
      ensures this.repository == repository && State() == QueryState(kind, options, [], false, [])
    {
      this.repository := repository;
      this.kind := kind;
      this.options := options;
      filter := [];
      beforeFindFired := false;
      hooks := [];
    }

    /** The parent class's `triggerBeforeFind()`. */
    method ParentTriggerBeforeFind()
      modifies this
      ensures State() == ParentTrigger(old(State()))
    {
      beforeFindFired := true;
      hooks := hooks + [ParentBeforeFind];
    }

    /** The parent class's `andWhere($condition)`. */
    method AndWhere(condition: string)
      modifies this
      ensures State() == AndWhereOf(old(State()), condition)
    {
      filter := filter + [condition];
      hooks := hooks + [Hook.AndWhere(condition)];
    }

    method TriggerBeforeFind() returns (outcome: Outcome<Error>)
      modifies this
      ensures Triggered(State(), outcome) == Intercept(old(State()), repository.config, WithDeletedRequested(old(options)))
    {
      if !beforeFindFired && kind == Select {
        ParentTriggerBeforeFind();
        var opts := options;
        if !opts.Array? ||
           (!InArrayStrict(Str(WithDeletedOption), opts.entries) && !ArrayKeyExists(StrKey(WithDeletedOption), opts.entries)) {
          var field := SoftDeleteField(repository.config);
          if field.Failure? {
            return Fail(field.error);
          }
          var aliasedField := AliasField(repository.config.alias, field.value);
          AndWhere(aliasedField + " IS NULL");
        }
      }
      return Pass;
    }
  }

  /** `selectQuery()` of the table: a fresh select query with an empty option bag, bound to the table. */
  method SelectQueryOf(table: Table) returns (q: SelectQuery)
    ensures fresh(q) && q.repository == table
    ensures q.State() == QueryState(Select, Array([]), [], false, [])
  {
    q := new SelectQuery(table, Select, Array([]));
  }

  /** A caller that triggers a query twice sees at most one condition added and the second trigger change nothing. */
  method TriggerTwice(q: SelectQuery) returns (first: Outcome<Error>, second: Outcome<Error>)
    modifies q
    ensures q.State() == Intercept(old(q.State()), q.repository.config, WithDeletedRequested(old(q.options))).query
    ensures second == Pass
    ensures |old(q.filter)| <= |q.filter| <= |old(q.filter)| + 1
  {
    first := q.TriggerBeforeFind();
    second := q.TriggerBeforeFind();
    SecondTriggerIsNoOp(old(q.State()), q.repository.config, WithDeletedRequested(old(q.options)));
  }

  /**
   * On a first trigger of a select whose table has its soft-delete column,
   * the exclusion is added exactly when the options are not an array or
   * hold `withDeleted` neither as a value nor as a key.
   */
  lemma ExclusionAddedIff(q: QueryState, cfg: TableConfig)
    requires !q.beforeFindFired && q.kind == Select && SoftDeleteField(cfg).Success?
    ensures var after := Intercept(q, cfg, WithDeletedRequested(q.options)).query;
            |after.filter| == |q.filter| + 1 <==>
              !q.options.Array? ||
              (!InArrayStrict(Str(WithDeletedOption), q.options.entries) &&
               !ArrayKeyExists(StrKey(WithDeletedOption), q.options.entries))
  {
  }

  /** `withDeleted` as a key suppresses the exclusion whatever its value, false and null included. */
  lemma KeySuppressesWhateverValue(q: QueryState, cfg: TableConfig, before: seq<Entry>, value: Mixed, after: seq<Entry>)
    requires !q.beforeFindFired && q.kind == Select
    requires q.options == Array(before + [Entry(StrKey(WithDeletedOption), value)] + after)
    ensures Intercept(q, cfg, WithDeletedRequested(q.options)).query.filter == q.filter
  {
    assert q.options.entries[|before|].key == StrKey(WithDeletedOption);
  }

  /** A list holding `'withDeleted'` anywhere, such as `['withDeleted']`, suppresses it too. */
  lemma ListValueSuppresses(q: QueryState, cfg: TableConfig, values: seq<Mixed>)
    requires q.options == Array(List(values)) && Str(WithDeletedOption) in values
    ensures Intercept(q, cfg, WithDeletedRequested(q.options)).query.filter == q.filter
  {
    var i :| 0 <= i < |values| && values[i] == Str(WithDeletedOption);
    assert q.options.entries[i].value == Str(WithDeletedOption);
  }
}

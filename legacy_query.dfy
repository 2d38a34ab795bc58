/**
 * The legacy query of the plugin: the same override of `triggerBeforeFind()`,
 * except that only `'withDeleted'` as a strict value of the option bag turns
 * the exclusion off; `['withDeleted' => true]` does not.
 */
module SoftDeleteLegacyQuery {
  import opened Wrappers
  import opened PhpArray
  import opened SoftDeleteTrait
  import opened OrmQuery
  import SoftDeleteSelectQuery

  /** The option test of this override: an array holding `'withDeleted'` as a strict value. */
  function WithDeletedRequested(options: PhpValue): (r: bool)
    ensures r <==> options.Array? &&
                   exists i :: 0 <= i < |options.entries| && options.entries[i].value == Str(WithDeletedOption)
  {
    options.Array? && InArrayStrict(Str(WithDeletedOption), options.entries)
  }

  class Query {
    const repository: Table
    var kind: QueryKind
    var options: PhpValue
    var filter: seq<string>
    var beforeFindFired: bool
    var hooks: seq<Hook>

    function State(): QueryState
      reads this
    {
      QueryState(kind, options, filter, beforeFindFired, hooks)
    }

    constructor (repository: Table, kind: QueryKind, options: PhpValue)
      ensures this.repository == repository && State() == QueryState(kind, options, [], false, [])
    {
      this.repository := repository;
      this.kind := kind;
      this.options := options;
      filter := [];
      beforeFindFired := false;
      hooks := [];
    }

    /** The parent class's `triggerBeforeFind()`. */
    method ParentTriggerBeforeFind()
      modifies this
      ensures State() == ParentTrigger(old(State()))
    {
      beforeFindFired := true;
      hooks := hooks + [ParentBeforeFind];
    }

    /** The parent class's `andWhere($condition)`. */
    method AndWhere(condition: string)
      modifies this
      ensures State() == AndWhereOf(old(State()), condition)
    {
      filter := filter + [condition];
      hooks := hooks + [Hook.AndWhere(condition)];
    }

    method TriggerBeforeFind() returns (outcome: Outcome<Error>)
      modifies this
      ensures Triggered(State(), outcome) == Intercept(old(State()), repository.config, WithDeletedRequested(old(options)))
    {
      if !beforeFindFired && kind == Select {
        ParentTriggerBeforeFind();
        var opts := options;
        if !opts.Array? || !InArrayStrict(Str(WithDeletedOption), opts.entries) {
          var field := SoftDeleteField(repository.config);
          if field.Failure? {
            return Fail(field.error);
          }
          var aliasedField := AliasField(repository.config.alias, field.value);
          AndWhere(aliasedField + " IS NULL");
        }
      }
      return Pass;
    }
  }

  /**
   * On a first trigger of a select whose table has its soft-delete column,
   * the exclusion is added exactly when the options are not an array or do
   * not hold `withDeleted` as a strict value.
   */
  lemma ExclusionAddedIff(q: QueryState, cfg: TableConfig)
    requires !q.beforeFindFired && q.kind == Select && SoftDeleteField(cfg).Success?
    ensures var after := Intercept(q, cfg, WithDeletedRequested(q.options)).query;
            |after.filter| == |q.filter| + 1 <==>
              !q.options.Array? || !InArrayStrict(Str(WithDeletedOption), q.options.entries)
  {
  }

  /** Whatever the legacy query lets through, the current one lets through too: its option test accepts more. */
  lemma LegacySuppressionImpliesCurrent(options: PhpValue)
    ensures WithDeletedRequested(options) ==> SoftDeleteSelectQuery.WithDeletedRequested(options)
  {
  }

  /** On list-shaped options the two queries agree. */
  lemma AgreeOnLists(values: seq<Mixed>)
    ensures WithDeletedRequested(Array(List(values))) == SoftDeleteSelectQuery.WithDeletedRequested(Array(List(values)))
  {
  }

  /**
   * `['withDeleted' => true]`: the current query leaves the filter alone,
   * the legacy query still adds the exclusion.
   */
  lemma KeyOnlyOptionsDiffer(q: QueryState, cfg: TableConfig)
    requires !q.beforeFindFired && q.kind == Select && SoftDeleteField(cfg).Success?
    requires q.options == Array([Entry(StrKey(WithDeletedOption), Bool(true))])
    ensures Intercept(q, cfg, SoftDeleteSelectQuery.WithDeletedRequested(q.options)).query.filter == q.filter
    ensures Intercept(q, cfg, WithDeletedRequested(q.options)).query.filter ==
              q.filter + [IsNullCondition(cfg.alias, SoftDeleteField(cfg).value)]
  {
  }
}

/**
 * What the two query overrides share: the state of a query that the
 * pre-execution hook reads and writes, the base query's own hook (reduced to
 * the once-only flag it sets), the table's `aliasField`, and the
 * interception itself, parameterised by each override's own reading of the
 * `withDeleted` option.
 */
module OrmQuery {
  import opened Wrappers
  import opened PhpArray
  import opened SoftDeleteTrait

  /** The query option that turns interception off. */
  const WithDeletedOption: string := "withDeleted"

  /** The query's `_type`. */
  datatype QueryKind = Select | Insert | Update | Delete

  /** What the hook does to the query, in order: the parent hook runs, a condition is AND-ed to the filter. */
  datatype Hook = ParentBeforeFind | AndWhere(condition: string)

  /**
   * The part of a query the hook touches: its type, its option bag, its
   * filter (a list of conditions combined with AND), the
   * `_beforeFindFired` flag and the log of hook steps.
   */
  datatype QueryState = QueryState(kind: QueryKind, options: PhpValue, filter: seq<string>,
                                   beforeFindFired: bool, hooks: seq<Hook>)

  /** CakePHP's `Table::aliasField`: a field already qualified with a dot is kept, any other is prefixed with the alias. */
  function AliasField(alias: string, field: string): (r: string)
    ensures '.' in field ==> r == field
    ensures '.' !in field ==> |r| == |alias| + 1 + |field| && r[..|alias|] == alias && r[|alias|] == '.' && r[|alias| + 1..] == field
    ensures '.' in r
  {
    if '.' in field then field else alias + "." + field
  }

  /** The exclusion condition `<Alias>.<field> IS NULL`. */
  function IsNullCondition(alias: string, field: string): (r: string)
    ensures |r| > 8 && r[..|r| - 8] == AliasField(alias, field) && r[|r| - 8..] == " IS NULL"
  {
    AliasField(alias, field) + " IS NULL"
  }

  /** The base query's `triggerBeforeFind()`, abstracted to its effect on the once-only flag. */
  function ParentTrigger(q: QueryState): (r: QueryState)
  {
    q.(beforeFindFired := true, hooks := q.hooks + [ParentBeforeFind])
  }

  /** `andWhere($condition)`. */
  function AndWhereOf(q: QueryState, condition: string): (r: QueryState)
  {
    q.(filter := q.filter + [condition], hooks := q.hooks + [AndWhere(condition)])
  }

  /** The query after the hook, and whether the hook returned or threw. */
  datatype Triggered = Triggered(query: QueryState, outcome: Outcome<Error>)

  /**
   * `triggerBeforeFind()` of a soft-delete query: on the first trigger of a
   * select, the parent hook runs, then, unless `withDeleted` was asked for,
   * the table's soft-delete column is resolved and `<Alias>.<field> IS
   * NULL` is AND-ed to the filter.
   */
  function Intercept(q: QueryState, cfg: TableConfig, withDeleted: bool): (r: Triggered)
    ensures q.beforeFindFired || q.kind != Select ==> r == Triggered(q, Pass)
    ensures !q.beforeFindFired && q.kind == Select ==>
              && r.query.beforeFindFired
              && r.query.kind == q.kind && r.query.options == q.options
              && |r.query.hooks| > |q.hooks|
              && r.query.hooks[..|q.hooks|] == q.hooks && r.query.hooks[|q.hooks|] == ParentBeforeFind
    ensures !q.beforeFindFired && q.kind == Select && withDeleted ==>
              r.outcome == Pass && r.query.filter == q.filter && r.query.hooks == q.hooks + [ParentBeforeFind]
    ensures !q.beforeFindFired && q.kind == Select && !withDeleted && SoftDeleteField(cfg).Failure? ==>
              && r.outcome == Fail(SoftDeleteField(cfg).error)
              && r.query.filter == q.filter && r.query.hooks == q.hooks + [ParentBeforeFind]
    ensures !q.beforeFindFired && q.kind == Select && !withDeleted && SoftDeleteField(cfg).Success? ==>
              var condition := IsNullCondition(cfg.alias, SoftDeleteField(cfg).value);
              && r.outcome == Pass
              && r.query.filter == q.filter + [condition]
              && r.query.hooks == q.hooks + [ParentBeforeFind, AndWhere(condition)]
    ensures |q.filter| <= |r.query.filter| <= |q.filter| + 1 && r.query.filter[..|q.filter|] == q.filter
  {
    if q.beforeFindFired || q.kind != Select then Triggered(q, Pass)
    else
      var fired := ParentTrigger(q);
      if withDeleted then Triggered(fired, Pass)
      else match SoftDeleteField(cfg)
        case Failure(e) => Triggered(fired, Fail(e))
        case Success(field) => Triggered(AndWhereOf(fired, IsNullCondition(cfg.alias, field)), Pass)
  }

  /** The query after `n` successive triggers. */
  function TriggerTimes(q: QueryState, cfg: TableConfig, withDeleted: bool, n: nat): (r: QueryState)
    decreases n
  {
    if n == 0 then q else TriggerTimes(Intercept(q, cfg, withDeleted).query, cfg, withDeleted, n - 1)
  }

  /** A second trigger leaves the query as the first one left it, and returns. */
  lemma SecondTriggerIsNoOp(q: QueryState, cfg: TableConfig, withDeleted: bool)
    ensures var once := Intercept(q, cfg, withDeleted).query;
            Intercept(once, cfg, withDeleted) == Triggered(once, Pass)
  {
  }

  /**
   * However often it is triggered, a query is intercepted once: after any
   * positive number of triggers it is what the first trigger made it, so at
   * most one condition was added.
   */
  lemma {:induction false} InterceptedOnce(q: QueryState, cfg: TableConfig, withDeleted: bool, n: nat)
    requires n >= 1
    ensures TriggerTimes(q, cfg, withDeleted, n) == Intercept(q, cfg, withDeleted).query
    ensures |q.filter| <= |TriggerTimes(q, cfg, withDeleted, n).filter| <= |q.filter| + 1
    decreases n
  {
    if n > 1 {
      var once := Intercept(q, cfg, withDeleted).query;
      InterceptedOnce(once, cfg, withDeleted, n - 1);
      SecondTriggerIsNoOp(q, cfg, withDeleted);
    }
  }
}

/** The GORM tracing interceptor: stamping a request context onto a handle,
    the shared before- and after-hooks, and the twelve per-kind wrappers
    GORM calls. Each hook is a pure function from the handle (and the
    inputs that come from outside: span identity, pool statistics, the
    environment's DSNs and the password-masking function) to the handle
    afterwards and the tracer calls it made. */
module GormTracer {
  import opened Wrappers
  import opened GoStrings
  import opened GormModel

  /** Name given to every span the before-hook starts. */
  const SpanName := "gorm.sql"

  /** Log keys of the two pool-statistics snapshots. */
  const StatsBeforeKey := "db.stats.before"
  const StatsAfterKey := "db.stats.after"

  /** The tag keys the after-hook sets, in the order it sets them. */
  const TagOrder := ["db.connection", "db.query", "db.vars", "db.table", "db.method", "db.count", "db.err"]

  /** `SetSpanToGorm`: a nil context leaves the handle as it is; any other
      context is put under the `spanContext` key and nothing else changes. */
  function SetSpanToGorm(ctx: Option<Context>, db: Handle): (r: Handle)
    ensures ctx.None? ==> r == db
    ensures ctx.Some? ==> ContextOf(r) == ctx
    ensures r.settings.opentracingSpan == db.settings.opentracingSpan
    ensures r.statement == db.statement && r.rowsAffected == db.rowsAffected
  {
    match ctx
    case None => db
    case Some(c) => db.(settings := db.settings.(spanContext := Some(ContextValue(c))))
  }

  /** The shared before-hook. Without a context on the handle it does nothing.
      With one it starts a span in that context, logs the pool snapshot
      against the span's own context and keeps the span under the
      `opentracingSpan` key for the after-hook. */
  function Before(db: Handle, spanId: nat, stats: PoolStats): (r: HookResult)
    ensures ContextOf(db).None? ==> r.events == [] && r.handle == db
    ensures ContextOf(db).Some? ==>
      && |r.events| == 2
      && r.events[0].Start?
      && var t := r.events[0].trace;
      && r.events[0] == Start(ContextOf(db).value, SpanName, t)
      && t == StartTrace(ContextOf(db).value, SpanName, spanId)
      && r.events[1] == Log(t.Context(), StatsBeforeKey, stats)
      && SpanOf(r.handle) == Some(t)
    ensures r.handle.settings.spanContext == db.settings.spanContext
    ensures r.handle.statement == db.statement && r.handle.rowsAffected == db.rowsAffected
  {
    match ContextOf(db)
    case None => HookResult(db, [])
    case Some(ctx) =>
      var trace := StartTrace(ctx, SpanName, spanId);
      var logged := [Start(ctx, SpanName, trace), Log(trace.Context(), StatsBeforeKey, stats)];
      HookResult(db.(settings := db.settings.(opentracingSpan := Some(TraceValue(trace)))), logged)
  }

  /** The operation name the after-hook tags: a non-empty override as given,
      otherwise the upper-cased text before the first space of the SQL. */
  function EffectiveOperation(operation: string, sql: string): (op: string)
    ensures operation != "" ==> op == operation
    ensures operation == "" ==>
      && ' ' !in op
      && |op| <= |sql|
      && (forall i :: 0 <= i < |op| ==> op[i] == UpperRune(sql[i]))
      && (|op| == |sql| || sql[|op|] == ' ')
  {
    if operation == "" then
      var head := Split(sql, ' ')[0];
      ToUpperKeepsSpaces(head);
      ToUpper(head)
    else operation
  }

  /** The DSN whose masked form is tagged as `db.connection`: the read DSN for
      a `SELECT`, the write DSN for every other operation name. */
  function ConnectionDsn(operation: string, env: Env): string {
    if operation == "SELECT" then env.dbSqlReadDsn else env.dbSqlWriteDsn
  }

  /** Whether a statement error marks the span as failed: any error except
      the record-not-found sentinel. */
  predicate MarksError(err: Option<DbError>) {
    err.Some? && err.value != ErrRecordNotFound
  }

  /** The seven tags, in order, the after-hook sets on span `t`. */
  function AfterTags(t: Trace, db: Handle, operation: string, env: Env, mask: string -> string): (tags: seq<Event>)
    ensures |tags| == |TagOrder|
    ensures forall i :: 0 <= i < |tags| ==> tags[i].SetTag? && tags[i].trace == t && tags[i].key == TagOrder[i]
  {
    [ SetTag(t, "db.connection", Text(mask(ConnectionDsn(operation, env))))
    , SetTag(t, "db.query", Text(db.statement.sql))
    , SetTag(t, "db.vars", Vars(db.statement.vars))
    , SetTag(t, "db.table", Text(db.statement.table))
    , SetTag(t, "db.method", Text(operation))
    , SetTag(t, "db.count", Rows(db.rowsAffected))
    , SetTag(t, "db.err", ErrorTag(db.statement.error))
    ]
  }

  /** The shared after-hook. Without a span on the handle it does nothing.
      With one it sets the seven tags, marks the span failed for any error
      but record-not-found, logs the pool snapshot and finishes the span,
      last and once. It never clears the `opentracingSpan` key. */
  function After(db: Handle, operation: string, env: Env, mask: string -> string, stats: PoolStats): (r: HookResult)
    ensures r.handle == db
    ensures SpanOf(db).None? ==> r.events == []
    ensures SpanOf(db).Some? ==>
      var t := SpanOf(db).value;
      var n := |r.events|;
      && n == |TagOrder| + (if MarksError(db.statement.error) then 1 else 0) + 2
      && (forall i :: 0 <= i < |TagOrder| ==> r.events[i].SetTag? && r.events[i].trace == t && r.events[i].key == TagOrder[i])
      && (MarksError(db.statement.error) ==> r.events[|TagOrder|] == SetError(t, db.statement.error.value))
      && r.events[n - 2] == Log(t.Context(), StatsAfterKey, stats)
      && r.events[n - 1] == Finish(t)
      && (forall i :: 0 <= i < n - 1 ==> !r.events[i].Finish?)
  {
    match SpanOf(db)
    case None => HookResult(db, [])
    case Some(trace) =>
      var op := EffectiveOperation(operation, db.statement.sql);
      var failed := if MarksError(db.statement.error) then [SetError(trace, db.statement.error.value)] else [];
      // `defer trace.Finish()` runs after everything else the hook does.
      HookResult(db, AfterTags(trace, db, op, env, mask) + failed + [Log(trace.Context(), StatsAfterKey, stats), Finish(trace)])
  }

  /** The six operation kinds GORM runs callbacks for. */
  datatype Kind = Create | Query | Update | Delete | Row | Raw

  /** The two phases a tracing hook runs in. */
  datatype Phase = BeforePhase | AfterPhase

  /** One of the twelve wrapper methods of the `callbacks` type, named by its
      phase and kind: `Hook(AfterPhase, Create)` is `afterCreate`. */
  datatype Hook = Hook(phase: Phase, kind: Kind)

  /** The operation name each after-wrapper passes to the after-hook. Row
      and raw queries do not know their operation and pass the empty name. */
  function OperationOverride(k: Kind): (name: string)
    ensures name != "" <==> k in {Create, Query, Update, Delete}
    ensures name == "SELECT" <==> k == Query
    ensures ' ' !in name && ToUpper(name) == name
  {
    match k
    case Create => "INSERT"
    case Query => "SELECT"
    case Update => "UPDATE"
    case Delete => "DELETE"
    case Row => ""
    case Raw => ""
  }

  /** Runs one of the twelve wrappers: every before-wrapper calls the shared
      before-hook; every after-wrapper calls the shared after-hook with its
      kind's operation name. */
  function Invoke(hook: Hook, db: Handle, spanId: nat, env: Env, mask: string -> string, stats: PoolStats): HookResult
  {
    match hook.phase
    case BeforePhase => Before(db, spanId, stats)
    case AfterPhase => After(db, OperationOverride(hook.kind), env, mask, stats)
  }
}

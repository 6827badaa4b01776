/** The data the tracing interceptor works on: the request context and the
    tracer's spans, the statement a GORM handle carries, the handle's
    settings store (reduced to the two keys the interceptor uses) and the
    calls the interceptor makes on the tracer, recorded as events. */
module GormModel {
  import opened Wrappers

  /** A request context. `RequestContext` is one supplied by the caller;
      `SpanContext` is the context a started trace hands back from its
      `Context()` method, derived from the context it was started in. */
  datatype Context =
    | RequestContext(id: nat)
    | SpanContext(parent: Context, spanId: nat)

  /** A span started by the tracer backend: its backend-chosen identity, the
      context it was started in and the operation name it was given. */
  datatype Trace = Trace(id: nat, parent: Context, operationName: string) {

    /** `trace.Context()`: the context that carries this span. */
    function Context(): (c: Context)
      ensures c != parent
    {
      SpanContext(parent, id)
    }
  }

  /** `tracer.StartTrace(ctx, name)`. Which span identity the backend picks is
      outside the model, so it is an input. */
  function StartTrace(ctx: Context, name: string, id: nat): Trace {
    Trace(id, ctx, name)
  }

  /** An error a statement ended with. `ErrRecordNotFound` is the one value
      `gorm.ErrRecordNotFound`; every other error, including one that merely
      has the same message, is `ErrOther`, because the source compares error
      values with `!=`, not with `errors.Is`. */
  datatype DbError = ErrRecordNotFound | ErrOther(message: string)

  /** One bound parameter of a statement, as the tracer renders it. */
  datatype SqlVar = SqlVar(rendered: string)

  /** The connection-pool snapshot `sql.DB.Stats()` returns; an opaque payload
      of the two stats log calls. */
  datatype PoolStats = PoolStats(openConnections: nat, inUse: nat, idle: nat)

  /** The values handed to `SetTag`. */
  datatype TagValue =
    | Text(text: string)
    | Vars(vars: seq<SqlVar>)
    | Rows(count: int)
    | ErrorTag(err: Option<DbError>)

  /** One call the interceptor makes on the tracer backend. */
  datatype Event =
    | Start(ctx: Context, name: string, trace: Trace)
    | Log(ctx: Context, logKey: string, stats: PoolStats)
    | SetTag(trace: Trace, key: string, value: TagValue)
    | SetError(trace: Trace, err: DbError)
    | Finish(trace: Trace)

  /** What a settings slot of the handle may hold. Settings are untyped in
      GORM, so besides a context or a trace a slot may hold any other value,
      which the hooks' type assertions reject. */
  datatype Value =
    | ContextValue(ctx: Context)
    | TraceValue(trace: Trace)
    | Foreign(id: nat)

  /** The two settings keys the interceptor uses: `spanContext` and
      `opentracingSpan`. `None` is a key that was never set. */
  datatype Settings = Settings(spanContext: Option<Value>, opentracingSpan: Option<Value>)

  /** The statement a handle carries once GORM has built and run it. */
  datatype Statement = Statement(sql: string, vars: seq<SqlVar>, table: string, error: Option<DbError>)

  /** A GORM handle as far as the interceptor sees it. */
  datatype Handle = Handle(settings: Settings, statement: Statement, rowsAffected: int)

  /** The read and write data-source names from the service environment. */
  datatype Env = Env(dbSqlReadDsn: string, dbSqlWriteDsn: string)

  /** `db.Get(spanContext)` followed by the assertion to `context.Context`:
      the context, when the slot is set and holds one. */
  function ContextOf(db: Handle): (c: Option<Context>)
    ensures c.Some? <==> db.settings.spanContext.Some? && db.settings.spanContext.value.ContextValue?
    ensures c.Some? ==> db.settings.spanContext == Some(ContextValue(c.value))
  {
    match db.settings.spanContext
    case Some(ContextValue(ctx)) => Some(ctx)
    case _ => None
  }

  /** `db.Get(opentracingSpan)` followed by the assertion to the tracer
      interface: the span, when the slot is set and holds one. */
  function SpanOf(db: Handle): (t: Option<Trace>)
    ensures t.Some? <==> db.settings.opentracingSpan.Some? && db.settings.opentracingSpan.value.TraceValue?
    ensures t.Some? ==> db.settings.opentracingSpan == Some(TraceValue(t.value))
  {
    match db.settings.opentracingSpan
    case Some(TraceValue(trace)) => Some(trace)
    case _ => None
  }

  /** The result of one hook: the handle afterwards and the tracer calls made. */
  datatype HookResult = HookResult(handle: Handle, events: seq<Event>)
}

# GORM tracing interceptor, modelled in Dafny

The candi code generator ships a GORM tracing shim as template text
(`templateGORMTracer` in `cmd/candi/template_shared.go`). The shim hooks into
every GORM operation kind and reports each database operation as a span to
the candi tracer. This project models that shim and proves properties of the
model.

The shim works like this:

- `SetSpanToGorm` stamps a request context onto a GORM handle under the
  `spanContext` settings key.
- For each operation the before-hook reads that context. If the context is
  present, the hook starts a `gorm.sql` span, logs a connection-pool snapshot
  against the span's context and keeps the span under `opentracingSpan`.
- The after-hook reads the span back. It works out the operation name and
  sets seven tags in a fixed order: the masked read or write DSN, the SQL,
  the bound variables, the table, the operation name, the row count and the
  error. It marks the span as failed for any error except
  `gorm.ErrRecordNotFound`, logs a second pool snapshot and finishes the
  span through `defer`.
- `AddGormCallbacks` registers a named before/after pair around GORM's own
  `gorm:<kind>` step for six kinds: create, query, update, delete, row and
  raw.

Every hook is a pure function in the model. Its inputs are the handle and
whatever comes from outside the shim: the span identity the tracer backend
hands out, the pool statistics, the read and write DSNs, and the
password-masking function. Its output is the handle afterwards plus the
tracer calls it made, recorded as an event log (`Start`, `Log`, `SetTag`,
`SetError`, `Finish`).

The files:

- `wrappers.dfy`: `Option`.
- `go_strings.dfy`: the parts of Go's `strings.Split` and `strings.ToUpper`
  that the after-hook uses.
- `gorm_model.dfy`: contexts, traces, statements, the handle and its two
  settings slots, and tracer events.
- `event_log.dfy`: counting calls, tag keys and tag lookup over event logs;
  the `Bracketed` shape of one traced operation.
- `gorm_tracer.dfy`: `SetSpanToGorm`, `Before`, `After`, the operation-name
  and DSN choice, and the twelve wrappers (`Invoke` with `OperationOverride`).
- `registration.dfy`: `registerCallbacks` and `AddGormCallbacks`.
- `tracer_properties.dfy`: properties of whole operations and of sequences
  of operations on one handle.

Two details of the code shape what the model promises:

- The after-hook never clears the `opentracingSpan` slot, so `After` returns
  the handle unchanged and a span left in the slot is tagged and finished
  again (`StaleSpanIsFinishedAgain`). An operation is silent only when the
  handle carries neither a context nor a span.
- Only a space ends the first word of the SQL (`strings.Split(sql, " ")`),
  so `select\tid` is not a `SELECT` and is tagged with the write DSN
  (`TabSeparatedSelectIsNotSelect`).

## Model

| member | source | states |
|---|---|---|
| GormTracer.SetSpanToGorm | cmd/candi/template_shared.go:67-72 | a nil context returns the handle unchanged; otherwise the context slot then holds exactly that context, and the span slot and statement are unchanged |
| GormModel.ContextOf | cmd/candi/template_shared.go:104-111 | a context is found exactly when the `spanContext` slot is set and holds a context value (the type assertion succeeds) |
| GormModel.SpanOf | cmd/candi/template_shared.go:119-126 | a span is found exactly when the `opentracingSpan` slot is set and holds a trace value |
| GormTracer.Before | cmd/candi/template_shared.go:103-116 | without a valid context: no calls and the handle is unchanged; with one: exactly a `gorm.sql` start in that context, then the before-snapshot log against the new span's own context, and that same span is then found in the span slot; the context slot and statement are left alone |
| GormTracer.EffectiveOperation | cmd/candi/template_shared.go:128-130 | a non-empty override is kept; an empty one gives the upper-cased longest space-free prefix of the SQL, which is followed by a space or ends the SQL |
| GormTracer.AfterTags | cmd/candi/template_shared.go:132-142 | seven tags, all on the given span, with keys in the order db.connection, db.query, db.vars, db.table, db.method, db.count, db.err |
| GormTracer.After | cmd/candi/template_shared.go:118-149 | the handle is never changed (the span slot is not cleared); no span means no calls; with a span: the seven tags in order, then the error mark only for a marking error, then the after-snapshot log, then `Finish` as the last call and the only one |
| TracerProperties.AfterCounts | cmd/candi/template_shared.go:127-148 | the after-hook makes one finish, one log, seven tags and no start, and one error mark exactly when the error is neither nil nor record-not-found |
| TracerProperties.AfterEventCounts | cmd/candi/template_shared.go:118-149 | these counts, together with: the tag keys in their fixed order, every error mark carrying the statement error, and every call concerning the span read from the handle |
| TracerProperties.AfterTagValues | cmd/candi/template_shared.go:132-142 | the value of each tag: the masked DSN for the effective operation, the SQL, the bound variables, the table, the effective operation name, the affected-row count and the statement error |
| TracerProperties.UntracedOperationIsSilent | cmd/candi/template_shared.go:103-122 | an operation on a handle with no context and no span makes no tracer calls and leaves the settings alone |
| TracerProperties.StaleSpanIsFinishedAgain | cmd/candi/template_shared.go:118-127 | with no context but a span left in the slot, the after-hook still sets the seven tags in order on that old span, makes every call about it and finishes it last, and starts nothing |
| TracerProperties.TracedOperationIsBracketed | cmd/candi/template_shared.go:103-149 | with a context: the operation's log is bracketed, meaning one start in that context comes first and one finish of the same span comes last, and every call concerns that span; there are two stats logs, the seven tag keys in order, and an error mark exactly for a marking error; the span stays in the slot |
| TracerProperties.TracedOperationCounts | cmd/candi/template_shared.go:103-149 | a traced operation makes one start, one finish, two logs and seven tags |
| TracerProperties.StampedHandleIsTraced | cmd/candi/template_shared.go:67-72 | every operation on a handle stamped with a context is bracketed by a span started in that context |
| TracerProperties.InferredOperationIsFirstWord | cmd/candi/template_shared.go:128-130 | with an empty override, the operation name of `word + " " + rest`, or of `word` alone, is the upper-cased `word`, for any space-free `word` |
| GormTracer.OperationOverride | cmd/candi/template_shared.go:91-102 | the operation name an after-wrapper passes is non-empty exactly for create, query, update and delete and empty for row and raw; it is `SELECT` exactly for query; every name passed is already upper-case and space-free (the individual names are stated by `TracerProperties.KindOperationName`) |
| TracerProperties.WrapperMethodTags | cmd/candi/template_shared.go:91-102 | the twelve wrappers (`GormTracer.Invoke`): every before-wrapper gives the same result whatever its kind; on a handle with a span the after-wrappers of create, query, update and delete tag `db.method` as INSERT, SELECT, UPDATE and DELETE whatever the SQL, and those of row and raw tag the upper-cased first word of the SQL |
| TracerProperties.KindOperationName | cmd/candi/template_shared.go:91-102 | the operation name each after-wrapper ends up with is INSERT, SELECT, UPDATE and DELETE for create, query, update and delete whatever the SQL; row and raw are named by the upper-cased first word of the SQL (the `db.method` tag itself is stated by `TracerProperties.WrapperMethodTags`) |
| TracerProperties.UpdateStatementIsUpdate | cmd/candi/template_shared.go:128-130 | `update t set x=1` with an empty override is tagged `UPDATE` |
| TracerProperties.SelectStatementIsSelect | cmd/candi/template_shared.go:128-130 | `select * from x` with an empty override is tagged `SELECT` |
| TracerProperties.TabSeparatedSelectIsNotSelect | cmd/candi/template_shared.go:128-136 | `select\tid` with an empty override is not named `SELECT`, so the write DSN is chosen |
| TracerProperties.ConnectionTagOfOperation | cmd/candi/template_shared.go:132-136 | the connection tag is the masked read DSN when the effective operation is `SELECT` and the masked write DSN otherwise; query operations always use the read DSN; create, update and delete always use the write DSN |
| TracerProperties.ErrorClassification | cmd/candi/template_shared.go:142-145 | `db.err` is always tagged, even with a nil error; there is an error mark if and only if the error is neither nil nor record-not-found, and it carries that error on that span; record-not-found gives no mark |
| TracerProperties.ContextIsKept | cmd/candi/template_shared.go:103-116 | no hook changes the context slot, so one stamp serves every later operation |
| TracerProperties.TracedSequenceCounts | cmd/candi/template_shared.go:103-149 | on a stamped handle, a sequence of n operations makes n starts, n finishes, 2n logs and 7n tags |
| TracerProperties.UntracedSequenceIsSilent | cmd/candi/template_shared.go:103-126 | on a handle with no context and no span, a sequence of operations makes no tracer calls |
| GoStrings.Split | cmd/candi/template_shared.go:129 | `strings.Split` with a one-character separator: there is at least one piece and no piece holds the separator; the first piece is the longest separator-free prefix |
| GoStrings.JoinSplit | cmd/candi/template_shared.go:129 | joining the pieces back with the separator gives the original text |
| GoStrings.SplitWithoutSeparator | cmd/candi/template_shared.go:129 | text without the separator splits into itself alone |
| GoStrings.ToUpper | cmd/candi/template_shared.go:129 | `strings.ToUpper`: same length, each rune upper-cased in place |
| GoStrings.ToUpperProperties | cmd/candi/template_shared.go:129 | the result has no ASCII lower-case letter, other runes are kept, and upper-casing twice changes nothing |
| Registration.ParseKind | cmd/candi/template_shared.go:156-175 | a name selects a kind only when it is that kind's own name |
| Registration.RegisterCallbacks | cmd/candi/template_shared.go:151-176 | a known kind name appends its before-hook registration and then its after-hook registration, named `tracing:before_<kind>` and `tracing:after_<kind>`, placed before and after `gorm:<kind>`, on that kind's processor; any other name appends nothing |
| Registration.AddGormCallbacks | cmd/candi/template_shared.go:75-83 | registers the six kinds in order create, query, update, delete, row, raw: the existing registrations are kept and the twelve hook registrations (before then after for each kind) are appended in that order |
| Registration.AddedHookNamesDistinct | cmd/candi/template_shared.go:75-83 | exactly twelve registrations are added and their names are pairwise distinct |
| Registration.AddedHooksCoverAllKinds | cmd/candi/template_shared.go:75-83 | earlier registrations are kept in front, and every phase of every kind is among the added registrations with its name, anchor and processor |
| Registration.HookNameInjective | cmd/candi/template_shared.go:152-153 | two hooks with the same registered name are the same hook (same phase, same kind) |
| Registration.UnknownKindRegistersNothing | cmd/candi/template_shared.go:156-175 | a name that is not one of the six kinds registers nothing |

## Left out

- GORM internals are not modelled: the callback chain machinery, the cloning
  semantics of `db.Set`/`db.Get` and how `Statement` is built. The handle is a
  record with the two settings slots the shim uses. GORM's built-in step is
  `Execute`, which fills in the statement and the row count. GORM's handling
  of a second registration under an existing name is not modelled, so
  nothing is claimed about re-registration being idempotent.
- The tracer backend is an event log. The span identity it picks is an input
  (`spanId`), and what `tracer.Log` does with a snapshot is not modelled.
- `candihelper.MaskingPasswordURL` is not shown, so it is the uninterpreted
  parameter `mask`. Nothing is claimed about the password being absent from
  the tag.
- `env.BaseEnv()` is replaced by the `Env` parameter, which holds the read
  and write DSNs.
- `d.Stats()` is the opaque `PoolStats` input. The error `db.DB()` can return
  is ignored by the code; a nil `*sql.DB` would panic, and that path is not
  modelled.
- `defer` on a panic path is not modelled: nothing in the modelled after-hook
  can panic, so `Finish` is simply its last call.
- Concurrent use of one handle is not modelled; every hook runs sequentially.
- Template rendering (`{{.Header}}`, `IsMonorepo`) and the unused
  `parentSpanGormKey` constant are left out.
- The example stubs `DefaultTokenValidator` and `DefaultACLPermissionChecker`
  (cmd/candi/template_shared.go:18-40) are illustrative and print to stdout,
  so they are left out.
- internal/services/line-chatbot/modules/event/delivery/graphql_handler.go is
  delivery glue with no logic of its own, so it is left out.
- GoStrings.ToUpper: only ASCII letters are upper-cased and every other rune
  is kept. Go's `strings.ToUpper` also maps non-ASCII letters through Unicode
  case tables; those tables are not modelled.
- GoStrings.Split: only one-character separators are modelled, which covers
  the `" "` the shim uses; Go's `strings.Split` also accepts longer or empty
  separators.

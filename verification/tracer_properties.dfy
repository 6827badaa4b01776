/** Properties of the interceptor over whole operations: what one hook pair
    leaves in the tracer's log around GORM's own processing step, how the
    operation name and connection tag are chosen, and what a sequence of
    operations on one handle leaves behind. */
module TracerProperties {
  import opened Wrappers
  import opened GoStrings
  import opened GormModel
  import opened EventLog
  import opened GormTracer

  /** Proof step only, not a property of the hook: unfolds `After` on a
      handle with a span into its three parts (the seven tags, the error
      mark when there is one, the closing log and finish) for the lemmas
      below. */
  lemma AfterParts(db: Handle, operation: string, env: Env, mask: string -> string, stats: PoolStats)
    returns (tags: seq<Event>, failed: seq<Event>, tail: seq<Event>)
    requires SpanOf(db).Some?
    ensures var t := SpanOf(db).value;
      && After(db, operation, env, mask, stats).events == tags + failed + tail
      && tags == AfterTags(t, db, EffectiveOperation(operation, db.statement.sql), env, mask)
      && failed == (if MarksError(db.statement.error) then [SetError(t, db.statement.error.value)] else [])
      && tail == [Log(t.Context(), StatsAfterKey, stats), Finish(t)]
  {
    var t := SpanOf(db).value;
    tags := AfterTags(t, db, EffectiveOperation(operation, db.statement.sql), env, mask);
    failed := if MarksError(db.statement.error) then [SetError(t, db.statement.error.value)] else [];
    tail := [Log(t.Context(), StatsAfterKey, stats), Finish(t)];
  }

  /** How many calls of each kind the after-hook makes on a span: one
      finish, one log, seven tags, no start, and an error mark exactly when
      the statement error is neither nil nor record-not-found. */
  lemma AfterCounts(db: Handle, operation: string, env: Env, mask: string -> string, stats: PoolStats, k: EventKind)
    requires SpanOf(db).Some?
    ensures Count(After(db, operation, env, mask, stats).events, k) ==
      match k
      case StartKind => 0
      case LogKind => 1
      case SetTagKind => |TagOrder|
      case SetErrorKind => (if MarksError(db.statement.error) then 1 else 0)
      case FinishKind => 1
  {
    var tags, failed, tail := AfterParts(db, operation, env, mask, stats);
    CountAppend(tags + failed, tail, k);
    CountAppend(tags, failed, k);
    CountPair(tail[0], tail[1], k);
    assert tail == [tail[0], tail[1]];
    if failed != [] {
      assert failed[1..] == [];
    }
    if k == SetTagKind {
      CountAll(tags, k);
    } else {
      CountZero(tags, k);
    }
  }

  /** The after-hook on a handle carrying span `t`: exactly one finish, last;
      no new span; one stats log against `t`'s context; the seven tags in
      their fixed order; an error mark exactly when the statement error is
      neither nil nor record-not-found, carrying that error; and every call
      concerns `t`. */
  lemma AfterEventCounts(db: Handle, operation: string, env: Env, mask: string -> string, stats: PoolStats)
    requires SpanOf(db).Some?
    ensures var es := After(db, operation, env, mask, stats).events;
      var t := SpanOf(db).value;
      && Count(es, StartKind) == 0
      && Count(es, FinishKind) == 1
      && Count(es, LogKind) == 1
      && Count(es, SetTagKind) == 7
      && Count(es, SetErrorKind) == (if MarksError(db.statement.error) then 1 else 0)
      && (forall i :: 0 <= i < |es| && es[i].SetError? ==> es[i].err == db.statement.error.value)
      && TagKeys(es) == TagOrder
      && AboutSpan(es, t)
  {
    AfterCounts(db, operation, env, mask, stats, StartKind);
    AfterCounts(db, operation, env, mask, stats, FinishKind);
    AfterCounts(db, operation, env, mask, stats, LogKind);
    AfterCounts(db, operation, env, mask, stats, SetTagKind);
    AfterCounts(db, operation, env, mask, stats, SetErrorKind);
    var tags, failed, tail := AfterParts(db, operation, env, mask, stats);
    TagKeysAppend(tags + failed, tail);
    TagKeysAppend(tags, failed);
    TagKeysOfTags(tags);
    assert TagKeys(tail) == [] by {
      assert tail[1..] == [tail[1]];
      assert tail[1..][1..] == [];
    }
    if failed != [] {
      assert failed[1..] == [];
    }
    assert TagKeys(tags) == TagOrder;
  }

  /** The value the after-hook tags under each key: the masked read or write
      DSN, the statement's SQL, bound variables and table, the effective
      operation name, the affected-row count and the statement error, which
      is tagged even when it is nil or record-not-found. */
  lemma AfterTagValues(db: Handle, operation: string, env: Env, mask: string -> string, stats: PoolStats)
    requires SpanOf(db).Some?
    ensures var es := After(db, operation, env, mask, stats).events;
      var op := EffectiveOperation(operation, db.statement.sql);
      && TagValueOf(es, "db.connection") == Some(Text(mask(ConnectionDsn(op, env))))
      && TagValueOf(es, "db.query") == Some(Text(db.statement.sql))
      && TagValueOf(es, "db.vars") == Some(Vars(db.statement.vars))
      && TagValueOf(es, "db.table") == Some(Text(db.statement.table))
      && TagValueOf(es, "db.method") == Some(Text(op))
      && TagValueOf(es, "db.count") == Some(Rows(db.rowsAffected))
      && TagValueOf(es, "db.err") == Some(ErrorTag(db.statement.error))
  {
    var t := SpanOf(db).value;
    var op := EffectiveOperation(operation, db.statement.sql);
    var tags := AfterTags(t, db, op, env, mask);
    var es := After(db, operation, env, mask, stats).events;
    var rest := es[|tags|..];
    assert es == tags + rest;
    forall i | 0 <= i < |TagOrder|
      ensures TagValueOf(es, TagOrder[i]) == Some(tags[i].value)
    {
      TagOrderDistinct();
      TagValueAt(tags, TagOrder[i], i);
      TagValueOfPrefix(tags, rest, TagOrder[i]);
    }
    assert TagValueOf(es, TagOrder[0]) == Some(tags[0].value);
    assert TagValueOf(es, TagOrder[1]) == Some(tags[1].value);
    assert TagValueOf(es, TagOrder[2]) == Some(tags[2].value);
    assert TagValueOf(es, TagOrder[3]) == Some(tags[3].value);
    assert TagValueOf(es, TagOrder[4]) == Some(tags[4].value);
    assert TagValueOf(es, TagOrder[5]) == Some(tags[5].value);
    assert TagValueOf(es, TagOrder[6]) == Some(tags[6].value);
  }

  /** The seven tag keys are pairwise distinct, so each names one tag. */
  lemma TagOrderDistinct()
    ensures forall i, j :: 0 <= i < j < |TagOrder| ==> TagOrder[i] != TagOrder[j]
  {
    forall i, j | 0 <= i < j < |TagOrder|
      ensures TagOrder[i] != TagOrder[j]
    {
      // The length and the fourth character together tell the keys apart.
      assert |TagOrder[0]| == 13 && TagOrder[0][3] == 'c';
      assert |TagOrder[1]| == 8 && TagOrder[1][3] == 'q';
      assert |TagOrder[2]| == 7 && TagOrder[2][3] == 'v';
      assert |TagOrder[3]| == 8 && TagOrder[3][3] == 't';
      assert |TagOrder[4]| == 9 && TagOrder[4][3] == 'm';
      assert |TagOrder[5]| == 8 && TagOrder[5][3] == 'c';
      assert |TagOrder[6]| == 6 && TagOrder[6][3] == 'e';
    }
  }

  /** One database operation as GORM runs it through a kind's callback
      chain: the statement and row count its built-in step produces, the
      span identity the tracer hands out and the two pool snapshots. */
  datatype Operation = Operation(
    kind: Kind,
    executed: Statement,
    rowsAffected: int,
    spanId: nat,
    statsBefore: PoolStats,
    statsAfter: PoolStats)

  /** GORM's built-in `gorm:<kind>` step, seen from the interceptor: it
      leaves the settings alone and fills in the statement and row count. */
  function Execute(db: Handle, executed: Statement, rowsAffected: int): Handle
  {
    db.(statement := executed, rowsAffected := rowsAffected)
  }

  /** The kind's before-wrapper, the built-in step, then the kind's
      after-wrapper, on one handle. */
  function RunOperation(db: Handle, op: Operation, env: Env, mask: string -> string): HookResult {
    var before := Invoke(Hook(BeforePhase, op.kind), db, op.spanId, env, mask, op.statsBefore);
    var ran := Execute(before.handle, op.executed, op.rowsAffected);
    var after := Invoke(Hook(AfterPhase, op.kind), ran, op.spanId, env, mask, op.statsAfter);
    HookResult(after.handle, before.events + after.events)
  }

  /** An operation on a handle that carries neither a context nor a span
      leaves no trace at all, and the handle's settings are unchanged. */
  lemma UntracedOperationIsSilent(db: Handle, op: Operation, env: Env, mask: string -> string)
    requires ContextOf(db).None? && SpanOf(db).None?
    ensures RunOperation(db, op, env, mask).events == []
    ensures RunOperation(db, op, env, mask).handle.settings == db.settings
  {
  }

  /** The absence of a context does not by itself silence the after-hook:
      the span slot is never cleared, so a span left on the handle is tagged
      and finished again. Silence needs the slot to be empty as well. */
  lemma StaleSpanIsFinishedAgain(db: Handle, op: Operation, env: Env, mask: string -> string)
    requires ContextOf(db).None? && SpanOf(db).Some?
    ensures var es := RunOperation(db, op, env, mask).events;
      && |es| > 0
      && es[|es| - 1] == Finish(SpanOf(db).value)
      && Count(es, StartKind) == 0
      && TagKeys(es) == TagOrder
      && AboutSpan(es, SpanOf(db).value)
  {
    var b := Before(db, op.spanId, op.statsBefore);
    var ran := Execute(b.handle, op.executed, op.rowsAffected);
    AfterEventCounts(ran, OperationOverride(op.kind), env, mask, op.statsAfter);
    var a := After(ran, OperationOverride(op.kind), env, mask, op.statsAfter).events;
    assert RunOperation(db, op, env, mask).events == [] + a == a;
  }

  /** An operation on a handle that carries a context is traced exactly
      once: a span is started in that context first and finished last, each
      exactly once; the before-hook's span is the one the after-hook tags
      and finishes; there are two pool-statistics logs, seven tags in their
      fixed order, and an error mark exactly for an error other than
      record-not-found. */
  lemma TracedOperationIsBracketed(db: Handle, op: Operation, env: Env, mask: string -> string)
    requires ContextOf(db).Some?
    ensures var es := RunOperation(db, op, env, mask).events;
      var t := StartTrace(ContextOf(db).value, SpanName, op.spanId);
      && Bracketed(es, t)
      && es[1] == Log(t.Context(), StatsBeforeKey, op.statsBefore)
      && Count(es, LogKind) == 2
      && TagKeys(es) == TagOrder
      && Count(es, SetErrorKind) == (if MarksError(op.executed.error) then 1 else 0)
    ensures SpanOf(RunOperation(db, op, env, mask).handle) == Some(StartTrace(ContextOf(db).value, SpanName, op.spanId))
  {
    var t := StartTrace(ContextOf(db).value, SpanName, op.spanId);
    var b := Before(db, op.spanId, op.statsBefore);
    var ran := Execute(b.handle, op.executed, op.rowsAffected);
    assert SpanOf(ran) == Some(t);
    var a := After(ran, OperationOverride(op.kind), env, mask, op.statsAfter);
    AfterEventCounts(ran, OperationOverride(op.kind), env, mask, op.statsAfter);
    var es := RunOperation(db, op, env, mask).events;
    assert es == b.events + a.events;
    forall k: EventKind
      ensures Count(es, k) == Count(b.events, k) + Count(a.events, k)
    {
      CountAppend(b.events, a.events, k);
      CountPair(b.events[0], b.events[1], k);
    }
    assert b.events == [b.events[0], b.events[1]];
    TagKeysAppend(b.events, a.events);
    assert b.events[1..] == [b.events[1]];
    assert TagKeys(b.events) == [];
    assert AboutSpan(b.events, t);
  }

  /** The counts of one traced operation, on their own. */
  lemma TracedOperationCounts(db: Handle, op: Operation, env: Env, mask: string -> string)
    requires ContextOf(db).Some?
    ensures var es := RunOperation(db, op, env, mask).events;
      && Count(es, StartKind) == 1
      && Count(es, FinishKind) == 1
      && Count(es, LogKind) == 2
      && Count(es, SetTagKind) == |TagOrder|
  {
    TracedOperationIsBracketed(db, op, env, mask);
  }

  /** Stamping a context onto a handle is what turns tracing on: every
      operation on the stamped handle is traced in that context. */
  lemma StampedHandleIsTraced(ctx: Context, db: Handle, op: Operation, env: Env, mask: string -> string)
    ensures Bracketed(RunOperation(SetSpanToGorm(Some(ctx), db), op, env, mask).events, StartTrace(ctx, SpanName, op.spanId))
  {
    TracedOperationIsBracketed(SetSpanToGorm(Some(ctx), db), op, env, mask);
  }

  /** With an empty override, the operation name is the statement's first
      space-delimited word, upper-cased; the rest of the statement plays no
      part. */
  lemma {:induction false} InferredOperationIsFirstWord(word: string, rest: string)
    requires ' ' !in word
    ensures EffectiveOperation("", word + " " + rest) == ToUpper(word)
    ensures EffectiveOperation("", word) == ToUpper(word)
  {
    var sql := word + " " + rest;
    var head := Split(sql, ' ')[0];
    assert forall i :: 0 <= i < |word| ==> sql[i] == word[i];
    assert sql[|word|] == ' ';
    assert |head| == |word|;
    assert head == sql[..|head|] == word;
    SplitWithoutSeparator(word, ' ');
  }

  /** The operation name each kind's after-wrapper ends up tagging: create,
      query, update and delete name their operation whatever the SQL says;
      row and raw queries take the first word of the SQL, upper-cased. */
  lemma KindOperationName(k: Kind, sql: string)
    ensures k == Create ==> EffectiveOperation(OperationOverride(k), sql) == "INSERT"
    ensures k == Query ==> EffectiveOperation(OperationOverride(k), sql) == "SELECT"
    ensures k == Update ==> EffectiveOperation(OperationOverride(k), sql) == "UPDATE"
    ensures k == Delete ==> EffectiveOperation(OperationOverride(k), sql) == "DELETE"
    ensures k in {Row, Raw} ==> EffectiveOperation(OperationOverride(k), sql) == ToUpper(Split(sql, ' ')[0])
  {
  }

  /** The first word of a statement ends at its first space. */
  lemma FirstWordEndsAt(sql: string, n: nat)
    requires n < |sql| && sql[n] == ' '
    requires forall i :: 0 <= i < n ==> sql[i] != ' '
    ensures EffectiveOperation("", sql) == ToUpper(sql[..n])
  {
    InferredOperationIsFirstWord(sql[..n], sql[n + 1..]);
    assert sql == sql[..n] + " " + sql[n + 1..];
  }

  /** Worked case: an update statement's first word is its operation. */
  lemma UpdateStatementIsUpdate()
    ensures EffectiveOperation("", "update t set x=1") == "UPDATE"
  {
    FirstWordIs("update t set x=1", "UPDATE", 6);
  }

  /** Worked case: a select statement's first word is its operation. */
  lemma SelectStatementIsSelect()
    ensures EffectiveOperation("", "select * from x") == "SELECT"
  {
    FirstWordIs("select * from x", "SELECT", 6);
  }

  /** A statement whose first `n` characters are a word followed by a space
      is named by that word upper-cased. */
  lemma FirstWordIs(sql: string, name: string, n: nat)
    requires n < |sql| && sql[n] == ' ' && |name| == n
    requires forall i :: 0 <= i < n ==> sql[i] != ' ' && UpperRune(sql[i]) == name[i]
    ensures EffectiveOperation("", sql) == name
  {
    FirstWordEndsAt(sql, n);
    assert ToUpper(sql[..n]) == name;
  }

  /** Worked case: only a space ends the first word, so a statement whose
      first word is followed by a tab is not recognised as a `SELECT` and
      its connection tag names the write DSN. */
  lemma TabSeparatedSelectIsNotSelect(env: Env)
    ensures EffectiveOperation("", "select\tid") != "SELECT"
    ensures ConnectionDsn(EffectiveOperation("", "select\tid"), env) == env.dbSqlWriteDsn
  {
    InferredOperationIsFirstWord("select\tid", "");
    assert |ToUpper("select\tid")| == 9;
  }

  /** The connection tag of a whole operation: the masked read DSN exactly
      when the effective operation name is `SELECT`, the masked write DSN
      otherwise. A query always reads; create, update and delete always
      write. */
  lemma ConnectionTagOfOperation(db: Handle, op: Operation, env: Env, mask: string -> string)
    requires ContextOf(db).Some? || SpanOf(db).Some?
    ensures var es := RunOperation(db, op, env, mask).events;
      var name := EffectiveOperation(OperationOverride(op.kind), op.executed.sql);
      && (name == "SELECT" ==> TagValueOf(es, "db.connection") == Some(Text(mask(env.dbSqlReadDsn))))
      && (name != "SELECT" ==> TagValueOf(es, "db.connection") == Some(Text(mask(env.dbSqlWriteDsn))))
      && (op.kind == Query ==> TagValueOf(es, "db.connection") == Some(Text(mask(env.dbSqlReadDsn))))
      && (op.kind in {Create, Update, Delete} ==> TagValueOf(es, "db.connection") == Some(Text(mask(env.dbSqlWriteDsn))))
  {
    var b := Before(db, op.spanId, op.statsBefore);
    var ran := Execute(b.handle, op.executed, op.rowsAffected);
    assert SpanOf(ran).Some?;
    var a := After(ran, OperationOverride(op.kind), env, mask, op.statsAfter);
    AfterTagValues(ran, OperationOverride(op.kind), env, mask, op.statsAfter);
    assert forall i :: 0 <= i < |b.events| ==> !b.events[i].SetTag?;
    TagValueOfSkip(b.events, a.events, "db.connection");
  }

  /** Error classification on a traced statement: the error is always
      tagged under `db.err`, even when nil, and the span is marked failed,
      with that very error, exactly when the error is neither nil nor
      record-not-found. */
  lemma ErrorClassification(db: Handle, operation: string, env: Env, mask: string -> string, stats: PoolStats)
    requires SpanOf(db).Some?
    ensures var es := After(db, operation, env, mask, stats).events;
      var err := db.statement.error;
      && TagValueOf(es, "db.err") == Some(ErrorTag(err))
      && ((exists i :: 0 <= i < |es| && es[i].SetError?) <==> MarksError(err))
      && (forall i :: 0 <= i < |es| && es[i].SetError? ==> es[i] == SetError(SpanOf(db).value, err.value))
      && (err == Some(ErrRecordNotFound) ==> forall i :: 0 <= i < |es| ==> !es[i].SetError?)
  {
    var es := After(db, operation, env, mask, stats).events;
    AfterTagValues(db, operation, env, mask, stats);
    AfterEventCounts(db, operation, env, mask, stats);
    CountZero(es, SetErrorKind);
  }

  /** A sequence of operations on one handle, one after another. */
  function RunAll(db: Handle, ops: seq<Operation>, env: Env, mask: string -> string): HookResult
    decreases |ops|
  {
    if |ops| == 0 then HookResult(db, [])
    else
      var first := RunOperation(db, ops[0], env, mask);
      var rest := RunAll(first.handle, ops[1..], env, mask);
      HookResult(rest.handle, first.events + rest.events)
  }

  /** No hook touches the context slot: the context stamped on a handle
      stays for every later operation. */
  lemma ContextIsKept(db: Handle, op: Operation, env: Env, mask: string -> string)
    ensures RunOperation(db, op, env, mask).handle.settings.spanContext == db.settings.spanContext
  {
  }

  /** On a handle that carries a context, every operation of a sequence
      starts and finishes one span and logs the pool twice. */
  lemma {:induction false} TracedSequenceCounts(db: Handle, ops: seq<Operation>, env: Env, mask: string -> string)
    requires ContextOf(db).Some?
    ensures var es := RunAll(db, ops, env, mask).events;
      && Count(es, StartKind) == |ops|
      && Count(es, FinishKind) == |ops|
      && Count(es, LogKind) == 2 * |ops|
      && Count(es, SetTagKind) == |TagOrder| * |ops|
    decreases |ops|
  {
    if |ops| > 0 {
      var first := RunOperation(db, ops[0], env, mask);
      ContextIsKept(db, ops[0], env, mask);
      TracedSequenceCounts(first.handle, ops[1..], env, mask);
      TracedOperationCounts(db, ops[0], env, mask);
      var rest := RunAll(first.handle, ops[1..], env, mask);
      CountAppend(first.events, rest.events, StartKind);
      CountAppend(first.events, rest.events, FinishKind);
      CountAppend(first.events, rest.events, LogKind);
      CountAppend(first.events, rest.events, SetTagKind);
    }
  }

  /** On a handle that carries neither a context nor a span, a whole
      sequence of operations leaves no trace. */
  lemma {:induction false} UntracedSequenceIsSilent(db: Handle, ops: seq<Operation>, env: Env, mask: string -> string)
    requires ContextOf(db).None? && SpanOf(db).None?
    ensures RunAll(db, ops, env, mask).events == []
    decreases |ops|
  {
    if |ops| > 0 {
      var first := RunOperation(db, ops[0], env, mask);
      UntracedOperationIsSilent(db, ops[0], env, mask);
      UntracedSequenceIsSilent(first.handle, ops[1..], env, mask);
    }
  }

  /** What the twelve wrappers do that a caller can observe. Every
      before-wrapper behaves the same whatever its kind. On a handle that
      carries a span, the after-wrappers of create, query, update and delete
      tag `db.method` as INSERT, SELECT, UPDATE and DELETE whatever the SQL,
      and those of row and raw tag the upper-cased first word of the SQL. */
  lemma WrapperMethodTags(k: Kind, k': Kind, db: Handle, spanId: nat, env: Env, mask: string -> string, stats: PoolStats)
    ensures Invoke(Hook(BeforePhase, k), db, spanId, env, mask, stats) == Invoke(Hook(BeforePhase, k'), db, spanId, env, mask, stats)
    ensures SpanOf(db).Some? ==>
      var es := Invoke(Hook(AfterPhase, k), db, spanId, env, mask, stats).events;
      var tag := TagValueOf(es, "db.method");
      && (k == Create ==> tag == Some(Text("INSERT")))
      && (k == Query ==> tag == Some(Text("SELECT")))
      && (k == Update ==> tag == Some(Text("UPDATE")))
      && (k == Delete ==> tag == Some(Text("DELETE")))
      && (k in {Row, Raw} ==> tag == Some(Text(ToUpper(Split(db.statement.sql, ' ')[0]))))
  {
    if SpanOf(db).Some? {
      AfterTagValues(db, OperationOverride(k), env, mask, stats);
      KindOperationName(k, db.statement.sql);
    }
  }
}

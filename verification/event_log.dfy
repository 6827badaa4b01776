/** Facts about sequences of tracer calls: how many calls of each kind a
    sequence holds, the keys of its tags in order, and the shape a fully
    traced operation leaves in the log. */
module EventLog {
  import opened Wrappers
  import opened GormModel

  datatype EventKind = StartKind | LogKind | SetTagKind | SetErrorKind | FinishKind

  function KindOf(e: Event): EventKind {
    match e
    case Start(_, _, _) => StartKind
    case Log(_, _, _) => LogKind
    case SetTag(_, _, _) => SetTagKind
    case SetError(_, _) => SetErrorKind
    case Finish(_) => FinishKind
  }

  /** The number of calls of kind `k` in `es`. */
  function Count(es: seq<Event>, k: EventKind): nat
    decreases |es|
  {
    if |es| == 0 then 0
    else (if KindOf(es[0]) == k then 1 else 0) + Count(es[1..], k)
  }

  /** Counting a two-call log. */
  lemma CountPair(a: Event, b: Event, k: EventKind)
    ensures Count([a, b], k) == (if KindOf(a) == k then 1 else 0) + (if KindOf(b) == k then 1 else 0)
  {
    assert [b][1..] == [];
    assert Count([b], k) == (if KindOf(b) == k then 1 else 0);
    assert [a, b][1..] == [b];
  }

  /** Counting distributes over concatenation of logs. */
  lemma {:induction false} CountAppend(a: seq<Event>, b: seq<Event>, k: EventKind)
    ensures Count(a + b, k) == Count(a, k) + Count(b, k)
    decreases |a|
  {
    if |a| == 0 {
      assert a + b == b;
    } else {
      assert (a + b)[1..] == a[1..] + b;
      CountAppend(a[1..], b, k);
    }
  }

  /** A log holds no call of kind `k` exactly when no position holds one. */
  lemma {:induction false} CountZero(es: seq<Event>, k: EventKind)
    ensures Count(es, k) == 0 <==> forall i :: 0 <= i < |es| ==> KindOf(es[i]) != k
    decreases |es|
  {
    if |es| > 0 {
      CountZero(es[1..], k);
      assert forall i :: 1 <= i < |es| ==> es[i] == es[1..][i - 1];
    }
  }

  /** A log holds exactly `|es|` calls of kind `k` exactly when every
      position holds one. */
  lemma {:induction false} CountAll(es: seq<Event>, k: EventKind)
    ensures Count(es, k) == |es| <==> forall i :: 0 <= i < |es| ==> KindOf(es[i]) == k
    decreases |es|
  {
    if |es| > 0 {
      CountAll(es[1..], k);
      CountBound(es[1..], k);
      assert forall i :: 1 <= i < |es| ==> es[i] == es[1..][i - 1];
    }
  }

  /** No kind occurs more often than the log is long. */
  lemma {:induction false} CountBound(es: seq<Event>, k: EventKind)
    ensures Count(es, k) <= |es|
    decreases |es|
  {
    if |es| > 0 {
      CountBound(es[1..], k);
    }
  }

  /** The keys of the `SetTag` calls in `es`, in the order they were made. */
  function TagKeys(es: seq<Event>): (keys: seq<string>)
    ensures |keys| == Count(es, SetTagKind)
    decreases |es|
  {
    if |es| == 0 then []
    else if es[0].SetTag? then [es[0].key] + TagKeys(es[1..])
    else TagKeys(es[1..])
  }

  /** The tag keys of a concatenation are the keys of each part in turn. */
  lemma {:induction false} TagKeysAppend(a: seq<Event>, b: seq<Event>)
    ensures TagKeys(a + b) == TagKeys(a) + TagKeys(b)
    decreases |a|
  {
    if |a| == 0 {
      assert a + b == b;
    } else {
      assert (a + b)[1..] == a[1..] + b;
      TagKeysAppend(a[1..], b);
    }
  }

  /** Every call in `es` concerns span `t`: tags, errors and the finish are
      made on `t` itself and logs are made against `t`'s own context. */
  ghost predicate AboutSpan(es: seq<Event>, t: Trace) {
    forall i :: 0 <= i < |es| ==>
      match es[i]
      case Start(_, _, trace) => trace == t
      case Log(ctx, _, _) => ctx == t.Context()
      case SetTag(trace, _, _) => trace == t
      case SetError(trace, _) => trace == t
      case Finish(trace) => trace == t
  }

  /** The log one fully traced operation leaves: span `t` is started first,
      finished last, started and finished once each, and nothing in between
      concerns any other span. */
  ghost predicate Bracketed(es: seq<Event>, t: Trace) {
    && |es| >= 2
    && es[0] == Start(t.parent, t.operationName, t)
    && es[|es| - 1] == Finish(t)
    && Count(es, StartKind) == 1
    && Count(es, FinishKind) == 1
    && AboutSpan(es, t)
  }

  /** In a log made only of tag calls, the tag keys are the keys position
      by position. */
  lemma {:induction false} TagKeysOfTags(es: seq<Event>)
    requires forall i :: 0 <= i < |es| ==> es[i].SetTag?
    ensures |TagKeys(es)| == |es|
    ensures forall i :: 0 <= i < |es| ==> TagKeys(es)[i] == es[i].key
    decreases |es|
  {
    if |es| > 0 {
      TagKeysOfTags(es[1..]);
      assert forall i :: 1 <= i < |es| ==> es[i] == es[1..][i - 1];
    }
  }

  /** The value of the first tag with key `key`, if any tag has that key. */
  function TagValueOf(es: seq<Event>, key: string): Option<TagValue>
    decreases |es|
  {
    if |es| == 0 then None
    else if es[0].SetTag? && es[0].key == key then Some(es[0].value)
    else TagValueOf(es[1..], key)
  }

  /** The tag at position `i` is the one `TagValueOf` finds when no earlier
      tag has the same key. */
  lemma {:induction false} TagValueAt(es: seq<Event>, key: string, i: nat)
    requires i < |es| && es[i].SetTag? && es[i].key == key
    requires forall j :: 0 <= j < i ==> !(es[j].SetTag? && es[j].key == key)
    ensures TagValueOf(es, key) == Some(es[i].value)
    decreases i
  {
    if i > 0 {
      assert forall j :: 0 <= j < i - 1 ==> es[1..][j] == es[j + 1];
      TagValueAt(es[1..], key, i - 1);
    }
  }

  /** Appending calls after a log that already holds a tag with key `key`
      does not change the value found for it. */
  lemma {:induction false} TagValueOfPrefix(a: seq<Event>, b: seq<Event>, key: string)
    requires TagValueOf(a, key).Some?
    ensures TagValueOf(a + b, key) == TagValueOf(a, key)
    decreases |a|
  {
    assert |a| > 0;
    if !(a[0].SetTag? && a[0].key == key) {
      assert (a + b)[1..] == a[1..] + b;
      TagValueOfPrefix(a[1..], b, key);
    }
  }

  /** Calls that set no tag can be skipped when looking a tag up. */
  lemma {:induction false} TagValueOfSkip(a: seq<Event>, b: seq<Event>, key: string)
    requires forall i :: 0 <= i < |a| ==> !a[i].SetTag?
    ensures TagValueOf(a + b, key) == TagValueOf(b, key)
    decreases |a|
  {
    if |a| == 0 {
      assert a + b == b;
    } else {
      assert (a + b)[1..] == a[1..] + b;
      TagValueOfSkip(a[1..], b, key);
    }
  }
}

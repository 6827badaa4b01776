/** Registration of the tracing hooks: `registerCallbacks` adds the named
    before/after pair for one operation kind around GORM's own processing
    step, and `AddGormCallbacks` does so for all six kinds. GORM's callback
    chains are modelled as an append-only list of registrations. */
module Registration {
  import opened Wrappers
  import opened GormTracer

  /** Where in GORM's chain a callback is put: immediately before or
      immediately after the named built-in callback. */
  datatype Placement = BeforeCallback(anchor: string) | AfterCallback(anchor: string)

  /** One `db.Callback().<Processor>().<Before|After>(anchor).Register(name, fn)`. */
  datatype Registration = Registration(processor: Kind, placement: Placement, name: string, hook: Hook)

  /** The name each kind goes by in callback names. */
  function KindName(k: Kind): string {
    match k
    case Create => "create"
    case Query => "query"
    case Update => "update"
    case Delete => "delete"
    case Row => "row"
    case Raw => "raw"
  }

  /** The `switch name` of `registerCallbacks`: the kind a name selects, if any. */
  function ParseKind(name: string): (k: Option<Kind>)
    ensures k.Some? ==> KindName(k.value) == name
  {
    match name
    case "create" => Some(Create)
    case "query" => Some(Query)
    case "update" => Some(Update)
    case "delete" => Some(Delete)
    case "row" => Some(Row)
    case "raw" => Some(Raw)
    case _ => None
  }

  /** Every kind's name selects that kind, and only those six names select
      anything: `ParseKind` and `KindName` are inverse. */
  lemma ParseKindName(k: Kind)
    ensures ParseKind(KindName(k)) == Some(k)
  {
  }

  const BeforePrefix := "tracing:before_"
  const AfterPrefix := "tracing:after_"

  /** The built-in callback a kind's hooks are anchored to: `gorm:<kind>`. */
  function AnchorName(k: Kind): string {
    "gorm:" + KindName(k)
  }

  /** The name a hook is registered under: `tracing:before_<kind>` or
      `tracing:after_<kind>`. */
  function HookName(h: Hook): string {
    (if h.phase == BeforePhase then BeforePrefix else AfterPrefix) + KindName(h.kind)
  }

  /** Where a hook sits: before-hooks right before the kind's built-in
      callback, after-hooks right after it. */
  function PlacementOf(h: Hook): Placement {
    if h.phase == BeforePhase then BeforeCallback(AnchorName(h.kind)) else AfterCallback(AnchorName(h.kind))
  }

  /** The registration of hook `h` on its own kind's processor. */
  function Registered(h: Hook): Registration {
    Registration(h.kind, PlacementOf(h), HookName(h), h)
  }

  /** `registerCallbacks(db, name, c)`: a known kind name adds its
      before-hook and then its after-hook; any other name adds nothing. */
  function RegisterCallbacks(registry: seq<Registration>, name: string): (r: seq<Registration>)
    ensures ParseKind(name).None? ==> r == registry
    ensures ParseKind(name).Some? ==>
      var k := ParseKind(name).value;
      r == registry + [Registered(Hook(BeforePhase, k)), Registered(Hook(AfterPhase, k))]
  {
    var beforeName := BeforePrefix + name;
    var afterName := AfterPrefix + name;
    var gormCallbackName := "gorm:" + name;
    match ParseKind(name)
    case None => registry
    case Some(k) =>
      registry + [ Registration(k, BeforeCallback(gormCallbackName), beforeName, Hook(BeforePhase, k))
                 , Registration(k, AfterCallback(gormCallbackName), afterName, Hook(AfterPhase, k)) ]
  }

  /** The twelve hooks in the order `AddGormCallbacks` registers them. */
  const AllHooks: seq<Hook> := [
    Hook(BeforePhase, Create), Hook(AfterPhase, Create),
    Hook(BeforePhase, Query), Hook(AfterPhase, Query),
    Hook(BeforePhase, Update), Hook(AfterPhase, Update),
    Hook(BeforePhase, Delete), Hook(AfterPhase, Delete),
    Hook(BeforePhase, Row), Hook(AfterPhase, Row),
    Hook(BeforePhase, Raw), Hook(AfterPhase, Raw)
  ]

  /** The registrations of a list of hooks, in the same order. */
  function RegisteredAll(hooks: seq<Hook>): seq<Registration>
  {
    seq(|hooks|, i requires 0 <= i < |hooks| => Registered(hooks[i]))
  }

  /** The before- and after-registration one kind contributes. */
  function KindPair(k: Kind): seq<Registration> {
    [Registered(Hook(BeforePhase, k)), Registered(Hook(AfterPhase, k))]
  }

  /** `AddGormCallbacks`: registers the hooks of the six kinds, in order. It
      keeps every earlier registration and appends exactly the registrations
      of the twelve hooks. */
  function AddGormCallbacks(registry: seq<Registration>): (r: seq<Registration>)
    ensures r == registry + RegisteredAll(AllHooks)
  {
    ParseKindName(Create);
    ParseKindName(Query);
    ParseKindName(Update);
    ParseKindName(Delete);
    ParseKindName(Row);
    ParseKindName(Raw);
    var r1 := RegisterCallbacks(registry, "create");
    assert r1 == registry + KindPair(Create);
    var r2 := RegisterCallbacks(r1, "query");
    assert r2 == r1 + KindPair(Query);
    var r3 := RegisterCallbacks(r2, "update");
    assert r3 == r2 + KindPair(Update);
    var r4 := RegisterCallbacks(r3, "delete");
    assert r4 == r3 + KindPair(Delete);
    var r5 := RegisterCallbacks(r4, "row");
    assert r5 == r4 + KindPair(Row);
    var r6 := RegisterCallbacks(r5, "raw");
    assert r6 == r5 + KindPair(Raw);
    assert KindPair(Create) + KindPair(Query) + KindPair(Update) + KindPair(Delete) + KindPair(Row) + KindPair(Raw)
      == RegisteredAll(AllHooks);
    r6
  }

  /** Distinct hooks have distinct names: the phase decides the prefix and
      the kind decides the suffix. */
  lemma HookNameInjective(h1: Hook, h2: Hook)
    requires HookName(h1) == HookName(h2)
    ensures h1 == h2
  {
    var n := HookName(h1);
    if h1.phase == h2.phase {
      var prefix := if h1.phase == BeforePhase then BeforePrefix else AfterPrefix;
      assert KindName(h1.kind) == n[|prefix|..];
      assert KindName(h2.kind) == n[|prefix|..];
      ParseKindName(h1.kind);
      ParseKindName(h2.kind);
    } else if h1.phase == BeforePhase {
      PrefixesDiffer(KindName(h1.kind), KindName(h2.kind));
    } else {
      PrefixesDiffer(KindName(h2.kind), KindName(h1.kind));
    }
  }

  /** A before-hook name never equals an after-hook name. */
  lemma PrefixesDiffer(x: string, y: string)
    ensures BeforePrefix + x != AfterPrefix + y
  {
    assert (BeforePrefix + x)[8] == 'b';
    assert (AfterPrefix + y)[8] == 'a';
  }

  /** The position of a hook in `AllHooks`. */
  function HookIndex(h: Hook): (i: nat)
    ensures i < |AllHooks| && AllHooks[i] == h
  {
    match h
    case Hook(BeforePhase, Create) => 0
    case Hook(AfterPhase, Create) => 1
    case Hook(BeforePhase, Query) => 2
    case Hook(AfterPhase, Query) => 3
    case Hook(BeforePhase, Update) => 4
    case Hook(AfterPhase, Update) => 5
    case Hook(BeforePhase, Delete) => 6
    case Hook(AfterPhase, Delete) => 7
    case Hook(BeforePhase, Row) => 8
    case Hook(AfterPhase, Row) => 9
    case Hook(BeforePhase, Raw) => 10
    case Hook(AfterPhase, Raw) => 11
  }

  /** The twelve hooks are pairwise distinct: each sits at its own index. */
  lemma AllHooksDistinct(i: nat, j: nat)
    requires i < j < |AllHooks|
    ensures AllHooks[i] != AllHooks[j]
  {
    var _ := HookIndex(AllHooks[i]);
  }

  /** The twelve registrations `AddGormCallbacks` adds have pairwise
      distinct names. */
  lemma AddedHookNamesDistinct(registry: seq<Registration>)
    ensures var r := AddGormCallbacks(registry);
      && |r| == |registry| + 12
      && forall i, j :: |registry| <= i < j < |r| ==> r[i].name != r[j].name
  {
    var r := AddGormCallbacks(registry);
    var added := RegisteredAll(AllHooks);
    forall i, j | |registry| <= i < j < |r|
      ensures r[i].name != r[j].name
    {
      var i', j' := i - |registry|, j - |registry|;
      assert r[i] == added[i'] == Registered(AllHooks[i']);
      assert r[j] == added[j'] == Registered(AllHooks[j']);
      AllHooksDistinct(i', j');
      if r[i].name == r[j].name {
        HookNameInjective(AllHooks[i'], AllHooks[j']);
      }
    }
  }

  /** Every phase of every kind is among the registrations `AddGormCallbacks`
      adds: on its kind's processor, anchored to `gorm:<kind>` and named
      `tracing:<phase>_<kind>`. The registrations made earlier stay first. */
  lemma AddedHooksCoverAllKinds(registry: seq<Registration>, h: Hook)
    ensures var r := AddGormCallbacks(registry);
      && r[..|registry|] == registry
      && exists i :: |registry| <= i < |r| && r[i] == Registered(h)
  {
    var r := AddGormCallbacks(registry);
    assert r[..|registry|] == registry;
    var k := HookIndex(h);
    assert r[|registry| + k] == RegisteredAll(AllHooks)[k];
  }

  /** A name that is not one of the six kinds registers nothing. */
  lemma UnknownKindRegistersNothing(registry: seq<Registration>, name: string)
    requires forall k: Kind :: name != KindName(k)
    ensures RegisterCallbacks(registry, name) == registry
  {
  }
}

/** The policy-enforcing wrapper around a Mongo service. */
module AuthorizedServices {
  import opened Wrappers
  import opened Values
  import opened Filters
  import opened MongoQuery
  import opened FilterConverter
  import opened Policies
  import opened MongoServices

  /** The caller's condition under the policy filter. */
  function Combine(policyFilter: Filter, condition: Option<Filter>): Filter {
    if condition.None? then policyFilter else AndOf([policyFilter, condition.value])
  }

  /** The combined filter holds where some policy permits the action and the condition holds. */
  lemma CombineMeaning(
    policies: seq<Policy>, user: Option<string>, action: Action, condition: Option<Filter>, row: Row)
    requires PermissionFilter(policies, user, action).Ok?
    ensures var combined := Combine(PermissionFilter(policies, user, action).value, condition);
            && (Holds(combined, Object(row)) <==>
                  SomePermits(policies, user, action, row) && (condition.Some? ==> Holds(condition.value, Object(row))))
            && ((condition.Some? ==> Pushable(condition.value, false)) ==> Pushable(combined, false))
  {
    var policyFilter := PermissionFilter(policies, user, action).value;
    PermissionFilterMeaning(policies, user, action, row);
    if condition.Some? {
      var both := [policyFilter, condition.value];
      AndOfMeaning(both, Object(row));
      assert both[0] in both && both[1] in both;
      if Pushable(condition.value, false) {
        FactoriesKeepPushable(both, false);
      }
    }
  }

  // ----- Single writes -----

  function AuthorizedCreated(
    schema: Schema, policies: seq<Policy>, user: Option<string>, store: Store, item: Payload, generated: Value)
    : Outcome<Row>
  {
    match PermissionFilter(policies, user, Create)
    case Err(e) => Outcome(store, Err(e))
    case Ok(policyFilter) =>
      if policyFilter == NoMatch then Outcome(store, Err(Forbidden)) else Created(schema, store, item, generated)
  }

  /**
   A create goes in exactly when some policy grants creates and the identifier is free. It
   adds that one document, and what it answers is what the stored document reads as.
   */
  lemma AuthorizedCreateExactly(
    schema: Schema, policies: seq<Policy>, user: Option<string>, store: Store, item: Payload, generated: Value)
    requires ValidStore(store)
    ensures var o := AuthorizedCreated(schema, policies, user, store, item, generated);
            var id := if item.id.Some? then item.id.value else generated;
            if !SomePermits(policies, user, Create, map[]) then o == Outcome(store, Err(Forbidden))
            else if id in store then o == Outcome(store, Err(Conflict))
            else
              && o.store.Keys == store.Keys + {id}
              && (forall other :: other in store ==> o.store[other] == store[other])
              && o.store[id][ID] == id
              && (forall field :: field in item.values && field != ID ==>
                    field in o.store[id] && o.store[id][field] == item.values[field])
              && o.store[id].Keys == item.values.Keys + {ID}
              && o.result == Ok(ViewOf(schema, o.store[id])) && ValidStore(o.store)
  {
    CreatePermissionIsConstant(policies, user, map[]);
  }

  function AuthorizedUpdated(
    schema: Schema, policies: seq<Policy>, user: Option<string>, store: Store, item: Payload, condition: Option<Filter>)
    : Outcome<Row>
  {
    match PermissionFilter(policies, user, Update)
    case Err(e) => Outcome(store, Err(e))
    case Ok(policyFilter) =>
      var o := Updated(schema, store, item, Some(Combine(policyFilter, condition)));
      Outcome(o.store, match o.result
                       case Err(e) => Err(e)
                       case Ok(None) => Err(NotFound)
                       case Ok(Some(row)) => Ok(row))
  }

  function AuthorizedDeleted(
    schema: Schema, policies: seq<Policy>, user: Option<string>, store: Store, id: Value, condition: Option<Filter>)
    : Outcome<bool>
  {
    match PermissionFilter(policies, user, Delete)
    case Err(e) => Outcome(store, Err(e))
    case Ok(policyFilter) =>
      var o := Deleted(schema, store, id, Some(Combine(policyFilter, condition)));
      Outcome(o.store, match o.result
                       case Err(e) => Err(e)
                       case Ok(false) => Err(NotFound)
                       case Ok(true) => Ok(true))
  }

  // ----- The scope, for every condition -----

  /** A pushable tree that compiles admits what it holds of. */
  lemma PushableAdmitted(schema: Schema, f: Filter, document: Document)
    requires schema.Valid() && Pushable(f, false)
    ensures Admitted(schema.QueryFields(), f, document)
       <==> Convertible(schema.QueryFields(), f, false) && Holds(f, Object(ViewOf(schema, document)))
  {
    var fields := schema.QueryFields();
    ConvertSucceedsExactly(fields, f, None, false);
    if Convert(fields, f, None, false).Ok? {
      ConvertPreservesMeaning(fields, f, None, false, document);
      HoldsReadsOnly(fields, f, Project(fields, document), ViewOf(schema, document));
    }
  }

  /** A conjunction compiles only if its parts do, or one of them rules everything out. */
  lemma {:induction false} PartsConvertible(fields: FieldMap, fs: seq<Filter>)
    requires forall f :: f in Flatten(true, fs) ==> Convertible(fields, f, false)
    ensures forall f :: f in fs ==> Convertible(fields, f, false)
  {
    if fs != [] {
      SplitFirst(fs);
      PartsConvertible(fields, fs[1..]);
      if fs[0].And? {
        PartsConvertible(fields, fs[0].filters);
        assert forall i :: 0 <= i < |fs[0].filters| ==> fs[0].filters[i] in fs[0].filters;
      }
    }
  }

  lemma FlatOfPair(f: Filter, g: Filter)
    ensures Flatten(true, [f, g]) == Flatten(true, [f]) + Flatten(true, [g])
  {
    assert [f, g][1..] == [g] && [f][1..] == [];
    assert Flatten(true, [f]) + [] == Flatten(true, [f]);
  }

  lemma ConjunctionConvertible(fields: FieldMap, f: Filter, g: Filter)
    requires Convertible(fields, AndOf([f, g]), false)
    ensures (Convertible(fields, f, false) && Convertible(fields, g, false))
         || NoMatch in Flatten(true, [f]) || NoMatch in Flatten(true, [g])
  {
    var flat := Flatten(true, [f, g]);
    var children := Without(flat, All);
    FlatOfPair(f, g);
    WithoutMembers(flat, All);
    if NoMatch !in flat {
      forall h | h in flat
        ensures Convertible(fields, h, false)
      {
        if h != All {
          var i :| 0 <= i < |children| && children[i] == h;
        }
      }
      PartsConvertible(fields, [f, g]);
      assert [f, g][0] == f && [f, g][1] == g;
    }
  }

  /**
   Whatever the caller's condition is, faithfully compiled or not: a document the scoped query
   admits is one some policy permits and the condition's own query admits; and where the scope
   compiles, every such document is admitted.
   */
  lemma ScopeAdmittedExactly(
    schema: Schema, policies: seq<Policy>, user: Option<string>, action: Action, condition: Option<Filter>,
    document: Document)
    requires schema.Valid() && PermissionFilter(policies, user, action).Ok?
    requires Convertible(schema.QueryFields(),
                         Combine(PermissionFilter(policies, user, action).value, condition), false)
    ensures Admitted(schema.QueryFields(), Combine(PermissionFilter(policies, user, action).value, condition), document)
       <==> SomePermits(policies, user, action, ViewOf(schema, document))
            && (condition.Some? ==> Admitted(schema.QueryFields(), condition.value, document))
  {
    var fields, policyFilter := schema.QueryFields(), PermissionFilter(policies, user, action).value;
    PermissionFilterMeaning(policies, user, action, ViewOf(schema, document));
    PushableAdmitted(schema, policyFilter, document);
    if condition.Some? {
      var both := [policyFilter, condition.value];
      AndOfAdmitted(fields, both, document);
      assert both[0] in both && both[1] in both;
      ConjunctionConvertible(fields, policyFilter, condition.value);
      if NoMatch in Flatten(true, [policyFilter]) {
        FlattenMeaning(true, [policyFilter], Object(ViewOf(schema, document)));
        assert !Holds(NoMatch, Object(ViewOf(schema, document)));
      } else if NoMatch in Flatten(true, [condition.value]) {
        FlattenAdmitted(fields, [condition.value], document);
        MatchNoneSelectsNothing(document);
        assert !Admitted(fields, NoMatch, document);
      }
    }
  }

  /**
   A row with this id is stored, some policy permits the action on it, and the condition's own
   query admits it. This is what a write may reach, whatever the condition.
   */
  ghost predicate InReach(
    schema: Schema, policies: seq<Policy>, user: Option<string>, action: Action,
    store: Store, id: Value, condition: Option<Filter>)
  {
    && id in store
    && SomePermits(policies, user, action, ViewOf(schema, store[id]))
    && (condition.Some? ==> Admitted(schema.QueryFields(), condition.value, store[id]))
  }

  /** A row with this id is stored, some policy permits the action on it, and the condition holds of it. */
  ghost predicate InScope(
    schema: Schema, policies: seq<Policy>, user: Option<string>, action: Action,
    store: Store, id: Value, condition: Option<Filter>)
  {
    && id in store
    && SomePermits(policies, user, action, ViewOf(schema, store[id]))
    && (condition.Some? ==> Holds(condition.value, Object(ViewOf(schema, store[id]))))
  }

  /** A pushable condition reaches what it holds of. */
  lemma PushableReach(
    schema: Schema, policies: seq<Policy>, user: Option<string>, action: Action,
    store: Store, id: Value, condition: Option<Filter>)
    requires schema.Valid() && PermissionFilter(policies, user, action).Ok?
    requires condition.Some? ==> Pushable(condition.value, false)
    requires Convertible(schema.QueryFields(),
                         Combine(PermissionFilter(policies, user, action).value, condition), false)
    ensures InReach(schema, policies, user, action, store, id, condition)
       <==> InScope(schema, policies, user, action, store, id, condition)
  {
    if id in store {
      var combined := Combine(PermissionFilter(policies, user, action).value, condition);
      ScopeAdmittedExactly(schema, policies, user, action, condition, store[id]);
      CombineMeaning(policies, user, action, condition, ViewOf(schema, store[id]));
      PushableAdmitted(schema, combined, store[id]);
    }
  }

  lemma ScopedQueryReaches(
    schema: Schema, policies: seq<Policy>, user: Option<string>, action: Action,
    store: Store, id: Value, condition: Option<Filter>)
    requires schema.Valid() && ValidStore(store)
    requires PermissionFilter(policies, user, action).Ok?
    requires WriteQuery(schema, id, Some(Combine(PermissionFilter(policies, user, action).value, condition))).Ok?
    ensures var combined := Combine(PermissionFilter(policies, user, action).value, condition);
            (id in store && Selects(WriteQuery(schema, id, Some(combined)).value, store[id]))
            <==> InReach(schema, policies, user, action, store, id, condition)
  {
    if id in store {
      var combined := Combine(PermissionFilter(policies, user, action).value, condition);
      WriteQueryFailsExactly(schema, id, Some(combined));
      WriteQueryAdmits(schema, id, combined, store[id]);
      ScopeAdmittedExactly(schema, policies, user, action, condition, store[id]);
    }
  }

  /**
   End to end, from policies to documents, for every list of policies and every condition: an
   update changes exactly the addressed document, and exactly when it is in reach. It is
   refused when a policy is overlong, whatever the others permit, without an identifier, or
   when the scope does not compile. Anything else is a not-found that changes nothing, so a
   denied row cannot be told from an absent one.
   */
  lemma AuthorizedUpdateExactly(
    schema: Schema, policies: seq<Policy>, user: Option<string>, store: Store, item: Payload, condition: Option<Filter>)
    requires schema.Valid() && ValidStore(store)
    ensures PermissionFilter(policies, user, Update).Ok? <==> !SomeOverlong(policies, Update)
    ensures var o := AuthorizedUpdated(schema, policies, user, store, item, condition);
            if SomeOverlong(policies, Update) then o == Outcome(store, Err(TooManyValues))
            else if !item.Identified() then o == Outcome(store, Err(MissingIdentifier))
            else
              var id, combined := item.id.value, Combine(PermissionFilter(policies, user, Update).value, condition);
              if !Convertible(schema.QueryFields(), combined, false) then o == Outcome(store, Err(Unsupported))
              else if InReach(schema, policies, user, Update, store, id, condition) then
                && o.store == store[id := store[id] + item.values]
                && o.result == Ok(ViewOf(schema, store[id] + item.values))
              else
                o == Outcome(store, Err(NotFound))
    ensures !SomeOverlong(policies, Update) && item.Identified()
            && Convertible(schema.QueryFields(),
                           Combine(PermissionFilter(policies, user, Update).value, condition), false)
            && (condition.Some? ==> Pushable(condition.value, false)) ==>
              (InReach(schema, policies, user, Update, store, item.id.value, condition)
               <==> InScope(schema, policies, user, Update, store, item.id.value, condition))
  {
    PermissionRaisesExactly(policies, user, Update);
    if !SomeOverlong(policies, Update) && item.Identified() {
      var id, combined := item.id.value, Combine(PermissionFilter(policies, user, Update).value, condition);
      WriteQueryFailsExactly(schema, id, Some(combined));
      if Convertible(schema.QueryFields(), combined, false) {
        ScopedQueryReaches(schema, policies, user, Update, store, id, condition);
        if condition.Some? ==> Pushable(condition.value, false) {
          PushableReach(schema, policies, user, Update, store, id, condition);
        }
      }
    }
  }

  /** The same for an authorized delete. */
  lemma AuthorizedDeleteExactly(
    schema: Schema, policies: seq<Policy>, user: Option<string>, store: Store, id: Value, condition: Option<Filter>)
    requires schema.Valid() && ValidStore(store)
    ensures PermissionFilter(policies, user, Delete).Ok? <==> !SomeOverlong(policies, Delete)
    ensures var o := AuthorizedDeleted(schema, policies, user, store, id, condition);
            if SomeOverlong(policies, Delete) then o == Outcome(store, Err(TooManyValues))
            else
              var combined := Combine(PermissionFilter(policies, user, Delete).value, condition);
              if !Convertible(schema.QueryFields(), combined, false) then o == Outcome(store, Err(Unsupported))
              else if InReach(schema, policies, user, Delete, store, id, condition) then
                o == Outcome(store - {id}, Ok(true))
              else
                o == Outcome(store, Err(NotFound))
    ensures !SomeOverlong(policies, Delete)
            && Convertible(schema.QueryFields(),
                           Combine(PermissionFilter(policies, user, Delete).value, condition), false)
            && (condition.Some? ==> Pushable(condition.value, false)) ==>
              (InReach(schema, policies, user, Delete, store, id, condition)
               <==> InScope(schema, policies, user, Delete, store, id, condition))
  {
    PermissionRaisesExactly(policies, user, Delete);
    if !SomeOverlong(policies, Delete) {
      var combined := Combine(PermissionFilter(policies, user, Delete).value, condition);
      WriteQueryFailsExactly(schema, id, Some(combined));
      if Convertible(schema.QueryFields(), combined, false) {
        ScopedQueryReaches(schema, policies, user, Delete, store, id, condition);
        if condition.Some? ==> Pushable(condition.value, false) {
          PushableReach(schema, policies, user, Delete, store, id, condition);
        }
      }
    }
  }

  /** So no condition leads a write out of the policies: what it changes or answers, some policy permits. */
  lemma AuthorizedWritesStayPermitted(
    schema: Schema, policies: seq<Policy>, user: Option<string>, store: Store, item: Payload, id: Value,
    condition: Option<Filter>)
    requires schema.Valid() && ValidStore(store)
    ensures var o := AuthorizedUpdated(schema, policies, user, store, item, condition);
            o.store != store || o.result.Ok? ==>
              && item.Identified() && item.id.value in store
              && SomePermits(policies, user, Update, ViewOf(schema, store[item.id.value]))
              && o.store == store[item.id.value := store[item.id.value] + item.values]
    ensures var o := AuthorizedDeleted(schema, policies, user, store, id, condition);
            o.store != store || o.result.Ok? ==>
              && id in store && SomePermits(policies, user, Delete, ViewOf(schema, store[id]))
              && o.store == store - {id}
  {
    AuthorizedUpdateExactly(schema, policies, user, store, item, condition);
    AuthorizedDeleteExactly(schema, policies, user, store, id, condition);
  }

  /** An instance: a document whose identifier is listed, in a list that is too long to say so. */
  lemma OverlongAclRefusesUpdate(
    schema: Schema, user: Option<string>, ids: seq<string>, store: Store, item: Payload, condition: Option<Filter>)
    requires schema.Valid() && ValidStore(store)
    requires |Distinct(ids)| > MAX_IN_VALUES && item.Identified() && item.id.value in store
    requires item.id.value.Str? && item.id.value.s in ids && (condition.Some? ==> condition.value == All)
    ensures var policies := [Acl(ids, schema.idField, AllowAll)];
            && InScope(schema, policies, user, Update, store, item.id.value, condition)
            && AuthorizedUpdated(schema, policies, user, store, item, condition) == Outcome(store, Err(TooManyValues))
  {
    var acl := Acl(ids, schema.idField, AllowAll);
    var policies, document := [acl], store[item.id.value];
    AuthorizedUpdateExactly(schema, policies, user, store, item, condition);
    assert policies[0] in policies && Overlong(acl, Update);
    assert Read(ViewOf(schema, document), schema.idField) == document[ID] == item.id.value;
    assert Permits(acl, user, Update, ViewOf(schema, document));
  }

  /** A scope that cannot be pushed down is refused, never applied in part, by updates and deletes alike. */
  lemma UnconvertibleScopeWritesNothing(
    schema: Schema, policies: seq<Policy>, user: Option<string>, store: Store, item: Payload, condition: Option<Filter>)
    requires PermissionFilter(policies, user, Update).Ok? && item.Identified()
    ensures AuthorizedUpdated(schema, policies, user, store, item, condition) == Outcome(store, Err(Unsupported))
       <==> !Convertible(schema.QueryFields(),
                         Combine(PermissionFilter(policies, user, Update).value, condition), false)
  {
    var combined := Combine(PermissionFilter(policies, user, Update).value, condition);
    WriteQueryFailsExactly(schema, item.id.value, Some(combined));
  }

  lemma UnconvertibleScopeDeletesNothing(
    schema: Schema, policies: seq<Policy>, user: Option<string>, store: Store, id: Value, condition: Option<Filter>)
    requires PermissionFilter(policies, user, Delete).Ok?
    ensures AuthorizedDeleted(schema, policies, user, store, id, condition) == Outcome(store, Err(Unsupported))
       <==> !Convertible(schema.QueryFields(),
                         Combine(PermissionFilter(policies, user, Delete).value, condition), false)
  {
    var combined := Combine(PermissionFilter(policies, user, Delete).value, condition);
    WriteQueryFailsExactly(schema, id, Some(combined));
  }

  // ----- Batches -----

  /** What becomes of one node: denied (None), or the node to pass on, scoped by its own action. */
  function Gate(policies: seq<Policy>, user: Option<string>, edit: Edit): Result<Option<Edit>, Error> {
    if edit.UpdateEdit? && !edit.item.Identified() then Ok(None)
    else if edit.DeleteEdit? && edit.id == Null then Ok(None)
    else
      match PermissionFilter(policies, user, ActionOf(edit))
      case Err(e) => Err(e)
      case Ok(policyFilter) =>
        match edit
        case CreateEdit(_, _) => Ok(if policyFilter == NoMatch then None else Some(edit))
        case UpdateEdit(item, condition) => Ok(Some(UpdateEdit(item, Some(Combine(policyFilter, condition)))))
        case DeleteEdit(id, condition) => Ok(Some(DeleteEdit(id, Some(Combine(policyFilter, condition)))))
  }

  /** An update or delete names its target; a create needs none. */
  predicate Targeted(edit: Edit) {
    (edit.UpdateEdit? ==> edit.item.Identified()) && (edit.DeleteEdit? ==> edit.id != Null)
  }

  /** The node asks the policies about an action one of them is overlong for. */
  predicate AsksOverlong(policies: seq<Policy>, edit: Edit) {
    Targeted(edit) && SomeOverlong(policies, ActionOf(edit))
  }

  /** A gate raises exactly when its node asks an overlong policy; a create never does. */
  lemma GateRaisesExactly(policies: seq<Policy>, user: Option<string>, edit: Edit)
    ensures Gate(policies, user, edit).Err? <==> AsksOverlong(policies, edit)
    ensures Gate(policies, user, edit).Err? ==> Gate(policies, user, edit).error == TooManyValues
    ensures edit.CreateEdit? ==> Gate(policies, user, edit).Ok?
  {
    PermissionRaisesExactly(policies, user, ActionOf(edit));
    if edit.CreateEdit? {
      CreatePermissionIsConstant(policies, user, map[]);
    }
  }

  function GateEach(policies: seq<Policy>, user: Option<string>, edits: seq<Edit>): Result<seq<Option<Edit>>, Error> {
    if edits == [] then Ok([])
    else
      match Gate(policies, user, edits[0])
      case Err(e) => Err(e)
      case Ok(first) =>
        match GateEach(policies, user, edits[1..])
        case Err(e) => Err(e)
        case Ok(rest) => Ok([first] + rest)
  }

  /** One decided node: a denied one answers None and writes nothing. */
  function GateApplied(schema: Schema, supported: set<Action>, store: Store, gate: Option<Edit>): Outcome<Option<Row>> {
    if gate.None? then Outcome(store, Ok(None)) else AppliedOne(schema, supported, store, gate.value)
  }

  /** The specification: take the nodes one at a time; a denied one answers None and writes nothing. */
  function OneByOne(schema: Schema, supported: set<Action>, store: Store, gates: seq<Option<Edit>>)
    : Outcome<seq<Option<Row>>>
    decreases gates
  {
    if gates == [] then Outcome(store, Ok([]))
    else
      var first := GateApplied(schema, supported, store, gates[0]);
      match first.result
      case Err(e) => Outcome(first.store, Err(e))
      case Ok(row) => Prepended([row], OneByOne(schema, supported, first.store, gates[1..]))
  }

  function Permitted(gates: seq<Option<Edit>>): seq<Edit> {
    if gates == [] then []
    else (if gates[0].None? then [] else [gates[0].value]) + Permitted(gates[1..])
  }

  /** Puts the results of the permitted nodes back at their positions, None elsewhere. */
  function Realigned(gates: seq<Option<Edit>>, rows: seq<Option<Row>>): seq<Option<Row>>
    requires |rows| == |Permitted(gates)|
    decreases gates
  {
    if gates == [] then []
    else if gates[0].None? then [None] + Realigned(gates[1..], rows)
    else [rows[0]] + Realigned(gates[1..], rows[1..])
  }

  /** Gating a list from node i on: the gates so far and the rest make up the whole. */
  ghost predicate GatedSoFar(
    policies: seq<Policy>, user: Option<string>, edits: seq<Edit>, i: nat, gates: seq<Option<Edit>>)
    requires i <= |edits|
  {
    GateEach(policies, user, edits) ==
      match GateEach(policies, user, edits[i..])
      case Err(e) => Err(e)
      case Ok(rest) => Ok(gates + rest)
  }

  lemma GatedOneMore(policies: seq<Policy>, user: Option<string>, edits: seq<Edit>, i: nat, gates: seq<Option<Edit>>)
    requires i < |edits| && GatedSoFar(policies, user, edits, i, gates)
    ensures match Gate(policies, user, edits[i])
            case Err(e) => GateEach(policies, user, edits) == Err(e)
            case Ok(gate) => GatedSoFar(policies, user, edits, i + 1, gates + [gate])
  {
    assert edits[i..][0] == edits[i] && edits[i..][1..] == edits[i + 1..];
    var gate, rest := Gate(policies, user, edits[i]), GateEach(policies, user, edits[i + 1..]);
    if gate.Ok? && rest.Ok? {
      assert gates + ([gate.value] + rest.value) == gates + [gate.value] + rest.value;
    }
  }

  lemma {:induction false} PermittedSnoc(gates: seq<Option<Edit>>, gate: Option<Edit>)
    ensures Permitted(gates + [gate]) == Permitted(gates) + (if gate.None? then [] else [gate.value])
  {
    if gates != [] {
      assert (gates + [gate])[1..] == gates[1..] + [gate];
      PermittedSnoc(gates[1..], gate);
    }
  }

  lemma {:induction false} PermittedAreValid(policies: seq<Policy>, user: Option<string>, edits: seq<Edit>)
    requires GateEach(policies, user, edits).Ok?
    requires forall e :: e in edits ==> ValidEdit(e)
    ensures forall e :: e in Permitted(GateEach(policies, user, edits).value) ==> ValidEdit(e)
  {
    if edits != [] {
      assert edits[0] in edits;
      PermittedAreValid(policies, user, edits[1..]);
      var rest := GateEach(policies, user, edits[1..]).value;
      assert GateEach(policies, user, edits).value[1..] == rest;
    }
  }

  lemma {:induction false} NothingRealigned(gates: seq<Option<Edit>>)
    requires Permitted(gates) == []
    ensures Realigned(gates, []) == seq(|gates|, _ => None)
  {
    if gates != [] {
      NothingRealigned(gates[1..]);
    }
  }

  /**
   Filtering a batch, applying what is left through the inner service and re-aligning
   the results is the same as taking the nodes one by one: same store, same error,
   same answer at every position.
   */
  lemma {:induction false} BatchRefinesOneByOne(
    schema: Schema, supported: set<Action>, store: Store, gates: seq<Option<Edit>>)
    ensures var inner := AppliedEach(schema, supported, store, Permitted(gates));
            && (inner.result.Ok? ==> |inner.result.value| == |Permitted(gates)|)
            && OneByOne(schema, supported, store, gates) ==
               Outcome(inner.store, match inner.result
                                    case Err(e) => Err(e)
                                    case Ok(rows) => Ok(Realigned(gates, rows)))
    decreases gates
  {
    AppliedEachLength(schema, supported, store, Permitted(gates));
    if gates != [] {
      if gates[0].None? {
        assert Permitted(gates) == Permitted(gates[1..]);
        BatchRefinesOneByOne(schema, supported, store, gates[1..]);
      } else {
        var one := AppliedOne(schema, supported, store, gates[0].value);
        assert Permitted(gates)[0] == gates[0].value && Permitted(gates)[1..] == Permitted(gates[1..]);
        BatchRefinesOneByOne(schema, supported, one.store, gates[1..]);
        var inner := AppliedEach(schema, supported, store, Permitted(gates));
        if inner.result.Ok? {
          assert inner.result.value[1..]
              == AppliedEach(schema, supported, one.store, Permitted(gates[1..])).result.value;
        }
      }
    }
  }

  /** A one-by-one run answers at every position, and None wherever the gate is closed. */
  lemma {:induction false} OneByOneAligned(
    schema: Schema, supported: set<Action>, store: Store, gates: seq<Option<Edit>>)
    requires OneByOne(schema, supported, store, gates).result.Ok?
    ensures |OneByOne(schema, supported, store, gates).result.value| == |gates|
    ensures forall i :: 0 <= i < |gates| && gates[i].None? ==>
              OneByOne(schema, supported, store, gates).result.value[i] == None
    decreases gates
  {
    if gates != [] {
      var first := GateApplied(schema, supported, store, gates[0]);
      OneByOneAligned(schema, supported, first.store, gates[1..]);
      assert forall i :: 1 <= i < |gates| ==> gates[i] == gates[1..][i - 1];
    }
  }

  /** What one node of a batch does, once its gate has answered, said without queries. */
  ghost function NodeOutcome(
    schema: Schema, supported: set<Action>, policies: seq<Policy>, user: Option<string>, store: Store, edit: Edit)
    : Outcome<Option<Row>>
    requires PermissionFilter(policies, user, ActionOf(edit)).Ok?
  {
    var policyFilter := PermissionFilter(policies, user, ActionOf(edit)).value;
    if !Targeted(edit) || (edit.CreateEdit? && !SomePermits(policies, user, Create, map[])) then
      Outcome(store, Ok(None))
    else if ActionOf(edit) !in supported then Outcome(store, Err(InvalidInput))
    else if edit.CreateEdit? then
      var id := if edit.item.id.Some? then edit.item.id.value else edit.generated;
      var document := edit.item.values[ID := id];
      if id in store then Outcome(store, Err(Conflict))
      else Outcome(store[id := document], Ok(Some(ViewOf(schema, document))))
    else if !Convertible(schema.QueryFields(), Combine(policyFilter, edit.condition), false) then
      Outcome(store, Err(Unsupported))
    else if edit.UpdateEdit? then
      var id := edit.item.id.value;
      if InReach(schema, policies, user, Update, store, id, edit.condition) then
        Outcome(store[id := store[id] + edit.item.values], Ok(Some(ViewOf(schema, store[id] + edit.item.values))))
      else Outcome(store, Ok(None))
    else if InReach(schema, policies, user, Delete, store, edit.id, edit.condition) then
      Outcome(store - {edit.id}, Ok(None))
    else Outcome(store, Ok(None))
  }

  /**
   One node of a batch, for all policies and conditions: its gate raises exactly when it asks
   an overlong policy. Otherwise a create goes in exactly when a policy grants it, an update or
   a delete acts exactly on the document it addresses, exactly when that is in reach, and a
   pushable condition reaches what it holds of.
   */
  lemma GatedNodeExactly(
    schema: Schema, supported: set<Action>, policies: seq<Policy>, user: Option<string>, store: Store, edit: Edit)
    requires schema.Valid() && ValidStore(store)
    ensures AsksOverlong(policies, edit) ==> Gate(policies, user, edit) == Err(TooManyValues)
    ensures !AsksOverlong(policies, edit) ==> Gate(policies, user, edit).Ok?
    ensures !AsksOverlong(policies, edit) && Targeted(edit) ==> PermissionFilter(policies, user, ActionOf(edit)).Ok?
    ensures !AsksOverlong(policies, edit) && Targeted(edit) ==>
              GateApplied(schema, supported, store, Gate(policies, user, edit).value)
              == NodeOutcome(schema, supported, policies, user, store, edit)
    ensures !AsksOverlong(policies, edit) && Targeted(edit) && !edit.CreateEdit?
            && Convertible(schema.QueryFields(),
                           Combine(PermissionFilter(policies, user, ActionOf(edit)).value, edit.condition), false)
            && (edit.condition.Some? ==> Pushable(edit.condition.value, false)) ==>
              var id := if edit.UpdateEdit? then edit.item.id.value else edit.id;
              InReach(schema, policies, user, ActionOf(edit), store, id, edit.condition)
              <==> InScope(schema, policies, user, ActionOf(edit), store, id, edit.condition)
    ensures !Targeted(edit) ==> Gate(policies, user, edit) == Ok(None)
    ensures edit.CreateEdit? ==>
              Gate(policies, user, edit) == Ok(if SomePermits(policies, user, Create, map[]) then Some(edit) else None)
  {
    GateRaisesExactly(policies, user, edit);
    PermissionRaisesExactly(policies, user, ActionOf(edit));
    if edit.CreateEdit? {
      CreatePermissionIsConstant(policies, user, map[]);
    } else if Targeted(edit) && !AsksOverlong(policies, edit) {
      var id := if edit.UpdateEdit? then edit.item.id.value else edit.id;
      var combined := Combine(PermissionFilter(policies, user, ActionOf(edit)).value, edit.condition);
      WriteQueryFailsExactly(schema, id, Some(combined));
      if Convertible(schema.QueryFields(), combined, false) {
        ScopedQueryReaches(schema, policies, user, ActionOf(edit), store, id, edit.condition);
        if edit.condition.Some? ==> Pushable(edit.condition.value, false) {
          PushableReach(schema, policies, user, ActionOf(edit), store, id, edit.condition);
        }
      }
    }
  }

  /** No node of a batch, whatever its condition, changes what no policy permits it to. */
  lemma GatedNodeStaysPermitted(
    schema: Schema, supported: set<Action>, policies: seq<Policy>, user: Option<string>, store: Store, edit: Edit)
    requires schema.Valid() && ValidStore(store)
    ensures var gate := Gate(policies, user, edit);
            gate.Ok? && GateApplied(schema, supported, store, gate.value).store != store ==>
              && Targeted(edit)
              && var after := GateApplied(schema, supported, store, gate.value).store;
                 match edit
                 case CreateEdit(item, generated) =>
                   var id := if item.id.Some? then item.id.value else generated;
                   && SomePermits(policies, user, Create, map[])
                   && id !in store && id in after && after == store[id := after[id]]
                 case UpdateEdit(item, _) =>
                   var id := item.id.value;
                   && id in store && SomePermits(policies, user, Update, ViewOf(schema, store[id]))
                   && after == store[id := store[id] + item.values]
                 case DeleteEdit(id, _) =>
                   && id in store && SomePermits(policies, user, Delete, ViewOf(schema, store[id]))
                   && after == store - {id}
  {
    GatedNodeExactly(schema, supported, policies, user, store, edit);
  }

  // ----- A caller who may only read -----

  lemma {:induction false} ReadOnlyReduces(policies: seq<Policy>, user: Option<string>, action: Action)
    requires forall p :: p in policies ==> p == ReadOnly
    requires action in {Create, Update, Delete} || action.Custom?
    ensures ReduceAll(policies, user, action).Ok?
    ensures forall f :: f in ReduceAll(policies, user, action).value ==> f == NoMatch
  {
    if policies != [] {
      assert policies[0] in policies;
      assert forall p :: p in policies[1..] ==> p in policies;
      ReadOnlyReduces(policies[1..], user, action);
    }
  }

  lemma ReadOnlyPermissionIsNothing(policies: seq<Policy>, user: Option<string>, action: Action)
    requires forall p :: p in policies ==> p == ReadOnly
    requires action in {Create, Update, Delete} || action.Custom?
    ensures PermissionFilter(policies, user, action) == Ok(NoMatch)
  {
    ReadOnlyReduces(policies, user, action);
    OrOfConstants(ReduceAll(policies, user, action).value);
  }

  lemma NothingUnderNoMatch(schema: Schema, id: Value, condition: Option<Filter>, document: Document)
    ensures WriteQuery(schema, id, Some(Combine(NoMatch, condition))).Ok?
    ensures !Selects(WriteQuery(schema, id, Some(Combine(NoMatch, condition))).value, document)
  {
    if condition.Some? {
      assert Flatten(true, [NoMatch, condition.value])[0] == NoMatch;
      assert Combine(NoMatch, condition) == NoMatch;
    }
    WriteQueryAdmits(schema, id, NoMatch, document);
    ConstantsAdmitted(schema.QueryFields(), document);
  }

  /**
   Policies that only let a caller read, or no policies at all: creates are forbidden, updates and
   deletes find nothing, whatever the condition, and no node of a batch is written or answers a row.
   */
  lemma ReadOnlyWritesNothing(
    schema: Schema, supported: set<Action>, policies: seq<Policy>, user: Option<string>, store: Store,
    item: Payload, generated: Value, id: Value, condition: Option<Filter>)
    requires forall p :: p in policies ==> p == ReadOnly
    ensures AuthorizedCreated(schema, policies, user, store, item, generated) == Outcome(store, Err(Forbidden))
    ensures AuthorizedUpdated(schema, policies, user, store, item, condition)
         == Outcome(store, Err(if item.Identified() then NotFound else MissingIdentifier))
    ensures AuthorizedDeleted(schema, policies, user, store, id, condition) == Outcome(store, Err(NotFound))
    ensures forall edit: Edit ::
              edit == CreateEdit(item, generated) || edit == UpdateEdit(item, condition)
              || edit == DeleteEdit(id, condition) ==>
                && Gate(policies, user, edit).Ok?
                && var o := GateApplied(schema, supported, store, Gate(policies, user, edit).value);
                   o.store == store && (o.result.Ok? ==> o.result.value.None?)
  {
    ReadOnlyPermissionIsNothing(policies, user, Create);
    ReadOnlyPermissionIsNothing(policies, user, Update);
    ReadOnlyPermissionIsNothing(policies, user, Delete);
    forall target: Value, document: Document
      ensures WriteQuery(schema, target, Some(Combine(NoMatch, condition))).Ok?
      ensures !Selects(WriteQuery(schema, target, Some(Combine(NoMatch, condition))).value, document)
    {
      NothingUnderNoMatch(schema, target, condition, document);
    }
  }

  // ----- The service -----

  class AuthorizedService {
    const inner: MongoService
    const policies: seq<Policy>
    const user: Option<string>

    constructor (inner: MongoService, policies: seq<Policy>, user: Option<string>)
      ensures this.inner == inner && this.policies == policies && this.user == user
    {
      this.inner := inner;
      this.policies := policies;
      this.user := user;
    }

    method CreateRow(item: Payload, generated: Value) returns (result: Result<Row, Error>)
      modifies inner
      ensures Outcome(inner.documents, result)
           == AuthorizedCreated(inner.schema, policies, user, old(inner.documents), item, generated)
    {
      var policyFilter := PermissionFilter(policies, user, Create);
      if policyFilter.Err? {
        return Err(policyFilter.error);
      }
      if policyFilter.value == NoMatch {
        return Err(Forbidden);
      }
      result := inner.CreateOne(item, generated);
    }

    method UpdateRow(item: Payload, condition: Option<Filter>) returns (result: Result<Row, Error>)
      requires ValidStore(inner.documents) && item.Valid()
      modifies inner
      ensures Outcome(inner.documents, result)
           == AuthorizedUpdated(inner.schema, policies, user, old(inner.documents), item, condition)
    {
      var policyFilter := PermissionFilter(policies, user, Update);
      if policyFilter.Err? {
        return Err(policyFilter.error);
      }
      var updated := inner.UpdateOne(item, Some(Combine(policyFilter.value, condition)));
      result := match updated
                case Err(e) => Err(e)
                case Ok(None) => Err(NotFound)
                case Ok(Some(row)) => Ok(row);
    }

    method DeleteRow(id: Value, condition: Option<Filter>) returns (result: Result<bool, Error>)
      requires ValidStore(inner.documents)
      modifies inner
      ensures Outcome(inner.documents, result)
           == AuthorizedDeleted(inner.schema, policies, user, old(inner.documents), id, condition)
    {
      var policyFilter := PermissionFilter(policies, user, Delete);
      if policyFilter.Err? {
        return Err(policyFilter.error);
      }
      var deleted := inner.DeleteOne(id, Some(Combine(policyFilter.value, condition)));
      result := match deleted
                case Err(e) => Err(e)
                case Ok(false) => Err(NotFound)
                case Ok(true) => Ok(true);
    }

    /** _action_filter: the permission filter of an action, asked for at most once per batch. */
    method ActionFilter(memo: map<Action, Filter>, action: Action)
      returns (grown: map<Action, Filter>, policyFilter: Result<Filter, Error>)
      requires forall a :: a in memo ==> PermissionFilter(policies, user, a) == Ok(memo[a])
      ensures policyFilter == PermissionFilter(policies, user, action)
      ensures grown == if policyFilter.Ok? then memo[action := policyFilter.value] else memo
    {
      if action in memo {
        assert memo[action := memo[action]] == memo;
        return memo, Ok(memo[action]);
      }
      policyFilter := PermissionFilter(policies, user, action);
      grown := if policyFilter.Ok? then memo[action := policyFilter.value] else memo;
    }

    /** Decides one node: denied, passed on under its own action's scope, or an error. */
    method ScreenOne(memo: map<Action, Filter>, edit: Edit)
      returns (grown: map<Action, Filter>, gate: Result<Option<Edit>, Error>)
      requires forall a :: a in memo ==> PermissionFilter(policies, user, a) == Ok(memo[a])
      ensures forall a :: a in grown ==> PermissionFilter(policies, user, a) == Ok(grown[a])
      ensures gate == Gate(policies, user, edit)
    {
      grown := memo;
      if (edit.UpdateEdit? && !edit.item.Identified()) || (edit.DeleteEdit? && edit.id == Null) {
        return grown, Ok(None);
      }
      var policyFilter;
      grown, policyFilter := ActionFilter(memo, ActionOf(edit));
      if policyFilter.Err? {
        return grown, Err(policyFilter.error);
      }
      match edit
      case CreateEdit(_, _) =>
        gate := Ok(if policyFilter.value == NoMatch then None else Some(edit));
      case UpdateEdit(item, condition) =>
        gate := Ok(Some(UpdateEdit(item, Some(Combine(policyFilter.value, condition)))));
      case DeleteEdit(id, condition) =>
        gate := Ok(Some(DeleteEdit(id, Some(Combine(policyFilter.value, condition)))));
    }

    /** The first half of apply_edits: a flag for every node, and the scoped nodes to pass on. */
    method Screen(edits: seq<Edit>)
      returns (failure: Option<Error>, flags: seq<bool>, permitted: seq<Edit>, ghost gates: seq<Option<Edit>>)
      ensures GateEach(policies, user, edits) == if failure.None? then Ok(gates) else Err(failure.value)
      ensures failure.None? ==>
                && |flags| == |gates| == |edits|
                && (forall k :: 0 <= k < |flags| ==> (flags[k] <==> gates[k].Some?))
                && permitted == Permitted(gates)
    {
      var memo: map<Action, Filter> := map[];
      failure, flags, permitted, gates := None, [], [], [];
      assert GatedSoFar(policies, user, edits, 0, []) by {
        assert edits[0..] == edits;
        assert forall s: seq<Option<Edit>> :: [] + s == s;
      }
      for i := 0 to |edits|
        invariant forall a :: a in memo ==> PermissionFilter(policies, user, a) == Ok(memo[a])
        invariant GatedSoFar(policies, user, edits, i, gates)
        invariant |flags| == |gates| == i && forall k :: 0 <= k < i ==> (flags[k] <==> gates[k].Some?)
        invariant permitted == Permitted(gates)
      {
        GatedOneMore(policies, user, edits, i, gates);
        var gate;
        memo, gate := ScreenOne(memo, edits[i]);
        if gate.Err? {
          failure := Some(gate.error);
          return;
        }
        flags := flags + [gate.value.Some?];
        if gate.value.Some? {
          permitted := permitted + [gate.value.value];
        }
        PermittedSnoc(gates, gate.value);
        gates := gates + [gate.value];
      }
      assert gates + [] == gates;
    }

    /** apply_edits: filter the nodes, apply the permitted ones, and re-align the answers. */
    method ApplyEdits(edits: seq<Edit>) returns (result: Result<seq<Option<Row>>, Error>)
      requires ValidStore(inner.documents) && forall e :: e in edits ==> ValidEdit(e)
      modifies inner
      ensures match GateEach(policies, user, edits)
              case Err(e) => result == Err(e) && inner.documents == old(inner.documents)
              case Ok(gates) =>
                Outcome(inner.documents, result)
                == OneByOne(inner.schema, inner.supported, old(inner.documents), gates)
      ensures ValidStore(inner.documents)
    {
      var failure, flags, permitted, gates := Screen(edits);
      if failure.Some? {
        return Err(failure.value);
      }
      BatchRefinesOneByOne(inner.schema, inner.supported, inner.documents, gates);
      PermittedAreValid(policies, user, edits);
      if permitted == [] {
        NothingRealigned(gates);
        return Ok(seq(|edits|, _ => None));
      }
      var edited := inner.ApplyEdits(permitted);
      if edited.Err? {
        return Err(edited.error);
      }
      var rows := Realign(flags, edited.value, gates);
      result := Ok(rows);
    }

    /** Walks the flags with an iterator over the inner results. */
    method Realign(flags: seq<bool>, edited: seq<Option<Row>>, ghost gates: seq<Option<Edit>>)
      returns (rows: seq<Option<Row>>)
      requires |flags| == |gates| && forall k :: 0 <= k < |flags| ==> (flags[k] <==> gates[k].Some?)
      requires |edited| == |Permitted(gates)|
      ensures rows == Realigned(gates, edited)
    {
      rows := [];
      var next := 0;
      for i := 0 to |flags|
        invariant next <= |edited| && |edited[next..]| == |Permitted(gates[i..])|
        invariant rows + Realigned(gates[i..], edited[next..]) == Realigned(gates, edited)
      {
        assert gates[i..][0] == gates[i] && gates[i..][1..] == gates[i + 1..];
        if flags[i] {
          assert edited[next..][1..] == edited[next + 1..];
          rows := rows + [edited[next]];
          next := next + 1;
        } else {
          rows := rows + [None];
        }
      }
    }
  }
}

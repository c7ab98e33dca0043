/** The Mongo service: one collection, written through conditional document operations. */
module MongoServices {
  import opened Wrappers
  import opened Values
  import opened Filters
  import opened MongoQuery
  import opened FilterConverter
  import opened Policies

  const ID := "_id"

  /** What a resource declares: its identifier, its attributes, and the queryable ones. */
  datatype Schema = Schema(idField: string, attributes: set<string>, queryable: set<string>)
  {
    predicate Valid() {
      idField in attributes && queryable <= attributes && (ID in attributes ==> idField == ID)
    }

    /** The identifier is stored under _id; every other attribute keeps its name. */
    function FieldFor(attribute: string): string {
      if attribute == idField then ID else attribute
    }

    function QueryFields(): FieldMap {
      map a | a in queryable :: FieldFor(a)
    }

    function AllFields(): FieldMap {
      map a | a in attributes :: FieldFor(a)
    }
  }

  type Row = map<string, Value>

  /** The documents of a collection by identifier. */
  type Store = map<Value, Document>

  ghost predicate ValidStore(store: Store) {
    forall id :: id in store ==> ID in store[id] && store[id][ID] == id
  }

  /**
   A write payload: the identifier, absent or given, and the other supplied
   attributes, operation defaults included.
   */
  datatype Payload = Payload(id: Option<Value>, values: map<string, Value>)
  {
    predicate Valid() { ID !in values }

    predicate Identified() { id.Some? && id.value != Null }
  }

  datatype Edit =
    | CreateEdit(item: Payload, generated: Value)
    | UpdateEdit(item: Payload, condition: Option<Filter>)
    | DeleteEdit(id: Value, condition: Option<Filter>)

  predicate ValidEdit(edit: Edit) {
    edit.DeleteEdit? || edit.item.Valid()
  }

  /** The collection after an operation, and what the operation answered. */
  datatype Outcome<T> = Outcome(store: Store, result: Result<T, Error>)

  function ViewOf(schema: Schema, document: Document): Row {
    Project(schema.AllFields(), document)
  }

  // ----- Operations on the collection, as functions -----

  /** The identifier, merged with the condition when there is one. */
  function WriteQuery(schema: Schema, id: Value, condition: Option<Filter>): Result<Query, Error> {
    var byId := Fields(map[ID := Equals(id)]);
    if condition.None? then Ok(byId)
    else
      match Convert(schema.QueryFields(), condition.value, None, false)
      case Err(e) => Err(e)
      case Ok(extra) => Ok(MergeQuery(Some(byId), extra).value)
  }

  function Created(schema: Schema, store: Store, item: Payload, generated: Value): Outcome<Row> {
    var id := if item.id.Some? then item.id.value else generated;
    var document := item.values[ID := id];
    if id in store then Outcome(store, Err(Conflict))
    else Outcome(store[id := document], Ok(ViewOf(schema, document)))
  }

  function Updated(schema: Schema, store: Store, item: Payload, condition: Option<Filter>): Outcome<Option<Row>> {
    if !item.Identified() then Outcome(store, Err(MissingIdentifier))
    else
      var id := item.id.value;
      match WriteQuery(schema, id, condition)
      case Err(e) => Outcome(store, Err(e))
      case Ok(query) =>
        if id in store && Selects(query, store[id]) then
          var document := store[id] + item.values;
          Outcome(store[id := document], Ok(Some(ViewOf(schema, document))))
        else Outcome(store, Ok(None))
  }

  function Deleted(schema: Schema, store: Store, id: Value, condition: Option<Filter>): Outcome<bool> {
    match WriteQuery(schema, id, condition)
    case Err(e) => Outcome(store, Err(e))
    case Ok(query) =>
      if id in store && Selects(query, store[id]) then Outcome(store - {id}, Ok(true))
      else Outcome(store, Ok(false))
  }

  function ActionOf(edit: Edit): Action {
    match edit
    case CreateEdit(_, _) => Create
    case UpdateEdit(_, _) => Update
    case DeleteEdit(_, _) => Delete
  }

  /** One node of a batch: a delete, like a miss, answers None. */
  function AppliedOne(schema: Schema, supported: set<Action>, store: Store, edit: Edit): Outcome<Option<Row>> {
    if ActionOf(edit) !in supported then Outcome(store, Err(InvalidInput))
    else
      match edit
      case CreateEdit(item, generated) =>
        var o := Created(schema, store, item, generated);
        Outcome(o.store, match o.result case Ok(row) => Ok(Some(row)) case Err(e) => Err(e))
      case UpdateEdit(item, condition) => Updated(schema, store, item, condition)
      case DeleteEdit(id, condition) =>
        var o := Deleted(schema, store, id, condition);
        Outcome(o.store, match o.result case Ok(_) => Ok(None) case Err(e) => Err(e))
  }

  /** The rows of earlier nodes, in front of what the later nodes answer. */
  function Prepended(rows: seq<Option<Row>>, later: Outcome<seq<Option<Row>>>): Outcome<seq<Option<Row>>> {
    if later.result.Err? then later else Outcome(later.store, Ok(rows + later.result.value))
  }

  /** A batch: the nodes in order, stopping at the first that raises. */
  function AppliedEach(schema: Schema, supported: set<Action>, store: Store, edits: seq<Edit>)
    : Outcome<seq<Option<Row>>>
    decreases edits
  {
    if edits == [] then Outcome(store, Ok([]))
    else
      var first := AppliedOne(schema, supported, store, edits[0]);
      match first.result
      case Err(e) => Outcome(first.store, Err(e))
      case Ok(row) => Prepended([row], AppliedEach(schema, supported, first.store, edits[1..]))
  }

  // ----- Facts about batches -----

  lemma PrependedTwice(front: seq<Option<Row>>, rows: seq<Option<Row>>, later: Outcome<seq<Option<Row>>>)
    ensures Prepended(front + rows, later) == Prepended(front, Prepended(rows, later))
    ensures Prepended([], later) == later
  {
    if later.result.Ok? {
      assert front + rows + later.result.value == front + (rows + later.result.value);
      assert [] + later.result.value == later.result.value;
    }
  }

  /** A batch in two parts is the first part and then, if it did not raise, the second. */
  lemma {:induction false} AppliedEachConcat(
    schema: Schema, supported: set<Action>, store: Store, first: seq<Edit>, second: seq<Edit>)
    ensures var a := AppliedEach(schema, supported, store, first);
            AppliedEach(schema, supported, store, first + second) ==
            if a.result.Err? then a
            else Prepended(a.result.value, AppliedEach(schema, supported, a.store, second))
    decreases first
  {
    if first == [] {
      assert first + second == second;
      PrependedTwice([], [], AppliedEach(schema, supported, store, second));
    } else {
      assert (first + second)[0] == first[0] && (first + second)[1..] == first[1..] + second;
      var one := AppliedOne(schema, supported, store, first[0]);
      AppliedEachConcat(schema, supported, one.store, first[1..], second);
      var a := AppliedEach(schema, supported, one.store, first[1..]);
      if one.result.Ok? && a.result.Ok? {
        PrependedTwice([one.result.value], a.result.value, AppliedEach(schema, supported, a.store, second));
      }
    }
  }

  lemma {:induction false} AppliedEachLength(schema: Schema, supported: set<Action>, store: Store, edits: seq<Edit>)
    ensures var o := AppliedEach(schema, supported, store, edits);
            o.result.Ok? ==> |o.result.value| == |edits|
    decreases edits
  {
    if edits != [] {
      AppliedEachLength(schema, supported, AppliedOne(schema, supported, store, edits[0]).store, edits[1..]);
    }
  }

  lemma AppliedOneKeepsValid(schema: Schema, supported: set<Action>, store: Store, edit: Edit)
    requires ValidStore(store) && ValidEdit(edit)
    ensures ValidStore(AppliedOne(schema, supported, store, edit).store)
  {
  }

  lemma {:induction false} AppliedEachKeepsValid(schema: Schema, supported: set<Action>, store: Store, edits: seq<Edit>)
    requires ValidStore(store) && forall e :: e in edits ==> ValidEdit(e)
    ensures ValidStore(AppliedEach(schema, supported, store, edits).store)
    decreases edits
  {
    if edits != [] {
      AppliedOneKeepsValid(schema, supported, store, edits[0]);
      AppliedEachKeepsValid(schema, supported, AppliedOne(schema, supported, store, edits[0]).store, edits[1..]);
    }
  }

  lemma AppliedEachSingle(schema: Schema, supported: set<Action>, store: Store, edit: Edit)
    ensures var one := AppliedOne(schema, supported, store, edit);
            AppliedEach(schema, supported, store, [edit])
            == Outcome(one.store, match one.result case Ok(row) => Ok([row]) case Err(e) => Err(e))
  {
    var one := AppliedOne(schema, supported, store, edit);
    assert [edit][0] == edit && [edit][1..] == [];
    assert AppliedEach(schema, supported, one.store, []) == Outcome(one.store, Ok([]));
    assert one.result.Ok? ==> [one.result.value] + [] == [one.result.value];
  }

  // ----- What a write query selects -----

  /** A convertible filter looks at queryable attributes only. */
  lemma {:induction false} HoldsReadsOnly(fields: FieldMap, f: Filter, a: map<string, Value>, b: map<string, Value>)
    requires Convertible(fields, f, false)
    requires forall name :: name in fields ==> Read(a, name) == Read(b, name)
    ensures Holds(f, Object(a)) == Holds(f, Object(b))
    decreases f
  {
    match f
    case And(fs) =>
      forall i | 0 <= i < |fs| ensures Holds(fs[i], Object(a)) == Holds(fs[i], Object(b)) {
        HoldsReadsOnly(fields, fs[i], a, b);
      }
    case Or(fs) =>
      forall i | 0 <= i < |fs| ensures Holds(fs[i], Object(a)) == Holds(fs[i], Object(b)) {
        HoldsReadsOnly(fields, fs[i], a, b);
      }
    case Not(g) => HoldsReadsOnly(fields, g, a, b);
    case _ =>
  }

  /** A write query selects a document when the condition holds of it as its readers see it. */
  lemma WriteQuerySelects(schema: Schema, id: Value, condition: Option<Filter>, document: Document)
    requires schema.Valid()
    requires condition.Some? ==> Pushable(condition.value, false)
    requires WriteQuery(schema, id, condition).Ok?
    ensures Selects(WriteQuery(schema, id, condition).value, document)
       <==> Read(document, ID) == id
            && (condition.Some? ==> Holds(condition.value, Object(ViewOf(schema, document))))
  {
    var conditions := map[ID := Equals(id)];
    assert Selects(Fields(conditions), document) <==> Satisfies(conditions[ID], document, ID);
    if condition.Some? {
      var fields := schema.QueryFields();
      ConvertPreservesMeaning(fields, condition.value, None, false, document);
      ConvertSucceedsExactly(fields, condition.value, None, false);
      MergeMeaning(Some(Fields(conditions)), Convert(fields, condition.value, None, false).value, document);
      HoldsReadsOnly(fields, condition.value, Project(fields, document), ViewOf(schema, document));
    }
  }

  /** A write is refused as unsupported exactly when its condition cannot be converted. */
  lemma WriteQueryFailsExactly(schema: Schema, id: Value, condition: Option<Filter>)
    ensures WriteQuery(schema, id, condition).Ok? <==>
              (condition.Some? ==> Convertible(schema.QueryFields(), condition.value, false))
    ensures WriteQuery(schema, id, condition).Err? ==> WriteQuery(schema, id, condition).error == Unsupported
  {
    if condition.Some? {
      ConvertSucceedsExactly(schema.QueryFields(), condition.value, None, false);
    }
  }

  lemma WriteQueryFindsOnlyItsId(schema: Schema, store: Store, id: Value, condition: Option<Filter>, other: Value)
    requires ValidStore(store) && other in store
    requires WriteQuery(schema, id, condition).Ok?
    requires Selects(WriteQuery(schema, id, condition).value, store[other])
    ensures other == id
  {
    var conditions := map[ID := Equals(id)];
    var extra := if condition.None? then None
                 else Convert(schema.QueryFields(), condition.value, None, false).value;
    MergeMeaning(Some(Fields(conditions)), extra, store[other]);
    assert Selects(Fields(conditions), store[other]);
    assert Satisfies(conditions[ID], store[other], ID);
  }

  lemma WriteQueryAdmits(schema: Schema, id: Value, condition: Filter, document: Document)
    requires WriteQuery(schema, id, Some(condition)).Ok?
    ensures Selects(WriteQuery(schema, id, Some(condition)).value, document)
       <==> Read(document, ID) == id && Admitted(schema.QueryFields(), condition, document)
  {
    var conditions := map[ID := Equals(id)];
    assert Selects(Fields(conditions), document) <==> Satisfies(conditions[ID], document, ID);
    MergeMeaning(Some(Fields(conditions)), Convert(schema.QueryFields(), condition, None, false).value, document);
  }

  // ----- What each operation does, for every condition -----

  /** A reader sees the identifier under its own name, and every other attribute as it is stored. */
  lemma ViewReads(schema: Schema, document: Document, attribute: string)
    requires attribute in schema.attributes
    ensures Read(ViewOf(schema, document), attribute)
         == Read(document, if attribute == schema.idField then ID else attribute)
    ensures schema.FieldFor(attribute) == if attribute == schema.idField then ID else attribute
  {
  }

  /** A condition compiles exactly when it names queryable attributes only and tests values only under one. */
  lemma {:induction false} ConvertibleExactly(schema: Schema, f: Filter, bound: bool)
    ensures Convertible(schema.QueryFields(), f, bound)
       <==> AttributesNamed(f) <= schema.queryable && TestsUnderNames(f, bound)
    decreases f
  {
    match f
    case Not(g) => ConvertibleExactly(schema, g, bound);
    case Attr(a, g) => ConvertibleExactly(schema, g, true);
    case And(fs) => EachConvertibleExactly(schema, f, fs, bound);
    case Or(fs) => EachConvertibleExactly(schema, f, fs, bound);
    case _ =>
  }

  lemma {:induction false} EachConvertibleExactly(schema: Schema, parent: Filter, fs: seq<Filter>, bound: bool)
    requires parent == And(fs) || parent == Or(fs)
    ensures Convertible(schema.QueryFields(), parent, bound)
       <==> AttributesNamed(parent) <= schema.queryable && TestsUnderNames(parent, bound)
    decreases parent, 0
  {
    forall i | 0 <= i < |fs|
      ensures Convertible(schema.QueryFields(), fs[i], bound)
         <==> AttributesNamed(fs[i]) <= schema.queryable && TestsUnderNames(fs[i], bound)
    {
      ConvertibleExactly(schema, fs[i], bound);
    }
    forall i | 0 <= i < |fs|
      ensures AttributesNamed(fs[i]) <= AttributesNamed(parent)
    {
    }
  }

  /** The attributes a tree names. */
  ghost function AttributesNamed(f: Filter): set<string> {
    match f
    case Attr(a, g) => {a} + AttributesNamed(g)
    case Not(g) => AttributesNamed(g)
    case And(fs) => set i, a | 0 <= i < |fs| && a in AttributesNamed(fs[i]) :: a
    case Or(fs) => set i, a | 0 <= i < |fs| && a in AttributesNamed(fs[i]) :: a
    case _ => {}
  }

  /** Every value is tested under some attribute. */
  predicate TestsUnderNames(f: Filter, bound: bool) {
    match f
    case Attr(_, g) => TestsUnderNames(g, true)
    case Not(g) => TestsUnderNames(g, bound)
    case And(fs) => forall i :: 0 <= i < |fs| ==> TestsUnderNames(fs[i], bound)
    case Or(fs) => forall i :: 0 <= i < |fs| ==> TestsUnderNames(fs[i], bound)
    case On(_) => bound
    case _ => true
  }

  /** The document is stored, and the condition's query, if there is one, admits it. */
  ghost predicate Addressed(schema: Schema, store: Store, id: Value, condition: Option<Filter>) {
    id in store && (condition.Some? ==> Admitted(schema.QueryFields(), condition.value, store[id]))
  }

  /** Every other document is as it was. */
  ghost predicate OthersKept(before: Store, after: Store, id: Value) {
    forall other :: other != id ==>
      (other in after <==> other in before) && (other in before ==> after[other] == before[other])
  }

  lemma AddressedExactly(schema: Schema, store: Store, id: Value, condition: Option<Filter>)
    requires ValidStore(store) && WriteQuery(schema, id, condition).Ok?
    ensures id in store && Selects(WriteQuery(schema, id, condition).value, store[id])
       <==> Addressed(schema, store, id, condition)
  {
    if id in store {
      if condition.Some? {
        WriteQueryAdmits(schema, id, condition.value, store[id]);
      } else {
        var conditions := map[ID := Equals(id)];
        assert Selects(Fields(conditions), store[id]) <==> Satisfies(conditions[ID], store[id], ID);
      }
    }
  }

  /**
   What an update is, with any condition or none: it needs an identifier and a condition that
   compiles. Then it changes the document it addresses and no other, in the supplied fields and
   no other, and answers what the new document reads as; without such a document, nothing.
   */
  ghost predicate IsUpdate(
    schema: Schema, before: Store, item: Payload, condition: Option<Filter>, o: Outcome<Option<Row>>)
  {
    if item.id.None? || item.id.value == Null then o == Outcome(before, Err(MissingIdentifier))
    else if condition.Some? && !Convertible(schema.QueryFields(), condition.value, false) then
      o == Outcome(before, Err(Unsupported))
    else
      var id := item.id.value;
      if !Addressed(schema, before, id, condition) then o == Outcome(before, Ok(None))
      else
        && id in o.store && OthersKept(before, o.store, id)
        && (forall field :: field in item.values ==>
              field in o.store[id] && o.store[id][field] == item.values[field])
        && (forall field :: field !in item.values ==>
              && (field in o.store[id] <==> field in before[id])
              && (field in before[id] ==> o.store[id][field] == before[id][field]))
        && o.result == Ok(Some(ViewOf(schema, o.store[id])))
  }

  lemma UpdatedExactly(schema: Schema, store: Store, item: Payload, condition: Option<Filter>)
    requires ValidStore(store)
    ensures IsUpdate(schema, store, item, condition, Updated(schema, store, item, condition))
  {
    if item.Identified() {
      WriteQueryFailsExactly(schema, item.id.value, condition);
      if WriteQuery(schema, item.id.value, condition).Ok? {
        AddressedExactly(schema, store, item.id.value, condition);
      }
    }
  }

  /** What a delete is, with any condition or none: the document it addresses goes, and no other. */
  ghost predicate IsDelete(schema: Schema, before: Store, id: Value, condition: Option<Filter>, o: Outcome<bool>) {
    if condition.Some? && !Convertible(schema.QueryFields(), condition.value, false) then
      o == Outcome(before, Err(Unsupported))
    else if !Addressed(schema, before, id, condition) then o == Outcome(before, Ok(false))
    else id !in o.store && OthersKept(before, o.store, id) && o.result == Ok(true)
  }

  lemma DeletedExactly(schema: Schema, store: Store, id: Value, condition: Option<Filter>)
    requires ValidStore(store)
    ensures IsDelete(schema, store, id, condition, Deleted(schema, store, id, condition))
  {
    WriteQueryFailsExactly(schema, id, condition);
    if WriteQuery(schema, id, condition).Ok? {
      AddressedExactly(schema, store, id, condition);
    }
  }

  /** What a create is: one document with the values, exactly when its identifier, given or generated, is free. */
  ghost predicate IsCreate(schema: Schema, before: Store, item: Payload, generated: Value, o: Outcome<Row>) {
    var id := match item.id case Some(given) => given case None => generated;
    if id in before then o == Outcome(before, Err(Conflict))
    else
      && id in o.store && OthersKept(before, o.store, id)
      && o.store[id].Keys == item.values.Keys + {ID} && o.store[id][ID] == id
      && (forall field :: field in item.values && field != ID ==> o.store[id][field] == item.values[field])
      && o.result == Ok(ViewOf(schema, o.store[id]))
  }

  /** A node of a bare batch is the single operation, if the resource supports it; a delete answers None. */
  lemma AppliedOneExactly(schema: Schema, supported: set<Action>, store: Store, edit: Edit)
    requires ValidStore(store)
    ensures var o := AppliedOne(schema, supported, store, edit);
            match edit
            case CreateEdit(item, generated) =>
              if Create !in supported then o == Outcome(store, Err(InvalidInput))
              else
                && (o.result.Ok? ==> o.result.value.Some?)
                && IsCreate(schema, store, item, generated,
                            Outcome(o.store, if o.result.Ok? then Ok(o.result.value.value) else Err(o.result.error)))
            case UpdateEdit(item, condition) =>
              if Update !in supported then o == Outcome(store, Err(InvalidInput))
              else IsUpdate(schema, store, item, condition, o)
            case DeleteEdit(id, condition) =>
              if Delete !in supported then o == Outcome(store, Err(InvalidInput))
              else
                && (o.result.Ok? ==> o.result.value.None?)
                && IsDelete(schema, store, id, condition,
                            Outcome(o.store, if o.result.Ok? then Ok(o.store != store) else Err(o.result.error)))
  {
    match edit
    case CreateEdit(_, _) =>
    case UpdateEdit(item, condition) => UpdatedExactly(schema, store, item, condition);
    case DeleteEdit(id, condition) => DeletedExactly(schema, store, id, condition);
  }

  // ----- The service -----

  class MongoService {
    const schema: Schema
    const supported: set<Action>
    var documents: Store

    constructor (schema: Schema, supported: set<Action>)
      ensures this.schema == schema && this.supported == supported && documents == map[]
    {
      this.schema := schema;
      this.supported := supported;
      documents := map[];
    }

    /** find_one_and_update: the first matching document gets the values. */
    method FindOneAndUpdate(query: Query, values: map<string, Value>) returns (found: Option<Document>)
      modifies this
      ensures (forall id :: id in old(documents) ==> !Selects(query, old(documents)[id])) ==>
                found == None && documents == old(documents)
      ensures (exists id :: id in old(documents) && Selects(query, old(documents)[id])) ==>
                exists id :: && id in old(documents) && Selects(query, old(documents)[id])
                             && found == Some(old(documents)[id] + values)
                             && documents == old(documents)[id := old(documents)[id] + values]
    {
      if exists id | id in documents :: Selects(query, documents[id]) {
        var id :| id in documents && Selects(query, documents[id]);
        documents := documents[id := documents[id] + values];
        found := Some(documents[id]);
      } else {
        found := None;
      }
    }

    method FindOneAndDelete(query: Query) returns (found: bool)
      modifies this
      ensures (forall id :: id in old(documents) ==> !Selects(query, old(documents)[id])) ==>
                !found && documents == old(documents)
      ensures (exists id :: id in old(documents) && Selects(query, old(documents)[id])) ==>
                found && exists id :: && id in old(documents) && Selects(query, old(documents)[id])
                                      && documents == old(documents) - {id}
    {
      if exists id | id in documents :: Selects(query, documents[id]) {
        var id :| id in documents && Selects(query, documents[id]);
        documents := documents - {id};
        found := true;
      } else {
        found := false;
      }
    }

    method CreateOne(item: Payload, generated: Value) returns (result: Result<Row, Error>)
      modifies this
      ensures Outcome(documents, result) == Created(schema, old(documents), item, generated)
    {
      var id := if item.id.Some? then item.id.value else generated;
      if id in documents {
        return Err(Conflict);
      }
      var document := item.values[ID := id];
      documents := documents[id := document];
      result := Ok(ViewOf(schema, document));
    }

    method UpdateOne(item: Payload, condition: Option<Filter>) returns (result: Result<Option<Row>, Error>)
      requires ValidStore(documents) && item.Valid()
      modifies this
      ensures Outcome(documents, result) == Updated(schema, old(documents), item, condition)
    {
      if !item.Identified() {
        return Err(MissingIdentifier);
      }
      var id := item.id.value;
      var query := WriteQuery(schema, id, condition);
      if query.Err? {
        return Err(query.error);
      }
      forall other | other in documents && Selects(query.value, documents[other]) ensures other == id {
        WriteQueryFindsOnlyItsId(schema, documents, id, condition, other);
      }
      var found;
      if item.values != map[] {
        found := FindOneAndUpdate(query.value, item.values);
      } else {
        found := if id in documents && Selects(query.value, documents[id]) then Some(documents[id]) else None;
        assert id in documents ==> documents[id] + item.values == documents[id];
        assert id in documents ==> documents[id := documents[id]] == documents;
      }
      result := match found case None => Ok(None) case Some(document) => Ok(Some(ViewOf(schema, document)));
    }

    method DeleteOne(id: Value, condition: Option<Filter>) returns (result: Result<bool, Error>)
      requires ValidStore(documents)
      modifies this
      ensures Outcome(documents, result) == Deleted(schema, old(documents), id, condition)
    {
      var query := WriteQuery(schema, id, condition);
      if query.Err? {
        return Err(query.error);
      }
      forall other | other in documents && Selects(query.value, documents[other]) ensures other == id {
        WriteQueryFindsOnlyItsId(schema, documents, id, condition, other);
      }
      var found := FindOneAndDelete(query.value);
      result := Ok(found);
    }

    method ApplyOne(edit: Edit) returns (result: Result<Option<Row>, Error>)
      requires ValidStore(documents) && ValidEdit(edit)
      modifies this
      ensures Outcome(documents, result) == AppliedOne(schema, supported, old(documents), edit)
      ensures ValidStore(documents)
    {
      AppliedOneKeepsValid(schema, supported, documents, edit);
      if ActionOf(edit) !in supported {
        return Err(InvalidInput);
      }
      match edit
      case CreateEdit(item, generated) =>
        var created := CreateOne(item, generated);
        result := match created case Ok(row) => Ok(Some(row)) case Err(e) => Err(e);
      case UpdateEdit(item, condition) =>
        result := UpdateOne(item, condition);
      case DeleteEdit(id, condition) =>
        var deleted := DeleteOne(id, condition);
        result := match deleted case Ok(_) => Ok(None) case Err(e) => Err(e);
    }

    /** apply_edits: results align with the edits; the first error ends the batch. */
    method ApplyEdits(edits: seq<Edit>) returns (result: Result<seq<Option<Row>>, Error>)
      requires ValidStore(documents) && forall e :: e in edits ==> ValidEdit(e)
      modifies this
      ensures Outcome(documents, result) == AppliedEach(schema, supported, old(documents), edits)
      ensures ValidStore(documents)
    {
      var rows: seq<Option<Row>> := [];
      for i := 0 to |edits|
        invariant ValidStore(documents)
        invariant AppliedEach(schema, supported, old(documents), edits[..i]) == Outcome(documents, Ok(rows))
      {
        AppliedEachConcat(schema, supported, old(documents), edits[..i], [edits[i]]);
        AppliedEachSingle(schema, supported, documents, edits[i]);
        assert edits[..i] + [edits[i]] == edits[..i + 1];
        AppliedEachConcat(schema, supported, old(documents), edits[..i + 1], edits[i + 1..]);
        assert edits[..i + 1] + edits[i + 1..] == edits;
        var row := ApplyOne(edits[i]);
        if row.Err? {
          return Err(row.error);
        }
        rows := rows + [row.value];
      }
      assert edits[..|edits|] == edits;
      result := Ok(rows);
    }
  }
}

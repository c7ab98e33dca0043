/** Keyset paging as Mongo queries, and its agreement with paging over a list. */
module MongoPaging {
  import opened Wrappers
  import opened Values
  import opened Filters
  import opened MongoQuery
  import opened FilterConverter
  import opened MongoServices
  import opened Paging

  /** A sort specification: fields in order of significance, 1 ascending and -1 descending. */
  type SortSpec = seq<(string, int)>

  /** The requested attribute's field, then the identifier ascending. */
  function SpecOf(schema: Schema, sort: SortOrder): SortSpec {
    match sort
    case ById => [(ID, 1)]
    case ByAttribute(attribute, descending) =>
      [(schema.FieldFor(attribute), if descending then -1 else 1), (ID, 1)]
  }

  predicate SpecPrecedes(spec: SortSpec, a: Document, b: Document) {
    spec != [] &&
    var (field, direction) := spec[0];
    || KeyPrecedes(direction < 0, Read(a, field), Read(b, field))
    || (Read(a, field) == Read(b, field) && SpecPrecedes(spec[1..], a, b))
  }

  function SpecInserted(spec: SortSpec, x: Document, ys: seq<Document>): seq<Document> {
    if ys == [] then [x]
    else if SpecPrecedes(spec, ys[0], x) then [ys[0]] + SpecInserted(spec, x, ys[1..])
    else [x] + ys
  }

  /** The server's sort: the documents in the order of the specification. */
  function SpecSorted(spec: SortSpec, documents: seq<Document>): seq<Document> {
    if documents == [] then []
    else SpecInserted(spec, documents[0], SpecSorted(spec, documents[1..]))
  }

  function Found(q: Option<Query>, documents: seq<Document>): seq<Document> {
    if documents == [] then []
    else (if Admits(q, documents[0]) then [documents[0]] else []) + Found(q, documents[1..])
  }

  /**
   _keyset_query. The two-field objects are maps in which the identifier's entry comes
   last, so it replaces the sort field's entry when the two fields are the same.
   */
  function KeysetQuery(field: string, cursorKey: Value, cursorId: Value, ascending: bool): Query {
    var tie := Fields(map[field := Equals(cursorKey)][ID := Greater(cursorId)]);
    if ascending then
      if cursorKey == Null then OrQ([Fields(map[field := NotEquals(Null)]), tie])
      else OrQ([Fields(map[field := Greater(cursorKey)]), tie])
    else
      if cursorKey == Null then tie
      else OrQ([Fields(map[field := Less(cursorKey)]), tie, Fields(map[field := Equals(Null)])])
  }

  function CursorPredicate(schema: Schema, sort: SortOrder, cursor: Option<Token>): Result<Option<Query>, Error> {
    if cursor.None? then Ok(None)
    else
      match Decode(sort, cursor.value)
      case Err(e) => Err(e)
      case Ok(data) =>
        if sort.ById? then Ok(Some(Fields(map[ID := Greater(data.id)])))
        else Ok(Some(KeysetQuery(schema.FieldFor(sort.attribute), data.key, data.id, data.ascending)))
  }

  datatype DocumentPage = DocumentPage(documents: seq<Document>, nextCursor: Option<Token>)

  function MongoNextCursor(schema: Schema, sort: SortOrder, document: Document): Token {
    var id := Read(document, ID);
    match sort
    case ById => Sealed(CursorData(None, true, id, id))
    case ByAttribute(attribute, descending) =>
      Sealed(CursorData(Some(attribute), !descending, Read(document, schema.FieldFor(attribute)), id))
  }

  /** The page cut from the found documents, of which no more than one past the limit is taken. */
  function MongoPageOf(schema: Schema, sort: SortOrder, found: seq<Document>, limit: nat): DocumentPage {
    var taken := if |found| > limit + 1 then found[..limit + 1] else found;
    var hasMore := |taken| > limit;
    var page := if hasMore then taken[..limit] else taken;
    DocumentPage(page, if hasMore && page != [] then Some(MongoNextCursor(schema, sort, page[|page| - 1])) else None)
  }

  /** search: one query for filter and seek, sorted by a specification, one document more than the page holds. */
  function MongoSearchBy(
    schema: Schema, spec: SortSpec, documents: seq<Document>, f: Option<Filter>, sort: SortOrder,
    cursor: Option<Token>, limit: nat): Result<DocumentPage, Error>
  {
    match (if f.None? then Ok(None) else Convert(schema.QueryFields(), f.value, None, false))
    case Err(e) => Err(e)
    case Ok(filterQuery) =>
      match CursorPredicate(schema, sort, cursor)
      case Err(e) => Err(e)
      case Ok(seek) =>
        var found := SpecSorted(spec, Found(MergeQuery(filterQuery, seek), documents));
        Ok(MongoPageOf(schema, sort, found, limit))
  }

  function MongoSearch(
    schema: Schema, documents: seq<Document>, f: Option<Filter>, sort: SortOrder, cursor: Option<Token>, limit: nat)
    : Result<DocumentPage, Error>
  {
    MongoSearchBy(schema, SpecOf(schema, sort), documents, f, sort, cursor, limit)
  }

  /**
   A search fails when its filter does not compile, and on a cursor that was tampered with or made
   for another sort, and on nothing else.
   */
  lemma MongoSearchAnswersExactly(
    schema: Schema, documents: seq<Document>, f: Option<Filter>, sort: SortOrder, cursor: Option<Token>, limit: nat)
    ensures var converts := f.Some? ==> Convertible(schema.QueryFields(), f.value, false);
            var accepted := cursor.Some? ==> MadeFor(sort, cursor.value);
            var page := MongoSearch(schema, documents, f, sort, cursor, limit);
            && (!converts ==> page == Err(Unsupported))
            && (converts && !accepted ==> page == Err(InvalidInput))
            && (converts && accepted ==> page.Ok?)
            && (page.Ok? && page.value.nextCursor.Some? ==> MadeFor(sort, page.value.nextCursor.value))
  {
    if f.Some? {
      ConvertSucceedsExactly(schema.QueryFields(), f.value, None, false);
    }
  }

  // ----- The seek query -----

  /** A column of one kind: text or numbers. */
  predicate OfKind(v: Value, text: bool) {
    if text then v.Str? else v.Num?
  }

  /** The sort field holds null or one kind of value, and the identifier one kind. */
  predicate Typed(document: Document, field: string, textKey: bool, textId: bool) {
    && (IsNull(document, field) || OfKind(Read(document, field), textKey))
    && OfKind(Read(document, ID), textId)
  }

  predicate TypedCursor(data: CursorData, textKey: bool, textId: bool) {
    (data.key == Null || OfKind(data.key, textKey)) && OfKind(data.id, textId)
  }

  predicate SeekFaithful(field: string, key: Value, id: Value, ascending: bool, document: Document) {
    Selects(KeysetQuery(field, key, id, ascending), document)
    == Earlier(!ascending, Position(key, id), Position(Read(document, field), Read(document, ID)))
  }

  lemma TieSelects(field: string, key: Value, id: Value, document: Document)
    ensures Selects(Fields(map[field := Equals(key)][ID := Greater(id)]), document)
       <==> (field != ID ==> Read(document, field) == key) && Satisfies(Greater(id), document, ID)
  {
    var conditions := map[field := Equals(key)][ID := Greater(id)];
    assert conditions[ID] == Greater(id);
    assert field != ID ==> conditions[field] == Equals(key);
    assert Selects(Fields(conditions), document) ==> Satisfies(conditions[ID], document, ID);
    assert Selects(Fields(conditions), document) ==> Satisfies(conditions[field], document, field);
  }

  lemma SingleSelects(field: string, c: Condition, document: Document)
    ensures Selects(Fields(map[field := c]), document) <==> Satisfies(c, document, field)
  {
    var conditions := map[field := c];
    assert Selects(Fields(conditions), document) <==> Satisfies(conditions[field], document, field);
  }

  lemma EitherSelects(qs: seq<Query>, document: Document)
    requires 2 <= |qs| <= 3
    ensures Selects(OrQ(qs), document) <==>
              Selects(qs[0], document) || Selects(qs[1], document) || (|qs| == 3 && Selects(qs[2], document))
  {
  }

  lemma SeekSelects(field: string, key: Value, id: Value, ascending: bool, document: Document)
    ensures Selects(KeysetQuery(field, key, id, ascending), document) <==>
            var v := Read(document, field);
            var tie := (field != ID ==> v == key) && Satisfies(Greater(id), document, ID);
            if ascending then
              tie || (if key == Null then v != Null else Satisfies(Greater(key), document, field))
            else
              tie || (key != Null && (v == Null || Satisfies(Less(key), document, field)))
  {
    var tie := Fields(map[field := Equals(key)][ID := Greater(id)]);
    TieSelects(field, key, id, document);
    if ascending {
      var c := if key == Null then NotEquals(Null) else Greater(key);
      SingleSelects(field, c, document);
      EitherSelects([Fields(map[field := c]), tie], document);
    } else if key != Null {
      SingleSelects(field, Less(key), document);
      SingleSelects(field, Equals(Null), document);
      EitherSelects([Fields(map[field := Less(key)]), tie, Fields(map[field := Equals(Null)])], document);
    }
  }

  /** Away from the identifier, or ascending, the query seeks exactly past the cursor. */
  lemma SeekIsFaithful(
    field: string, key: Value, id: Value, ascending: bool, document: Document, textKey: bool, textId: bool)
    requires Typed(document, field, textKey, textId)
    requires (key == Null || OfKind(key, textKey)) && OfKind(id, textId)
    requires field == ID ==> ascending && key == id
    ensures SeekFaithful(field, key, id, ascending, document)
  {
    SeekSelects(field, key, id, ascending, document);
  }

  /**
   The seek is faithful on every document of the right kinds exactly when it is not a
   descending walk by the identifier itself. There the identifier's entry replaces the
   sort key's, and the query also lets rows from before the cursor back in.
   */
  lemma SeekFaithfulExactly(field: string, key: Value, id: Value, ascending: bool, textKey: bool, textId: bool)
    requires (key == Null || OfKind(key, textKey)) && OfKind(id, textId)
    requires field == ID ==> key == id && textKey == textId
    ensures (forall document: Document :: Typed(document, field, textKey, textId) ==>
               SeekFaithful(field, key, id, ascending, document))
       <==> !(field == ID && !ascending)
  {
    if field == ID && !ascending {
      var greater := if textId then Str(id.s + "a") else Num(id.n + 1);
      if textId {
        TextExtends(id.s);
      }
      var document: Document := map[ID := greater];
      assert Before(id, greater) && Typed(document, field, textKey, textId);
      BeforeTotal(id, greater);
      SeekSelects(field, key, id, ascending, document);
      assert !SeekFaithful(field, key, id, ascending, document);
    } else {
      forall document: Document | Typed(document, field, textKey, textId)
        ensures SeekFaithful(field, key, id, ascending, document)
      {
        SeekIsFaithful(field, key, id, ascending, document, textKey, textId);
      }
    }
  }

  // ----- Documents and items -----

  function ItemsOf(schema: Schema, documents: seq<Document>): (r: seq<Item>)
    ensures |r| == |documents|
  {
    seq(|documents|, i requires 0 <= i < |documents| => ViewOf(schema, documents[i]))
  }

  /** The sort attribute is declared. */
  predicate Sortable(schema: Schema, sort: SortOrder) {
    schema.Valid() && (sort.ByAttribute? ==> sort.attribute in schema.attributes)
  }

  /** And it is not the identifier descending. */
  predicate Supported(schema: Schema, sort: SortOrder) {
    Sortable(schema, sort) && (sort.ByAttribute? ==> !(sort.attribute == schema.idField && sort.descending))
  }

  function KeyField(schema: Schema, sort: SortOrder): string {
    schema.FieldFor(sort.KeyAttribute(schema.idField))
  }

  predicate AllTyped(documents: seq<Document>, field: string, textKey: bool, textId: bool) {
    forall i :: 0 <= i < |documents| ==> Typed(documents[i], field, textKey, textId)
  }

  lemma SpecIsEarlier(schema: Schema, sort: SortOrder, a: Document, b: Document)
    requires Sortable(schema, sort)
    ensures SpecPrecedes(SpecOf(schema, sort), a, b)
       <==> Earlier(sort.Descending(),
                    PositionOf(schema.idField, sort.KeyAttribute(schema.idField), ViewOf(schema, a)),
                    PositionOf(schema.idField, sort.KeyAttribute(schema.idField), ViewOf(schema, b)))
  {
    var key := sort.KeyAttribute(schema.idField);
    ViewReads(schema, a, key);
    ViewReads(schema, b, key);
    ViewReads(schema, a, schema.idField);
    ViewReads(schema, b, schema.idField);
    BeforeTotal(Read(a, ID), Read(b, ID));
    var last: SortSpec := [(ID, 1)];
    assert last[1..] == [];
    assert SpecPrecedes(last, a, b) <==> Before(Read(a, ID), Read(b, ID));
    if sort.ByAttribute? {
      assert SpecOf(schema, sort)[1..] == last;
    } else {
      assert SpecOf(schema, sort) == last;
    }
  }

  // ----- The sorted documents, as items -----

  /** Insertion by whole positions: what the server's sort does, seen on items. */
  function PositionInserted(idField: string, key: string, descending: bool, x: Item, ys: seq<Item>): seq<Item> {
    if ys == [] then [x]
    else if Earlier(descending, PositionOf(idField, key, ys[0]), PositionOf(idField, key, x)) then
      [ys[0]] + PositionInserted(idField, key, descending, x, ys[1..])
    else [x] + ys
  }

  lemma {:induction false} SpecInsertedAsItems(schema: Schema, sort: SortOrder, x: Document, ys: seq<Document>)
    requires Sortable(schema, sort)
    ensures ItemsOf(schema, SpecInserted(SpecOf(schema, sort), x, ys)) ==
            PositionInserted(schema.idField, sort.KeyAttribute(schema.idField), sort.Descending(),
                             ViewOf(schema, x), ItemsOf(schema, ys))
  {
    if ys != [] {
      SpecIsEarlier(schema, sort, ys[0], x);
      SpecInsertedAsItems(schema, sort, x, ys[1..]);
      assert ItemsOf(schema, ys)[1..] == ItemsOf(schema, ys[1..]);
    }
  }

  lemma {:induction false} PositionInsertedInOrder(
    idField: string, key: string, descending: bool, x: Item, ys: seq<Item>)
    requires InOrder(idField, key, descending, ys)
    requires forall y :: y in ys ==> PositionOf(idField, key, y) != PositionOf(idField, key, x)
    ensures InOrder(idField, key, descending, PositionInserted(idField, key, descending, x, ys))
    ensures multiset(PositionInserted(idField, key, descending, x, ys)) == multiset{x} + multiset(ys)
    ensures forall a :: a in PositionInserted(idField, key, descending, x, ys) <==> a == x || a in ys
  {
    if ys != [] {
      FirstAndRest(ys);
      var px, p0 := PositionOf(idField, key, x), PositionOf(idField, key, ys[0]);
      assert ys[0] in ys;
      EarlierTotal(descending, p0, px);
      if Earlier(descending, p0, px) {
        PositionInsertedInOrder(idField, key, descending, x, ys[1..]);
        var inner := PositionInserted(idField, key, descending, x, ys[1..]);
        assert ([ys[0]] + inner)[1..] == inner;
      } else {
        forall y | y in ys[1..] ensures Earlier(descending, px, PositionOf(idField, key, y)) {
          EarlierTransitive(descending, px, p0, PositionOf(idField, key, y));
        }
        assert ([x] + ys)[1..] == ys;
      }
    }
  }

  /** Rows with distinct identifiers have distinct positions. */
  lemma DistinctPositions(idField: string, key: string, items: seq<Item>)
    requires items != [] && DistinctIds(idField, multiset(items))
    ensures forall y :: y in items[1..] ==> PositionOf(idField, key, y) != PositionOf(idField, key, items[0])
  {
    FirstAndRest(items);
    forall y | y in items[1..]
      ensures PositionOf(idField, key, y) != PositionOf(idField, key, items[0])
    {
      assert y in multiset(items) && items[0] in multiset(items);
      assert multiset(items)[y] == multiset{items[0]}[y] + multiset(items[1..])[y];
    }
  }

  /** The server's sort yields the paging order. */
  lemma {:induction false} SpecSortedInOrder(schema: Schema, sort: SortOrder, documents: seq<Document>)
    requires Sortable(schema, sort)
    requires DistinctIds(schema.idField, multiset(ItemsOf(schema, documents)))
    ensures var items := ItemsOf(schema, SpecSorted(SpecOf(schema, sort), documents));
            && InOrder(schema.idField, sort.KeyAttribute(schema.idField), sort.Descending(), items)
            && multiset(items) == multiset(ItemsOf(schema, documents))
            && forall a :: a in items <==> a in ItemsOf(schema, documents)
  {
    if documents != [] {
      var items := ItemsOf(schema, documents);
      FirstAndRest(items);
      assert items[1..] == ItemsOf(schema, documents[1..]);
      SubsetKeepsIds(schema.idField, multiset(items), multiset(items[1..]));
      SpecSortedInOrder(schema, sort, documents[1..]);
      var sorted := SpecSorted(SpecOf(schema, sort), documents[1..]);
      DistinctPositions(schema.idField, sort.KeyAttribute(schema.idField), items);
      SpecInsertedAsItems(schema, sort, documents[0], sorted);
      PositionInsertedInOrder(schema.idField, sort.KeyAttribute(schema.idField), sort.Descending(),
                              items[0], ItemsOf(schema, sorted));
    }
  }

  // ----- The found documents, as items -----

  /** What the cursor's query admits is what lies past the cursor. */
  lemma SeekAdmits(
    schema: Schema, sort: SortOrder, cursor: Option<Token>, document: Document, textKey: bool, textId: bool)
    requires Supported(schema, sort)
    requires ProducedCursor(schema.idField, sort, cursor)
    requires cursor.Some? ==> TypedCursor(cursor.value.data, textKey, textId)
    requires Typed(document, KeyField(schema, sort), textKey, textId)
    ensures CursorPredicate(schema, sort, cursor).Ok?
    ensures Admits(CursorPredicate(schema, sort, cursor).value, document)
       <==> PastCursor(schema.idField, sort, Opened(cursor), ViewOf(schema, document))
  {
    if cursor.Some? {
      var data := cursor.value.data;
      ViewReads(schema, document, sort.KeyAttribute(schema.idField));
      ViewReads(schema, document, schema.idField);
      if sort.ById? {
        SingleSelects(ID, Greater(data.id), document);
      } else {
        SeekIsFaithful(KeyField(schema, sort), data.key, data.id, data.ascending, document, textKey, textId);
      }
    }
  }

  /** The filter's query admits what the filter keeps. */
  lemma FilterAdmits(schema: Schema, f: Option<Filter>, document: Document)
    requires schema.Valid()
    requires f.Some? ==> Pushable(f.value, false) && Convert(schema.QueryFields(), f.value, None, false).Ok?
    ensures Admits(if f.None? then None else Convert(schema.QueryFields(), f.value, None, false).value, document)
       <==> Keeps(f, ViewOf(schema, document))
  {
    if f.Some? {
      var fields := schema.QueryFields();
      ConvertPreservesMeaning(fields, f.value, None, false, document);
      ConvertSucceedsExactly(fields, f.value, None, false);
      HoldsReadsOnly(fields, f.value, Project(fields, document), ViewOf(schema, document));
    }
  }

  ghost predicate Wanted(schema: Schema, f: Option<Filter>, sort: SortOrder, cursor: Option<CursorData>, item: Item) {
    Keeps(f, item) && PastCursor(schema.idField, sort, cursor, item)
  }

  lemma CountCons(x: Item, rest: seq<Item>, a: Item)
    ensures multiset([x] + rest)[a] == (if a == x then 1 else 0) + multiset(rest)[a]
  {
  }

  lemma ItemsOfCons(schema: Schema, document: Document, rest: seq<Document>)
    ensures ItemsOf(schema, [document] + rest) == [ViewOf(schema, document)] + ItemsOf(schema, rest)
  {
  }

  lemma {:induction false} FoundCount(
    schema: Schema, f: Option<Filter>, sort: SortOrder, cursor: Option<CursorData>,
    q: Option<Query>, documents: seq<Document>, a: Item)
    requires forall i :: 0 <= i < |documents| ==>
               (Admits(q, documents[i]) <==> Wanted(schema, f, sort, cursor, ViewOf(schema, documents[i])))
    ensures multiset(ItemsOf(schema, Found(q, documents)))[a]
         == if Wanted(schema, f, sort, cursor, a) then multiset(ItemsOf(schema, documents))[a] else 0
  {
    if documents != [] {
      var document, others, rest := documents[0], documents[1..], Found(q, documents[1..]);
      assert documents == [document] + others;
      FoundCount(schema, f, sort, cursor, q, others, a);
      ItemsOfCons(schema, document, others);
      CountCons(ViewOf(schema, document), ItemsOf(schema, others), a);
      if Admits(q, document) {
        ItemsOfCons(schema, document, rest);
        CountCons(ViewOf(schema, document), ItemsOf(schema, rest), a);
        assert Found(q, documents) == [document] + rest;
      } else {
        assert Found(q, documents) == rest;
      }
    }
  }

  // ----- The refinement -----

  lemma PageProjects(schema: Schema, sort: SortOrder, found: seq<Document>, limit: nat)
    requires Sortable(schema, sort)
    ensures var page := MongoPageOf(schema, sort, found, limit);
            PageOf(schema.idField, sort, ItemsOf(schema, found), limit)
            == Page(ItemsOf(schema, page.documents), page.nextCursor)
  {
    if |found| > limit {
      assert (if |found| > limit + 1 then found[..limit + 1] else found)[..limit] == found[..limit];
      assert ItemsOf(schema, found)[..limit] == ItemsOf(schema, found[..limit]);
      if limit > 0 {
        ViewReads(schema, found[limit - 1], sort.KeyAttribute(schema.idField));
        ViewReads(schema, found[limit - 1], schema.idField);
      }
    }
  }

  /** The sorted result of the merged query is, as items, what list paging cuts its page from. */
  lemma FoundIsRemaining(
    schema: Schema, documents: seq<Document>, f: Option<Filter>, sort: SortOrder, cursor: Option<Token>,
    q: Option<Query>)
    requires Supported(schema, sort)
    requires DistinctIds(schema.idField, multiset(ItemsOf(schema, documents)))
    requires ProducedCursor(schema.idField, sort, cursor)
    requires Answers(f, ItemsOf(schema, documents))
    requires forall i :: 0 <= i < |documents| ==>
               (Admits(q, documents[i]) <==> Wanted(schema, f, sort, Opened(cursor), ViewOf(schema, documents[i])))
    ensures Selected(f, ItemsOf(schema, documents)).Ok?
    ensures ItemsOf(schema, SpecSorted(SpecOf(schema, sort), Found(q, documents))) ==
            Remaining(schema.idField, sort, Opened(cursor),
                      Ordered(schema.idField, sort, Selected(f, ItemsOf(schema, documents)).value))
  {
    var items := ItemsOf(schema, documents);
    var found := Found(q, documents);
    SelectedAnswersExactly(f, items);
    var remaining := Remaining(schema.idField, sort, Opened(cursor),
                               Ordered(schema.idField, sort, Selected(f, items).value));
    RemainingFacts(schema.idField, items, f, sort, Opened(cursor));
    forall a
      ensures multiset(ItemsOf(schema, found))[a] == multiset(remaining)[a]
    {
      FoundCount(schema, f, sort, Opened(cursor), q, documents, a);
    }
    assert multiset(ItemsOf(schema, found)) == multiset(remaining);
    SpecSortedInOrder(schema, sort, found);
    OrderIsUnique(schema.idField, sort.KeyAttribute(schema.idField), sort.Descending(),
                  ItemsOf(schema, SpecSorted(SpecOf(schema, sort), found)), remaining);
  }

  function FilterQuery(schema: Schema, f: Option<Filter>): Option<Query>
    requires f.Some? ==> Convert(schema.QueryFields(), f.value, None, false).Ok?
  {
    if f.None? then None else Convert(schema.QueryFields(), f.value, None, false).value
  }

  /** The merged query admits exactly what the filter keeps and the cursor has not passed. */
  lemma QueryAdmits(
    schema: Schema, f: Option<Filter>, sort: SortOrder, cursor: Option<Token>, document: Document,
    textKey: bool, textId: bool)
    requires Supported(schema, sort)
    requires f.Some? ==> Pushable(f.value, false) && Convert(schema.QueryFields(), f.value, None, false).Ok?
    requires ProducedCursor(schema.idField, sort, cursor)
    requires cursor.Some? ==> TypedCursor(cursor.value.data, textKey, textId)
    requires Typed(document, KeyField(schema, sort), textKey, textId)
    requires CursorPredicate(schema, sort, cursor).Ok?
    ensures Admits(MergeQuery(FilterQuery(schema, f), CursorPredicate(schema, sort, cursor).value), document)
       <==> Wanted(schema, f, sort, Opened(cursor), ViewOf(schema, document))
  {
    MergeMeaning(FilterQuery(schema, f), CursorPredicate(schema, sort, cursor).value, document);
    SeekAdmits(schema, sort, cursor, document, textKey, textId);
    FilterAdmits(schema, f, document);
  }

  /**
   Mongo paging refines list paging: for any sort but the identifier descending, a
   search of the collection answers the page that list paging answers over the
   projected documents, item by item and with the same next cursor.
   */
  lemma MongoSearchRefines(
    schema: Schema, documents: seq<Document>, f: Option<Filter>, sort: SortOrder, cursor: Option<Token>, limit: nat,
    textKey: bool, textId: bool)
    requires Supported(schema, sort)
    requires DistinctIds(schema.idField, multiset(ItemsOf(schema, documents)))
    requires AllTyped(documents, KeyField(schema, sort), textKey, textId)
    requires ProducedCursor(schema.idField, sort, cursor)
    requires cursor.Some? ==> TypedCursor(cursor.value.data, textKey, textId)
    requires f.Some? ==> Pushable(f.value, false) && Convertible(schema.QueryFields(), f.value, false)
    requires Answers(f, ItemsOf(schema, documents))
    ensures var mongo := MongoSearch(schema, documents, f, sort, cursor, limit);
            && mongo.Ok?
            && SearchPage(schema.idField, ItemsOf(schema, documents), f, sort, cursor, limit)
               == Ok(Page(ItemsOf(schema, mongo.value.documents), mongo.value.nextCursor))
  {
    if f.Some? {
      ConvertSucceedsExactly(schema.QueryFields(), f.value, None, false);
    }
    if cursor.Some? {
      assert CursorPredicate(schema, sort, cursor).Ok?;
    }
    var q := MergeQuery(FilterQuery(schema, f), CursorPredicate(schema, sort, cursor).value);
    forall i | 0 <= i < |documents|
      ensures Admits(q, documents[i]) <==> Wanted(schema, f, sort, Opened(cursor), ViewOf(schema, documents[i]))
    {
      QueryAdmits(schema, f, sort, cursor, documents[i], textKey, textId);
    }
    var found := SpecSorted(SpecOf(schema, sort), Found(q, documents));
    FoundIsRemaining(schema, documents, f, sort, cursor, q);
    PageProjects(schema, sort, found, limit);
    SearchIsPageOf(schema.idField, ItemsOf(schema, documents), f, sort, cursor, limit);
    assert MongoSearch(schema, documents, f, sort, cursor, limit) == Ok(MongoPageOf(schema, sort, found, limit));
  }

  // ----- Whole walks -----

  lemma {:induction false} SpecInsertedFrom(spec: SortSpec, x: Document, ys: seq<Document>)
    ensures forall d :: d in SpecInserted(spec, x, ys) ==> d == x || d in ys
  {
    if ys != [] {
      SpecInsertedFrom(spec, x, ys[1..]);
    }
  }

  lemma {:induction false} SpecSortedFrom(spec: SortSpec, q: Option<Query>, documents: seq<Document>)
    ensures forall d :: d in Found(q, documents) ==> d in documents
    ensures forall d :: d in SpecSorted(spec, documents) ==> d in documents
  {
    if documents != [] {
      SpecSortedFrom(spec, q, documents[1..]);
      SpecInsertedFrom(spec, documents[0], SpecSorted(spec, documents[1..]));
    }
  }

  /** The next cursor points at one of the documents, so it is typed as they are. */
  lemma NextCursorIsTyped(
    schema: Schema, documents: seq<Document>, f: Option<Filter>, sort: SortOrder, cursor: Option<Token>, limit: nat,
    textKey: bool, textId: bool)
    requires Supported(schema, sort) && AllTyped(documents, KeyField(schema, sort), textKey, textId)
    requires MongoSearch(schema, documents, f, sort, cursor, limit).Ok?
    ensures var next := MongoSearch(schema, documents, f, sort, cursor, limit).value.nextCursor;
            && ProducedCursor(schema.idField, sort, next)
            && (next.Some? ==> TypedCursor(next.value.data, textKey, textId))
  {
    var page := MongoSearch(schema, documents, f, sort, cursor, limit).value;
    if page.nextCursor.Some? {
      var filterQuery := if f.None? then None else Convert(schema.QueryFields(), f.value, None, false).value;
      var q := MergeQuery(filterQuery, CursorPredicate(schema, sort, cursor).value);
      var found := SpecSorted(SpecOf(schema, sort), Found(q, documents));
      var last := page.documents[|page.documents| - 1];
      assert last == found[|page.documents| - 1];
      SpecSortedFrom(SpecOf(schema, sort), q, documents);
      SpecSortedFrom(SpecOf(schema, sort), q, Found(q, documents));
      assert last in found && last in documents;
      var i :| 0 <= i < |documents| && documents[i] == last;
    }
  }

  ghost predicate IsMongoWalk(
    schema: Schema, f: Option<Filter>, sort: SortOrder, limit: nat,
    fetches: seq<seq<Document>>, pages: seq<DocumentPage>, cursor: Option<Token>)
    decreases |fetches|
  {
    && |fetches| == |pages| > 0
    && MongoSearch(schema, fetches[0], f, sort, cursor, limit) == Ok(pages[0])
    && if pages[0].nextCursor.None? then |pages| == 1
       else IsMongoWalk(schema, f, sort, limit, fetches[1..], pages[1..], pages[0].nextCursor)
  }

  /** What list paging demands of one fetch. */
  ghost predicate Listable(
    schema: Schema, f: Option<Filter>, sort: SortOrder, documents: seq<Document>, textKey: bool, textId: bool)
  {
    && DistinctIds(schema.idField, multiset(ItemsOf(schema, documents)))
    && AllTyped(documents, KeyField(schema, sort), textKey, textId)
    && Answers(f, ItemsOf(schema, documents))
  }

  function FetchesAsItems(schema: Schema, fetches: seq<seq<Document>>): (r: seq<seq<Item>>)
    ensures |r| == |fetches|
  {
    seq(|fetches|, i requires 0 <= i < |fetches| => ItemsOf(schema, fetches[i]))
  }

  function PagesAsItems(schema: Schema, pages: seq<DocumentPage>): (r: seq<Page>)
    ensures |r| == |pages|
  {
    seq(|pages|, i requires 0 <= i < |pages| => Page(ItemsOf(schema, pages[i].documents), pages[i].nextCursor))
  }

  lemma RestAsItems(schema: Schema, fetches: seq<seq<Document>>, pages: seq<DocumentPage>)
    requires |fetches| > 0 && |pages| > 0
    ensures FetchesAsItems(schema, fetches)[1..] == FetchesAsItems(schema, fetches[1..])
    ensures PagesAsItems(schema, pages)[1..] == PagesAsItems(schema, pages[1..])
  {
  }

  /** A walk of the collection is a list walk of its projected documents, also while they change. */
  lemma {:induction false} MongoWalkRefines(
    schema: Schema, f: Option<Filter>, sort: SortOrder, limit: nat,
    fetches: seq<seq<Document>>, pages: seq<DocumentPage>, cursor: Option<Token>, textKey: bool, textId: bool)
    requires Supported(schema, sort)
    requires f.Some? ==> Pushable(f.value, false) && Convertible(schema.QueryFields(), f.value, false)
    requires forall i :: 0 <= i < |fetches| ==> Listable(schema, f, sort, fetches[i], textKey, textId)
    requires ProducedCursor(schema.idField, sort, cursor)
    requires cursor.Some? ==> TypedCursor(cursor.value.data, textKey, textId)
    requires IsMongoWalk(schema, f, sort, limit, fetches, pages, cursor)
    ensures IsWalk(schema.idField, f, sort, limit, FetchesAsItems(schema, fetches), PagesAsItems(schema, pages), cursor)
    decreases |fetches|
  {
    assert Listable(schema, f, sort, fetches[0], textKey, textId);
    MongoSearchRefines(schema, fetches[0], f, sort, cursor, limit, textKey, textId);
    NextCursorIsTyped(schema, fetches[0], f, sort, cursor, limit, textKey, textId);
    if pages[0].nextCursor.Some? {
      MongoWalkRefines(schema, f, sort, limit, fetches[1..], pages[1..], pages[0].nextCursor, textKey, textId);
      RestAsItems(schema, fetches, pages);
    }
  }

  // ----- A query does not raise -----

  lemma {:induction false} FoundMembers(q: Option<Query>, documents: seq<Document>)
    ensures forall d :: d in Found(q, documents) <==> d in documents && Admits(q, d)
  {
    if documents != [] {
      FoundMembers(q, documents[1..]);
      assert documents == [documents[0]] + documents[1..];
    }
  }

  lemma {:induction false} FoundFewer(schema: Schema, q: Option<Query>, documents: seq<Document>, a: Item)
    ensures multiset(ItemsOf(schema, Found(q, documents)))[a] <= multiset(ItemsOf(schema, documents))[a]
  {
    if documents != [] {
      var document, others, rest := documents[0], documents[1..], Found(q, documents[1..]);
      assert documents == [document] + others;
      FoundFewer(schema, q, others, a);
      ItemsOfCons(schema, document, others);
      CountCons(ViewOf(schema, document), ItemsOf(schema, others), a);
      if Admits(q, document) {
        ItemsOfCons(schema, document, rest);
        CountCons(ViewOf(schema, document), ItemsOf(schema, rest), a);
        assert Found(q, documents) == [document] + rest;
      } else {
        assert Found(q, documents) == rest;
      }
    }
  }

  lemma {:induction false} FoundTwice(a: Option<Query>, b: Option<Query>, documents: seq<Document>)
    ensures Found(MergeQuery(a, b), documents) == Found(b, Found(a, documents))
  {
    if documents != [] {
      var document, rest := documents[0], documents[1..];
      MergeMeaning(a, b, document);
      FoundTwice(a, b, rest);
      if Admits(a, document) {
        assert Found(a, documents) == [document] + Found(a, rest);
        assert ([document] + Found(a, rest))[1..] == Found(a, rest);
      } else {
        assert Found(a, documents) == Found(a, rest);
      }
    }
  }

  /** A filtered search is an unfiltered one of the documents the filter's query finds. */
  lemma FilteredSearch(
    schema: Schema, spec: SortSpec, documents: seq<Document>, f: Option<Filter>, sort: SortOrder,
    cursor: Option<Token>, limit: nat)
    requires f.Some? ==> Convert(schema.QueryFields(), f.value, None, false).Ok?
    ensures MongoSearchBy(schema, spec, documents, f, sort, cursor, limit)
         == MongoSearchBy(schema, spec, Found(FilterQuery(schema, f), documents), None, sort, cursor, limit)
  {
    if CursorPredicate(schema, sort, cursor).Ok? {
      FoundTwice(FilterQuery(schema, f), CursorPredicate(schema, sort, cursor).value, documents);
      var seek := CursorPredicate(schema, sort, cursor).value;
      assert MergeQuery(None, seek) == seek;
    }
  }

  /** Identifiers are unique, and columns are of one kind. */
  ghost predicate Stored(schema: Schema, sort: SortOrder, documents: seq<Document>, textKey: bool, textId: bool) {
    && DistinctIds(schema.idField, multiset(ItemsOf(schema, documents)))
    && AllTyped(documents, KeyField(schema, sort), textKey, textId)
  }

  lemma FoundIsListable(
    schema: Schema, q: Option<Query>, sort: SortOrder, documents: seq<Document>, textKey: bool, textId: bool)
    requires Stored(schema, sort, documents, textKey, textId)
    ensures Listable(schema, None, sort, Found(q, documents), textKey, textId)
  {
    var found := Found(q, documents);
    FoundMembers(q, documents);
    forall a
      ensures multiset(ItemsOf(schema, found))[a] <= multiset(ItemsOf(schema, documents))[a]
    {
      FoundFewer(schema, q, documents, a);
    }
    SubsetKeepsIds(schema.idField, multiset(ItemsOf(schema, documents)), multiset(ItemsOf(schema, found)));
    forall i | 0 <= i < |found|
      ensures Typed(found[i], KeyField(schema, sort), textKey, textId)
    {
      assert found[i] in found;
      var j :| 0 <= j < |documents| && documents[j] == found[i];
    }
  }

  /** A stored document at this position that the filter's query admits. */
  ghost predicate QueryServes(
    schema: Schema, f: Option<Filter>, sort: SortOrder, documents: seq<Document>, p: Position)
    requires f.Some? ==> Convert(schema.QueryFields(), f.value, None, false).Ok?
  {
    exists i :: 0 <= i < |documents| && Admits(FilterQuery(schema, f), documents[i])
             && PositionOf(schema.idField, sort.KeyAttribute(schema.idField), ViewOf(schema, documents[i])) == p
  }

  /** For a pushable filter that is a document it holds of. */
  lemma PushableServes(schema: Schema, f: Option<Filter>, sort: SortOrder, documents: seq<Document>, p: Position)
    requires schema.Valid()
    requires f.Some? ==> Pushable(f.value, false) && Convert(schema.QueryFields(), f.value, None, false).Ok?
    ensures QueryServes(schema, f, sort, documents, p)
       <==> Serves(schema.idField, f, sort, ItemsOf(schema, documents), p)
  {
    var items := ItemsOf(schema, documents);
    forall i | 0 <= i < |documents|
      ensures Admits(FilterQuery(schema, f), documents[i]) <==> Keeps(f, items[i])
    {
      FilterAdmits(schema, f, documents[i]);
    }
    if Serves(schema.idField, f, sort, items, p) {
      var row :| row in items && Keeps(f, row)
              && PositionOf(schema.idField, sort.KeyAttribute(schema.idField), row) == p;
      var i :| 0 <= i < |items| && items[i] == row;
      assert Admits(FilterQuery(schema, f), documents[i]);
    }
    if QueryServes(schema, f, sort, documents, p) {
      var i :| 0 <= i < |documents| && Admits(FilterQuery(schema, f), documents[i])
            && PositionOf(schema.idField, sort.KeyAttribute(schema.idField), ViewOf(schema, documents[i])) == p;
      assert items[i] in items && Keeps(f, items[i]);
    }
  }

  lemma FoundServes(schema: Schema, f: Option<Filter>, sort: SortOrder, documents: seq<Document>, p: Position)
    requires f.Some? ==> Convert(schema.QueryFields(), f.value, None, false).Ok?
    requires QueryServes(schema, f, sort, documents, p)
    ensures Serves(schema.idField, None, sort, ItemsOf(schema, Found(FilterQuery(schema, f), documents)), p)
  {
    var q, found := FilterQuery(schema, f), Found(FilterQuery(schema, f), documents);
    FoundMembers(q, documents);
    var i :| 0 <= i < |documents| && Admits(q, documents[i])
          && PositionOf(schema.idField, sort.KeyAttribute(schema.idField), ViewOf(schema, documents[i])) == p;
    var k :| 0 <= k < |found| && found[k] == documents[i];
    var row := ViewOf(schema, documents[i]);
    assert ItemsOf(schema, found)[k] == row && Keeps(None, row);
  }

  function FilteredFetches(schema: Schema, f: Option<Filter>, fetches: seq<seq<Document>>): (r: seq<seq<Document>>)
    requires f.Some? ==> Convert(schema.QueryFields(), f.value, None, false).Ok?
    ensures |r| == |fetches|
  {
    seq(|fetches|, i requires 0 <= i < |fetches| => Found(FilterQuery(schema, f), fetches[i]))
  }

  lemma {:induction false} FilteredWalk(
    schema: Schema, f: Option<Filter>, sort: SortOrder, limit: nat,
    fetches: seq<seq<Document>>, pages: seq<DocumentPage>, cursor: Option<Token>)
    requires f.Some? ==> Convert(schema.QueryFields(), f.value, None, false).Ok?
    requires IsMongoWalk(schema, f, sort, limit, fetches, pages, cursor)
    ensures IsMongoWalk(schema, None, sort, limit, FilteredFetches(schema, f, fetches), pages, cursor)
    decreases |fetches|
  {
    FilteredSearch(schema, SpecOf(schema, sort), fetches[0], f, sort, cursor, limit);
    FilteredRest(schema, f, fetches);
    if pages[0].nextCursor.Some? {
      FilteredWalk(schema, f, sort, limit, fetches[1..], pages[1..], pages[0].nextCursor);
    }
  }

  lemma FilteredRest(schema: Schema, f: Option<Filter>, fetches: seq<seq<Document>>)
    requires f.Some? ==> Convert(schema.QueryFields(), f.value, None, false).Ok?
    requires fetches != []
    ensures FilteredFetches(schema, f, fetches)[0] == Found(FilterQuery(schema, f), fetches[0])
    ensures FilteredFetches(schema, f, fetches)[1..] == FilteredFetches(schema, f, fetches[1..])
  {
  }

  lemma UnfilteredWalkUnderChange(
    schema: Schema, sort: SortOrder, limit: nat,
    fetches: seq<seq<Document>>, pages: seq<DocumentPage>, p: Position, textKey: bool, textId: bool)
    requires Supported(schema, sort) && limit >= 1
    requires forall i :: 0 <= i < |fetches| ==>
               && Listable(schema, None, sort, fetches[i], textKey, textId)
               && Serves(schema.idField, None, sort, ItemsOf(schema, fetches[i]), p)
    requires IsMongoWalk(schema, None, sort, limit, fetches, pages, None)
    ensures Shown(schema.idField, p.id, PagesAsItems(schema, pages)) == 1
  {
    MongoWalkRefines(schema, None, sort, limit, fetches, pages, None, textKey, textId);
    forall i | 0 <= i < |fetches|
      ensures DistinctIds(schema.idField, multiset(FetchesAsItems(schema, fetches)[i]))
      ensures Serves(schema.idField, None, sort, FetchesAsItems(schema, fetches)[i], p)
    {
      assert Listable(schema, None, sort, fetches[i], textKey, textId);
    }
    WalkUnderChange(schema.idField, None, sort, limit, FetchesAsItems(schema, fetches), PagesAsItems(schema, pages), p);
  }

  /**
   So a walk of a changing collection, too, shows every steady document that the filter's query
   admits exactly once, whatever the filter is, and also where it would raise in memory.
   */
  lemma QueryWalkUnderChange(
    schema: Schema, f: Option<Filter>, sort: SortOrder, limit: nat,
    fetches: seq<seq<Document>>, pages: seq<DocumentPage>, p: Position, textKey: bool, textId: bool)
    requires Supported(schema, sort) && limit >= 1
    requires f.Some? ==> Convert(schema.QueryFields(), f.value, None, false).Ok?
    requires forall i :: 0 <= i < |fetches| ==>
               && Stored(schema, sort, fetches[i], textKey, textId)
               && QueryServes(schema, f, sort, fetches[i], p)
    requires IsMongoWalk(schema, f, sort, limit, fetches, pages, None)
    ensures Shown(schema.idField, p.id, PagesAsItems(schema, pages)) == 1
  {
    var filtered := FilteredFetches(schema, f, fetches);
    FilteredWalk(schema, f, sort, limit, fetches, pages, None);
    forall i | 0 <= i < |filtered|
      ensures Listable(schema, None, sort, filtered[i], textKey, textId)
      ensures Serves(schema.idField, None, sort, ItemsOf(schema, filtered[i]), p)
    {
      assert Stored(schema, sort, fetches[i], textKey, textId);
      FoundIsListable(schema, FilterQuery(schema, f), sort, fetches[i], textKey, textId);
      FoundServes(schema, f, sort, fetches[i], p);
    }
    UnfilteredWalkUnderChange(schema, sort, limit, filtered, pages, p, textKey, textId);
  }

  /** For a pushable filter those are the documents it holds of. */
  lemma MongoWalkUnderChange(
    schema: Schema, f: Option<Filter>, sort: SortOrder, limit: nat,
    fetches: seq<seq<Document>>, pages: seq<DocumentPage>, p: Position, textKey: bool, textId: bool)
    requires Supported(schema, sort) && limit >= 1
    requires f.Some? ==> Pushable(f.value, false) && Convert(schema.QueryFields(), f.value, None, false).Ok?
    requires forall i :: 0 <= i < |fetches| ==>
               && Stored(schema, sort, fetches[i], textKey, textId)
               && Serves(schema.idField, f, sort, ItemsOf(schema, fetches[i]), p)
    requires IsMongoWalk(schema, f, sort, limit, fetches, pages, None)
    ensures Shown(schema.idField, p.id, PagesAsItems(schema, pages)) == 1
  {
    forall i | 0 <= i < |fetches|
      ensures QueryServes(schema, f, sort, fetches[i], p)
    {
      PushableServes(schema, f, sort, fetches[i], p);
    }
    QueryWalkUnderChange(schema, f, sort, limit, fetches, pages, p, textKey, textId);
  }
}

/**
 The one sort a Mongo walk gets wrong: by the identifier, descending. Its seek lets in every
 row but the cursor's own, so a walk of an unchanged collection goes round in a circle,
 whichever way the client sorts.
 */
module DescendingWalks {
  import opened Wrappers
  import opened Values
  import opened Filters
  import opened MongoQuery
  import opened FilterConverter
  import opened MongoServices
  import opened Paging
  import opened MongoPaging

  function ByIdDescending(schema: Schema): SortOrder {
    ByAttribute(schema.idField, true)
  }

  /**
   The specification names the identifier twice. A client that keeps it as a list of pairs sorts
   descending; one that makes a mapping of it keeps the later direction, and sorts ascending.
   */
  datatype Client = Pairs | Mapping

  function ClientSpec(schema: Schema, client: Client): SortSpec {
    match client
    case Pairs => SpecOf(schema, ByIdDescending(schema))
    case Mapping => [(ID, 1)]
  }

  function Search(
    schema: Schema, client: Client, documents: seq<Document>, f: Option<Filter>, cursor: Option<Token>, limit: nat)
    : Result<DocumentPage, Error>
  {
    MongoSearchBy(schema, ClientSpec(schema, client), documents, f, ByIdDescending(schema), cursor, limit)
  }

  /** Identifiers are unique, and of one kind. */
  ghost predicate Identified(schema: Schema, documents: seq<Document>, textId: bool) {
    schema.Valid() && Stored(schema, ByIdDescending(schema), documents, textId, textId)
  }

  /** All rows but the one with this identifier. */
  function Others(idField: string, id: Value, s: seq<Item>): seq<Item> {
    if s == [] then []
    else (if Read(s[0], idField) != id then [s[0]] else []) + Others(idField, id, s[1..])
  }

  lemma {:induction false} OthersMembers(idField: string, id: Value, s: seq<Item>, a: Item)
    ensures multiset(Others(idField, id, s))[a] == if Read(a, idField) != id then multiset(s)[a] else 0
    ensures a in Others(idField, id, s) ==> a in s
  {
    if s != [] {
      FirstAndRest(s);
      OthersMembers(idField, id, s[1..], a);
    }
  }

  lemma OthersOfPermutation(idField: string, id: Value, s: seq<Item>, t: seq<Item>)
    requires multiset(s) == multiset(t)
    ensures multiset(Others(idField, id, s)) == multiset(Others(idField, id, t))
    ensures forall a :: multiset(Others(idField, id, s))[a] <= multiset(s)[a]
  {
    forall a
      ensures multiset(Others(idField, id, s))[a] == multiset(Others(idField, id, t))[a] <= multiset(s)[a]
    {
      OthersMembers(idField, id, s, a);
      OthersMembers(idField, id, t, a);
    }
  }

  lemma {:induction false} OthersInOrder(idField: string, key: string, descending: bool, id: Value, s: seq<Item>)
    requires InOrder(idField, key, descending, s)
    ensures InOrder(idField, key, descending, Others(idField, id, s))
  {
    if s != [] {
      OthersInOrder(idField, key, descending, id, s[1..]);
      var rest := Others(idField, id, s[1..]);
      if Read(s[0], idField) != id {
        assert ([s[0]] + rest)[1..] == rest;
        forall y | y in rest
          ensures y in s[1..]
        {
          OthersMembers(idField, id, s[1..], y);
        }
      } else {
        assert Others(idField, id, s) == rest;
      }
    }
  }

  /** Without row j of a list with distinct identifiers. */
  lemma {:induction false} OthersByIndex(idField: string, s: seq<Item>, j: nat)
    requires j < |s| && forall i, k :: 0 <= i < k < |s| ==> Read(s[i], idField) != Read(s[k], idField)
    ensures Others(idField, Read(s[j], idField), s) == s[..j] + s[j + 1..]
    decreases s
  {
    if j == 0 {
      OthersOfNone(idField, Read(s[0], idField), s[1..]);
    } else {
      OthersByIndex(idField, s[1..], j - 1);
      assert s[..j] == [s[0]] + s[1..][..j - 1] && s[1..][j..] == s[j + 1..];
    }
  }

  lemma {:induction false} OthersOfNone(idField: string, id: Value, s: seq<Item>)
    requires forall i :: 0 <= i < |s| ==> Read(s[i], idField) != id
    ensures Others(idField, id, s) == s
  {
    if s != [] {
      OthersOfNone(idField, id, s[1..]);
      assert s == [s[0]] + s[1..];
    }
  }

  // ----- The seek, seen on items -----

  /** The query of a cursor admits exactly the documents with another identifier. */
  lemma DescendingSeek(id: Value, document: Document, textId: bool)
    requires OfKind(id, textId) && Typed(document, ID, textId, textId)
    ensures Selects(KeysetQuery(ID, id, id, false), document) <==> Read(document, ID) != id
  {
    SeekSelects(ID, id, id, false, document);
    BeforeTotal(id, Read(document, ID));
  }

  lemma {:induction false} FoundOthers(schema: Schema, id: Value, documents: seq<Document>, textId: bool)
    requires schema.Valid() && OfKind(id, textId) && AllTyped(documents, ID, textId, textId)
    ensures ItemsOf(schema, Found(Some(KeysetQuery(ID, id, id, false)), documents))
         == Others(schema.idField, id, ItemsOf(schema, documents))
  {
    if documents != [] {
      var document, rest := documents[0], documents[1..];
      assert documents == [document] + rest;
      ItemsOfCons(schema, document, rest);
      FoundOthers(schema, id, rest, textId);
      DescendingSeek(id, document, textId);
      ViewReads(schema, document, schema.idField);
      var q := Some(KeysetQuery(ID, id, id, false));
      if Admits(q, document) {
        assert Found(q, documents) == [document] + Found(q, rest);
        ItemsOfCons(schema, document, Found(q, rest));
      } else {
        assert Found(q, documents) == Found(q, rest);
      }
      assert ([ViewOf(schema, document)] + ItemsOf(schema, rest))[1..] == ItemsOf(schema, rest);
    }
  }

  /** The collection as its readers see it, in the client's order. */
  function Sorted(schema: Schema, client: Client, documents: seq<Document>): seq<Item> {
    ItemsOf(schema, SpecSorted(ClientSpec(schema, client), documents))
  }

  /** The cursor that points at row j. */
  function CursorAt(schema: Schema, s: seq<Item>, j: nat): Option<Token>
    requires j < |s|
  {
    Some(Paging.NextCursor(schema.idField, ByIdDescending(schema), s[j]))
  }

  /** The client's order is by the identifier, one way or the other. */
  lemma SortedById(schema: Schema, client: Client, documents: seq<Document>)
    requires schema.Valid() && DistinctIds(schema.idField, multiset(ItemsOf(schema, documents)))
    ensures InOrder(schema.idField, schema.idField, client.Pairs?, Sorted(schema, client, documents))
    ensures multiset(Sorted(schema, client, documents)) == multiset(ItemsOf(schema, documents))
  {
    SpecSortedInOrder(schema, if client.Pairs? then ByIdDescending(schema) else ById, documents);
  }

  lemma SortedFacts(schema: Schema, client: Client, documents: seq<Document>, textId: bool)
    requires Identified(schema, documents, textId)
    ensures var s := Sorted(schema, client, documents);
            && |s| == |documents|
            && (forall i, k :: 0 <= i < k < |s| ==> Read(s[i], schema.idField) != Read(s[k], schema.idField))
            && (forall i :: 0 <= i < |s| ==> OfKind(Read(s[i], schema.idField), textId))
  {
    var s := Sorted(schema, client, documents);
    SortedById(schema, client, documents);
    assert |multiset(s)| == |multiset(ItemsOf(schema, documents))|;
    forall i, k | 0 <= i < k < |s|
      ensures Read(s[i], schema.idField) != Read(s[k], schema.idField)
    {
      InOrderByIndex(schema.idField, schema.idField, client.Pairs?, s, i, k);
      BeforeTotal(Read(s[i], schema.idField), Read(s[k], schema.idField));
    }
    forall i | 0 <= i < |s|
      ensures OfKind(Read(s[i], schema.idField), textId)
    {
      assert s[i] in multiset(ItemsOf(schema, documents));
      var k :| 0 <= k < |documents| && ItemsOf(schema, documents)[k] == s[i];
      ViewReads(schema, documents[k], schema.idField);
    }
  }

  /** What a page behind row j is cut from: every row but row j. */
  function Behind(s: seq<Item>, j: Option<nat>): seq<Item>
    requires j.Some? ==> j.value < |s|
  {
    if j.None? then s else s[..j.value] + s[j.value + 1..]
  }

  lemma ClientPage(
    schema: Schema, client: Client, documents: seq<Document>, j: Option<nat>, limit: nat, textId: bool)
    requires Identified(schema, documents, textId)
    requires j.Some? ==> j.value < |Sorted(schema, client, documents)|
    ensures var s := Sorted(schema, client, documents);
            var cursor := if j.None? then None else CursorAt(schema, s, j.value);
            var page := Search(schema, client, documents, None, cursor, limit);
            && page.Ok?
            && Page(ItemsOf(schema, page.value.documents), page.value.nextCursor)
               == PageOf(schema.idField, ByIdDescending(schema), Behind(s, j), limit)
  {
    var s := Sorted(schema, client, documents);
    SortedFacts(schema, client, documents, textId);
    if j.None? {
      FoundAll(documents);
      PageProjects(schema, ByIdDescending(schema), SpecSorted(ClientSpec(schema, client), documents), limit);
    } else {
      var id := Read(s[j.value], schema.idField);
      BehindIsOthers(schema, client, documents, id, textId);
      OthersByIndex(schema.idField, s, j.value);
      SearchFrom(schema, client, documents, s[j.value], limit);
    }
  }

  /** A search from the cursor of a row is a page of what the seek for its identifier finds. */
  lemma SearchFrom(schema: Schema, client: Client, documents: seq<Document>, row: Item, limit: nat)
    requires schema.Valid()
    ensures var sort, id := ByIdDescending(schema), Read(row, schema.idField);
            var found := Found(Some(KeysetQuery(ID, id, id, false)), documents);
            var page := Search(
              schema, client, documents, None, Some(Paging.NextCursor(schema.idField, sort, row)), limit);
            && page.Ok?
            && Page(ItemsOf(schema, page.value.documents), page.value.nextCursor)
               == PageOf(schema.idField, sort, Sorted(schema, client, found), limit)
  {
    var sort, id := ByIdDescending(schema), Read(row, schema.idField);
    var q := Some(KeysetQuery(ID, id, id, false));
    assert CursorPredicate(schema, sort, Some(Paging.NextCursor(schema.idField, sort, row))) == Ok(q);
    PageProjects(schema, sort, SpecSorted(ClientSpec(schema, client), Found(q, documents)), limit);
  }

  lemma {:induction false} FoundAll(documents: seq<Document>)
    ensures Found(None, documents) == documents
  {
    if documents != [] {
      FoundAll(documents[1..]);
      assert documents == [documents[0]] + documents[1..];
    }
  }

  /** Sorting what the seek finds is leaving the cursor's row out of the sorted collection. */
  lemma BehindIsOthers(schema: Schema, client: Client, documents: seq<Document>, id: Value, textId: bool)
    requires Identified(schema, documents, textId) && OfKind(id, textId)
    ensures Sorted(schema, client, Found(Some(KeysetQuery(ID, id, id, false)), documents))
         == Others(schema.idField, id, Sorted(schema, client, documents))
  {
    var items, s := ItemsOf(schema, documents), Sorted(schema, client, documents);
    var found := Found(Some(KeysetQuery(ID, id, id, false)), documents);
    FoundOthers(schema, id, documents, textId);
    SortedById(schema, client, documents);
    OthersOfPermutation(schema.idField, id, items, s);
    SubsetKeepsIds(schema.idField, multiset(items), multiset(ItemsOf(schema, found)));
    SortedById(schema, client, found);
    OthersInOrder(schema.idField, schema.idField, client.Pairs?, id, s);
    OrderIsUnique(schema.idField, schema.idField, client.Pairs?,
                  Sorted(schema, client, found), Others(schema.idField, id, s));
  }

  // ----- Walks -----

  /** Where the page behind row j leads: back to row limit - 1, or on to row limit, or to the end. */
  lemma NextTurn(schema: Schema, s: seq<Item>, j: Option<nat>, limit: nat)
    requires limit >= 1 && (j.Some? ==> j.value < |s|)
    ensures PageOf(schema.idField, ByIdDescending(schema), Behind(s, j), limit).nextCursor ==
            if |Behind(s, j)| <= limit then None
            else CursorAt(schema, s, if j.None? || j.value >= limit then limit - 1 else limit)
  {
    if |Behind(s, j)| > limit {
      LastOfPage(schema, Behind(s, j), limit);
      BehindAt(s, j, limit - 1);
    }
  }

  lemma LastOfPage(schema: Schema, rest: seq<Item>, limit: nat)
    requires 1 <= limit < |rest|
    ensures PageOf(schema.idField, ByIdDescending(schema), rest, limit).nextCursor == CursorAt(schema, rest, limit - 1)
  {
    assert rest[..limit][limit - 1] == rest[limit - 1];
  }

  /** What that page shows is among the first limit + 1 rows. */
  lemma ShowsTheFront(schema: Schema, s: seq<Item>, j: Option<nat>, limit: nat, i: nat)
    requires (j.Some? ==> j.value < |s|) && |s| > limit
    requires i < |PageOf(schema.idField, ByIdDescending(schema), Behind(s, j), limit).items|
    ensures PageOf(schema.idField, ByIdDescending(schema), Behind(s, j), limit).items[i] in s[..limit + 1]
  {
    BehindAt(s, j, i);
    var k := if j.None? || j.value > i then i else i + 1;
    assert s[..limit + 1][k] == s[k];
  }

  lemma BehindAt(s: seq<Item>, j: Option<nat>, i: nat)
    requires (j.Some? ==> j.value < |s|) && i < |Behind(s, j)|
    ensures Behind(s, j)[i] == s[if j.None? || j.value > i then i else i + 1]
  {
  }

  /** A walk by this client; with a list of pairs it is the walk of every other sort. */
  ghost predicate IsClientWalk(
    schema: Schema, client: Client, f: Option<Filter>, limit: nat,
    fetches: seq<seq<Document>>, pages: seq<DocumentPage>, cursor: Option<Token>)
    decreases |fetches|
  {
    && |fetches| == |pages| > 0
    && Search(schema, client, fetches[0], f, cursor, limit) == Ok(pages[0])
    && if pages[0].nextCursor.None? then |pages| == 1
       else IsClientWalk(schema, client, f, limit, fetches[1..], pages[1..], pages[0].nextCursor)
  }

  lemma {:induction false} PairsWalkIsMongoWalk(
    schema: Schema, f: Option<Filter>, limit: nat,
    fetches: seq<seq<Document>>, pages: seq<DocumentPage>, cursor: Option<Token>)
    ensures IsClientWalk(schema, Pairs, f, limit, fetches, pages, cursor)
       <==> IsMongoWalk(schema, f, ByIdDescending(schema), limit, fetches, pages, cursor)
    decreases |fetches|
  {
    if |fetches| == |pages| > 0 && pages[0].nextCursor.Some? {
      PairsWalkIsMongoWalk(schema, f, limit, fetches[1..], pages[1..], pages[0].nextCursor);
    }
  }

  /** With more than one row beyond the first page, no number of pages ends a walk. */
  lemma {:induction false} DescendingWalkCircles(
    schema: Schema, client: Client, documents: seq<Document>, limit: nat, textId: bool,
    fetches: seq<seq<Document>>, pages: seq<DocumentPage>, j: Option<nat>)
    requires Identified(schema, documents, textId) && limit >= 1 && |documents| >= limit + 2
    requires j.None? || j.value == limit - 1 || j.value == limit
    requires j.Some? ==> j.value < |Sorted(schema, client, documents)|
    requires forall i :: 0 <= i < |fetches| ==> fetches[i] == documents
    ensures !IsClientWalk(schema, client, None, limit, fetches, pages,
                          if j.None? then None else CursorAt(schema, Sorted(schema, client, documents), j.value))
    decreases |fetches|
  {
    var s := Sorted(schema, client, documents);
    var cursor := if j.None? then None else CursorAt(schema, s, j.value);
    if IsClientWalk(schema, client, None, limit, fetches, pages, cursor) {
      SortedFacts(schema, client, documents, textId);
      assert fetches[0] == documents;
      ClientPage(schema, client, documents, j, limit, textId);
      NextTurn(schema, s, j, limit);
      var next := if j.None? || j.value >= limit then limit - 1 else limit;
      DescendingWalkCircles(schema, client, documents, limit, textId, fetches[1..], pages[1..], Some(next));
    }
  }

  /** What the circle shows: its pages hold the first limit + 1 rows only, so the others never show. */
  lemma CircleShowsTheFront(
    schema: Schema, client: Client, documents: seq<Document>, limit: nat, textId: bool, j: Option<nat>,
    document: Document)
    requires Identified(schema, documents, textId) && limit >= 1 && |documents| >= limit + 2
    requires j.None? || j.value == limit - 1 || j.value == limit
    requires j.Some? ==> j.value < |Sorted(schema, client, documents)|
    requires var cursor := if j.None? then None else CursorAt(schema, Sorted(schema, client, documents), j.value);
             var page := Search(schema, client, documents, None, cursor, limit);
             page.Ok? && document in page.value.documents
    ensures limit + 1 <= |Sorted(schema, client, documents)|
    ensures ViewOf(schema, document) in Sorted(schema, client, documents)[..limit + 1]
  {
    var s := Sorted(schema, client, documents);
    SortedFacts(schema, client, documents, textId);
    ClientPage(schema, client, documents, j, limit, textId);
    var cursor := if j.None? then None else CursorAt(schema, s, j.value);
    var page := Search(schema, client, documents, None, cursor, limit).value;
    var i :| 0 <= i < |page.documents| && page.documents[i] == document;
    ShowsTheFront(schema, s, j, limit, i);
    assert ItemsOf(schema, page.documents)[i] == ViewOf(schema, document);
  }

  /** These pages are a complete walk of an unchanged collection. */
  ghost predicate CompleteWalk(
    schema: Schema, client: Client, documents: seq<Document>, f: Option<Filter>, limit: nat,
    pages: seq<DocumentPage>, cursor: Option<Token>)
  {
    IsClientWalk(schema, client, f, limit, seq(|pages|, _ => documents), pages, cursor)
  }

  lemma LastPage(
    schema: Schema, client: Client, documents: seq<Document>, limit: nat, page: DocumentPage, cursor: Option<Token>)
    requires Search(schema, client, documents, None, cursor, limit) == Ok(page)
    requires page.nextCursor.None?
    ensures CompleteWalk(schema, client, documents, None, limit, [page], cursor)
  {
  }

  lemma PageBefore(
    schema: Schema, client: Client, documents: seq<Document>, limit: nat, page: DocumentPage,
    pages: seq<DocumentPage>, cursor: Option<Token>)
    requires Search(schema, client, documents, None, cursor, limit) == Ok(page)
    requires page.nextCursor.Some? && CompleteWalk(schema, client, documents, None, limit, pages, page.nextCursor)
    ensures CompleteWalk(schema, client, documents, None, limit, [page] + pages, cursor)
  {
    var longer := [page] + pages;
    assert longer[1..] == pages && seq(|longer|, _ => documents)[1..] == seq(|pages|, _ => documents);
  }

  lemma UnfilteredWalkEndsExactly(
    schema: Schema, client: Client, documents: seq<Document>, limit: nat, textId: bool)
    requires Identified(schema, documents, textId) && limit >= 1
    ensures (exists pages: seq<DocumentPage> :: CompleteWalk(schema, client, documents, None, limit, pages, None))
       <==> |documents| <= limit + 1
  {
    if |documents| >= limit + 2 {
      forall pages: seq<DocumentPage>
        ensures !CompleteWalk(schema, client, documents, None, limit, pages, None)
      {
        DescendingWalkCircles(schema, client, documents, limit, textId, seq(|pages|, _ => documents), pages, None);
      }
    } else {
      var pages := ShortWalk(schema, client, documents, limit, textId);
    }
  }

  /** With at most one row beyond the first page, the walk is one page or two. */
  lemma ShortWalk(schema: Schema, client: Client, documents: seq<Document>, limit: nat, textId: bool)
    returns (pages: seq<DocumentPage>)
    requires Identified(schema, documents, textId) && limit >= 1 && |documents| <= limit + 1
    ensures CompleteWalk(schema, client, documents, None, limit, pages, None)
  {
    var s := Sorted(schema, client, documents);
    SortedFacts(schema, client, documents, textId);
    ClientPage(schema, client, documents, None, limit, textId);
    NextTurn(schema, s, None, limit);
    var first := Search(schema, client, documents, None, None, limit).value;
    if |documents| <= limit {
      LastPage(schema, client, documents, limit, first, None);
      pages := [first];
    } else {
      ClientPage(schema, client, documents, Some(limit - 1), limit, textId);
      NextTurn(schema, s, Some(limit - 1), limit);
      var second := Search(schema, client, documents, None, first.nextCursor, limit).value;
      LastPage(schema, client, documents, limit, second, first.nextCursor);
      PageBefore(schema, client, documents, limit, first, [second], None);
      pages := [first] + [second];
    }
  }

  /** A filtered walk is an unfiltered one of what the filter's query finds. */
  lemma {:induction false} FilteredClientWalk(
    schema: Schema, client: Client, f: Option<Filter>, limit: nat,
    fetches: seq<seq<Document>>, founds: seq<seq<Document>>, pages: seq<DocumentPage>, cursor: Option<Token>)
    requires f.Some? ==> Convert(schema.QueryFields(), f.value, None, false).Ok?
    requires |founds| == |fetches|
    requires forall i :: 0 <= i < |fetches| ==> founds[i] == Found(FilterQuery(schema, f), fetches[i])
    ensures IsClientWalk(schema, client, f, limit, fetches, pages, cursor)
       <==> IsClientWalk(schema, client, None, limit, founds, pages, cursor)
    decreases |fetches|
  {
    if |fetches| == |pages| > 0 {
      FilteredSearch(schema, ClientSpec(schema, client), fetches[0], f, ByIdDescending(schema), cursor, limit);
      FilteredClientWalk(schema, client, f, limit, fetches[1..], founds[1..], pages[1..], pages[0].nextCursor);
    }
  }

  /**
   On an unchanged collection, with either client and any filter that compiles, the walk ends
   exactly when at most one of the documents the filter's query finds is beyond its first page.
   */
  lemma DescendingWalkEndsExactly(
    schema: Schema, client: Client, documents: seq<Document>, f: Option<Filter>, limit: nat, textId: bool)
    requires Identified(schema, documents, textId) && limit >= 1
    requires f.Some? ==> Convert(schema.QueryFields(), f.value, None, false).Ok?
    ensures (exists pages: seq<DocumentPage> :: CompleteWalk(schema, client, documents, f, limit, pages, None))
       <==> |Found(FilterQuery(schema, f), documents)| <= limit + 1
  {
    var found := Found(FilterQuery(schema, f), documents);
    FoundIsListable(schema, FilterQuery(schema, f), ByIdDescending(schema), documents, textId, textId);
    UnfilteredWalkEndsExactly(schema, client, found, limit, textId);
    forall pages: seq<DocumentPage>
      ensures CompleteWalk(schema, client, documents, f, limit, pages, None)
         <==> CompleteWalk(schema, client, found, None, limit, pages, None)
    {
      var fetches, founds := seq(|pages|, _ => documents), seq(|pages|, _ => found);
      FilteredClientWalk(schema, client, f, limit, fetches, founds, pages, None);
    }
  }
}

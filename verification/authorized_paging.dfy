/** Searching through the policies: the scope of the read side, page by page and walk by walk. */
module AuthorizedPaging {
  import opened Wrappers
  import opened Filters
  import opened MongoQuery
  import opened FilterConverter
  import opened Policies
  import opened MongoServices
  import opened AuthorizedServices
  import opened Paging
  import opened MongoPaging

  /** A policy-scoped search hands the combined filter to the inner service. */
  function AuthorizedSearch(
    schema: Schema, policies: seq<Policy>, user: Option<string>, documents: seq<Document>,
    f: Option<Filter>, sort: SortOrder, cursor: Option<Token>, limit: nat): Result<DocumentPage, Error>
  {
    match PermissionFilter(policies, user, Search)
    case Err(e) => Err(e)
    case Ok(policyFilter) => MongoSearch(schema, documents, Some(Combine(policyFilter, f)), sort, cursor, limit)
  }

  /** What a search may reach: some policy permits it, and the caller's own query, whatever it is, admits it. */
  ghost predicate Reached(
    schema: Schema, policies: seq<Policy>, user: Option<string>, f: Option<Filter>, document: Document)
  {
    && SomePermits(policies, user, Search, ViewOf(schema, document))
    && (f.Some? ==> Admitted(schema.QueryFields(), f.value, document))
  }

  /** What the caller may see of a search. */
  ghost predicate Visible(
    schema: Schema, policies: seq<Policy>, user: Option<string>, f: Option<Filter>, document: Document)
  {
    SomePermits(policies, user, Search, ViewOf(schema, document)) && Keeps(f, ViewOf(schema, document))
  }

  /** For a pushable filter the two are the same. */
  lemma ReachedIsVisible(
    schema: Schema, policies: seq<Policy>, user: Option<string>, f: Option<Filter>, document: Document)
    requires schema.Valid() && PermissionFilter(policies, user, Search).Ok?
    requires f.Some? ==> Pushable(f.value, false)
    requires Convertible(schema.QueryFields(), Combine(PermissionFilter(policies, user, Search).value, f), false)
    ensures Reached(schema, policies, user, f, document) <==> Visible(schema, policies, user, f, document)
  {
    var scope := Combine(PermissionFilter(policies, user, Search).value, f);
    ScopeAdmittedExactly(schema, policies, user, Search, f, document);
    CombineMeaning(policies, user, Search, f, ViewOf(schema, document));
    PushableAdmitted(schema, scope, document);
  }

  /**
   A search fails when a policy is overlong, when its scope does not compile, and on a cursor that
   was tampered with or made for another sort, in this order, and on nothing else.
   */
  lemma AuthorizedSearchRaisesExactly(
    schema: Schema, policies: seq<Policy>, user: Option<string>, documents: seq<Document>,
    f: Option<Filter>, sort: SortOrder, cursor: Option<Token>, limit: nat)
    ensures SomeOverlong(policies, Search) <==> PermissionFilter(policies, user, Search).Err?
    ensures var page := AuthorizedSearch(schema, policies, user, documents, f, sort, cursor, limit);
            if SomeOverlong(policies, Search) then page == Err(TooManyValues)
            else
              var scope := Combine(PermissionFilter(policies, user, Search).value, f);
              if !Convertible(schema.QueryFields(), scope, false) then page == Err(Unsupported)
              else if cursor.Some? && !MadeFor(sort, cursor.value) then page == Err(InvalidInput)
              else page.Ok?
  {
    PermissionRaisesExactly(policies, user, Search);
    if !SomeOverlong(policies, Search) {
      var scope := Combine(PermissionFilter(policies, user, Search).value, f);
      MongoSearchAnswersExactly(schema, documents, Some(scope), sort, cursor, limit);
    }
  }

  /** A caller who may only read searches as if there were no policies. */
  lemma ReadOnlySearchIsUnscoped(
    schema: Schema, user: Option<string>, documents: seq<Document>, sort: SortOrder, cursor: Option<Token>, limit: nat)
    ensures AuthorizedSearch(schema, [ReadOnly], user, documents, None, sort, cursor, limit)
         == MongoSearch(schema, documents, None, sort, cursor, limit)
  {
    assert [ReadOnly][0] == ReadOnly && [ReadOnly][1..] == [];
    assert ReduceAll([], user, Search) == Ok([]);
    assert ReduceAll([ReadOnly], user, Search) == Ok([All] + []) && [All] + [] == [All];
    OrOfConstants([All]);
  }

  /** And with a filter, or beside other policies, reaches every document the filter's own query admits. */
  lemma ReadOnlyReachesAll(
    schema: Schema, policies: seq<Policy>, user: Option<string>, f: Option<Filter>, document: Document)
    requires ReadOnly in policies
    ensures Reached(schema, policies, user, f, document)
       <==> (f.Some? ==> Admitted(schema.QueryFields(), f.value, document))
  {
    assert Permits(ReadOnly, user, Search, ViewOf(schema, document));
  }

  /**
   Whatever the caller's filter, the sort, the limit and the cursor: a page shows only stored
   documents that some policy permits and the caller's own query admits.
   */
  lemma PageShowsOnlyPermitted(
    schema: Schema, policies: seq<Policy>, user: Option<string>, documents: seq<Document>,
    f: Option<Filter>, sort: SortOrder, cursor: Option<Token>, limit: nat, document: Document)
    requires schema.Valid()
    requires AuthorizedSearch(schema, policies, user, documents, f, sort, cursor, limit).Ok?
    requires document in AuthorizedSearch(schema, policies, user, documents, f, sort, cursor, limit).value.documents
    ensures document in documents && Reached(schema, policies, user, f, document)
  {
    var scope := Combine(PermissionFilter(policies, user, Search).value, f);
    var query, seek := FilterQuery(schema, Some(scope)), CursorPredicate(schema, sort, cursor).value;
    ConvertSucceedsExactly(schema.QueryFields(), scope, None, false);
    SpecSortedFrom(SpecOf(schema, sort), None, Found(MergeQuery(query, seek), documents));
    FoundMembers(MergeQuery(query, seek), documents);
    MergeMeaning(query, seek, document);
    ScopeAdmittedExactly(schema, policies, user, Search, f, document);
  }

  /** For a pushable filter: only documents that are visible to the caller. */
  lemma PageShowsOnlyVisible(
    schema: Schema, policies: seq<Policy>, user: Option<string>, documents: seq<Document>,
    f: Option<Filter>, sort: SortOrder, cursor: Option<Token>, limit: nat, document: Document)
    requires schema.Valid()
    requires f.Some? ==> Pushable(f.value, false)
    requires AuthorizedSearch(schema, policies, user, documents, f, sort, cursor, limit).Ok?
    requires document in AuthorizedSearch(schema, policies, user, documents, f, sort, cursor, limit).value.documents
    ensures document in documents && Visible(schema, policies, user, f, document)
  {
    PageShowsOnlyPermitted(schema, policies, user, documents, f, sort, cursor, limit, document);
    ConvertSucceedsExactly(
      schema.QueryFields(), Combine(PermissionFilter(policies, user, Search).value, f), None, false);
    ReachedIsVisible(schema, policies, user, f, document);
  }

  ghost predicate IsAuthorizedWalk(
    schema: Schema, policies: seq<Policy>, user: Option<string>, f: Option<Filter>, sort: SortOrder, limit: nat,
    fetches: seq<seq<Document>>, pages: seq<DocumentPage>, cursor: Option<Token>)
    decreases |fetches|
  {
    && |fetches| == |pages| > 0
    && AuthorizedSearch(schema, policies, user, fetches[0], f, sort, cursor, limit) == Ok(pages[0])
    && if pages[0].nextCursor.None? then |pages| == 1
       else IsAuthorizedWalk(schema, policies, user, f, sort, limit, fetches[1..], pages[1..], pages[0].nextCursor)
  }

  lemma {:induction false} AuthorizedWalkIsScoped(
    schema: Schema, policies: seq<Policy>, user: Option<string>, f: Option<Filter>, sort: SortOrder, limit: nat,
    fetches: seq<seq<Document>>, pages: seq<DocumentPage>, cursor: Option<Token>)
    requires IsAuthorizedWalk(schema, policies, user, f, sort, limit, fetches, pages, cursor)
    ensures PermissionFilter(policies, user, Search).Ok?
    ensures var scope := Combine(PermissionFilter(policies, user, Search).value, f);
            && Convert(schema.QueryFields(), scope, None, false).Ok?
            && IsMongoWalk(schema, Some(scope), sort, limit, fetches, pages, cursor)
    decreases |fetches|
  {
    if pages[0].nextCursor.Some? {
      AuthorizedWalkIsScoped(
        schema, policies, user, f, sort, limit, fetches[1..], pages[1..], pages[0].nextCursor);
    }
  }

  /** A document with this position is stored and in reach. */
  ghost predicate OffersReached(
    schema: Schema, policies: seq<Policy>, user: Option<string>, f: Option<Filter>, sort: SortOrder,
    documents: seq<Document>, p: Position)
  {
    exists i :: 0 <= i < |documents| && Reached(schema, policies, user, f, documents[i])
             && PositionOf(schema.idField, sort.KeyAttribute(schema.idField), ViewOf(schema, documents[i])) == p
  }

  /** A document with this position is stored, permitted and kept. */
  ghost predicate Offers(
    schema: Schema, policies: seq<Policy>, user: Option<string>, f: Option<Filter>, sort: SortOrder,
    documents: seq<Document>, p: Position)
  {
    exists i :: 0 <= i < |documents| && Visible(schema, policies, user, f, documents[i])
             && PositionOf(schema.idField, sort.KeyAttribute(schema.idField), ViewOf(schema, documents[i])) == p
  }

  /**
   Policies, compiler and paging composed: while the collection changes, a walk shows every
   document that stays permitted, admitted by the caller's own query, and in place exactly once.
   */
  lemma ScopedWalkUnderChange(
    schema: Schema, policies: seq<Policy>, user: Option<string>, f: Option<Filter>, sort: SortOrder, limit: nat,
    fetches: seq<seq<Document>>, pages: seq<DocumentPage>, p: Position, textKey: bool, textId: bool)
    requires Supported(schema, sort) && limit >= 1
    requires forall i :: 0 <= i < |fetches| ==>
               && Stored(schema, sort, fetches[i], textKey, textId)
               && OffersReached(schema, policies, user, f, sort, fetches[i], p)
    requires IsAuthorizedWalk(schema, policies, user, f, sort, limit, fetches, pages, None)
    ensures Shown(schema.idField, p.id, PagesAsItems(schema, pages)) == 1
  {
    AuthorizedWalkIsScoped(schema, policies, user, f, sort, limit, fetches, pages, None);
    var scope := Combine(PermissionFilter(policies, user, Search).value, f);
    ConvertSucceedsExactly(schema.QueryFields(), scope, None, false);
    forall i | 0 <= i < |fetches|
      ensures QueryServes(schema, Some(scope), sort, fetches[i], p)
    {
      assert OffersReached(schema, policies, user, f, sort, fetches[i], p);
      var k :| 0 <= k < |fetches[i]| && Reached(schema, policies, user, f, fetches[i][k])
            && PositionOf(schema.idField, sort.KeyAttribute(schema.idField), ViewOf(schema, fetches[i][k])) == p;
      ScopeAdmittedExactly(schema, policies, user, Search, f, fetches[i][k]);
    }
    QueryWalkUnderChange(schema, Some(scope), sort, limit, fetches, pages, p, textKey, textId);
  }

  /** For a pushable filter: every document that stays permitted, matching and in place. */
  lemma AuthorizedWalkUnderChange(
    schema: Schema, policies: seq<Policy>, user: Option<string>, f: Option<Filter>, sort: SortOrder, limit: nat,
    fetches: seq<seq<Document>>, pages: seq<DocumentPage>, p: Position, textKey: bool, textId: bool)
    requires Supported(schema, sort) && limit >= 1
    requires f.Some? ==> Pushable(f.value, false)
    requires forall i :: 0 <= i < |fetches| ==>
               && Stored(schema, sort, fetches[i], textKey, textId)
               && Offers(schema, policies, user, f, sort, fetches[i], p)
    requires IsAuthorizedWalk(schema, policies, user, f, sort, limit, fetches, pages, None)
    ensures Shown(schema.idField, p.id, PagesAsItems(schema, pages)) == 1
  {
    AuthorizedWalkIsScoped(schema, policies, user, f, sort, limit, fetches, pages, None);
    ConvertSucceedsExactly(
      schema.QueryFields(), Combine(PermissionFilter(policies, user, Search).value, f), None, false);
    forall i | 0 <= i < |fetches|
      ensures OffersReached(schema, policies, user, f, sort, fetches[i], p)
    {
      assert Offers(schema, policies, user, f, sort, fetches[i], p);
      var k :| 0 <= k < |fetches[i]| && Visible(schema, policies, user, f, fetches[i][k])
            && PositionOf(schema.idField, sort.KeyAttribute(schema.idField), ViewOf(schema, fetches[i][k])) == p;
      ReachedIsVisible(schema, policies, user, f, fetches[i][k]);
    }
    ScopedWalkUnderChange(schema, policies, user, f, sort, limit, fetches, pages, p, textKey, textId);
  }
}

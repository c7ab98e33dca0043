/** Keyset paging over an in-memory list: ordering, the cursor seek, pages and walks. */
module Paging {
  import opened Wrappers
  import opened Values
  import opened Filters

  /** A served object, by attribute. */
  type Item = map<string, Value>

  /** No sort attribute means identifier order. */
  datatype SortOrder = ById | ByAttribute(attribute: string, descending: bool)
  {
    predicate Descending() { ByAttribute? && descending }

    function KeyAttribute(idField: string): string {
      if ById? then idField else attribute
    }
  }

  /** Where a row stands in an ordering: its sort key, then its identifier. */
  datatype Position = Position(key: Value, id: Value)

  function PositionOf(idField: string, key: string, item: Item): Position {
    Position(Read(item, key), Read(item, idField))
  }

  /** The paging order: only the key comparison mirrors for descending, never the identifier's. */
  predicate Earlier(descending: bool, p: Position, q: Position) {
    || (if descending then Before(q.key, p.key) else Before(p.key, q.key))
    || (p.key == q.key && Before(p.id, q.id))
  }

  lemma EarlierTransitive(descending: bool, p: Position, q: Position, r: Position)
    requires Earlier(descending, p, q) && Earlier(descending, q, r)
    ensures Earlier(descending, p, r)
  {
    if p.key == q.key && q.key == r.key {
      BeforeTotal(p.key, p.key);
      BeforeTransitive(p.id, q.id, r.id);
    } else if p.key != q.key && q.key != r.key {
      if descending {
        BeforeTransitive(r.key, q.key, p.key);
      } else {
        BeforeTransitive(p.key, q.key, r.key);
      }
    }
  }

  /** Two different positions are ordered one way or the other, never both. */
  lemma EarlierTotal(descending: bool, p: Position, q: Position)
    ensures Earlier(descending, p, q) || p == q || Earlier(descending, q, p)
    ensures !(Earlier(descending, p, q) && Earlier(descending, q, p))
    ensures !Earlier(descending, p, p)
  {
    BeforeTotal(p.key, q.key);
    BeforeTotal(p.id, q.id);
    BeforeTotal(p.key, p.key);
    BeforeTotal(p.id, p.id);
  }

  // ----- The two-pass stable sort -----

  /** Strict order of one sort key, null first ascending. */
  predicate KeyPrecedes(descending: bool, a: Value, b: Value) {
    if descending then Before(b, a) else Before(a, b)
  }

  function Inserted(key: string, descending: bool, x: Item, ys: seq<Item>): seq<Item> {
    if ys == [] then [x]
    else if KeyPrecedes(descending, Read(ys[0], key), Read(x, key)) then
      [ys[0]] + Inserted(key, descending, x, ys[1..])
    else [x] + ys
  }

  /** Python's sorted by one key: stable, also when reversed. */
  function StableSorted(key: string, descending: bool, xs: seq<Item>): seq<Item> {
    if xs == [] then []
    else Inserted(key, descending, xs[0], StableSorted(key, descending, xs[1..]))
  }

  /** _order: by identifier first, and then stably by the requested attribute. */
  function Ordered(idField: string, sort: SortOrder, models: seq<Item>): seq<Item> {
    var byId := StableSorted(idField, false, models);
    if sort.ById? then byId else StableSorted(sort.attribute, sort.descending, byId)
  }

  /** Strictly increasing in the paging order. */
  ghost predicate InOrder(idField: string, key: string, descending: bool, s: seq<Item>) {
    s != [] ==>
      && (forall y :: y in s[1..] ==> Earlier(descending, PositionOf(idField, key, s[0]), PositionOf(idField, key, y)))
      && InOrder(idField, key, descending, s[1..])
  }

  /** No identifier occurs twice. */
  ghost predicate DistinctIds(idField: string, rows: multiset<Item>) {
    && (forall a :: a in rows ==> rows[a] == 1)
    && (forall a, b :: a in rows && b in rows && Read(a, idField) == Read(b, idField) ==> a == b)
  }

  lemma FirstAndRest(s: seq<Item>)
    requires s != []
    ensures multiset(s) == multiset{s[0]} + multiset(s[1..])
    ensures forall a :: a in s <==> a == s[0] || a in s[1..]
  {
    assert s == [s[0]] + s[1..];
  }

  lemma {:induction false} InsertedMembers(key: string, descending: bool, x: Item, ys: seq<Item>)
    ensures multiset(Inserted(key, descending, x, ys)) == multiset{x} + multiset(ys)
    ensures forall a :: a in Inserted(key, descending, x, ys) <==> a == x || a in ys
  {
    if ys != [] {
      FirstAndRest(ys);
      InsertedMembers(key, descending, x, ys[1..]);
    }
  }

  lemma {:induction false} StableSortedMembers(key: string, descending: bool, xs: seq<Item>)
    ensures multiset(StableSorted(key, descending, xs)) == multiset(xs)
    ensures forall a :: a in StableSorted(key, descending, xs) <==> a in xs
  {
    if xs != [] {
      FirstAndRest(xs);
      StableSortedMembers(key, descending, xs[1..]);
      InsertedMembers(key, descending, xs[0], StableSorted(key, descending, xs[1..]));
    }
  }

  /** Inserting a row whose identifier precedes its equals keeps the order strict. */
  lemma {:induction false} InsertedInOrder(idField: string, key: string, descending: bool, x: Item, ys: seq<Item>)
    requires InOrder(idField, key, descending, ys)
    requires forall y :: y in ys && Read(y, key) == Read(x, key) ==> Before(Read(x, idField), Read(y, idField))
    ensures InOrder(idField, key, descending, Inserted(key, descending, x, ys))
  {
    if ys != [] {
      FirstAndRest(ys);
      var px, p0 := PositionOf(idField, key, x), PositionOf(idField, key, ys[0]);
      if KeyPrecedes(descending, Read(ys[0], key), Read(x, key)) {
        InsertedInOrder(idField, key, descending, x, ys[1..]);
        InsertedMembers(key, descending, x, ys[1..]);
        assert Inserted(key, descending, x, ys)[1..] == Inserted(key, descending, x, ys[1..]);
      } else {
        BeforeTotal(px.key, p0.key);
        assert Earlier(descending, px, p0);
        forall y | y in ys[1..] ensures Earlier(descending, px, PositionOf(idField, key, y)) {
          EarlierTransitive(descending, px, p0, PositionOf(idField, key, y));
        }
        assert ([x] + ys)[1..] == ys;
      }
    }
  }

  /** The first pass: rows with distinct identifiers come out in identifier order. */
  lemma {:induction false} FirstPassInOrder(idField: string, xs: seq<Item>)
    requires DistinctIds(idField, multiset(xs))
    ensures InOrder(idField, idField, false, StableSorted(idField, false, xs))
  {
    if xs != [] {
      FirstAndRest(xs);
      assert xs[0] !in xs[1..] by {
        assert multiset(xs)[xs[0]] == 1;
      }
      assert forall a :: a in xs[1..] ==> a in multiset(xs) && multiset(xs[1..])[a] == multiset(xs)[a];
      FirstPassInOrder(idField, xs[1..]);
      StableSortedMembers(idField, false, xs[1..]);
      InsertedInOrder(idField, idField, false, xs[0], StableSorted(idField, false, xs[1..]));
    }
  }

  /** The second pass: stably re-sorting identifier order by a key gives the paging order. */
  lemma {:induction false} SecondPassInOrder(idField: string, key: string, descending: bool, xs: seq<Item>)
    requires InOrder(idField, idField, false, xs)
    ensures InOrder(idField, key, descending, StableSorted(key, descending, xs))
  {
    if xs != [] {
      SecondPassInOrder(idField, key, descending, xs[1..]);
      StableSortedMembers(key, descending, xs[1..]);
      InsertedInOrder(idField, key, descending, xs[0], StableSorted(key, descending, xs[1..]));
    }
  }

  /** The two passes produce the rows, each once, strictly in the paging order. */
  lemma OrderedIsSorted(idField: string, sort: SortOrder, models: seq<Item>)
    requires DistinctIds(idField, multiset(models))
    ensures InOrder(idField, sort.KeyAttribute(idField), sort.Descending(), Ordered(idField, sort, models))
    ensures multiset(Ordered(idField, sort, models)) == multiset(models)
  {
    var byId := StableSorted(idField, false, models);
    FirstPassInOrder(idField, models);
    StableSortedMembers(idField, false, models);
    if sort.ByAttribute? {
      SecondPassInOrder(idField, sort.attribute, sort.descending, byId);
      StableSortedMembers(sort.attribute, sort.descending, byId);
    }
  }

  /** A list in strict order is determined by its rows. */
  lemma {:induction false} OrderIsUnique(idField: string, key: string, descending: bool, a: seq<Item>, b: seq<Item>)
    requires InOrder(idField, key, descending, a) && InOrder(idField, key, descending, b)
    requires multiset(a) == multiset(b)
    ensures a == b
  {
    if a == [] {
      assert b == [] by { assert |multiset(b)| == 0; }
    } else {
      assert b != [] by { assert a[0] in multiset(b); }
      FirstAndRest(a);
      FirstAndRest(b);
      if a[0] != b[0] {
        assert a[0] in multiset(b) && b[0] in multiset(a);
        EarlierTotal(descending, PositionOf(idField, key, a[0]), PositionOf(idField, key, b[0]));
        assert false;
      }
      assert multiset(a[1..]) == multiset(a) - multiset{a[0]};
      assert multiset(b[1..]) == multiset(b) - multiset{b[0]};
      OrderIsUnique(idField, key, descending, a[1..], b[1..]);
      assert a == [a[0]] + a[1..] && b == [b[0]] + b[1..];
    }
  }

  // ----- The cursor -----

  datatype CursorData = CursorData(field: Option<string>, ascending: bool, key: Value, id: Value)

  /** A cursor is sealed by authenticated encryption: anything else fails to open. */
  datatype Token = Sealed(data: CursorData) | Garbage

  function NextCursor(idField: string, sort: SortOrder, item: Item): Token {
    var field := if sort.ById? then None else Some(sort.attribute);
    Sealed(CursorData(field, !sort.Descending(), Read(item, sort.KeyAttribute(idField)), Read(item, idField)))
  }

  /** A tampered cursor, or one built for another sort, is rejected. */
  function Decode(sort: SortOrder, token: Token): Result<CursorData, Error> {
    match token
    case Garbage => Err(InvalidInput)
    case Sealed(data) =>
      var field := if sort.ById? then None else Some(sort.attribute);
      if data.field != field || data.ascending != !sort.Descending() then Err(InvalidInput) else Ok(data)
  }

  /** _after_cursor_item: null is the first block ascending and the last one descending. */
  predicate AfterCursorItem(key: Value, id: Value, cursorKey: Value, cursorId: Value, ascending: bool) {
    if ascending then
      if cursorKey == Null then key != Null || Before(cursorId, id)
      else if key == Null then false
      else Before(cursorKey, key) || (key == cursorKey && Before(cursorId, id))
    else
      if cursorKey == Null then key == Null && Before(cursorId, id)
      else if key == Null then true
      else Before(key, cursorKey) || (key == cursorKey && Before(cursorId, id))
  }

  /** The cursor test is exactly "strictly later in the paging order". */
  lemma AfterCursorItemIsLater(key: Value, id: Value, cursorKey: Value, cursorId: Value, ascending: bool)
    ensures AfterCursorItem(key, id, cursorKey, cursorId, ascending)
       <==> Earlier(!ascending, Position(cursorKey, cursorId), Position(key, id))
  {
  }

  /** The seek test of one row, with the identifier-order special case. */
  predicate AfterCursor(idField: string, sort: SortOrder, data: CursorData, item: Item) {
    var id := Read(item, idField);
    if sort.KeyAttribute(idField) == idField then
      if data.ascending then Before(data.id, id) else Before(id, data.id)
    else AfterCursorItem(Read(item, sort.attribute), id, data.key, data.id, data.ascending)
  }

  function Later(idField: string, sort: SortOrder, data: CursorData, models: seq<Item>): seq<Item> {
    if models == [] then []
    else (if AfterCursor(idField, sort, data, models[0]) then [models[0]] else [])
         + Later(idField, sort, data, models[1..])
  }

  // ----- Searching -----

  datatype Page = Page(items: seq<Item>, nextCursor: Option<Token>)

  function Selected(f: Option<Filter>, models: seq<Item>): Result<seq<Item>, Error> {
    if f.None? then Ok(models)
    else if models == [] then Ok([])
    else
      match Matches(f.value, Object(models[0]))
      case Raises => Err(Incomparable)
      case Says(keep) =>
        match Selected(f, models[1..])
        case Err(e) => Err(e)
        case Ok(rest) => Ok((if keep then [models[0]] else []) + rest)
  }

  /** The page that starts a list of ordered rows. */
  function PageOf(idField: string, sort: SortOrder, models: seq<Item>, limit: nat): Page {
    var hasMore := |models| > limit;
    var items := if hasMore then models[..limit] else models;
    Page(items, if hasMore && items != [] then Some(NextCursor(idField, sort, items[|items| - 1])) else None)
  }

  /** search: filter, order, seek past the cursor, cut a page. */
  function SearchPage(
    idField: string, models: seq<Item>, f: Option<Filter>, sort: SortOrder, cursor: Option<Token>, limit: nat)
    : Result<Page, Error>
  {
    match Selected(f, models)
    case Err(e) => Err(e)
    case Ok(selected) =>
      var ordered := Ordered(idField, sort, selected);
      if cursor.None? then Ok(PageOf(idField, sort, ordered, limit))
      else
        match Decode(sort, cursor.value)
        case Err(e) => Err(e)
        case Ok(data) => Ok(PageOf(idField, sort, Later(idField, sort, data, ordered), limit))
  }

  // ----- When a search answers -----

  /** The filter answers on every row. */
  predicate Answers(f: Option<Filter>, models: seq<Item>) {
    f.Some? ==> forall m :: m in models ==> Matches(f.value, Object(m)).Says?
  }

  lemma {:induction false} SelectedAnswersExactly(f: Option<Filter>, models: seq<Item>)
    ensures Selected(f, models).Ok? <==> Answers(f, models)
    ensures Selected(f, models).Err? ==> Selected(f, models).error == Incomparable
  {
    if f.Some? && models != [] {
      FirstAndRest(models);
      SelectedAnswersExactly(f, models[1..]);
    }
  }

  /** The cursor is a sealed one that was made for this attribute and this direction. */
  predicate MadeFor(sort: SortOrder, token: Token) {
    && token.Sealed?
    && token.data.field == (match sort case ById => None case ByAttribute(attribute, _) => Some(attribute))
    && token.data.ascending == (match sort case ById => true case ByAttribute(_, descending) => !descending)
  }

  /**
   A search fails on a row its filter cannot be compared with, and on a cursor that was tampered
   with or made for another sort, and on nothing else; filters whose order comparisons all meet
   comparable values never fail, and a page's own cursor is never rejected.
   */
  lemma SearchAnswersExactly(
    idField: string, models: seq<Item>, f: Option<Filter>, sort: SortOrder, cursor: Option<Token>, limit: nat)
    ensures !Answers(f, models) ==> SearchPage(idField, models, f, sort, cursor, limit) == Err(Incomparable)
    ensures Answers(f, models) && cursor.Some? && !MadeFor(sort, cursor.value) ==>
              SearchPage(idField, models, f, sort, cursor, limit) == Err(InvalidInput)
    ensures Answers(f, models) && (cursor.Some? ==> MadeFor(sort, cursor.value)) ==>
              && SearchPage(idField, models, f, sort, cursor, limit).Ok?
              && var next := SearchPage(idField, models, f, sort, cursor, limit).value.nextCursor;
                 next.Some? ==> MadeFor(sort, next.value)
    ensures (f.Some? ==> forall m :: m in models ==> Comparable(f.value, Object(m))) ==> Answers(f, models)
  {
    SelectedAnswersExactly(f, models);
    if f.Some? {
      forall m | m in models && Comparable(f.value, Object(m))
        ensures Matches(f.value, Object(m)).Says?
      {
        MatchesAgrees(f.value, Object(m));
      }
    }
  }

  // ----- Facts about one page -----

  ghost predicate Keeps(f: Option<Filter>, item: Item) {
    f.Some? ==> Holds(f.value, Object(item))
  }

  lemma {:induction false} SelectedMembers(f: Option<Filter>, models: seq<Item>)
    requires Selected(f, models).Ok?
    ensures forall a :: multiset(Selected(f, models).value)[a] == if Keeps(f, a) then multiset(models)[a] else 0
    ensures forall a :: a in Selected(f, models).value <==> a in models && Keeps(f, a)
  {
    if f.Some? && models != [] {
      FirstAndRest(models);
      MatchesAgrees(f.value, Object(models[0]));
      SelectedMembers(f, models[1..]);
      var kept := if Keeps(f, models[0]) then [models[0]] else [];
      assert Selected(f, models).value == kept + Selected(f, models[1..]).value;
    }
  }

  /** A cursor that this sort produced: in identifier order its key is the identifier. */
  predicate Produced(idField: string, sort: SortOrder, data: CursorData) {
    && data.ascending == !sort.Descending()
    && (sort.KeyAttribute(idField) == idField ==> data.key == data.id)
  }

  predicate Past(idField: string, sort: SortOrder, data: CursorData, item: Item) {
    Earlier(sort.Descending(), Position(data.key, data.id), PositionOf(idField, sort.KeyAttribute(idField), item))
  }

  lemma AfterCursorIsPast(idField: string, sort: SortOrder, data: CursorData, item: Item)
    requires Produced(idField, sort, data)
    ensures AfterCursor(idField, sort, data, item) <==> Past(idField, sort, data, item)
  {
  }

  lemma {:induction false} LaterMembers(idField: string, sort: SortOrder, data: CursorData, models: seq<Item>)
    requires Produced(idField, sort, data)
    ensures forall a :: multiset(Later(idField, sort, data, models))[a]
                     == if Past(idField, sort, data, a) then multiset(models)[a] else 0
    ensures forall a :: a in Later(idField, sort, data, models) <==> a in models && Past(idField, sort, data, a)
  {
    if models != [] {
      FirstAndRest(models);
      AfterCursorIsPast(idField, sort, data, models[0]);
      LaterMembers(idField, sort, data, models[1..]);
    }
  }

  lemma {:induction false} LaterInOrder(idField: string, sort: SortOrder, data: CursorData, models: seq<Item>)
    requires Produced(idField, sort, data)
    requires InOrder(idField, sort.KeyAttribute(idField), sort.Descending(), models)
    ensures InOrder(idField, sort.KeyAttribute(idField), sort.Descending(), Later(idField, sort, data, models))
  {
    if models != [] {
      LaterInOrder(idField, sort, data, models[1..]);
      LaterMembers(idField, sort, data, models[1..]);
      if AfterCursor(idField, sort, data, models[0]) {
        assert Later(idField, sort, data, models)[1..] == Later(idField, sort, data, models[1..]);
      } else {
        assert Later(idField, sort, data, models) == Later(idField, sort, data, models[1..]);
      }
    }
  }

  lemma {:induction false} InOrderByIndex(idField: string, key: string, descending: bool, s: seq<Item>, i: nat, j: nat)
    requires InOrder(idField, key, descending, s) && i < j < |s|
    ensures Earlier(descending, PositionOf(idField, key, s[i]), PositionOf(idField, key, s[j]))
    decreases i
  {
    if i == 0 {
      assert s[j] == s[1..][j - 1];
    } else {
      InOrderByIndex(idField, key, descending, s[1..], i - 1, j - 1);
    }
  }

  /** The rows a page is cut from: those past the cursor, in order. */
  function Remaining(idField: string, sort: SortOrder, cursor: Option<CursorData>, ordered: seq<Item>): seq<Item> {
    if cursor.None? then ordered else Later(idField, sort, cursor.value, ordered)
  }

  predicate PastCursor(idField: string, sort: SortOrder, cursor: Option<CursorData>, item: Item) {
    cursor.Some? ==> Past(idField, sort, cursor.value, item)
  }

  predicate ProducedCursor(idField: string, sort: SortOrder, cursor: Option<Token>) {
    cursor.Some? ==>
      && cursor.value.Sealed?
      && Decode(sort, cursor.value).Ok?
      && Produced(idField, sort, cursor.value.data)
  }

  function Opened(cursor: Option<Token>): Option<CursorData>
    requires cursor.Some? ==> cursor.value.Sealed?
  {
    if cursor.None? then None else Some(cursor.value.data)
  }

  lemma SubsetKeepsIds(idField: string, rows: multiset<Item>, fewer: multiset<Item>)
    requires DistinctIds(idField, rows)
    requires forall a :: fewer[a] <= rows[a]
    ensures DistinctIds(idField, fewer)
  {
    assert forall a :: a in fewer ==> a in rows;
  }

  lemma RemainingInOrder(
    idField: string, models: seq<Item>, f: Option<Filter>, sort: SortOrder, cursor: Option<CursorData>)
    requires DistinctIds(idField, multiset(models)) && Selected(f, models).Ok?
    requires cursor.Some? ==> Produced(idField, sort, cursor.value)
    ensures var s := Remaining(idField, sort, cursor, Ordered(idField, sort, Selected(f, models).value));
            && InOrder(idField, sort.KeyAttribute(idField), sort.Descending(), s)
            && (forall a :: multiset(s)[a] ==
                 if Keeps(f, a) && PastCursor(idField, sort, cursor, a) then multiset(models)[a] else 0)
  {
    var selected := Selected(f, models).value;
    SelectedMembers(f, models);
    SubsetKeepsIds(idField, multiset(models), multiset(selected));
    OrderedIsSorted(idField, sort, selected);
    if cursor.Some? {
      var ordered := Ordered(idField, sort, selected);
      LaterMembers(idField, sort, cursor.value, ordered);
      LaterInOrder(idField, sort, cursor.value, ordered);
    }
  }

  /** The remaining rows are in order, each once, and are the matching ones past the cursor. */
  lemma RemainingFacts(
    idField: string, models: seq<Item>, f: Option<Filter>, sort: SortOrder, cursor: Option<CursorData>)
    requires DistinctIds(idField, multiset(models)) && Answers(f, models)
    requires cursor.Some? ==> Produced(idField, sort, cursor.value)
    ensures Selected(f, models).Ok?
    ensures var s := Remaining(idField, sort, cursor, Ordered(idField, sort, Selected(f, models).value));
            && InOrder(idField, sort.KeyAttribute(idField), sort.Descending(), s)
            && (forall a :: a in s <==> a in models && Keeps(f, a) && PastCursor(idField, sort, cursor, a))
            && (forall a :: multiset(s)[a] ==
                 if Keeps(f, a) && PastCursor(idField, sort, cursor, a) then multiset(models)[a] else 0)
            && DistinctIds(idField, multiset(s))
  {
    SelectedAnswersExactly(f, models);
    RemainingInOrder(idField, models, f, sort, cursor);
    var s := Remaining(idField, sort, cursor, Ordered(idField, sort, Selected(f, models).value));
    SubsetKeepsIds(idField, multiset(models), multiset(s));
    forall a
      ensures a in s <==> a in models && Keeps(f, a) && PastCursor(idField, sort, cursor, a)
    {
      assert a in s <==> multiset(s)[a] > 0;
      assert a in models <==> multiset(models)[a] > 0;
    }
  }

  lemma SearchIsPageOf(
    idField: string, models: seq<Item>, f: Option<Filter>, sort: SortOrder, cursor: Option<Token>, limit: nat)
    requires Selected(f, models).Ok? && ProducedCursor(idField, sort, cursor)
    ensures SearchPage(idField, models, f, sort, cursor, limit)
         == Ok(PageOf(idField, sort, Remaining(idField, sort, Opened(cursor),
                                               Ordered(idField, sort, Selected(f, models).value)), limit))
  {
  }

  // ----- Walks -----

  /**
   A walk: the first page, then the page each next_cursor leads to, until there is
   none. The data may be different at every fetch.
   */
  ghost predicate IsWalk(
    idField: string, f: Option<Filter>, sort: SortOrder, limit: nat,
    fetches: seq<seq<Item>>, pages: seq<Page>, cursor: Option<Token>)
    decreases |fetches|
  {
    && |fetches| == |pages| > 0
    && SearchPage(idField, fetches[0], f, sort, cursor, limit) == Ok(pages[0])
    && if pages[0].nextCursor.None? then |pages| == 1
       else IsWalk(idField, f, sort, limit, fetches[1..], pages[1..], pages[0].nextCursor)
  }

  function Occurrences(idField: string, id: Value, items: seq<Item>): nat {
    if items == [] then 0
    else (if Read(items[0], idField) == id then 1 else 0) + Occurrences(idField, id, items[1..])
  }

  /** How often a walk's pages show a row with this identifier. */
  function Shown(idField: string, id: Value, pages: seq<Page>): nat {
    if pages == [] then 0
    else Occurrences(idField, id, pages[0].items) + Shown(idField, id, pages[1..])
  }

  /** A matching row with this identifier and sort key is present. */
  ghost predicate Serves(idField: string, f: Option<Filter>, sort: SortOrder, models: seq<Item>, p: Position) {
    exists a :: a in models && Keeps(f, a) && PositionOf(idField, sort.KeyAttribute(idField), a) == p
  }

  lemma {:induction false} OccurrencesInOrder(
    idField: string, key: string, descending: bool, items: seq<Item>, row: Item, id: Value)
    requires InOrder(idField, key, descending, items)
    requires Read(row, idField) == id
    requires forall a :: a in items && Read(a, idField) == id ==> a == row
    ensures Occurrences(idField, id, items) == if row in items then 1 else 0
  {
    if items != [] {
      FirstAndRest(items);
      OccurrencesInOrder(idField, key, descending, items[1..], row, id);
      if items[0] == row && row in items[1..] {
        EarlierTotal(descending, PositionOf(idField, key, row), PositionOf(idField, key, row));
        assert false;
      }
    }
  }

  lemma {:induction false} PrefixInOrder(idField: string, key: string, descending: bool, s: seq<Item>, n: nat)
    requires InOrder(idField, key, descending, s) && n <= |s|
    ensures InOrder(idField, key, descending, s[..n])
    decreases s
  {
    if n > 0 {
      assert s[..n][1..] == s[1..][..n - 1];
      PrefixInOrder(idField, key, descending, s[1..], n - 1);
      assert forall y :: y in s[1..][..n - 1] ==> y in s[1..];
    }
  }

  /** In an ordered list, past a row's cursor is behind the row. */
  lemma PastByIndex(idField: string, sort: SortOrder, s: seq<Item>, i: nat, j: nat)
    requires InOrder(idField, sort.KeyAttribute(idField), sort.Descending(), s) && i < |s| && j < |s|
    ensures Past(idField, sort, NextCursor(idField, sort, s[j]).data, s[i]) <==> j < i
  {
    var key, descending := sort.KeyAttribute(idField), sort.Descending();
    EarlierTotal(descending, PositionOf(idField, key, s[i]), PositionOf(idField, key, s[j]));
    if i < j {
      InOrderByIndex(idField, key, descending, s, i, j);
    } else if j < i {
      InOrderByIndex(idField, key, descending, s, j, i);
    }
  }

  lemma InPrefixByIndex(idField: string, sort: SortOrder, s: seq<Item>, i: nat, n: nat)
    requires InOrder(idField, sort.KeyAttribute(idField), sort.Descending(), s) && i < |s| && n <= |s|
    ensures s[i] in s[..n] <==> i < n
  {
    if i < n {
      assert s[..n][i] == s[i];
    } else if s[i] in s[..n] {
      var j :| 0 <= j < n && s[..n][j] == s[i];
      PastByIndex(idField, sort, s, i, j);
      PastByIndex(idField, sort, s, i, i);
    }
  }

  /**
   One page: a row present once among the remaining ones is either on the page, and
   then not past the next cursor, or past the next cursor, and then not on the page.
   */
  lemma PageSplits(idField: string, sort: SortOrder, remaining: seq<Item>, limit: nat, row: Item)
    requires limit >= 1 && row in remaining
    requires InOrder(idField, sort.KeyAttribute(idField), sort.Descending(), remaining)
    ensures var page := PageOf(idField, sort, remaining, limit);
            && ProducedCursor(idField, sort, page.nextCursor)
            && (row in page.items <==>
                  page.nextCursor.None? || !Past(idField, sort, page.nextCursor.value.data, row))
  {
    if |remaining| > limit {
      var i :| 0 <= i < |remaining| && remaining[i] == row;
      FullPage(idField, sort, remaining, limit);
      PastByIndex(idField, sort, remaining, i, limit - 1);
      InPrefixByIndex(idField, sort, remaining, i, limit);
    }
  }

  lemma FullPage(idField: string, sort: SortOrder, remaining: seq<Item>, limit: nat)
    requires 1 <= limit < |remaining|
    ensures PageOf(idField, sort, remaining, limit)
         == Page(remaining[..limit], Some(NextCursor(idField, sort, remaining[limit - 1])))
  {
    assert remaining[..limit][limit - 1] == remaining[limit - 1];
  }

  /** The next cursor of a page lies past the cursor the page was asked with. */
  lemma CursorAdvances(
    idField: string, sort: SortOrder, cursor: CursorData, remaining: seq<Item>, limit: nat, row: Item)
    requires forall a :: a in remaining ==> Past(idField, sort, cursor, a)
    requires PageOf(idField, sort, remaining, limit).nextCursor.Some?
    requires !Past(idField, sort, cursor, row)
    ensures !Past(idField, sort, PageOf(idField, sort, remaining, limit).nextCursor.value.data, row)
  {
    var page := PageOf(idField, sort, remaining, limit);
    var last := page.items[|page.items| - 1];
    assert last == remaining[|page.items| - 1] && last in remaining;
    var data := page.nextCursor.value.data;
    assert Past(idField, sort, cursor, last);
    if Past(idField, sort, data, row) {
      EarlierTransitive(sort.Descending(), Position(cursor.key, cursor.id), Position(data.key, data.id),
                        PositionOf(idField, sort.KeyAttribute(idField), row));
    }
  }

  lemma OccursOnce(
    idField: string, key: string, descending: bool, models: seq<Item>, remaining: seq<Item>, n: nat, row: Item)
    requires DistinctIds(idField, multiset(models)) && row in models
    requires InOrder(idField, key, descending, remaining) && n <= |remaining|
    requires forall a :: a in remaining ==> a in models
    ensures Occurrences(idField, Read(row, idField), remaining[..n]) == if row in remaining[..n] then 1 else 0
  {
    PrefixInOrder(idField, key, descending, remaining, n);
    forall a | a in remaining[..n] && Read(a, idField) == Read(row, idField)
      ensures a == row
    {
      assert a in remaining;
      assert a in multiset(models) && row in multiset(models);
    }
    OccurrencesInOrder(idField, key, descending, remaining[..n], row, Read(row, idField));
  }

  /** A page is the start of the remaining rows, and shows a served row as often as it holds it. */
  lemma PageCounts(
    idField: string, f: Option<Filter>, sort: SortOrder, limit: nat,
    models: seq<Item>, page: Page, cursor: Option<Token>, row: Item, remaining: seq<Item>)
    requires DistinctIds(idField, multiset(models)) && ProducedCursor(idField, sort, cursor)
    requires SearchPage(idField, models, f, sort, cursor, limit) == Ok(page)
    requires row in models && Keeps(f, row)
    requires Selected(f, models).Ok?
    requires remaining == Remaining(idField, sort, Opened(cursor), Ordered(idField, sort, Selected(f, models).value))
    ensures page == PageOf(idField, sort, remaining, limit)
    ensures InOrder(idField, sort.KeyAttribute(idField), sort.Descending(), remaining)
    ensures forall a :: a in remaining ==> PastCursor(idField, sort, Opened(cursor), a)
    ensures row in remaining <==> PastCursor(idField, sort, Opened(cursor), row)
    ensures Occurrences(idField, Read(row, idField), page.items) == if row in page.items then 1 else 0
  {
    SelectedAnswersExactly(f, models);
    RemainingFacts(idField, models, f, sort, Opened(cursor));
    SearchIsPageOf(idField, models, f, sort, cursor, limit);
    OccursOnce(idField, sort.KeyAttribute(idField), sort.Descending(), models, remaining, |page.items|, row);
    assert page.items == remaining[..|page.items|];
  }

  /** What one page shows of a row that is served, and which side of the next cursor it is on. */
  lemma PageShows(
    idField: string, f: Option<Filter>, sort: SortOrder, limit: nat,
    models: seq<Item>, page: Page, cursor: Option<Token>, row: Item)
    requires limit >= 1 && DistinctIds(idField, multiset(models))
    requires ProducedCursor(idField, sort, cursor)
    requires SearchPage(idField, models, f, sort, cursor, limit) == Ok(page)
    requires row in models && Keeps(f, row)
    ensures ProducedCursor(idField, sort, page.nextCursor)
    ensures var due := PastCursor(idField, sort, Opened(cursor), row);
            var dueNext := page.nextCursor.Some? && Past(idField, sort, page.nextCursor.value.data, row);
            && Occurrences(idField, Read(row, idField), page.items) == (if due && !dueNext then 1 else 0)
            && (dueNext ==> due)
  {
    var remaining := Remaining(idField, sort, Opened(cursor), Ordered(idField, sort, Selected(f, models).value));
    PageCounts(idField, f, sort, limit, models, page, cursor, row, remaining);
    if row in remaining {
      PageSplits(idField, sort, remaining, limit, row);
    } else {
      assert forall a :: a in page.items ==> a in remaining;
      if page.nextCursor.Some? {
        CursorAdvances(idField, sort, Opened(cursor).value, remaining, limit, row);
      }
    }
  }

  /** The position lies past the cursor; every position lies past no cursor. */
  predicate DueAfter(sort: SortOrder, cursor: Option<Token>, p: Position)
    requires cursor.Some? ==> cursor.value.Sealed?
  {
    cursor.Some? ==> Earlier(sort.Descending(), Position(cursor.value.data.key, cursor.value.data.id), p)
  }

  lemma PageShowsServed(
    idField: string, f: Option<Filter>, sort: SortOrder, limit: nat,
    models: seq<Item>, page: Page, cursor: Option<Token>, p: Position)
    requires limit >= 1 && DistinctIds(idField, multiset(models))
    requires ProducedCursor(idField, sort, cursor)
    requires SearchPage(idField, models, f, sort, cursor, limit) == Ok(page)
    requires Serves(idField, f, sort, models, p)
    ensures ProducedCursor(idField, sort, page.nextCursor)
    ensures var dueNext := page.nextCursor.Some? && DueAfter(sort, page.nextCursor, p);
            && Occurrences(idField, p.id, page.items) == (if DueAfter(sort, cursor, p) && !dueNext then 1 else 0)
            && (dueNext ==> DueAfter(sort, cursor, p))
  {
    var row :| row in models && Keeps(f, row) && PositionOf(idField, sort.KeyAttribute(idField), row) == p;
    PageShows(idField, f, sort, limit, models, page, cursor, row);
  }

  /**
   A walk under change: whatever happens to the other rows between fetches, a row that
   every fetch serves with the same identifier and sort key is shown exactly once by the
   rest of the walk if it lies past the cursor, and never again otherwise.
   */
  lemma {:induction false} WalkShowsFromCursor(
    idField: string, f: Option<Filter>, sort: SortOrder, limit: nat,
    fetches: seq<seq<Item>>, pages: seq<Page>, cursor: Option<Token>, p: Position)
    requires limit >= 1 && IsWalk(idField, f, sort, limit, fetches, pages, cursor)
    requires ProducedCursor(idField, sort, cursor)
    requires forall i :: 0 <= i < |fetches| ==> DistinctIds(idField, multiset(fetches[i]))
    requires forall i :: 0 <= i < |fetches| ==> Serves(idField, f, sort, fetches[i], p)
    ensures Shown(idField, p.id, pages) == if DueAfter(sort, cursor, p) then 1 else 0
    decreases |fetches|
  {
    PageShowsServed(idField, f, sort, limit, fetches[0], pages[0], cursor, p);
    if pages[0].nextCursor.Some? {
      assert forall i :: 0 <= i < |fetches| - 1 ==> fetches[1..][i] == fetches[i + 1];
      WalkShowsFromCursor(idField, f, sort, limit, fetches[1..], pages[1..], pages[0].nextCursor, p);
    }
  }

  /** A full walk shows every steady row exactly once, however the rest of the data changes. */
  lemma WalkUnderChange(
    idField: string, f: Option<Filter>, sort: SortOrder, limit: nat,
    fetches: seq<seq<Item>>, pages: seq<Page>, p: Position)
    requires limit >= 1 && IsWalk(idField, f, sort, limit, fetches, pages, None)
    requires forall i :: 0 <= i < |fetches| ==> DistinctIds(idField, multiset(fetches[i]))
    requires forall i :: 0 <= i < |fetches| ==> Serves(idField, f, sort, fetches[i], p)
    ensures Shown(idField, p.id, pages) == 1
  {
    WalkShowsFromCursor(idField, f, sort, limit, fetches, pages, None, p);
  }

  // ----- Walks over an unchanged list -----

  function Concatenated(pages: seq<Page>): seq<Item> {
    if pages == [] then [] else pages[0].items + Concatenated(pages[1..])
  }

  lemma {:induction false} LaterOfAll(idField: string, sort: SortOrder, data: CursorData, s: seq<Item>)
    requires Produced(idField, sort, data)
    requires forall a :: a in s ==> Past(idField, sort, data, a)
    ensures Later(idField, sort, data, s) == s
  {
    if s != [] {
      FirstAndRest(s);
      AfterCursorIsPast(idField, sort, data, s[0]);
      LaterOfAll(idField, sort, data, s[1..]);
      assert s == [s[0]] + s[1..];
    }
  }

  /** A row is not past the cursor built from itself or from a row behind it. */
  lemma NotAfterOwnCursor(idField: string, sort: SortOrder, s: seq<Item>, i: nat, j: nat)
    requires InOrder(idField, sort.KeyAttribute(idField), sort.Descending(), s) && i <= j < |s|
    ensures !AfterCursor(idField, sort, NextCursor(idField, sort, s[j]).data, s[i])
  {
    AfterCursorIsPast(idField, sort, NextCursor(idField, sort, s[j]).data, s[i]);
    PastByIndex(idField, sort, s, i, j);
  }

  /** Seeking past row k - 1 of an ordered list leaves exactly the rows from k on. */
  lemma {:induction false} LaterIsSuffix(idField: string, sort: SortOrder, s: seq<Item>, k: nat)
    requires 1 <= k <= |s|
    requires InOrder(idField, sort.KeyAttribute(idField), sort.Descending(), s)
    ensures Later(idField, sort, NextCursor(idField, sort, s[k - 1]).data, s) == s[k..]
    decreases k
  {
    var data := NextCursor(idField, sort, s[k - 1]).data;
    NotAfterOwnCursor(idField, sort, s, 0, k - 1);
    assert Later(idField, sort, data, s) == Later(idField, sort, data, s[1..]);
    if k == 1 {
      LaterOfAll(idField, sort, data, s[1..]);
    } else {
      assert s[1..][k - 2] == s[k - 1];
      LaterIsSuffix(idField, sort, s[1..], k - 1);
      assert s[1..][k - 1..] == s[k..];
    }
  }

  /** p is max(1, n / limit rounded up). */
  ghost predicate PagesNeeded(p: nat, n: nat, limit: nat) {
    p >= 1 && n <= p * limit && (p > 1 ==> (p - 1) * limit < n)
  }

  lemma OneMorePage(p: nat, n: nat, limit: nat)
    requires 1 <= limit < n && PagesNeeded(p, n - limit, limit)
    ensures PagesNeeded(p + 1, n, limit)
  {
    assert (p + 1) * limit == p * limit + limit;
    assert p * limit == (p - 1) * limit + limit;
    assert p == 1 ==> (p - 1) * limit == 0;
  }

  /** The cursor that continues an ordered list from position k. */
  function SliceCursor(idField: string, sort: SortOrder, ordered: seq<Item>, k: nat): Option<Token>
    requires k <= |ordered|
  {
    if k == 0 then None else Some(NextCursor(idField, sort, ordered[k - 1]))
  }

  /** Up to limit rows of an ordered list from position k on. */
  function SlicePage(idField: string, sort: SortOrder, ordered: seq<Item>, k: nat, limit: nat): Page
    requires k <= |ordered|
  {
    if limit < |ordered| - k then
      Page(ordered[k..k + limit], if limit > 0 then SliceCursor(idField, sort, ordered, k + limit) else None)
    else Page(ordered[k..], None)
  }

  /** The page at position k of an unchanged ordered list is a slice of it. */
  lemma StaticPage(
    idField: string, f: Option<Filter>, sort: SortOrder, limit: nat, models: seq<Item>,
    cursor: Option<Token>, ordered: seq<Item>, k: nat)
    requires Selected(f, models).Ok? && ordered == Ordered(idField, sort, Selected(f, models).value)
    requires InOrder(idField, sort.KeyAttribute(idField), sort.Descending(), ordered) && k <= |ordered|
    requires cursor == SliceCursor(idField, sort, ordered, k)
    ensures SearchPage(idField, models, f, sort, cursor, limit) == Ok(SlicePage(idField, sort, ordered, k, limit))
  {
    var remaining := Remaining(idField, sort, Opened(cursor), ordered);
    if k > 0 {
      LaterIsSuffix(idField, sort, ordered, k);
    }
    assert remaining == ordered[k..];
    SliceIsPage(idField, sort, ordered, k, limit);
  }

  lemma SliceIsPage(idField: string, sort: SortOrder, ordered: seq<Item>, k: nat, limit: nat)
    requires k <= |ordered|
    ensures PageOf(idField, sort, ordered[k..], limit) == SlicePage(idField, sort, ordered, k, limit)
  {
    if limit < |ordered| - k {
      assert ordered[k..][..limit] == ordered[k..k + limit];
    }
  }

  /** A walk whose every page is the next slice of one list. */
  ghost predicate IsSliceWalk(
    idField: string, sort: SortOrder, ordered: seq<Item>, k: nat, limit: nat, pages: seq<Page>)
    requires k <= |ordered|
    decreases |pages|
  {
    && pages != []
    && pages[0] == SlicePage(idField, sort, ordered, k, limit)
    && if limit < |ordered| - k then IsSliceWalk(idField, sort, ordered, k + limit, limit, pages[1..])
       else |pages| == 1
  }

  /** Searching this list from any of its positions answers the slice that starts there. */
  ghost predicate ServesSlices(
    idField: string, f: Option<Filter>, sort: SortOrder, limit: nat, models: seq<Item>, ordered: seq<Item>)
  {
    forall k: nat :: k <= |ordered| ==> ServesSlice(idField, f, sort, limit, models, ordered, k)
  }

  ghost predicate ServesSlice(
    idField: string, f: Option<Filter>, sort: SortOrder, limit: nat, models: seq<Item>, ordered: seq<Item>, k: nat)
    requires k <= |ordered|
  {
    SearchPage(idField, models, f, sort, SliceCursor(idField, sort, ordered, k), limit)
    == Ok(SlicePage(idField, sort, ordered, k, limit))
  }

  lemma StaticSlices(idField: string, f: Option<Filter>, sort: SortOrder, limit: nat, models: seq<Item>)
    requires DistinctIds(idField, multiset(models)) && Answers(f, models)
    ensures Selected(f, models).Ok?
    ensures ServesSlices(idField, f, sort, limit, models, Ordered(idField, sort, Selected(f, models).value))
  {
    SelectedIsOrdered(idField, f, sort, models);
    var ordered := Ordered(idField, sort, Selected(f, models).value);
    forall k: nat | k <= |ordered|
      ensures ServesSlice(idField, f, sort, limit, models, ordered, k)
    {
      StaticPage(idField, f, sort, limit, models, SliceCursor(idField, sort, ordered, k), ordered, k);
    }
  }

  lemma WalkCons(
    idField: string, f: Option<Filter>, sort: SortOrder, limit: nat, models: seq<Item>, page: Page,
    fetches: seq<seq<Item>>, pages: seq<Page>, cursor: Option<Token>)
    requires SearchPage(idField, models, f, sort, cursor, limit) == Ok(page) && page.nextCursor.Some?
    requires IsWalk(idField, f, sort, limit, fetches, pages, page.nextCursor)
    ensures IsWalk(idField, f, sort, limit, [models] + fetches, [page] + pages, cursor)
    ensures (forall i :: 0 <= i < |fetches| ==> fetches[i] == models) ==>
              forall i :: 0 <= i < |[models] + fetches| ==> ([models] + fetches)[i] == models
  {
    assert ([models] + fetches)[1..] == fetches && ([page] + pages)[1..] == pages;
  }

  /** The first page of a walk over an unchanged list, and where the walk goes on. */
  lemma StaticStep(
    idField: string, f: Option<Filter>, sort: SortOrder, limit: nat, models: seq<Item>,
    fetches: seq<seq<Item>>, pages: seq<Page>, ordered: seq<Item>, k: nat)
    requires limit >= 1 && k <= |ordered| && ServesSlice(idField, f, sort, limit, models, ordered, k)
    requires fetches != [] && fetches[0] == models
    requires IsWalk(idField, f, sort, limit, fetches, pages, SliceCursor(idField, sort, ordered, k))
    ensures |pages| == |fetches| && pages[0] == SlicePage(idField, sort, ordered, k, limit)
    ensures if limit < |ordered| - k
            then IsWalk(idField, f, sort, limit, fetches[1..], pages[1..],
                        SliceCursor(idField, sort, ordered, k + limit))
            else |pages| == 1
  {
  }

  lemma {:induction false} StaticWalkIsSliceWalk(
    idField: string, f: Option<Filter>, sort: SortOrder, limit: nat, models: seq<Item>,
    fetches: seq<seq<Item>>, pages: seq<Page>, cursor: Option<Token>, ordered: seq<Item>, k: nat)
    requires limit >= 1
    requires k <= |ordered| && ServesSlices(idField, f, sort, limit, models, ordered)
    requires cursor == SliceCursor(idField, sort, ordered, k)
    requires forall i :: 0 <= i < |fetches| ==> fetches[i] == models
    requires IsWalk(idField, f, sort, limit, fetches, pages, cursor)
    ensures IsSliceWalk(idField, sort, ordered, k, limit, pages)
    decreases |fetches|
  {
    assert fetches[0] == models && ServesSlice(idField, f, sort, limit, models, ordered, k);
    StaticStep(idField, f, sort, limit, models, fetches, pages, ordered, k);
    SliceWalkUnfolds(idField, sort, ordered, k, limit, pages);
    if limit < |ordered| - k {
      SameRest(fetches, models);
      StaticWalkIsSliceWalk(
        idField, f, sort, limit, models, fetches[1..], pages[1..], SliceCursor(idField, sort, ordered, k + limit),
        ordered, k + limit);
    }
  }

  lemma SameRest(fetches: seq<seq<Item>>, models: seq<Item>)
    requires fetches != [] && forall i :: 0 <= i < |fetches| ==> fetches[i] == models
    ensures forall i :: 0 <= i < |fetches[1..]| ==> fetches[1..][i] == models
  {
  }

  lemma SliceWalkUnfolds(idField: string, sort: SortOrder, ordered: seq<Item>, k: nat, limit: nat, pages: seq<Page>)
    requires k <= |ordered| && pages != [] && pages[0] == SlicePage(idField, sort, ordered, k, limit)
    ensures IsSliceWalk(idField, sort, ordered, k, limit, pages) <==>
              if limit < |ordered| - k then IsSliceWalk(idField, sort, ordered, k + limit, limit, pages[1..])
              else |pages| == 1
  {
  }

  lemma {:induction false} SliceWalkConcatenates(
    idField: string, sort: SortOrder, ordered: seq<Item>, k: nat, limit: nat, pages: seq<Page>)
    requires limit >= 1 && k <= |ordered| && IsSliceWalk(idField, sort, ordered, k, limit, pages)
    ensures Concatenated(pages) == ordered[k..]
    decreases |pages|
  {
    if limit < |ordered| - k {
      SliceWalkConcatenates(idField, sort, ordered, k + limit, limit, pages[1..]);
      FirstPageAndRest(pages, ordered[k..k + limit], ordered[k + limit..]);
      SlicesAdjoin(ordered, k, k + limit);
    } else {
      OnePage(pages);
    }
  }

  lemma FirstPageAndRest(pages: seq<Page>, items: seq<Item>, rest: seq<Item>)
    requires pages != [] && pages[0].items == items && Concatenated(pages[1..]) == rest
    ensures Concatenated(pages) == items + rest
  {
  }

  lemma OnePage(pages: seq<Page>)
    requires |pages| == 1
    ensures Concatenated(pages) == pages[0].items
  {
    FirstPageAndRest(pages, pages[0].items, []);
    assert pages[0].items + [] == pages[0].items;
  }

  lemma SlicesAdjoin(s: seq<Item>, i: nat, j: nat)
    requires i <= j <= |s|
    ensures s[i..j] + s[j..] == s[i..]
  {
  }

  lemma {:induction false} SliceWalkCounts(
    idField: string, sort: SortOrder, ordered: seq<Item>, k: nat, limit: nat, pages: seq<Page>)
    requires limit >= 1 && k <= |ordered| && IsSliceWalk(idField, sort, ordered, k, limit, pages)
    ensures PagesNeeded(|pages|, |ordered| - k, limit)
    decreases |pages|
  {
    if limit < |ordered| - k {
      SliceWalkCounts(idField, sort, ordered, k + limit, limit, pages[1..]);
      OneMorePage(|pages[1..]|, |ordered| - k, limit);
    }
  }

  /**
   On an unchanged list the pages concatenate to the matching rows, each once and in order, and
   there are as many as it takes: max(1, ceil(n / limit)).
   */
  lemma StaticWalk(
    idField: string, f: Option<Filter>, sort: SortOrder, limit: nat, models: seq<Item>,
    fetches: seq<seq<Item>>, pages: seq<Page>)
    requires limit >= 1 && DistinctIds(idField, multiset(models)) && Answers(f, models)
    requires forall i :: 0 <= i < |fetches| ==> fetches[i] == models
    requires IsWalk(idField, f, sort, limit, fetches, pages, None)
    ensures InOrder(idField, sort.KeyAttribute(idField), sort.Descending(), Concatenated(pages))
    ensures forall a :: multiset(Concatenated(pages))[a] == if Keeps(f, a) then multiset(models)[a] else 0
    ensures PagesNeeded(|pages|, |Concatenated(pages)|, limit)
  {
    SelectedIsOrdered(idField, f, sort, models);
    StaticSlices(idField, f, sort, limit, models);
    var ordered := Ordered(idField, sort, Selected(f, models).value);
    StaticWalkIsSliceWalk(idField, f, sort, limit, models, fetches, pages, None, ordered, 0);
    SliceWalkConcatenates(idField, sort, ordered, 0, limit, pages);
    SliceWalkCounts(idField, sort, ordered, 0, limit, pages);
    assert ordered[0..] == ordered;
  }

  /** The matching rows, each once and in order. */
  lemma SelectedIsOrdered(idField: string, f: Option<Filter>, sort: SortOrder, models: seq<Item>)
    requires DistinctIds(idField, multiset(models)) && Answers(f, models)
    ensures Selected(f, models).Ok?
    ensures var ordered := Ordered(idField, sort, Selected(f, models).value);
            && InOrder(idField, sort.KeyAttribute(idField), sort.Descending(), ordered)
            && forall a :: multiset(ordered)[a] == if Keeps(f, a) then multiset(models)[a] else 0
  {
    SelectedAnswersExactly(f, models);
    RemainingInOrder(idField, models, f, sort, None);
  }

  lemma {:induction false} StaticWalkEndsFrom(
    idField: string, f: Option<Filter>, sort: SortOrder, limit: nat, models: seq<Item>,
    cursor: Option<Token>, ordered: seq<Item>, k: nat)
    returns (fetches: seq<seq<Item>>, pages: seq<Page>)
    requires limit >= 1
    requires k <= |ordered| && ServesSlices(idField, f, sort, limit, models, ordered)
    requires cursor == SliceCursor(idField, sort, ordered, k)
    ensures forall i :: 0 <= i < |fetches| ==> fetches[i] == models
    ensures IsWalk(idField, f, sort, limit, fetches, pages, cursor)
    decreases |ordered| - k
  {
    assert ServesSlice(idField, f, sort, limit, models, ordered, k);
    var page := SlicePage(idField, sort, ordered, k, limit);
    if limit < |ordered| - k {
      var laterFetches, laterPages :=
        StaticWalkEndsFrom(idField, f, sort, limit, models, page.nextCursor, ordered, k + limit);
      WalkCons(idField, f, sort, limit, models, page, laterFetches, laterPages, cursor);
      fetches, pages := [models] + laterFetches, [page] + laterPages;
    } else {
      fetches, pages := [models], [page];
    }
  }

  /** Following next_cursor over an unchanged list comes to an end. */
  lemma StaticWalkEnds(idField: string, f: Option<Filter>, sort: SortOrder, limit: nat, models: seq<Item>)
    returns (fetches: seq<seq<Item>>, pages: seq<Page>)
    requires limit >= 1 && DistinctIds(idField, multiset(models)) && Answers(f, models)
    ensures forall i :: 0 <= i < |fetches| ==> fetches[i] == models
    ensures IsWalk(idField, f, sort, limit, fetches, pages, None)
  {
    StaticSlices(idField, f, sort, limit, models);
    var ordered := Ordered(idField, sort, Selected(f, models).value);
    fetches, pages := StaticWalkEndsFrom(idField, f, sort, limit, models, None, ordered, 0);
  }
}

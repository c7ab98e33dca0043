/** Translation of a filter tree into a Mongo query, pushing negation to the leaves. */
module FilterConverter {
  import opened Wrappers
  import opened Values
  import opened Filters
  import opened MongoQuery

  /** Queryable attributes and the document field that backs each of them. */
  type FieldMap = map<string, string>

  /** A query no document matches: the complement of the query that matches all. */
  const MATCH_NONE: Query := NorQ([Fields(map[])])

  // ----- Text form of a value, used to build a substring pattern -----

  function Digits(n: nat): string {
    if n < 10 then [['0', '1', '2', '3', '4', '5', '6', '7', '8', '9'][n]]
    else Digits(n / 10) + Digits(n % 10)
  }

  function TextOf(v: Value): string {
    match v
    case Null => "None"
    case Num(n) => if n < 0 then "-" + Digits(-n) else Digits(n)
    case Str(s) => s
  }

  ghost predicate IsDecimal(text: string) {
    forall i :: 0 <= i < |text| ==> '0' <= text[i] <= '9'
  }

  ghost function DecimalValue(text: string): int
    requires IsDecimal(text)
  {
    if text == [] then 0 else 10 * DecimalValue(text[..|text| - 1]) + (text[|text| - 1] as int - '0' as int)
  }

  /** The decimal digits of a natural number: worth it, and no zero in front unless it is the only one. */
  ghost predicate PrintedNatural(n: nat, text: string) {
    text != [] && IsDecimal(text) && DecimalValue(text) == n && (text[0] == '0' ==> n == 0 && |text| == 1)
  }

  lemma DecimalAppended(front: string, c: char)
    requires IsDecimal(front) && '0' <= c <= '9'
    ensures IsDecimal(front + [c]) && DecimalValue(front + [c]) == 10 * DecimalValue(front) + (c as int - '0' as int)
  {
    assert (front + [c])[..|front + [c]| - 1] == front;
  }

  lemma OneDigit(n: nat) returns (c: char)
    requires n < 10
    ensures Digits(n) == [c] && '0' <= c <= '9' && c as int - '0' as int == n
  {
    c := ['0', '1', '2', '3', '4', '5', '6', '7', '8', '9'][n];
  }

  lemma OneMoreDigit(high: nat, front: string, low: nat, c: char)
    requires high > 0 && PrintedNatural(high, front)
    requires '0' <= c <= '9' && c as int - '0' as int == low
    ensures PrintedNatural(10 * high + low, front + [c])
  {
    DecimalAppended(front, c);
    assert (front + [c])[0] == front[0];
  }

  lemma OneDigitPrints(n: nat, c: char)
    requires '0' <= c <= '9' && c as int - '0' as int == n
    ensures PrintedNatural(n, [c])
  {
    DecimalAppended([], c);
    assert [] + [c] == [c] && DecimalValue([]) == 0;
  }

  lemma {:induction false} DigitsExactly(n: nat)
    ensures PrintedNatural(n, Digits(n))
  {
    var c := OneDigit(n % 10);
    if n < 10 {
      OneDigitPrints(n, c);
    } else {
      DigitsExactly(n / 10);
      OneMoreDigit(n / 10, Digits(n / 10), n % 10, c);
    }
  }

  // ----- Value leaves -----

  function Positive(leaf: Leaf): Condition {
    match leaf
    case Eq(x) => Equals(x)
    case Gt(x) => Greater(x)
    case Ge(x) => GreaterOrEqual(x)
    case Lt(x) => Less(x)
    case Le(x) => LessOrEqual(x)
    case Contains(x) => Regex(Escape(TextOf(x)))
    case In(xs) => OneOf(xs)
  }

  function LeafQuery(field: string, leaf: Leaf, negated: bool): Query {
    var positive := Fields(map[field := Positive(leaf)]);
    if negated then NorQ([positive]) else positive
  }

  // ----- Combining children -----

  function Present(children: seq<Option<Query>>): seq<Query> {
    if children == [] then []
    else (if children[0].Some? then [children[0].value] else []) + Present(children[1..])
  }

  /** None is TRUE, so a conjunction drops it. */
  function Conjunction(children: seq<Option<Query>>): Option<Query> {
    var present := Present(children);
    if present == [] then None
    else if |present| == 1 then Some(present[0])
    else Some(AndQ(present))
  }

  /** None is TRUE, so it absorbs a disjunction. */
  function Disjunction(children: seq<Option<Query>>): Option<Query> {
    if None in children then None
    else if children == [] then Some(MATCH_NONE)
    else if |children| == 1 then children[0]
    else Some(OrQ(Present(children)))
  }

  // ----- The converter -----

  /** The query for f, or for its complement when negated; field is the bound field. */
  function Convert(fields: FieldMap, f: Filter, field: Option<string>, negated: bool): Result<Option<Query>, Error>
    decreases f, 1
  {
    match f
    case All => Ok(if negated then Some(MATCH_NONE) else None)
    case NoMatch => Ok(if negated then None else Some(MATCH_NONE))
    case Not(g) => Convert(fields, g, field, !negated)
    case And(fs) =>
      (match ConvertEach(fields, fs, field, negated)
       case Err(e) => Err(e)
       case Ok(children) =>
         if !negated then Ok(Conjunction(children))
         else if children == [] then Ok(Some(MATCH_NONE))
         else Ok(Disjunction(children)))
    case Or(fs) =>
      (match ConvertEach(fields, fs, field, negated)
       case Err(e) => Err(e)
       case Ok(children) =>
         if !negated then Ok(Disjunction(children))
         else if children == [] then Ok(None)
         else Ok(Conjunction(children)))
    case Attr(a, g) => if a in fields then Convert(fields, g, Some(fields[a]), negated) else Err(Unsupported)
    case On(leaf) => if field.None? then Err(Unsupported) else Ok(Some(LeafQuery(field.value, leaf, negated)))
  }

  function ConvertEach(fields: FieldMap, fs: seq<Filter>, field: Option<string>, negated: bool)
    : Result<seq<Option<Query>>, Error>
    decreases fs, 0
  {
    if fs == [] then Ok([])
    else
      match Convert(fields, fs[0], field, negated)
      case Err(e) => Err(e)
      case Ok(first) =>
        match ConvertEach(fields, fs[1..], field, negated)
        case Err(e) => Err(e)
        case Ok(rest) => Ok([first] + rest)
  }

  // ----- When conversion succeeds -----

  /** Every attribute is queryable and every value leaf sits under one. */
  predicate Convertible(fields: FieldMap, f: Filter, bound: bool) {
    match f
    case All => true
    case NoMatch => true
    case Not(g) => Convertible(fields, g, bound)
    case And(fs) => forall i :: 0 <= i < |fs| ==> Convertible(fields, fs[i], bound)
    case Or(fs) => forall i :: 0 <= i < |fs| ==> Convertible(fields, fs[i], bound)
    case Attr(a, g) => a in fields && Convertible(fields, g, true)
    case On(_) => bound
  }

  /** Conversion raises exactly on the trees that are not convertible, and only Unsupported. */
  lemma {:induction false} ConvertSucceedsExactly(fields: FieldMap, f: Filter, field: Option<string>, negated: bool)
    ensures Convert(fields, f, field, negated).Ok? <==> Convertible(fields, f, field.Some?)
    ensures Convert(fields, f, field, negated).Err? ==> Convert(fields, f, field, negated).error == Unsupported
    decreases f, 1
  {
    match f
    case All =>
    case NoMatch =>
    case Not(g) => ConvertSucceedsExactly(fields, g, field, !negated);
    case And(fs) => ConvertEachSucceedsExactly(fields, fs, field, negated);
    case Or(fs) => ConvertEachSucceedsExactly(fields, fs, field, negated);
    case Attr(a, g) => if a in fields { ConvertSucceedsExactly(fields, g, Some(fields[a]), negated); }
    case On(_) =>
  }

  lemma {:induction false} ConvertEachSucceedsExactly(
    fields: FieldMap, fs: seq<Filter>, field: Option<string>, negated: bool)
    ensures ConvertEach(fields, fs, field, negated).Ok? <==>
              forall i :: 0 <= i < |fs| ==> Convertible(fields, fs[i], field.Some?)
    ensures ConvertEach(fields, fs, field, negated).Err? ==>
              ConvertEach(fields, fs, field, negated).error == Unsupported
    decreases fs, 0
  {
    if fs != [] {
      ConvertSucceedsExactly(fields, fs[0], field, negated);
      ConvertEachSucceedsExactly(fields, fs[1..], field, negated);
      assert forall i :: 1 <= i < |fs| ==> fs[i] == fs[1..][i - 1];
    }
  }

  lemma {:induction false} ConvertEachAligned(fields: FieldMap, fs: seq<Filter>, field: Option<string>, negated: bool)
    requires ConvertEach(fields, fs, field, negated).Ok?
    ensures |ConvertEach(fields, fs, field, negated).value| == |fs|
    ensures forall i :: 0 <= i < |fs| ==>
              Convert(fields, fs[i], field, negated) == Ok(ConvertEach(fields, fs, field, negated).value[i])
  {
    if fs != [] {
      ConvertEachAligned(fields, fs[1..], field, negated);
      assert forall i :: 1 <= i < |fs| ==> fs[i] == fs[1..][i - 1];
    }
  }

  // ----- What the combinators mean -----

  lemma {:induction false} PresentMembers(children: seq<Option<Query>>)
    ensures forall q :: q in Present(children) <==> Some(q) in children
    ensures None !in children ==> |Present(children)| == |children|
  {
    if children != [] {
      assert children == [children[0]] + children[1..];
      PresentMembers(children[1..]);
    }
  }

  lemma ConjunctionMeaning(children: seq<Option<Query>>, document: Document)
    ensures Admits(Conjunction(children), document) <==>
              forall i :: 0 <= i < |children| ==> Admits(children[i], document)
  {
    PresentMembers(children);
    var present := Present(children);
    assert (forall i :: 0 <= i < |children| ==> Admits(children[i], document))
      <==> (forall q :: q in present ==> Selects(q, document)) by {
      assert forall q :: q in present ==> Some(q) in children;
      assert forall i :: 0 <= i < |children| && children[i].Some? ==> children[i].value in present;
    }
    assert (forall q :: q in present ==> Selects(q, document)) <==> Selects(AndQ(present), document);
  }

  lemma DisjunctionMeaning(children: seq<Option<Query>>, document: Document)
    ensures Admits(Disjunction(children), document) <==>
              exists i :: 0 <= i < |children| && Admits(children[i], document)
  {
    if None in children {
      var i :| 0 <= i < |children| && children[i] == None;
      assert Admits(children[i], document);
    } else if children == [] {
      MatchNoneSelectsNothing(document);
    } else {
      PresentMembers(children);
      var present := Present(children);
      assert forall c :: c in children ==> c.Some?;
      if |children| == 1 {
        assert Disjunction(children) == children[0];
      } else {
        assert Disjunction(children) == Some(OrQ(present));
      }
      if i :| 0 <= i < |children| && Admits(children[i], document) {
        assert children[i] in children;
        var k :| 0 <= k < |present| && present[k] == children[i].value;
        assert Selects(OrQ(present), document);
      }
      if Selects(OrQ(present), document) {
        var k :| 0 <= k < |present| && Selects(present[k], document);
        assert present[k] in present;
        var i :| 0 <= i < |children| && children[i] == Some(present[k]);
        assert Admits(children[i], document);
      }
    }
  }

  // ----- Which leaves can be pushed down faithfully -----

  /** An or-equal comparison has a non-null bound and a substring test has a text needle. */
  predicate LeafPushable(leaf: Leaf) {
    && ((leaf.Ge? || leaf.Le?) ==> leaf.value != Null)
    && (leaf.Contains? ==> leaf.value.Str?)
  }

  predicate LeafFaithful(leaf: Leaf, field: string, document: Document) {
    Satisfies(Positive(leaf), document, field) == Holds(On(leaf), Scalar(Read(document, field)))
  }

  /** Pushable leaves are exactly the ones whose query agrees with the leaf on every document. */
  lemma LeafFaithfulExactly(leaf: Leaf, field: string)
    ensures (forall document: Document :: LeafFaithful(leaf, field, document)) <==> LeafPushable(leaf)
  {
    if LeafPushable(leaf) {
      forall document: Document
        ensures LeafFaithful(leaf, field, document)
      {
        PushableLeafIsFaithful(leaf, field, document);
      }
    } else if leaf.Contains? {
      TextNeedleOnly(leaf, field);
    } else {
      assert !LeafFaithful(leaf, field, map[field := Null]);
    }
  }

  /**
   What a substring test compiles to: text that contains the needle as it prints, null as None, a
   number in decimal with a sign if it is negative.
   */
  lemma ContainsCompilesExactly(needle: Value, field: string, document: Document)
    ensures Satisfies(Positive(Contains(needle)), document, field)
       <==> Read(document, field).Str? && ContainsText(Read(document, field).s, TextOf(needle))
    ensures match needle
            case Null => TextOf(needle) == "None"
            case Str(s) => TextOf(needle) == s
            case Num(n) => Printed(n, TextOf(needle))
  {
    EscapeIsLiteral(TextOf(needle));
    if needle.Num? {
      NumberPrints(needle.n);
    }
  }

  lemma NumberPrints(n: int)
    ensures Printed(n, TextOf(Num(n)))
  {
    var size: nat := if n < 0 then -n else n;
    DigitsExactly(size);
    assert ("-" + Digits(size))[1..] == Digits(size);
  }

  /** The decimal digits of a number, behind a sign if it is negative. */
  ghost predicate Printed(n: int, text: string) {
    if n < 0 then text != [] && text[0] == '-' && PrintedNatural(-n, text[1..]) else PrintedNatural(n, text)
  }

  /** A needle that is no text is searched for as the text it prints as, which memory never finds. */
  lemma TextNeedleOnly(leaf: Leaf, field: string)
    requires leaf.Contains? && !leaf.value.Str?
    ensures !LeafFaithful(leaf, field, map[field := Str(TextOf(leaf.value))])
  {
    NeedleFindsItself(TextOf(leaf.value), field);
  }

  lemma NeedleFindsItself(text: string, field: string)
    ensures Satisfies(Regex(Escape(text)), map[field := Str(text)], field)
  {
    EscapeIsLiteral(text);
    assert OccursAt(text, text, 0);
  }

  lemma PushableLeafIsFaithful(leaf: Leaf, field: string, document: Document)
    requires LeafPushable(leaf)
    ensures LeafFaithful(leaf, field, document)
  {
    if leaf.Contains? {
      EscapeIsLiteral(leaf.value.s);
    } else if !leaf.In? {
      BeforeTotal(Read(document, field), leaf.value);
    }
  }

  /** Pushable leaves throughout, and no attribute bound inside another attribute. */
  predicate Pushable(f: Filter, bound: bool) {
    match f
    case All => true
    case NoMatch => true
    case Not(g) => Pushable(g, bound)
    case And(fs) => forall i :: 0 <= i < |fs| ==> Pushable(fs[i], bound)
    case Or(fs) => forall i :: 0 <= i < |fs| ==> Pushable(fs[i], bound)
    case Attr(_, g) => !bound && Pushable(g, true)
    case On(leaf) => LeafPushable(leaf)
  }

  // ----- The main theorem -----

  /** A document as the object its reader sees: attributes instead of fields. */
  function Project(fields: FieldMap, document: Document): map<string, Value> {
    map a | a in fields && fields[a] in document :: document[fields[a]]
  }

  /** What the filter under conversion is applied to. */
  function View(fields: FieldMap, field: Option<string>, document: Document): Subject {
    match field
    case None => Object(Project(fields, document))
    case Some(f) => Scalar(Read(document, f))
  }

  /**
   Conversion preserves meaning in both polarities: the query for a tree selects a
   document exactly when the tree holds of it, and the negated query exactly when it
   does not.
   */
  lemma {:induction false} ConvertPreservesMeaning(
    fields: FieldMap, f: Filter, field: Option<string>, negated: bool, document: Document)
    requires Convert(fields, f, field, negated).Ok?
    requires Pushable(f, field.Some?)
    ensures Admits(Convert(fields, f, field, negated).value, document)
         == (Holds(f, View(fields, field, document)) != negated)
    decreases f
  {
    var subject := View(fields, field, document);
    match f
    case All =>
      MatchNoneSelectsNothing(document);
    case NoMatch =>
      MatchNoneSelectsNothing(document);
    case Not(g) =>
      ConvertPreservesMeaning(fields, g, field, !negated, document);
    case And(fs) =>
      ConvertEachPreservesMeaning(fields, f, fs, field, negated, document);
      var children := ConvertEach(fields, fs, field, negated).value;
      MatchNoneSelectsNothing(document);
      ConjunctionMeaning(children, document);
      DisjunctionMeaning(children, document);
    case Or(fs) =>
      ConvertEachPreservesMeaning(fields, f, fs, field, negated, document);
      var children := ConvertEach(fields, fs, field, negated).value;
      MatchNoneSelectsNothing(document);
      ConjunctionMeaning(children, document);
      DisjunctionMeaning(children, document);
    case Attr(a, g) =>
      ConvertPreservesMeaning(fields, g, Some(fields[a]), negated, document);
      assert AttributeOf(Object(Project(fields, document)), a) == Read(document, fields[a]);
    case On(leaf) =>
      PushableLeafIsFaithful(leaf, field.value, document);
      LeafQueryMeaning(field.value, leaf, negated, document);
  }

  lemma {:induction false} ConvertEachPreservesMeaning(
    fields: FieldMap, parent: Filter, fs: seq<Filter>, field: Option<string>, negated: bool, document: Document)
    requires parent == And(fs) || parent == Or(fs)
    requires ConvertEach(fields, fs, field, negated).Ok?
    requires Pushable(parent, field.Some?)
    ensures |ConvertEach(fields, fs, field, negated).value| == |fs|
    ensures forall i :: 0 <= i < |fs| ==>
              Admits(ConvertEach(fields, fs, field, negated).value[i], document)
              == (Holds(fs[i], View(fields, field, document)) != negated)
    decreases parent, 0
  {
    ConvertEachAligned(fields, fs, field, negated);
    forall i | 0 <= i < |fs|
      ensures Admits(ConvertEach(fields, fs, field, negated).value[i], document)
           == (Holds(fs[i], View(fields, field, document)) != negated)
    {
      ConvertPreservesMeaning(fields, fs[i], field, negated, document);
    }
  }

  lemma MatchNoneSelectsNothing(document: Document)
    ensures !Selects(MATCH_NONE, document)
  {
    var all := [Fields(map[])];
    assert Selects(all[0], document);
  }

  lemma LeafQueryMeaning(field: string, leaf: Leaf, negated: bool, document: Document)
    ensures Selects(LeafQuery(field, leaf, negated), document)
         == (Satisfies(Positive(leaf), document, field) != negated)
  {
    var conditions := map[field := Positive(leaf)];
    assert Selects(Fields(conditions), document) == Satisfies(conditions[field], document, field);
    assert [Fields(conditions)][0] == Fields(conditions);
  }

  /** No produced query carries an empty $and, $or or $nor array. */
  lemma {:induction false} ConvertIsAccepted(fields: FieldMap, f: Filter, field: Option<string>, negated: bool)
    requires Convert(fields, f, field, negated).Ok?
    ensures Convert(fields, f, field, negated).value.Some? ==> Accepted(Convert(fields, f, field, negated).value.value)
    decreases f
  {
    match f
    case All =>
    case NoMatch =>
    case Not(g) => ConvertIsAccepted(fields, g, field, !negated);
    case And(fs) => ConvertEachIsAccepted(fields, f, fs, field, negated);
    case Or(fs) => ConvertEachIsAccepted(fields, f, fs, field, negated);
    case Attr(a, g) => ConvertIsAccepted(fields, g, Some(fields[a]), negated);
    case On(_) =>
  }

  lemma {:induction false} ConvertEachIsAccepted(
    fields: FieldMap, parent: Filter, fs: seq<Filter>, field: Option<string>, negated: bool)
    requires parent == And(fs) || parent == Or(fs)
    requires ConvertEach(fields, fs, field, negated).Ok?
    ensures var children := ConvertEach(fields, fs, field, negated).value;
            && (Conjunction(children).Some? ==> Accepted(Conjunction(children).value))
            && (Disjunction(children).Some? ==> Accepted(Disjunction(children).value))
    decreases parent, 0
  {
    ConvertEachAligned(fields, fs, field, negated);
    var children := ConvertEach(fields, fs, field, negated).value;
    forall i | 0 <= i < |fs|
      ensures children[i].Some? ==> Accepted(children[i].value)
    {
      ConvertIsAccepted(fields, fs[i], field, negated);
    }
    PresentMembers(children);
    assert forall q :: q in Present(children) ==> Accepted(q);
  }

  // ----- A conjunction of any trees -----

  /** The tree compiles, and its query admits the document. */
  ghost predicate Admitted(fields: FieldMap, f: Filter, document: Document) {
    Convert(fields, f, None, false).Ok? && Admits(Convert(fields, f, None, false).value, document)
  }

  lemma AndAdmitted(fields: FieldMap, fs: seq<Filter>, document: Document)
    ensures Admitted(fields, And(fs), document) <==> forall f :: f in fs ==> Admitted(fields, f, document)
  {
    ConvertEachSucceedsExactly(fields, fs, None, false);
    forall i | 0 <= i < |fs|
      ensures Convert(fields, fs[i], None, false).Ok? <==> Convertible(fields, fs[i], false)
    {
      ConvertSucceedsExactly(fields, fs[i], None, false);
    }
    if ConvertEach(fields, fs, None, false).Ok? {
      var children := ConvertEach(fields, fs, None, false).value;
      ConvertEachAligned(fields, fs, None, false);
      ConjunctionMeaning(children, document);
      assert forall i :: 0 <= i < |fs| ==> fs[i] in fs;
      assert forall i :: 0 <= i < |fs| ==> (Admits(children[i], document) <==> Admitted(fields, fs[i], document));
    } else {
      var i :| 0 <= i < |fs| && !Convertible(fields, fs[i], false);
      assert fs[i] in fs && !Admitted(fields, fs[i], document);
    }
  }

  lemma {:induction false} FlattenAdmitted(fields: FieldMap, fs: seq<Filter>, document: Document)
    ensures (forall f :: f in Flatten(true, fs) ==> Admitted(fields, f, document))
       <==> (forall f :: f in fs ==> Admitted(fields, f, document))
  {
    if fs != [] {
      SplitFirst(fs);
      FlattenAdmitted(fields, fs[1..], document);
      if fs[0].And? {
        FlattenAdmitted(fields, fs[0].filters, document);
        AndAdmitted(fields, fs[0].filters, document);
      }
    }
  }

  /**
   Whatever the trees are, faithfully compiled or not: the normalised conjunction admits a
   document exactly when every one of them does on its own. So no part of a conjunction can
   undo another.
   */
  lemma AndOfAdmitted(fields: FieldMap, fs: seq<Filter>, document: Document)
    ensures Admitted(fields, AndOf(fs), document) <==> forall f :: f in fs ==> Admitted(fields, f, document)
  {
    var flat := Flatten(true, fs);
    FlattenAdmitted(fields, fs, document);
    ConstantsAdmitted(fields, document);
    if NoMatch in flat {
      assert AndOf(fs) == NoMatch;
    } else {
      SurvivorsAdmitted(fields, flat, document);
    }
  }

  lemma ConstantsAdmitted(fields: FieldMap, document: Document)
    ensures Admitted(fields, All, document) && !Admitted(fields, NoMatch, document)
  {
    MatchNoneSelectsNothing(document);
  }

  /** Dropping All and unwrapping a single survivor leaves what a list admits. */
  lemma SurvivorsAdmitted(fields: FieldMap, fs: seq<Filter>, document: Document)
    ensures var children := Without(fs, All);
            Admitted(fields, if children == [] then All else if |children| == 1 then children[0] else And(children),
                     document)
            <==> forall f :: f in fs ==> Admitted(fields, f, document)
  {
    var children := Without(fs, All);
    WithoutMembers(fs, All);
    ConstantsAdmitted(fields, document);
    assert (forall f :: f in fs ==> Admitted(fields, f, document))
      <==> (forall f :: f in children ==> Admitted(fields, f, document));
    if |children| == 1 {
      assert children == [children[0]];
    } else if children != [] {
      AndAdmitted(fields, children, document);
    }
  }

  // ----- An attribute bound inside another one -----

  /** The query for f, under the bound field, says of the document what f does. */
  ghost predicate Preserved(fields: FieldMap, f: Filter, field: Option<string>, negated: bool, document: Document)
    requires Convert(fields, f, field, negated).Ok?
  {
    Admits(Convert(fields, f, field, negated).value, document) == (Holds(f, View(fields, field, document)) != negated)
  }

  /** The filter says of every value what it says of null. */
  ghost predicate IgnoresValue(f: Filter) {
    forall v: Value :: Holds(f, Scalar(v)) == Holds(f, Scalar(Null))
  }

  /**
   In memory the inner attribute of a bound value is absent, while the query reads the inner
   field; so binding an attribute inside another one is preserved, on every document, exactly
   when what is bound there ignores its value.
   */
  lemma NestedAttributePreservedExactly(fields: FieldMap, a: string, b: string, g: Filter, negated: bool)
    requires a in fields && b in fields && Convert(fields, g, Some(fields[b]), negated).Ok?
    requires forall document: Document :: Preserved(fields, g, Some(fields[b]), negated, document)
    ensures Convert(fields, Attr(a, Attr(b, g)), None, negated).Ok?
    ensures (forall document: Document :: Preserved(fields, Attr(a, Attr(b, g)), None, negated, document))
       <==> IgnoresValue(g)
  {
    var field, nested := Some(fields[b]), Attr(a, Attr(b, g));
    forall document: Document
      ensures Preserved(fields, nested, None, negated, document)
         <==> Holds(g, Scalar(Read(document, fields[b]))) == Holds(g, Scalar(Null))
    {
      var inner := Scalar(AttributeOf(View(fields, None, document), a));
      assert Preserved(fields, g, field, negated, document);
      assert Convert(fields, nested, None, negated) == Convert(fields, Attr(b, g), Some(fields[a]), negated);
      assert Holds(nested, View(fields, None, document)) == Holds(Attr(b, g), inner) == Holds(g, Scalar(Null));
    }
    if forall document: Document :: Preserved(fields, nested, None, negated, document) {
      forall v: Value
        ensures Holds(g, Scalar(v)) == Holds(g, Scalar(Null))
      {
        var document: Document := map[fields[b] := v];
        assert Preserved(fields, nested, None, negated, document) && Read(document, fields[b]) == v;
      }
    }
  }

  /** The same under a field that is already bound, so for nesting of any depth. */
  lemma BoundAttributePreservedExactly(fields: FieldMap, field: string, b: string, g: Filter, negated: bool)
    requires b in fields && Convert(fields, g, Some(fields[b]), negated).Ok?
    requires forall document: Document :: Preserved(fields, g, Some(fields[b]), negated, document)
    ensures (forall document: Document :: Preserved(fields, Attr(b, g), Some(field), negated, document))
       <==> IgnoresValue(g)
  {
    var bound := Attr(b, g);
    forall document: Document
      ensures Preserved(fields, bound, Some(field), negated, document)
         <==> Holds(g, Scalar(Read(document, fields[b]))) == Holds(g, Scalar(Null))
    {
      assert Preserved(fields, g, Some(fields[b]), negated, document);
      assert AttributeOf(View(fields, Some(field), document), b) == Null;
    }
    if forall document: Document :: Preserved(fields, bound, Some(field), negated, document) {
      forall v: Value
        ensures Holds(g, Scalar(v)) == Holds(g, Scalar(Null))
      {
        var document: Document := map[fields[b] := v];
        assert Preserved(fields, bound, Some(field), negated, document) && Read(document, fields[b]) == v;
      }
    }
  }

  /** The leaves that no value satisfies. */
  predicate Unsatisfiable(leaf: Leaf) {
    || leaf == In([])
    || ((leaf.Gt? || leaf.Lt?) && leaf.value == Null)
    || leaf == Lt(Str(""))
  }

  /** A number greater than every number in the list. */
  function BeyondAll(values: seq<Value>): (n: int)
    ensures forall m: int :: Num(m) in values ==> m < n
  {
    if values == [] then 0
    else
      var rest := BeyondAll(values[1..]);
      if values[0].Num? && values[0].n >= rest then values[0].n + 1 else rest
  }

  /** A pushable leaf ignores its value exactly when no value satisfies it. */
  lemma LeafIgnoresValueExactly(leaf: Leaf)
    requires LeafPushable(leaf)
    ensures IgnoresValue(On(leaf)) <==> Unsatisfiable(leaf)
  {
    if leaf.In? && leaf.values != [] {
      var beyond := Num(BeyondAll(leaf.values));
      assert beyond !in leaf.values && leaf.values[0] in leaf.values;
      var v := if Null in leaf.values then beyond else leaf.values[0];
      assert Holds(On(leaf), Scalar(v)) != Holds(On(leaf), Scalar(Null));
    } else if leaf.Contains? {
      assert OccursAt(leaf.value.s, leaf.value.s, 0);
      assert Holds(On(leaf), Scalar(leaf.value)) && !Holds(On(leaf), Scalar(Null));
    } else if !leaf.In? && leaf.value.Num? {
      var n := leaf.value.n;
      var v := Num(match leaf case Gt(_) => n + 1 case Lt(_) => n - 1 case _ => n);
      assert Holds(On(leaf), Scalar(v)) && !Holds(On(leaf), Scalar(Null));
    } else if !leaf.In? && leaf.value.Str? {
      var text := leaf.value.s;
      TextExtends(text);
      BeforeTotal(leaf.value, leaf.value);
      if leaf != Lt(Str("")) {
        var v := Str(match leaf case Gt(_) => text + "a" case Lt(_) => "" case _ => text);
        assert Holds(On(leaf), Scalar(v)) && !Holds(On(leaf), Scalar(Null));
      }
    } else if leaf.Eq? {
      assert Holds(On(leaf), Scalar(Null)) && !Holds(On(leaf), Scalar(Num(0)));
    }
  }

  /** So a leaf bound two attributes deep is preserved exactly when no value satisfies it. */
  lemma NestedLeafPreservedExactly(fields: FieldMap, a: string, b: string, leaf: Leaf, negated: bool)
    requires a in fields && b in fields && LeafPushable(leaf)
    ensures Convert(fields, Attr(a, Attr(b, On(leaf))), None, negated).Ok?
    ensures (forall document: Document :: Preserved(fields, Attr(a, Attr(b, On(leaf))), None, negated, document))
       <==> Unsatisfiable(leaf)
  {
    forall document: Document
      ensures Preserved(fields, On(leaf), Some(fields[b]), negated, document)
    {
      ConvertPreservesMeaning(fields, On(leaf), Some(fields[b]), negated, document);
    }
    NestedAttributePreservedExactly(fields, a, b, On(leaf), negated);
    LeafIgnoresValueExactly(leaf);
  }

  /** An instance. */
  lemma NestedAttributeIsNotPreserved()
    ensures var f := Attr("a", Attr("b", On(Eq(Num(1)))));
            var fields: FieldMap := map["a" := "a", "b" := "b"];
            var document: Document := map["b" := Num(1)];
            && Convert(fields, f, None, false).Ok?
            && Admits(Convert(fields, f, None, false).value, document)
            && !Holds(f, View(fields, None, document))
  {
  }

  // ----- The factories keep a tree pushable -----

  lemma {:induction false} FlattenKeepsPushable(conjunction: bool, fs: seq<Filter>, bound: bool)
    requires forall f :: f in fs ==> Pushable(f, bound)
    ensures forall f :: f in Flatten(conjunction, fs) ==> Pushable(f, bound)
  {
    if fs != [] {
      SplitFirst(fs);
      FlattenKeepsPushable(conjunction, fs[1..], bound);
      if (conjunction && fs[0].And?) || (!conjunction && fs[0].Or?) {
        assert Pushable(fs[0], bound);
        FlattenKeepsPushable(conjunction, fs[0].filters, bound);
      }
    }
  }

  lemma FactoriesKeepPushable(fs: seq<Filter>, bound: bool)
    requires forall f :: f in fs ==> Pushable(f, bound)
    ensures Pushable(AndOf(fs), bound) && Pushable(OrOf(fs), bound)
  {
    FlattenKeepsPushable(true, fs, bound);
    FlattenKeepsPushable(false, fs, bound);
    WithoutMembers(Flatten(true, fs), All);
    WithoutMembers(Flatten(false, fs), NoMatch);
    var both := Without(Flatten(true, fs), All);
    assert forall i :: 0 <= i < |both| ==> both[i] in both;
    var either := Without(Flatten(false, fs), NoMatch);
    assert forall i :: 0 <= i < |either| ==> either[i] in either;
  }
}

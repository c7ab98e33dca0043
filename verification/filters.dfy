/**
 Search filters: the tree, its in-memory evaluation, and the normalising factories.
 */
module Filters {
  import opened Values

  datatype Leaf =
    | Eq(value: Value)
    | Gt(value: Value)
    | Ge(value: Value)
    | Lt(value: Value)
    | Le(value: Value)
    | Contains(value: Value)
    | In(values: seq<Value>)

  datatype Filter =
    | All
    | NoMatch
    | And(filters: seq<Filter>)
    | Or(filters: seq<Filter>)
    | Not(filter: Filter)
    | Attr(attribute: string, filter: Filter)
    | On(leaf: Leaf)

  /** What a filter is applied to: an object's attributes, or one attribute's value. */
  datatype Subject = Object(attributes: map<string, Value>) | Scalar(value: Value)

  /** An absent attribute reads as null. */
  function Read(attributes: map<string, Value>, name: string): Value {
    if name in attributes then attributes[name] else Null
  }

  function AttributeOf(subject: Subject, name: string): Value {
    match subject
    case Object(attributes) => Read(attributes, name)
    case Scalar(_) => Null
  }

  // ----- Substring test -----

  function LowerChar(c: char): char {
    if 'A' <= c <= 'Z' then c - 'A' + 'a' else c
  }

  function Lower(s: string): (r: string)
    ensures |r| == |s|
  {
    seq(|s|, i requires 0 <= i < |s| => LowerChar(s[i]))
  }

  predicate OccursAt(hay: string, needle: string, i: nat) {
    i + |needle| <= |hay| && Lower(hay[i..i + |needle|]) == Lower(needle)
  }

  /** needle occurs in hay, ignoring case. */
  predicate ContainsText(hay: string, needle: string) {
    exists i | 0 <= i <= |hay| :: OccursAt(hay, needle, i)
  }

  /** The same letter, or the two cases of one. */
  predicate SameLetter(c: char, d: char) {
    || c == d
    || ('A' <= c <= 'Z' && d as int == c as int + 32)
    || ('A' <= d <= 'Z' && c as int == d as int + 32)
  }

  ghost predicate FoundAt(hay: string, needle: string, i: nat) {
    i + |needle| <= |hay| && forall k :: 0 <= k < |needle| ==> SameLetter(hay[i + k], needle[k])
  }

  lemma OccursAtExactly(hay: string, needle: string, i: nat)
    ensures OccursAt(hay, needle, i) <==> FoundAt(hay, needle, i)
  {
    if i + |needle| <= |hay| {
      var part := hay[i..i + |needle|];
      assert Lower(part) == Lower(needle) <==> forall k :: 0 <= k < |needle| ==> Lower(part)[k] == Lower(needle)[k];
      forall k | 0 <= k < |needle|
        ensures Lower(part)[k] == Lower(needle)[k] <==> SameLetter(hay[i + k], needle[k])
      {
        assert part[k] == hay[i + k];
      }
    }
  }

  /** A substring test finds its needle anywhere, letter by letter in either case. */
  lemma ContainsTextExactly(hay: string, needle: string)
    ensures ContainsText(hay, needle) <==> exists i: nat :: FoundAt(hay, needle, i)
  {
    if ContainsText(hay, needle) {
      var i :| 0 <= i <= |hay| && OccursAt(hay, needle, i);
      OccursAtExactly(hay, needle, i);
    }
    if i: nat :| FoundAt(hay, needle, i) {
      OccursAtExactly(hay, needle, i);
    }
  }

  // ----- Evaluation -----

  /** In-memory evaluation either answers or raises a TypeError. */
  datatype Verdict = Raises | Says(answer: bool)

  function Compared(value: Value, bound: Value, answer: bool): Verdict {
    if SameBracket(value, bound) then Says(answer) else Raises
  }

  function MatchLeaf(leaf: Leaf, subject: Subject): Verdict {
    match subject
    case Object(_) => if leaf.Eq? || leaf.Contains? || leaf.In? then Says(false) else Raises
    case Scalar(v) =>
      match leaf
      case Eq(x) => Says(v == x)
      case Gt(x) => Compared(v, x, Before(x, v))
      case Ge(x) => Compared(v, x, !Before(v, x))
      case Lt(x) => Compared(v, x, Before(v, x))
      case Le(x) => Compared(v, x, !Before(x, v))
      case Contains(x) => Says(v.Str? && x.Str? && ContainsText(v.s, x.s))
      case In(xs) => Says(v in xs)
  }

  /** The matches method of each node, with Python's short-circuit evaluation. */
  function Matches(f: Filter, subject: Subject): Verdict
    decreases f, 1
  {
    match f
    case All => Says(true)
    case NoMatch => Says(false)
    case And(fs) => MatchesEvery(fs, subject)
    case Or(fs) => MatchesAny(fs, subject)
    case Not(g) => (match Matches(g, subject) case Raises => Raises case Says(b) => Says(!b))
    case Attr(a, g) => Matches(g, Scalar(AttributeOf(subject, a)))
    case On(leaf) => MatchLeaf(leaf, subject)
  }

  function MatchesEvery(fs: seq<Filter>, subject: Subject): Verdict
    decreases fs, 0
  {
    if fs == [] then Says(true)
    else if Matches(fs[0], subject) == Says(true) then MatchesEvery(fs[1..], subject)
    else Matches(fs[0], subject)
  }

  function MatchesAny(fs: seq<Filter>, subject: Subject): Verdict
    decreases fs, 0
  {
    if fs == [] then Says(false)
    else if Matches(fs[0], subject) == Says(false) then MatchesAny(fs[1..], subject)
    else Matches(fs[0], subject)
  }

  /**
   The reference meaning: plain Boolean logic in which a leaf that cannot be
   compared is false.
   */
  predicate Holds(f: Filter, subject: Subject) {
    match f
    case All => true
    case NoMatch => false
    case And(fs) => forall i :: 0 <= i < |fs| ==> Holds(fs[i], subject)
    case Or(fs) => exists i :: 0 <= i < |fs| && Holds(fs[i], subject)
    case Not(g) => !Holds(g, subject)
    case Attr(a, g) => Holds(g, Scalar(AttributeOf(subject, a)))
    case On(leaf) => MatchLeaf(leaf, subject) == Says(true)
  }

  /** No order comparison in the tree meets a value it cannot be compared with. */
  predicate Comparable(f: Filter, subject: Subject) {
    match f
    case All => true
    case NoMatch => true
    case And(fs) => forall i :: 0 <= i < |fs| ==> Comparable(fs[i], subject)
    case Or(fs) => forall i :: 0 <= i < |fs| ==> Comparable(fs[i], subject)
    case Not(g) => Comparable(g, subject)
    case Attr(a, g) => Comparable(g, Scalar(AttributeOf(subject, a)))
    case On(leaf) => MatchLeaf(leaf, subject) != Raises
  }

  /** Whenever in-memory evaluation answers, its answer is the reference meaning. */
  lemma {:induction false} MatchesAgrees(f: Filter, subject: Subject)
    ensures Matches(f, subject).Says? ==> Matches(f, subject).answer == Holds(f, subject)
    ensures Comparable(f, subject) ==> Matches(f, subject).Says?
    decreases f, 1
  {
    match f
    case All =>
    case NoMatch =>
    case And(fs) => MatchesEveryAgrees(fs, subject);
    case Or(fs) => MatchesAnyAgrees(fs, subject);
    case Not(g) => MatchesAgrees(g, subject);
    case Attr(a, g) => MatchesAgrees(g, Scalar(AttributeOf(subject, a)));
    case On(leaf) =>
  }

  lemma {:induction false} MatchesEveryAgrees(fs: seq<Filter>, subject: Subject)
    ensures MatchesEvery(fs, subject).Says? ==>
              (MatchesEvery(fs, subject).answer <==> forall i :: 0 <= i < |fs| ==> Holds(fs[i], subject))
    ensures (forall i :: 0 <= i < |fs| ==> Comparable(fs[i], subject)) ==> MatchesEvery(fs, subject).Says?
    decreases fs, 0
  {
    if fs != [] {
      MatchesAgrees(fs[0], subject);
      MatchesEveryAgrees(fs[1..], subject);
      assert forall i :: 1 <= i < |fs| ==> fs[i] == fs[1..][i - 1];
    }
  }

  lemma {:induction false} MatchesAnyAgrees(fs: seq<Filter>, subject: Subject)
    ensures MatchesAny(fs, subject).Says? ==>
              (MatchesAny(fs, subject).answer <==> exists i :: 0 <= i < |fs| && Holds(fs[i], subject))
    ensures (forall i :: 0 <= i < |fs| ==> Comparable(fs[i], subject)) ==> MatchesAny(fs, subject).Says?
    decreases fs, 0
  {
    if fs != [] {
      MatchesAgrees(fs[0], subject);
      MatchesAnyAgrees(fs[1..], subject);
      assert forall i :: 1 <= i < |fs| ==> fs[i] == fs[1..][i - 1];
    }
  }

  /**
   When evaluation raises: a conjunction does at a child that raises behind children that are
   all true, a disjunction behind children that are all false, and the other nodes with their
   child. What comes behind is never looked at.
   */
  lemma RaisesExactly(f: Filter, subject: Subject)
    ensures f.And? ==> (Matches(f, subject) == Raises <==> exists k :: RaisesAt(f.filters, subject, k, true))
    ensures f.Or? ==> (Matches(f, subject) == Raises <==> exists k :: RaisesAt(f.filters, subject, k, false))
    ensures f.Not? ==> (Matches(f, subject) == Raises <==> Matches(f.filter, subject) == Raises)
    ensures f.Attr? ==> (Matches(f, subject) == Raises
                         <==> Matches(f.filter, Scalar(AttributeOf(subject, f.attribute))) == Raises)
    ensures f.All? || f.NoMatch? ==> Matches(f, subject).Says?
  {
    match f
    case And(fs) => EveryRaisesExactly(fs, subject);
    case Or(fs) => AnyRaisesExactly(fs, subject);
    case _ =>
  }

  /** Child k raises, and the ones before it all give the answer that keeps evaluation going. */
  predicate RaisesAt(fs: seq<Filter>, subject: Subject, k: int, going: bool) {
    && 0 <= k < |fs| && Matches(fs[k], subject) == Raises
    && forall j :: 0 <= j < k ==> Matches(fs[j], subject) == Says(going)
  }

  lemma RaisesAtRest(fs: seq<Filter>, subject: Subject, going: bool)
    requires fs != []
    ensures (exists k :: RaisesAt(fs, subject, k, going)) <==>
              || Matches(fs[0], subject) == Raises
              || (Matches(fs[0], subject) == Says(going) && exists k :: RaisesAt(fs[1..], subject, k, going))
  {
    if k :| RaisesAt(fs, subject, k, going) && k > 0 {
      assert forall j :: 0 <= j < k - 1 ==> fs[1..][j] == fs[j + 1];
      assert RaisesAt(fs[1..], subject, k - 1, going);
    }
    if Matches(fs[0], subject) == Raises {
      assert RaisesAt(fs, subject, 0, going);
    } else if k :| Matches(fs[0], subject) == Says(going) && RaisesAt(fs[1..], subject, k, going) {
      assert forall j :: 1 <= j < |fs| ==> fs[j] == fs[1..][j - 1];
      assert RaisesAt(fs, subject, k + 1, going);
    }
  }

  lemma {:induction false} EveryRaisesExactly(fs: seq<Filter>, subject: Subject)
    ensures MatchesEvery(fs, subject) == Raises <==> exists k :: RaisesAt(fs, subject, k, true)
  {
    if fs != [] {
      RaisesAtRest(fs, subject, true);
      EveryRaisesExactly(fs[1..], subject);
    }
  }

  lemma {:induction false} AnyRaisesExactly(fs: seq<Filter>, subject: Subject)
    ensures MatchesAny(fs, subject) == Raises <==> exists k :: RaisesAt(fs, subject, k, false)
  {
    if fs != [] {
      RaisesAtRest(fs, subject, false);
      AnyRaisesExactly(fs[1..], subject);
    }
  }

  /**
   The converter's documentation says a value leaf is already false on null. The
   order leaves are not: they raise, exactly when they are not under an attribute, the stored
   value is null, the bound is null, or the two are of different kinds. No other leaf raises.
   */
  lemma OrderLeafRaisesExactly(leaf: Leaf, subject: Subject)
    ensures Matches(On(leaf), subject) == Raises <==>
              && (leaf.Gt? || leaf.Ge? || leaf.Lt? || leaf.Le?)
              && (match subject
                  case Object(_) => true
                  case Scalar(v) => v == Null || leaf.value == Null || v.Num? != leaf.value.Num?)
    ensures (leaf.Eq? || leaf.Contains? || leaf.In?) && subject.Object? ==> Matches(On(leaf), subject) == Says(false)
  {
  }

  // ----- Factories -----

  /** Splices nested conjunctions (or disjunctions) into one list, recursively. */
  function Flatten(conjunction: bool, fs: seq<Filter>): seq<Filter> {
    if fs == [] then []
    else
      (if conjunction && fs[0].And? then Flatten(conjunction, fs[0].filters)
       else if !conjunction && fs[0].Or? then Flatten(conjunction, fs[0].filters)
       else [fs[0]])
      + Flatten(conjunction, fs[1..])
  }

  function Without(fs: seq<Filter>, dropped: Filter): seq<Filter> {
    if fs == [] then []
    else (if fs[0] == dropped then [] else [fs[0]]) + Without(fs[1..], dropped)
  }

  /** and_: NoMatch annihilates, All drops out, a single survivor is unwrapped. */
  function AndOf(fs: seq<Filter>): Filter {
    var flat := Flatten(true, fs);
    var children := Without(flat, All);
    if NoMatch in flat then NoMatch
    else if children == [] then All
    else if |children| == 1 then children[0]
    else And(children)
  }

  /** or_: All annihilates, NoMatch drops out, a single survivor is unwrapped. */
  function OrOf(fs: seq<Filter>): Filter {
    var flat := Flatten(false, fs);
    var children := Without(flat, NoMatch);
    if All in flat then All
    else if children == [] then NoMatch
    else if |children| == 1 then children[0]
    else Or(children)
  }

  /** not_: double negation unwraps, constants swap. */
  function NotOf(f: Filter): Filter {
    match f
    case Not(g) => g
    case All => NoMatch
    case NoMatch => All
    case _ => Not(f)
  }

  /** attr: binding a constant to an attribute leaves the constant. */
  function AttrOf(attribute: string, f: Filter): Filter {
    if f == All || f == NoMatch then f else Attr(attribute, f)
  }

  ghost predicate EveryHolds(fs: seq<Filter>, subject: Subject) {
    forall f :: f in fs ==> Holds(f, subject)
  }

  ghost predicate SomeHolds(fs: seq<Filter>, subject: Subject) {
    exists f :: f in fs && Holds(f, subject)
  }

  lemma SplitFirst(fs: seq<Filter>)
    requires fs != []
    ensures forall f :: f in fs <==> f == fs[0] || f in fs[1..]
  {
    assert fs == [fs[0]] + fs[1..];
  }

  lemma {:induction false} FlattenMeaning(conjunction: bool, fs: seq<Filter>, subject: Subject)
    ensures conjunction ==> (EveryHolds(Flatten(true, fs), subject) <==> EveryHolds(fs, subject))
    ensures !conjunction ==> (SomeHolds(Flatten(false, fs), subject) <==> SomeHolds(fs, subject))
  {
    if fs != [] {
      SplitFirst(fs);
      FlattenMeaning(conjunction, fs[1..], subject);
      if fs[0].And? && conjunction {
        FlattenMeaning(true, fs[0].filters, subject);
        assert Holds(fs[0], subject) <==> EveryHolds(fs[0].filters, subject);
      } else if fs[0].Or? && !conjunction {
        FlattenMeaning(false, fs[0].filters, subject);
        assert Holds(fs[0], subject) <==> SomeHolds(fs[0].filters, subject);
      }
    }
  }

  lemma {:induction false} WithoutMembers(fs: seq<Filter>, dropped: Filter)
    ensures forall f :: f in Without(fs, dropped) <==> f in fs && f != dropped
  {
    if fs != [] {
      SplitFirst(fs);
      WithoutMembers(fs[1..], dropped);
    }
  }

  /** The normalised conjunction means the conjunction of its arguments. */
  lemma AndOfMeaning(fs: seq<Filter>, subject: Subject)
    ensures Holds(AndOf(fs), subject) <==> EveryHolds(fs, subject)
  {
    FlattenMeaning(true, fs, subject);
    WithoutMembers(Flatten(true, fs), All);
    var children := Without(Flatten(true, fs), All);
    assert EveryHolds(children, subject) <==> EveryHolds(Flatten(true, fs), subject);
    if |children| == 1 {
      assert children[0] in children;
    }
    assert Holds(And(children), subject) <==> EveryHolds(children, subject);
  }

  /** The normalised disjunction means the disjunction of its arguments. */
  lemma OrOfMeaning(fs: seq<Filter>, subject: Subject)
    ensures Holds(OrOf(fs), subject) <==> SomeHolds(fs, subject)
  {
    FlattenMeaning(false, fs, subject);
    WithoutMembers(Flatten(false, fs), NoMatch);
    var children := Without(Flatten(false, fs), NoMatch);
    assert SomeHolds(children, subject) <==> SomeHolds(Flatten(false, fs), subject) by {
      assert !Holds(NoMatch, subject);
    }
    if |children| == 1 {
      assert children[0] in children;
    }
    assert Holds(Or(children), subject) <==> SomeHolds(children, subject);
  }

  /** The other two factories also keep the meaning of what they normalise. */
  lemma NotOfMeaning(f: Filter, attribute: string, subject: Subject)
    ensures Holds(NotOf(f), subject) <==> !Holds(f, subject)
    ensures Holds(AttrOf(attribute, f), subject) <==> Holds(Attr(attribute, f), subject)
  {
  }

  /** A node of a normal tree: two children at least, none of them a constant or a node of its own kind. */
  ghost predicate NormalChildren(fs: seq<Filter>, conjunction: bool) {
    |fs| >= 2 && forall f :: f in fs ==> f != All && f != NoMatch && !(if conjunction then f.And? else f.Or?)
  }

  lemma {:induction false} FlattenIsFlat(conjunction: bool, fs: seq<Filter>)
    ensures forall f :: f in Flatten(conjunction, fs) ==> !(if conjunction then f.And? else f.Or?)
  {
    if fs != [] {
      FlattenIsFlat(conjunction, fs[1..]);
      if fs[0].And? && conjunction {
        FlattenIsFlat(true, fs[0].filters);
      } else if fs[0].Or? && !conjunction {
        FlattenIsFlat(false, fs[0].filters);
      }
    }
  }

  /** What the factories build is normal at its root: nothing nested, constant, single or doubly negated. */
  lemma FactoriesNormalise(fs: seq<Filter>, f: Filter)
    ensures AndOf(fs).And? ==> NormalChildren(AndOf(fs).filters, true)
    ensures OrOf(fs).Or? ==> NormalChildren(OrOf(fs).filters, false)
    ensures AndOf([]) == All && OrOf([]) == NoMatch
    ensures f.Not? ==> f == Not(NotOf(f))
    ensures !f.Not? && NotOf(f).Not? ==> NotOf(f).filter == f && f != All && f != NoMatch
  {
    FlattenIsFlat(true, fs);
    FlattenIsFlat(false, fs);
    WithoutMembers(Flatten(true, fs), All);
    WithoutMembers(Flatten(false, fs), NoMatch);
    if |Without(Flatten(true, fs), All)| == 1 {
      assert Without(Flatten(true, fs), All)[0] in Without(Flatten(true, fs), All);
    }
    if |Without(Flatten(false, fs), NoMatch)| == 1 {
      assert Without(Flatten(false, fs), NoMatch)[0] in Without(Flatten(false, fs), NoMatch);
    }
  }

  /** A union of constants is All as soon as one of them is, and NoMatch otherwise. */
  lemma {:induction false} OrOfConstants(fs: seq<Filter>)
    requires forall f :: f in fs ==> f == All || f == NoMatch
    ensures OrOf(fs) == if All in fs then All else NoMatch
  {
    FlattenConstants(fs);
    WithoutMembers(fs, NoMatch);
    if Without(fs, NoMatch) != [] {
      assert Without(fs, NoMatch)[0] in Without(fs, NoMatch);
    }
  }

  lemma {:induction false} FlattenConstants(fs: seq<Filter>)
    requires forall f :: f in fs ==> f == All || f == NoMatch
    ensures Flatten(false, fs) == fs
  {
    if fs != [] {
      SplitFirst(fs);
      FlattenConstants(fs[1..]);
      assert fs[0] in fs && fs == [fs[0]] + fs[1..];
    }
  }
}

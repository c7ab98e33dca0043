/** The fragment of the Mongo query language the backend produces, and what it matches. */
module MongoQuery {
  import opened Wrappers
  import opened Values
  import opened Filters

  /** A document. A field can be missing, present and null, or present with a value. */
  type Document = map<string, Value>

  datatype Condition =
    | Equals(value: Value)
    | NotEquals(value: Value)
    | Greater(value: Value)
    | GreaterOrEqual(value: Value)
    | Less(value: Value)
    | LessOrEqual(value: Value)
    | Regex(pattern: string)
    | OneOf(values: seq<Value>)

  /** Fields is one query object: every named field must satisfy its condition. */
  datatype Query =
    | Fields(conditions: map<string, Condition>)
    | AndQ(queries: seq<Query>)
    | OrQ(queries: seq<Query>)
    | NorQ(queries: seq<Query>)

  // ----- Regular expressions: literal characters and escaped metacharacters only -----

  predicate Metacharacter(c: char) {
    c in "()[]{}?*+-|^$\\.&~# \t\n\r\U{0B}\U{0C}"
  }

  /** re.escape: a backslash before every metacharacter. */
  function Escape(s: string): string {
    if s == "" then ""
    else (if Metacharacter(s[0]) then ['\\', s[0]] else [s[0]]) + Escape(s[1..])
  }

  /** What stands for something else in a pattern unless it is escaped. */
  predicate Special(c: char) {
    c in "\\.^$*+?()[]{}|"
  }

  predicate Alphanumeric(c: char) {
    'a' <= c <= 'z' || 'A' <= c <= 'Z' || '0' <= c <= '9'
  }

  /**
   The text a pattern of literals stands for; None when it is not such a pattern. A backslash
   makes a character literal, except letters and digits, which it gives a meaning.
   */
  function LiteralText(pattern: string): Option<string> {
    if pattern == "" then Some("")
    else if pattern[0] == '\\' then
      if |pattern| < 2 || Alphanumeric(pattern[1]) then None
      else
        (match LiteralText(pattern[2..])
         case None => None
         case Some(rest) => Some([pattern[1]] + rest))
    else if Special(pattern[0]) then None
    else
      (match LiteralText(pattern[1..])
       case None => None
       case Some(rest) => Some([pattern[0]] + rest))
  }

  /** An escaped text is matched literally. */
  lemma {:induction false} EscapeIsLiteral(s: string)
    ensures LiteralText(Escape(s)) == Some(s)
  {
    if s != "" {
      EscapeIsLiteral(s[1..]);
      var tail := Escape(s[1..]);
      assert s == [s[0]] + s[1..];
      if Metacharacter(s[0]) {
        assert Escape(s)[2..] == tail;
      } else {
        assert Escape(s)[1..] == tail;
      }
    }
  }

  // ----- Matching -----

  predicate IsNull(document: Document, field: string) {
    field !in document || document[field] == Null
  }

  /**
   Equality with null also matches a missing field; an order operator compares only
   values of the bound's own kind, and its or-equal forms treat null as equal to null.
   */
  predicate Satisfies(c: Condition, document: Document, field: string) {
    var v := if field in document then document[field] else Null;
    match c
    case Equals(x) => v == x
    case NotEquals(x) => v != x
    case Greater(x) => SameBracket(v, x) && Before(x, v)
    case GreaterOrEqual(x) => v == x || (SameBracket(v, x) && Before(x, v))
    case Less(x) => SameBracket(v, x) && Before(v, x)
    case LessOrEqual(x) => v == x || (SameBracket(v, x) && Before(v, x))
    case Regex(p) => v.Str? && LiteralText(p).Some? && ContainsText(v.s, LiteralText(p).value)
    case OneOf(xs) => v in xs
  }

  predicate Selects(q: Query, document: Document) {
    match q
    case Fields(conditions) => forall f :: f in conditions ==> Satisfies(conditions[f], document, f)
    case AndQ(qs) => forall i :: 0 <= i < |qs| ==> Selects(qs[i], document)
    case OrQ(qs) => exists i :: 0 <= i < |qs| && Selects(qs[i], document)
    case NorQ(qs) => forall i :: 0 <= i < |qs| ==> !Selects(qs[i], document)
  }

  /** None stands for no restriction. */
  predicate Admits(q: Option<Query>, document: Document) {
    q.Some? ==> Selects(q.value, document)
  }

  /** The server refuses an empty $and, $or or $nor array. */
  predicate Accepted(q: Query) {
    match q
    case Fields(_) => true
    case AndQ(qs) => qs != [] && forall i :: 0 <= i < |qs| ==> Accepted(qs[i])
    case OrQ(qs) => qs != [] && forall i :: 0 <= i < |qs| ==> Accepted(qs[i])
    case NorQ(qs) => qs != [] && forall i :: 0 <= i < |qs| ==> Accepted(qs[i])
  }

  function MergeQuery(base: Option<Query>, extra: Option<Query>): Option<Query> {
    if base.None? then extra
    else if extra.None? then base
    else Some(AndQ([base.value, extra.value]))
  }

  lemma MergeMeaning(base: Option<Query>, extra: Option<Query>, document: Document)
    ensures Admits(MergeQuery(base, extra), document) <==> Admits(base, document) && Admits(extra, document)
  {
    if base.Some? && extra.Some? {
      var qs := [base.value, extra.value];
      assert qs[0] == base.value && qs[1] == extra.value;
    }
  }
}

/**
 Stored values and the order the storage backends sort them by.

 Num stands for numbers and for instants; Str stands for text and for the string
 form in which identifiers are stored.
 */
module Values {
  datatype Value = Null | Num(n: int) | Str(s: string)

  /** Lexicographic order on text. */
  predicate TextLess(a: string, b: string) {
    if b == "" then false
    else if a == "" then true
    else a[0] < b[0] || (a[0] == b[0] && TextLess(a[1..], b[1..]))
  }

  /** Whether two values can be compared with an order operator at all. */
  predicate SameBracket(a: Value, b: Value) {
    (a.Num? && b.Num?) || (a.Str? && b.Str?)
  }

  /** The ascending sort order: null first, then numbers, then text. */
  predicate Before(a: Value, b: Value) {
    match (a, b)
    case (_, Null) => false
    case (Null, _) => true
    case (Num(x), Num(y)) => x < y
    case (Str(x), Str(y)) => TextLess(x, y)
    case (Num(_), Str(_)) => true
    case (Str(_), Num(_)) => false
  }

  lemma {:induction false} TextTrichotomy(a: string, b: string)
    ensures TextLess(a, b) || a == b || TextLess(b, a)
    ensures !(TextLess(a, b) && TextLess(b, a))
    ensures a == b ==> !TextLess(a, b)
  {
    if a != "" && b != "" {
      TextTrichotomy(a[1..], b[1..]);
      assert a == [a[0]] + a[1..] && b == [b[0]] + b[1..];
    }
  }

  /** One text precedes another at the first character in which they differ, or as a proper start of it. */
  predicate PrecedesAt(a: string, b: string, k: nat) {
    && k <= |a| && k < |b| && a[..k] == b[..k]
    && (k == |a| || a[k] < b[k])
  }

  lemma {:induction false} TextLessExactly(a: string, b: string)
    ensures TextLess(a, b) <==> exists k: nat :: PrecedesAt(a, b, k)
  {
    if b == "" {
    } else if a == "" {
      assert PrecedesAt(a, b, 0);
    } else {
      TextLessExactly(a[1..], b[1..]);
      if a[0] == b[0] && TextLess(a[1..], b[1..]) {
        var k: nat :| PrecedesAt(a[1..], b[1..], k);
        assert a[..k + 1] == [a[0]] + a[1..][..k] && b[..k + 1] == [b[0]] + b[1..][..k];
        assert PrecedesAt(a, b, k + 1);
      } else if a[0] < b[0] {
        assert PrecedesAt(a, b, 0);
      }
      if k: nat :| PrecedesAt(a, b, k) && k > 0 {
        assert a[0] == a[..k][0] == b[..k][0] == b[0];
        assert a[1..][..k - 1] == a[..k][1..] == b[..k][1..] == b[1..][..k - 1];
        assert PrecedesAt(a[1..], b[1..], k - 1);
      }
    }
  }

  /** So text is compared at its first difference, whatever follows, and a proper start comes first. */
  lemma TextComparesAtDifference(p: string, c: char, s: string, d: char, t: string)
    requires c < d
    ensures TextLess(p + [c] + s, p + [d] + t) && !TextLess(p + [d] + t, p + [c] + s)
    ensures TextLess(p, p + [c] + s) && !TextLess(p + [c] + s, p)
  {
    var low, high := p + [c] + s, p + [d] + t;
    TextLessExactly(low, high);
    TextLessExactly(p, low);
    assert low[..|p|] == p == high[..|p|];
    assert PrecedesAt(low, high, |p|) && PrecedesAt(p, low, |p|);
    TextTrichotomy(low, high);
    TextTrichotomy(p, low);
  }

  /** The sort order, kind by kind: null before everything else, then numbers by size, then text. */
  lemma BeforeByKind(m: int, n: int, a: string, b: string)
    ensures Before(Num(m), Num(n)) <==> m < n
    ensures Before(Str(a), Str(b)) <==> exists k: nat :: PrecedesAt(a, b, k)
    ensures Before(Null, Num(m)) && Before(Null, Str(a)) && !Before(Num(m), Null) && !Before(Str(a), Null)
    ensures Before(Num(m), Str(a)) && !Before(Str(a), Num(m))
  {
    TextLessExactly(a, b);
  }

  lemma {:induction false} TextTransitive(a: string, b: string, c: string)
    requires TextLess(a, b) && TextLess(b, c)
    ensures TextLess(a, c)
  {
    if a != "" && a[0] == b[0] && b[0] == c[0] {
      TextTransitive(a[1..], b[1..], c[1..]);
    }
  }

  /** There is no greatest text. */
  lemma {:induction false} TextExtends(s: string)
    ensures TextLess(s, s + "a")
  {
    if s != "" {
      assert (s + "a")[1..] == s[1..] + "a";
      TextExtends(s[1..]);
    }
  }

  /** Before is a strict total order on all values. */
  lemma BeforeTotal(a: Value, b: Value)
    ensures Before(a, b) || a == b || Before(b, a)
    ensures !(Before(a, b) && Before(b, a))
    ensures a == b ==> !Before(a, b)
  {
    if a.Str? && b.Str? {
      TextTrichotomy(a.s, b.s);
    }
  }

  lemma BeforeTransitive(a: Value, b: Value, c: Value)
    requires Before(a, b) && Before(b, c)
    ensures Before(a, c)
  {
    if a.Str? && b.Str? && c.Str? {
      TextTransitive(a.s, b.s, c.s);
    }
  }
}

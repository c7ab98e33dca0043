/** Base-36 rendering of API-key secrets at a fixed width. */
module Base36 {

  const BASE := 36

  const RANDOM_BITS := 256

  const WIDTH := 50

  function Pow(base: nat, exponent: nat): nat {
    if exponent == 0 then 1 else base * Pow(base, exponent - 1)
  }

  predicate IsDigit(c: char) {
    '0' <= c <= '9' || 'a' <= c <= 'z'
  }

  /** The alphabet: ten digits and then the lower-case letters. */
  function Digit(value: nat): (c: char)
    requires value < BASE
    ensures IsDigit(c) && DigitValue(c) == value
  {
    if value < 10 then '0' + value as char else 'a' + (value - 10) as char
  }

  function DigitValue(c: char): (value: nat)
    requires IsDigit(c)
    ensures value < BASE
  {
    if c <= '9' then c as int - '0' as int else c as int - 'a' as int + 10
  }

  ghost predicate IsNumeral(text: string) {
    forall i :: 0 <= i < |text| ==> IsDigit(text[i])
  }

  /** The value a numeral stands for, most significant digit first. */
  ghost function Value(text: string): nat
    requires IsNumeral(text)
  {
    if text == [] then 0 else Value(text[..|text| - 1]) * BASE + DigitValue(text[|text| - 1])
  }

  function Reverse(digits: string): (reversed: string)
    ensures |reversed| == |digits|
    ensures forall i :: 0 <= i < |digits| ==> reversed[i] == digits[|digits| - 1 - i]
  {
    seq(|digits|, i requires 0 <= i < |digits| => digits[|digits| - 1 - i])
  }

  function Zeros(n: nat): (zeros: string)
    ensures |zeros| == n && IsNumeral(zeros)
    ensures forall i :: 0 <= i < n ==> zeros[i] == '0'
  {
    seq(n, _ => '0')
  }

  function Padded(text: string, width: nat): string {
    if |text| >= width then text else Zeros(width - |text|) + text
  }

  // ----- Numerals -----

  lemma Distributed(high: nat, place: nat, low: nat)
    ensures (high * place + low) * BASE == high * (BASE * place) + low * BASE
  {
  }

  lemma {:induction false} ValueConcat(a: string, b: string)
    requires IsNumeral(a) && IsNumeral(b)
    ensures IsNumeral(a + b) && Value(a + b) == Value(a) * Pow(BASE, |b|) + Value(b)
  {
    if b == [] {
      assert a + b == a;
    } else {
      var shorter, last := b[..|b| - 1], b[|b| - 1];
      assert (a + b)[..|a + b| - 1] == a + shorter;
      assert forall i :: 0 <= i < |a + b| ==> IsDigit((a + b)[i]);
      ValueConcat(a, shorter);
      assert Pow(BASE, |b|) == BASE * Pow(BASE, |shorter|);
      Distributed(Value(a), Pow(BASE, |shorter|), Value(shorter));
    }
  }

  lemma {:induction false} ZerosAreWorthless(n: nat)
    ensures Value(Zeros(n)) == 0
  {
    if n > 0 {
      assert Zeros(n)[..n - 1] == Zeros(n - 1);
      ZerosAreWorthless(n - 1);
    }
  }

  lemma {:induction false} ValueBelowPow(text: string)
    requires IsNumeral(text)
    ensures Value(text) < Pow(BASE, |text|)
  {
    if text != [] {
      ValueBelowPow(text[..|text| - 1]);
    }
  }

  /** Numerals of one length that stand for one value are one numeral. */
  lemma {:induction false} ValueIsInjective(a: string, b: string)
    requires IsNumeral(a) && IsNumeral(b) && |a| == |b| && Value(a) == Value(b)
    ensures a == b
  {
    if a != [] {
      var n := |a| - 1;
      var x, y := Value(a[..n]), Value(b[..n]);
      var c, d := DigitValue(a[n]), DigitValue(b[n]);
      assert x * BASE + c == y * BASE + d;
      assert c == d && x == y;
      ValueIsInjective(a[..n], b[..n]);
      DigitValueIsInjective(a[n], b[n]);
      assert a == a[..n] + [a[n]] && b == b[..n] + [b[n]];
    }
  }

  lemma DigitValueIsInjective(c: char, d: char)
    requires IsDigit(c) && IsDigit(d) && DigitValue(c) == DigitValue(d)
    ensures c == d
  {
  }

  /** A numeral that does not start with zero is worth at least its leading place. */
  lemma {:induction false} LeadingDigitCounts(text: string)
    requires IsNumeral(text) && text != [] && text[0] != '0'
    ensures Value(text) >= Pow(BASE, |text| - 1)
  {
    if |text| > 1 {
      LeadingDigitCounts(text[..|text| - 1]);
    }
  }

  lemma {:induction false} PowGrows(base: nat, m: nat, n: nat)
    requires base >= 1 && m <= n
    ensures 1 <= Pow(base, m) <= Pow(base, n)
  {
    if m < n {
      PowGrows(base, m, n - 1);
    } else if m > 0 {
      PowGrows(base, m - 1, m - 1);
    }
  }

  // ----- The encoder -----

  lemma OneDigit(digit: nat)
    requires digit < BASE
    ensures IsNumeral([Digit(digit)]) && Value([Digit(digit)]) == digit
  {
    assert [Digit(digit)][..0] == [];
    assert Value([]) == 0;
  }

  /** Dividing off low digits: the digits so far, reversed, are worth what the rest no longer is. */
  ghost predicate Collected(digits: string, rest: nat, value: nat) {
    && IsNumeral(digits) && IsNumeral(Reverse(digits))
    && rest * Pow(BASE, |digits|) + Value(Reverse(digits)) == value
  }

  lemma DigitStep(digits: string, rest: nat, value: nat)
    requires Collected(digits, rest, value)
    ensures Collected(digits + [Digit(rest % BASE)], rest / BASE, value)
  {
    var quotient, remainder := rest / BASE, rest % BASE;
    var longer, top, tail := digits + [Digit(remainder)], [Digit(remainder)], Reverse(digits);
    assert Reverse(longer) == top + tail;
    OneDigit(remainder);
    ValueConcat(top, tail);
    Regrouped(quotient, remainder, Pow(BASE, |digits|));
    assert Pow(BASE, |longer|) == BASE * Pow(BASE, |digits|);
  }

  lemma CollectedEnds(digits: string, value: nat)
    ensures Collected("", value, value)
    ensures Collected(digits, 0, value) ==> IsNumeral(Reverse(digits)) && Value(Reverse(digits)) == value
  {
    assert Reverse("") == "";
  }

  lemma Regrouped(quotient: nat, remainder: nat, place: nat)
    ensures quotient * (BASE * place) + remainder * place == (quotient * BASE + remainder) * place
  {
  }

  lemma PaddedNumeral(text: string, width: nat)
    requires IsNumeral(text)
    ensures IsNumeral(Padded(text, width)) && Value(Padded(text, width)) == Value(text)
  {
    if |text| < width {
      ZerosAreWorthless(width - |text|);
      ValueConcat(Zeros(width - |text|), text);
    }
  }

  /** The width is exact for every value that fits it, and only for those. */
  lemma WidthExactly(text: string, width: nat)
    requires IsNumeral(text) && (text != [] ==> text[0] != '0')
    ensures |Padded(text, width)| == width <==> Value(text) < Pow(BASE, width)
  {
    ValueBelowPow(text);
    if |text| <= width {
      PowGrows(BASE, |text|, width);
    } else {
      LeadingDigitCounts(text);
      PowGrows(BASE, width, |text| - 1);
    }
  }

  /** The value at the width: padded when it fits, and otherwise without a leading zero. */
  ghost predicate Encodes(text: string, value: int, width: nat) {
    && IsNumeral(text) && |text| >= width
    && Value(text) == (if value < 0 then 0 else value)
    && (|text| == width <==> value < Pow(BASE, width))
    && (|text| > width ==> text[0] != '0')
  }

  lemma LongerIsLarger(a: string, b: string)
    requires IsNumeral(a) && IsNumeral(b) && |a| < |b| && b[0] != '0'
    ensures Value(a) < Value(b)
  {
    ValueBelowPow(a);
    LeadingDigitCounts(b);
    PowGrows(BASE, |a|, |b| - 1);
  }

  /** There is one encoding of a value at a width, and it decodes to no other value. */
  lemma EncodingIsUnique(a: string, b: string, value: nat, other: nat, width: nat)
    requires Encodes(a, value, width) && Encodes(b, other, width)
    ensures a == b <==> value == other
  {
    if value == other {
      if |a| < |b| {
        LongerIsLarger(a, b);
      } else if |b| < |a| {
        LongerIsLarger(b, a);
      }
      ValueIsInjective(a, b);
    }
  }

  /** Divides digits off the low end, reverses them, and pads with zeros on the left. */
  method EncodeBase36(value: int, width: nat) returns (text: string)
    ensures Encodes(text, value, width)
  {
    var digits: string, rest := "", value;
    if value >= 0 {
      CollectedEnds("", value);
    }
    while rest > 0
      invariant if value < 0 then digits == "" && rest == value else rest >= 0 && Collected(digits, rest, value)
      invariant digits != "" && rest == 0 ==> digits[|digits| - 1] != '0'
    {
      DigitStep(digits, rest, value);
      digits := digits + [Digit(rest % BASE)];
      rest := rest / BASE;
    }
    var reversed := Reverse(digits);
    if value >= 0 {
      CollectedEnds(digits, value);
    }
    text := Padded(reversed, width);
    PaddedNumeral(reversed, width);
    WidthExactly(reversed, width);
    PowGrows(BASE, 0, width);
  }

  // ----- Keys -----

  lemma {:induction false} PowAdds(base: nat, m: nat, n: nat)
    ensures Pow(base, m + n) == Pow(base, m) * Pow(base, n)
  {
    if m > 0 {
      PowAdds(base, m - 1, n);
      assert base * (Pow(base, m - 1) * Pow(base, n)) == base * Pow(base, m - 1) * Pow(base, n);
    }
  }

  lemma PowersMultiply(m: nat, n: nat, k: nat, l: nat)
    requires Pow(2, m) <= Pow(BASE, n) && Pow(2, k) <= Pow(BASE, l)
    ensures Pow(2, m + k) <= Pow(BASE, n + l)
  {
    PowAdds(2, m, k);
    PowAdds(BASE, n, l);
    ProductsGrow(Pow(2, m), Pow(BASE, n), Pow(2, k), Pow(BASE, l));
  }

  lemma ProductsGrow(a: nat, b: nat, c: nat, d: nat)
    requires a <= b && c <= d
    ensures a * c <= b * d
  {
    assert a * c <= b * c <= b * d;
  }

  lemma SmallPowers()
    ensures Pow(2, 31) <= Pow(BASE, 6) && Pow(2, 10) <= Pow(BASE, 2)
  {
    assert Pow(2, 10) == 1024;
    PowAdds(2, 10, 10);
    PowAdds(2, 20, 11);
    assert Pow(2, 11) == 2048;
    assert Pow(BASE, 2) == 1296;
    PowAdds(BASE, 2, 2);
    PowAdds(BASE, 4, 2);
  }

  /** Fifty base-36 digits hold any 256-bit secret: 36^6 exceeds 2^31, so 36^48 exceeds 2^248. */
  lemma WidthHoldsSecrets()
    ensures Pow(2, RANDOM_BITS) <= Pow(BASE, WIDTH)
  {
    SmallPowers();
    PowersMultiply(31, 6, 31, 6);
    PowersMultiply(62, 12, 62, 12);
    PowersMultiply(124, 24, 124, 24);
    PowersMultiply(248, 48, 10, 2);
    PowGrows(2, 256, 258);
  }

  /** Every secret is rendered at the one width, and distinct secrets differently. */
  lemma KeysAreInjective(a: nat, b: nat, x: string, y: string)
    requires a < Pow(2, RANDOM_BITS) && b < Pow(2, RANDOM_BITS)
    requires Encodes(x, a, WIDTH) && Encodes(y, b, WIDTH)
    ensures |x| == |y| == WIDTH
    ensures a == b <==> x == y
  {
    WidthHoldsSecrets();
    EncodingIsUnique(x, y, a, b, WIDTH);
  }
}

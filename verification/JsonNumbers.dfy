/** Finite JavaScript numbers as the JSON serializer writes them: Number::toString
    of section 6.1.6.1.20 of ECMA-262.

    A number other than zero is its sign, the shortest digits that round to it
    (no zero at either end) and the place of its decimal point; so two numbers
    differ exactly when these do. Minus zero is written as zero and stands for
    it here. */
module JsonNumbers {
  import opened Decimal
  import opened Seqs

  type CodeUnit = u: nat | u < 0x10000

  type Text = seq<CodeUnit>

  const ZERO: CodeUnit := 48
  const MINUS: CodeUnit := 45
  const PLUS: CodeUnit := 43
  const POINT: CodeUnit := 46
  const LETTER_E: CodeUnit := 101

  /** The value is 0.d1d2d3... times ten to the power `point`. */
  datatype Finite = Zero | Nonzero(negative: bool, digits: Text, point: int)

  predicate IsDigit(u: CodeUnit) {
    48 <= u <= 57
  }

  predicate AllDigits(s: Text) {
    forall i :: 0 <= i < |s| ==> IsDigit(s[i])
  }

  predicate Shortest(s: Text) {
    s != [] && AllDigits(s) && s[0] != ZERO && s[|s| - 1] != ZERO
  }

  type JsNumber = n: Finite | n.Zero? || Shortest(n.digits) witness Zero

  function Zeros(n: nat): (r: Text)
    ensures |r| == n && forall i :: 0 <= i < n ==> r[i] == ZERO
  {
    seq(n, i => ZERO)
  }

  function Mantissa(digits: Text): Text
    requires digits != []
  {
    if |digits| == 1 then digits else digits[..1] + [POINT] + digits[1..]
  }

  function Exponent(e: int): Text {
    if e < 0 then [MINUS] + Digits(-e) else [PLUS] + Digits(e)
  }

  predicate IsInteger(digits: Text, point: int) {
    |digits| <= point <= 21
  }

  ghost predicate IsPlain(digits: Text, point: int) {
    -6 < point <= 21
  }

  /** The four ways of writing a positive number. */
  function Magnitude(digits: Text, point: int): Text
    requires digits != []
  {
    if IsInteger(digits, point) then digits + Zeros(point - |digits|)
    else if 0 < point <= 21 then digits[..point] + [POINT] + digits[point..]
    else if -6 < point <= 0 then [ZERO, POINT] + Zeros(-point) + digits
    else Mantissa(digits) + [LETTER_E] + Exponent(point - 1)
  }

  function Spelled(n: JsNumber): Text {
    match n
    case Zero => [ZERO]
    case Nonzero(negative, digits, point) => (if negative then [MINUS] else []) + Magnitude(digits, point)
  }

  // ----- reading a spelling back -----

  /** Where `u` first stands, or the length. */
  ghost function Find(s: Text, u: CodeUnit): (i: nat)
    ensures i <= |s| && (i < |s| ==> s[i] == u) && forall k :: 0 <= k < i ==> s[k] != u
  {
    if s == [] || s[0] == u then 0 else 1 + Find(s[1..], u)
  }

  /** Before and after the first `u`. */
  lemma FindIs(a: Text, u: CodeUnit, b: Text)
    requires u !in a
    ensures Find(a + [u] + b, u) == |a|
    ensures (a + [u] + b)[..|a|] == a && (a + [u] + b)[|a| + 1..] == b
  {
    var s := a + [u] + b;
    assert s[|a|] == u && forall k :: 0 <= k < |a| ==> s[k] == a[k];
    var i := Find(s, u);
    assert i >= |a|;
  }

  lemma FindNone(s: Text, u: CodeUnit)
    requires u !in s
    ensures Find(s, u) == |s|
  {
  }

  ghost function WithoutPoint(s: Text): Text {
    var i := Find(s, POINT);
    if i < |s| then s[..i] + s[i + 1..] else s
  }

  ghost function DropZeros(s: Text): (r: Text)
    ensures |r| <= |s|
  {
    if s != [] && s[0] == ZERO then DropZeros(s[1..]) else s
  }

  ghost function TrimZeros(s: Text): Text {
    if s != [] && s[|s| - 1] == ZERO then TrimZeros(s[..|s| - 1]) else s
  }

  /** The natural number a run of decimal digits stands for. */
  ghost function Natural(s: Text): int {
    if s == [] then 0 else 10 * Natural(s[..|s| - 1]) + s[|s| - 1] - ZERO
  }

  /** What stands after the letter e: a signed number, or nothing for zero. */
  ghost function ReadExponent(s: Text): int {
    if s == [] then 0 else if s[0] == MINUS then -Natural(s[1..]) else Natural(s[1..])
  }

  /** What a decimal numeral means: its digits without zeros at either end, and how
      far before them the decimal point stands, the exponent counted in. */
  datatype Reading = Reading(digits: Text, point: int)

  ghost function Read(t: Text): Reading {
    var i := Find(t, LETTER_E);
    var all := WithoutPoint(t[..i]);
    var leading := |all| - |DropZeros(all)|;
    Reading(TrimZeros(DropZeros(all)),
            Find(t[..i], POINT) - leading + ReadExponent(if i < |t| then t[i + 1..] else []))
  }

  lemma {:induction false} DropsZeros(n: nat, s: Text)
    requires s != [] && s[0] != ZERO
    ensures DropZeros(Zeros(n) + s) == s
  {
    if n == 0 {
      assert Zeros(0) + s == s;
    } else {
      assert (Zeros(n) + s)[1..] == Zeros(n - 1) + s;
      DropsZeros(n - 1, s);
    }
  }

  lemma {:induction false} TrimsZeros(s: Text, n: nat)
    requires s != [] && s[|s| - 1] != ZERO
    ensures TrimZeros(s + Zeros(n)) == s
  {
    var t := s + Zeros(n);
    if n == 0 {
      assert t == s;
    } else {
      assert t[..|t| - 1] == s + Zeros(n - 1);
      TrimsZeros(s, n - 1);
    }
  }

  lemma DigitsAreDigits(s: Text, u: CodeUnit)
    requires AllDigits(s) && !IsDigit(u)
    ensures u !in s
  {
  }

  lemma SplitDigits(s: Text, i: nat)
    requires AllDigits(s) && i <= |s|
    ensures AllDigits(s[..i]) && AllDigits(s[i..]) && s[..i] + s[i..] == s
  {
  }

  lemma {:induction false} NaturalOfDigits(n: nat)
    ensures Natural(Digits(n)) == n
  {
    if n < 10 {
      assert [48 + n][..0] == [];
    } else {
      NaturalOfDigits(n / 10);
      assert Digits(n)[..|Digits(n)| - 1] == Digits(n / 10);
    }
  }

  lemma ExponentReads(e: int)
    ensures ReadExponent(Exponent(e)) == e
    ensures Exponent(e) != [] && Exponent(e)[0] == if e < 0 then MINUS else PLUS
  {
    var n := if e < 0 then -e else e;
    NaturalOfDigits(n);
    assert Exponent(e)[1..] == Digits(n);
  }

  // ----- every magnitude reads back -----

  /** The text means the digits and point: with an exponent, always signed, exactly
      outside 10^-6 and 10^21, then with one digit before the point; otherwise
      with a point exactly when digits are left behind it, never as its last
      unit, and a zero before it when none are ahead. */
  ghost predicate WellSpelled(t: Text, digits: Text, point: int)
    requires digits != []
  {
    var e := Find(t, LETTER_E);
    && Read(t) == Reading(digits, point)
    && (e < |t| <==> point <= -6 || point > 21)
    && (if e < |t| then
          && e < |t| - 1 && t[e + 1] == (if point <= 0 then MINUS else PLUS)
          && t[..e] == if |digits| == 1 then digits else digits[..1] + [POINT] + digits[1..]
        else
          && (Find(t, POINT) < |t| <==> point < |digits|)
          && (Find(t, POINT) < |t| ==> Find(t, POINT) == (if point > 0 then point else 1) < |t| - 1)
          && (point <= 0 ==> t != [] && t[0] == ZERO))
  }

  lemma Untouched(digits: Text)
    requires Shortest(digits)
    ensures DropZeros(digits) == digits && TrimZeros(digits) == digits
  {
  }

  lemma IntegerReads(digits: Text, point: int)
    requires Shortest(digits) && |digits| <= point <= 21
    ensures WellSpelled(Magnitude(digits, point), digits, point)
  {
    var t := digits + Zeros(point - |digits|);
    DigitsAreDigits(digits, POINT);
    DigitsAreDigits(digits, LETTER_E);
    FindNone(t, LETTER_E);
    FindNone(t, POINT);
    assert t[..|t|] == t && t[0] == digits[0];
    TrimsZeros(digits, point - |digits|);
  }

  lemma DecimalReads(digits: Text, point: int)
    requires Shortest(digits) && 0 < point < |digits| && point <= 21
    ensures WellSpelled(Magnitude(digits, point), digits, point)
  {
    var t := digits[..point] + [POINT] + digits[point..];
    SplitDigits(digits, point);
    DigitsAreDigits(digits, LETTER_E);
    DigitsAreDigits(digits[..point], POINT);
    FindIs(digits[..point], POINT, digits[point..]);
    FindNone(t, LETTER_E);
    assert t[..|t|] == t;
    Untouched(digits);
  }

  lemma FractionReads(digits: Text, point: int)
    requires Shortest(digits) && -6 < point <= 0
    ensures WellSpelled(Magnitude(digits, point), digits, point)
  {
    var t := [ZERO, POINT] + Zeros(-point) + digits;
    var rest := Zeros(-point) + digits;
    DigitsAreDigits(digits, LETTER_E);
    FindNone(t, LETTER_E);
    assert t == [ZERO] + [POINT] + rest;
    FindIs([ZERO], POINT, rest);
    assert t[..|t|] == t;
    assert [ZERO] + rest == Zeros(1 - point) + digits;
    DropsZeros(1 - point, digits);
    Untouched(digits);
  }

  lemma MantissaReads(digits: Text)
    requires Shortest(digits)
    ensures WithoutPoint(Mantissa(digits)) == digits && LETTER_E !in Mantissa(digits)
    ensures Find(Mantissa(digits), POINT) == 1 && (|Mantissa(digits)| > 1 ==> |Mantissa(digits)| > 2)
  {
    SplitDigits(digits, 1);
    DigitsAreDigits(digits, POINT);
    DigitsAreDigits(digits[..1], POINT);
    DigitsAreDigits(digits, LETTER_E);
    if |digits| == 1 {
      FindNone(digits, POINT);
    } else {
      FindIs(digits[..1], POINT, digits[1..]);
    }
  }

  lemma ExponentialReads(digits: Text, point: int)
    requires Shortest(digits) && !(-6 < point <= 21)
    ensures WellSpelled(Magnitude(digits, point), digits, point)
  {
    var m, e := Mantissa(digits), Exponent(point - 1);
    MantissaReads(digits);
    ExponentReads(point - 1);
    FindIs(m, LETTER_E, e);
    Untouched(digits);
  }

  /** Every magnitude is well spelled. */
  lemma MagnitudeReads(digits: Text, point: int)
    requires Shortest(digits)
    ensures WellSpelled(Magnitude(digits, point), digits, point)
  {
    if |digits| <= point <= 21 {
      IntegerReads(digits, point);
    } else if 0 < point <= 21 {
      DecimalReads(digits, point);
    } else if -6 < point <= 0 {
      FractionReads(digits, point);
    } else {
      ExponentialReads(digits, point);
    }
  }

  lemma MagnitudeIsInjective(a: Text, p: int, b: Text, q: int)
    requires Shortest(a) && Shortest(b) && Magnitude(a, p) == Magnitude(b, q)
    ensures a == b && p == q
  {
    MagnitudeReads(a, p);
    MagnitudeReads(b, q);
  }

  // ----- spelling -----

  ghost predicate IsNumberUnit(u: CodeUnit) {
    IsDigit(u) || u == MINUS || u == PLUS || u == POINT || u == LETTER_E
  }

  ghost predicate AllUnits(s: Text) {
    forall i :: 0 <= i < |s| ==> IsNumberUnit(s[i])
  }

  lemma UnitsConcat(a: Text, b: Text)
    requires AllUnits(a) && AllUnits(b)
    ensures AllUnits(a + b)
  {
  }

  lemma DigitsAreUnits(s: Text)
    requires AllDigits(s)
    ensures AllUnits(s)
  {
  }

  lemma ExponentialUnits(digits: Text, e: int)
    requires Shortest(digits)
    ensures AllUnits(Mantissa(digits) + [LETTER_E] + Exponent(e))
  {
    SplitDigits(digits, 1);
    DigitsAreUnits(digits[..1]);
    DigitsAreUnits(digits[1..]);
    UnitsConcat(digits[..1], [POINT]);
    UnitsConcat(digits[..1] + [POINT], digits[1..]);
    UnitsConcat([if e < 0 then MINUS else PLUS], Digits(if e < 0 then -e else e));
    UnitsConcat(Mantissa(digits), [LETTER_E]);
    UnitsConcat(Mantissa(digits) + [LETTER_E], Exponent(e));
  }

  lemma PlainUnits(digits: Text, point: int)
    requires Shortest(digits) && IsPlain(digits, point)
    ensures AllUnits(Magnitude(digits, point))
  {
    DigitsAreUnits(digits);
    if IsInteger(digits, point) {
      UnitsConcat(digits, Zeros(point - |digits|));
    } else if 0 < point {
      SplitDigits(digits, point);
      DigitsAreUnits(digits[..point]);
      DigitsAreUnits(digits[point..]);
      UnitsConcat(digits[..point], [POINT]);
      UnitsConcat(digits[..point] + [POINT], digits[point..]);
    } else {
      UnitsConcat([ZERO, POINT], Zeros(-point));
      UnitsConcat([ZERO, POINT] + Zeros(-point), digits);
    }
  }

  lemma MagnitudeStart(digits: Text, point: int)
    requires Shortest(digits)
    ensures Magnitude(digits, point) != [] && IsDigit(Magnitude(digits, point)[0])
    ensures Magnitude(digits, point) != [ZERO]
  {
  }

  lemma MagnitudeUnits(digits: Text, point: int)
    requires Shortest(digits)
    ensures AllUnits(Magnitude(digits, point))
  {
    if IsPlain(digits, point) {
      PlainUnits(digits, point);
    } else {
      ExponentialUnits(digits, point - 1);
    }
  }

  lemma SignedUnits(negative: bool, m: Text)
    requires m != [] && IsDigit(m[0]) && AllUnits(m) && m != [ZERO]
    ensures var t := (if negative then [MINUS] else []) + m;
            t != [] && AllUnits(t) && t != [ZERO] && (t[0] == MINUS <==> negative) && (negative || IsDigit(t[0]))
  {
    UnitsConcat(if negative then [MINUS] else [], m);
    assert [] + m == m;
  }

  lemma SpelledUnits(n: JsNumber)
    ensures Spelled(n) != [] && (IsDigit(Spelled(n)[0]) || Spelled(n)[0] == MINUS)
    ensures AllUnits(Spelled(n))
    ensures Spelled(n)[0] == MINUS <==> n.Nonzero? && n.negative
    ensures Spelled(n) == [ZERO] <==> n.Zero?
  {
    if n.Nonzero? {
      MagnitudeStart(n.digits, n.point);
      MagnitudeUnits(n.digits, n.point);
      SignedUnits(n.negative, Magnitude(n.digits, n.point));
    }
  }

  /** Every finite number has its own spelling. */
  lemma SpellingIsInjective(m: JsNumber, n: JsNumber)
    requires Spelled(m) == Spelled(n)
    ensures m == n
  {
    SpelledUnits(m);
    SpelledUnits(n);
    if m.Nonzero? {
      SplitEqual(if m.negative then [MINUS] else [], Magnitude(m.digits, m.point),
                 if n.negative then [MINUS] else [], Magnitude(n.digits, n.point));
      MagnitudeIsInjective(m.digits, m.point, n.digits, n.point);
    }
  }
}

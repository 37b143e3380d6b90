/** How a number is spelled is settled by the number alone. */
module NumberSpelling {
  import opened Decimals
  import opened ShortestDigits

  /** Digits before a point: a single zero, or none of them a leading one. */
  predicate WholePart(digits: Digits) {
    AreDigits(digits) && digits != [] && (digits == [0] || digits[0] != 0)
  }

  predicate FractionPart(digits: Digits) {
    AreDigits(digits) && (digits != [] ==> digits[|digits| - 1] != 0)
  }

  /**
   The shape of a numeral: in the fixed form no leading zero but a single
   one before the point, with an exponent one digit before it that is not
   zero, and in both no zero at the end of a fraction.
   */
  predicate Shaped(spelling: Spelling) {
    && FractionPart(spelling.fraction)
    && match spelling
       case Fixed(whole, _) => WholePart(whole)
       case Exponential(lead, _, _) => AreDigits(lead) && |lead| == 1 && lead[0] != 0
  }

  /** Fixed from one millionth up to ten to the twenty-first. */
  ghost predicate RightForm(spelling: Spelling) {
    spelling.Fixed? <==> Ten(-6) <= Says(spelling) < Ten(21)
  }

  // ----- digits that denote the same -----

  lemma {:induction false} SameNumber(a: Digits, b: Digits)
    requires AreDigits(a) && AreDigits(b) && |a| == |b| && NumberOf(a) == NumberOf(b)
    ensures a == b
  {
    if a != [] {
      var n := |a| - 1;
      assert a[n] < 10 && b[n] < 10;
      SameNumber(a[..n], b[..n]);
      assert a == a[..n] + [a[n]] && b == b[..n] + [b[n]];
    }
  }

  lemma SameTimes(a: nat, b: nat, unit: real)
    requires unit > 0.0 && Times(a, unit) == Times(b, unit)
    ensures a == b
  {
    if a < b {
      TimesGrows(a, b, unit);
    } else if b < a {
      TimesGrows(b, a, unit);
    }
  }

  lemma QuotientSame(a: nat, x: nat, b: nat, y: nat, p: nat)
    requires a * p + x == b * p + y && x < p && y < p
    ensures a == b && x == y
  {
    if a < b {
      Grows(a + 1, b, p);
      Spread(p, a, 1);
    } else if b < a {
      Grows(b + 1, a, p);
      Spread(p, b, 1);
    }
  }

  /** Digits split at the same place from the end have the same parts. */
  lemma PartsSame(a: Digits, x: Digits, b: Digits, y: Digits)
    requires AreDigits(x) && AreDigits(y) && |x| == |y| && NumberOf(a + x) == NumberOf(b + y)
    ensures NumberOf(a) == NumberOf(b) && x == y
  {
    NumberOfConcat(a, x);
    NumberOfConcat(b, y);
    NumberOfRest(x);
    NumberOfRest(y);
    QuotientSame(NumberOf(a), NumberOf(x), NumberOf(b), NumberOf(y), Pow(10, |x|));
    SameNumber(x, y);
  }

  lemma ZerosAtEnd(a: Digits, count: nat)
    ensures if count == 0 then a + Zeros(count) == a else (a + Zeros(count))[|a| + count - 1] == 0
  {
  }

  /** Digits at one exponent and more of them at the same: the longer ones end in what the shorter lack. */
  lemma SameDenoted(a: Digits, b: Digits, n: int)
    requires AreDigits(a) && AreDigits(b) && |a| <= |b| && Denotes(a, n) == Denotes(b, n)
    ensures a + Zeros(|b| - |a|) == b
  {
    var padded := a + Zeros(|b| - |a|);
    ZerosAfter(a, |b| - |a|, n);
    SameTimes(NumberOf(padded), NumberOf(b), Ten(n - |b|));
    SameNumber(padded, b);
  }

  /** A number with no leading zero tells how many digits it has. */
  lemma {:induction false} WholeSame(a: Digits, b: Digits)
    requires WholePart(a) && WholePart(b) && NumberOf(a) == NumberOf(b)
    ensures a == b
  {
    WholeBound(a);
    WholeBound(b);
    if |a| == |b| {
      SameNumber(a, b);
    } else if |a| < |b| {
      PowGrows(10, |a|, |b| - 1);
    } else {
      PowGrows(10, |b|, |a| - 1);
    }
  }

  lemma WholeBound(a: Digits)
    requires WholePart(a)
    ensures NumberOf(a) < Pow(10, |a|) && (|a| > 1 ==> Pow(10, |a| - 1) <= NumberOf(a))
  {
    NumberOfBound(a);
    if a[0] > 0 {
      Grows(1, a[0], Pow(10, |a| - 1));
    }
  }

  // ----- one spelling for a number -----

  /** The fixed form, the shorter fraction first. */
  lemma FixedSame(a: Spelling, b: Spelling)
    requires a.Fixed? && b.Fixed? && Shaped(a) && Shaped(b) && Says(a) == Says(b) && |a.fraction| <= |b.fraction|
    ensures a == b
  {
    var more := |b.fraction| - |a.fraction|;
    var padded := a.fraction + Zeros(more);
    ZerosAfter(a.whole + a.fraction, more, |a.whole|);
    assert a.whole + a.fraction + Zeros(more) == a.whole + padded;
    SameTimes(NumberOf(a.whole + padded), NumberOf(b.whole + b.fraction), Ten(-|b.fraction|));
    PartsSame(a.whole, padded, b.whole, b.fraction);
    ZerosAtEnd(a.fraction, more);
    WholeSame(a.whole, b.whole);
  }

  lemma ExponentialSays(a: Spelling)
    requires a.Exponential? && Shaped(a)
    ensures Significant(a.lead + a.fraction) && FractionPart(a.lead + a.fraction)
    ensures Says(a) == Denotes(a.lead + a.fraction, a.power + 1)
  {
    var all := a.lead + a.fraction;
    assert all[0] == a.lead[0] && all[|all| - 1] == if a.fraction == [] then a.lead[0] else a.fraction[|a.fraction| - 1];
  }

  lemma SameExponent(a: Digits, n: int, b: Digits, m: int)
    requires Significant(a) && Significant(b) && Denotes(a, n) == Denotes(b, m)
    ensures n == m
  {
    Magnitude(a, n);
    Magnitude(b, m);
    if n < m {
      TenGrows(n, m - 1);
    } else if m < n {
      TenGrows(m, n - 1);
    }
  }

  /** The form with an exponent, the shorter fraction first. */
  lemma ExponentialSame(a: Spelling, b: Spelling)
    requires a.Exponential? && b.Exponential? && Shaped(a) && Shaped(b) && Says(a) == Says(b) && |a.fraction| <= |b.fraction|
    ensures a == b
  {
    var x, y := a.lead + a.fraction, b.lead + b.fraction;
    ExponentialSays(a);
    ExponentialSays(b);
    SameExponent(x, a.power + 1, y, b.power + 1);
    SameDenoted(x, y, a.power + 1);
    ZerosAtEnd(x, |y| - |x|);
    assert a.lead == x[..1] && b.lead == y[..1] && a.fraction == x[1..] && b.fraction == y[1..];
  }

  /** Two numerals of the right shape and form that say the same number are the same numeral. */
  lemma SpellingIsUnique(a: Spelling, b: Spelling)
    requires Shaped(a) && Shaped(b) && RightForm(a) && RightForm(b) && Says(a) == Says(b)
    ensures a == b
  {
    if a.Fixed? {
      if |a.fraction| <= |b.fraction| {
        FixedSame(a, b);
      } else {
        FixedSame(b, a);
      }
    } else if |a.fraction| <= |b.fraction| {
      ExponentialSame(a, b);
    } else {
      ExponentialSame(b, a);
    }
  }

  /** What is laid out has the right shape. */
  lemma LayoutShaped(digits: Digits, n: int)
    requires Significant(digits)
    ensures Shaped(JsLayout(digits, n))
  {
    var d := WithoutTrailingZeros(digits);
    LeadStays(digits);
    if |d| <= n <= 21 {
    } else if 0 < n <= 21 {
      assert d[n..] != [] && d[n..][|d[n..]| - 1] == d[|d| - 1];
    } else if -6 < n <= 0 {
      var f := Zeros(-n) + d;
      assert f[|f| - 1] == d[|d| - 1];
      assert forall k | 0 <= k < |f| :: f[k] == if k < -n then 0 else d[k + n];
    } else {
      assert d[1..] != [] ==> d[1..][|d[1..]| - 1] == d[|d| - 1];
    }
  }

  /**
   The numeral laid out is the one numeral of that shape and form that says
   the number: whatever else is spelled so says another.
   */
  lemma LayoutIsTheSpelling(digits: Digits, n: int, spelling: Spelling)
    requires Significant(digits)
    ensures spelling == JsLayout(digits, n) <==>
            Shaped(spelling) && Says(spelling) == Denotes(digits, n)
            && (spelling.Fixed? <==> Ten(-6) <= Denotes(digits, n) < Ten(21))
  {
    LayoutSays(digits, n);
    LayoutShaped(digits, n);
    if Shaped(spelling) && Says(spelling) == Denotes(digits, n)
       && (spelling.Fixed? <==> Ten(-6) <= Denotes(digits, n) < Ten(21)) {
      SpellingIsUnique(spelling, JsLayout(digits, n));
    }
  }
}

/** Counting in decimal digits, as the render counts the elements of a list it streams. */
module Counting {
  import opened Rendering

  predicate IsDigit(c: char) {
    '0' <= c <= '9'
  }

  predicate IsDigits(digits: string) {
    digits != "" && forall k | 0 <= k < |digits| :: IsDigit(digits[k])
  }

  function DigitOf(c: char): nat
    requires IsDigit(c)
  {
    c as nat - '0' as nat
  }

  /** The number digits denote. */
  function NumberOf(digits: string): nat
    requires forall k | 0 <= k < |digits| :: IsDigit(digits[k])
  {
    if digits == "" then 0 else 10 * NumberOf(digits[..|digits| - 1]) + DigitOf(digits[|digits| - 1])
  }

  lemma DigitUpIsNext(c: char)
    requires IsDigit(c) && c != '9'
    ensures IsDigit(DigitUp(c)) && DigitOf(DigitUp(c)) == DigitOf(c) + 1
  {
  }

  lemma {:induction false} BarBeforeNine(digits: string)
    ensures BeforeLastBar(digits + "9") == BeforeLastBar(digits)
  {
    assert (digits + "9")[..|digits|] == digits;
  }

  /** A carry out of the last nine counts up the digits before it. */
  lemma CarryCountsUp(digits: string)
    requires digits != ""
    ensures Carry(digits + "9") == CountUp(digits) + "0"
  {
    BarBeforeNine(digits);
    var up := BeforeLastBar(digits);
    if digits[|digits| - 1] != '9' {
      assert up == |digits| - 1;
    } else if up == -1 {
      assert CountUp(digits) == Carry(digits);
    }
    assert |Carry(digits + "9")| == |CountUp(digits) + "0"|;
    assert forall k | 0 <= k < |CountUp(digits)| :: Carry(digits + "9")[k] == CountUp(digits)[k];
  }

  /** Counting up adds exactly one to digits of any length, through any run of nines. */
  lemma {:induction false} CountUpAddsOne(digits: string)
    requires IsDigits(digits)
    ensures IsDigits(CountUp(digits)) && NumberOf(CountUp(digits)) == NumberOf(digits) + 1
    decreases |digits|
  {
    var init, last := digits[..|digits| - 1], digits[|digits| - 1];
    var next := CountUp(digits);
    if last != '9' {
      DigitUpIsNext(last);
      assert next[..|next| - 1] == init;
    } else if init == "" {
      assert digits == "9" && next == "10";
      assert "10"[..1] == "1" && "1"[..0] == "";
      assert NumberOf("1") == 1;
    } else {
      assert digits == init + "9";
      CarryCountsUp(init);
      CountUpAddsOne(init);
      assert next[..|next| - 1] == CountUp(init);
    }
  }

  lemma DigitCharDenotes(d: nat)
    requires d < 10
    ensures IsDigit(DigitChar(d)) && DigitOf(DigitChar(d)) == d && (DigitChar(d) == '9' <==> d == 9)
  {
  }

  lemma NumberSnoc(init: string, d: nat)
    requires d < 10 && forall k | 0 <= k < |init| :: IsDigit(init[k])
    ensures IsDigits(init + [DigitChar(d)]) && NumberOf(init + [DigitChar(d)]) == 10 * NumberOf(init) + d
  {
    DigitCharDenotes(d);
    assert (init + [DigitChar(d)])[..|init|] == init;
  }

  /** Decimal digits denote the number they are of. */
  lemma {:induction false} DecimalDigits(n: nat)
    ensures IsDigits(Decimal(n)) && NumberOf(Decimal(n)) == n
  {
    if n < 10 {
      NumberSnoc("", n);
      assert "" + [DigitChar(n)] == Decimal(n);
    } else {
      DecimalDigits(n / 10);
      NumberSnoc(Decimal(n / 10), n % 10);
    }
  }

  /** Digits that do not end in a nine count up at their last. */
  lemma CountUpLast(init: string, d: nat)
    requires d < 9
    ensures CountUp(init + [DigitChar(d)]) == init + [DigitChar(d + 1)]
  {
    assert (init + [DigitChar(d)])[..|init|] == init;
  }

  /** Digits that end in a nine carry. */
  lemma CountUpNine(init: string)
    requires init != ""
    ensures CountUp(init + "9") == CountUp(init) + "0"
  {
    CarryCountsUp(init);
  }

  lemma DecimalTens(n: nat, tens: nat, d: nat)
    requires n == 10 * tens + d && 0 < tens && d < 10
    ensures Decimal(n) == Decimal(tens) + [DigitChar(d)] && Decimal(tens) != ""
  {
    assert n / 10 == tens && n % 10 == d;
  }

  lemma SmallCountsUp(d: nat)
    requires d < 10
    ensures CountUp(Decimal(d)) == Decimal(d + 1)
  {
    if d < 9 {
      CountUpLast("", d);
      assert "" + [DigitChar(d)] == Decimal(d) && "" + [DigitChar(d + 1)] == Decimal(d + 1);
    } else {
      assert Carry("9") == "10" && Decimal(1) == "1";
      DecimalTens(10, 1, 0);
    }
  }

  lemma TensCountUp(n: nat, next: nat, tens: nat, more: nat, d: nat)
    requires n == 10 * tens + d && 0 < tens && d < 10 && next == n + 1 && more == tens + 1
    requires CountUp(Decimal(tens)) == Decimal(more)
    ensures CountUp(Decimal(n)) == Decimal(next)
  {
    DecimalTens(n, tens, d);
    if d < 9 {
      DecimalTens(next, tens, d + 1);
      CountUpLast(Decimal(tens), d);
    } else {
      DecimalTens(next, more, 0);
      CountUpNine(Decimal(tens));
    }
  }

  /** The digits of the next number are the digits counted up. */
  lemma {:induction false} DecimalCountsUp(n: nat)
    ensures CountUp(Decimal(n)) == Decimal(n + 1)
  {
    if n < 10 {
      SmallCountsUp(n);
    } else {
      DecimalCountsUp(n / 10);
      TensCountUp(n, n + 1, n / 10, n / 10 + 1, n % 10);
    }
  }
}

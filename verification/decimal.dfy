/** Powers, and what decimal digits denote. */
module Decimals {

  function Pow(base: nat, e: nat): nat {
    if e == 0 then 1 else base * Pow(base, e - 1)
  }

  lemma Regroup(a: int, b: int, c: int)
    ensures a * (b * c) == a * b * c
  {
  }

  lemma Grows(a: int, b: int, c: int)
    requires a <= b && 0 <= c
    ensures a * c <= b * c
  {
  }

  lemma Spread(a: int, b: int, c: int)
    ensures a * (b + c) == a * b + a * c && (b + c) * a == b * a + c * a
  {
  }

  lemma {:induction false} PowAdd(base: nat, a: nat, b: nat)
    ensures Pow(base, a + b) == Pow(base, a) * Pow(base, b)
    decreases a
  {
    if a > 0 {
      PowAdd(base, a - 1, b);
      assert Pow(base, a + b) == base * (Pow(base, a - 1) * Pow(base, b));
      Regroup(base, Pow(base, a - 1), Pow(base, b));
    }
  }

  lemma {:induction false} PowGrows(base: nat, a: nat, b: nat)
    requires a <= b && base >= 1
    ensures 1 <= Pow(base, a) <= Pow(base, b)
    decreases b
  {
    if b > 0 {
      if a < b {
        PowGrows(base, a, b - 1);
      } else {
        PowGrows(base, a - 1, b - 1);
      }
      Grows(1, base, Pow(base, b - 1));
    }
  }

  // ----- digits, most significant first -----

  type Digits = seq<nat>

  predicate AreDigits(digits: Digits) {
    forall k | 0 <= k < |digits| :: digits[k] < 10
  }

  /** Digits with no leading zero. */
  predicate Significant(digits: Digits) {
    AreDigits(digits) && digits != [] && digits[0] != 0
  }

  function NumberOf(digits: Digits): nat {
    if digits == [] then 0 else 10 * NumberOf(digits[..|digits| - 1]) + digits[|digits| - 1]
  }

  lemma {:induction false} NumberOfConcat(a: Digits, b: Digits)
    ensures NumberOf(a + b) == NumberOf(a) * Pow(10, |b|) + NumberOf(b)
    decreases |b|
  {
    if b == [] {
      assert a + b == a;
    } else {
      var init, last := b[..|b| - 1], b[|b| - 1];
      assert (a + b)[..|a + b| - 1] == a + init;
      NumberOfConcat(a, init);
      TenfoldHead(NumberOf(a), Pow(10, |init|), NumberOf(init), last);
    }
  }

  lemma TenfoldHead(x: nat, y: nat, rest: nat, last: nat)
    ensures 10 * (x * y + rest) + last == x * (10 * y) + (10 * rest + last)
  {
    Regroup(10, x, y);
    Regroup(x, 10, y);
  }

  lemma {:induction false} NumberOfBound(digits: Digits)
    requires AreDigits(digits)
    ensures NumberOf(digits) < Pow(10, |digits|)
    ensures digits != [] ==> digits[0] * Pow(10, |digits| - 1) <= NumberOf(digits) < (digits[0] + 1) * Pow(10, |digits| - 1)
  {
    if digits != [] {
      var rest := digits[1..];
      assert digits == digits[..1] + rest && digits[..1] == [digits[0]] && digits[..1][..0] == [];
      NumberOfConcat(digits[..1], rest);
      NumberOfRest(rest);
      var d, p := digits[0], Pow(10, |rest|);
      assert NumberOf(digits) == d * p + NumberOf(rest) by {
        assert NumberOf([d]) == d;
      }
      Spread(p, d, 1);
      Grows(d + 1, 10, p);
    }
  }

  lemma {:induction false} NumberOfRest(digits: Digits)
    requires AreDigits(digits)
    ensures NumberOf(digits) < Pow(10, |digits|)
  {
    if digits != [] {
      NumberOfRest(digits[..|digits| - 1]);
    }
  }

  lemma {:induction false} ZerosDenoteZero(digits: Digits)
    requires AreDigits(digits)
    ensures NumberOf(digits) == 0 <==> forall k | 0 <= k < |digits| :: digits[k] == 0
  {
    if digits != [] {
      ZerosDenoteZero(digits[..|digits| - 1]);
    }
  }

  // ----- what digits denote -----

  /** Ten to any power. */
  function Ten(k: int): (r: real)
    ensures r > 0.0
    decreases if k < 0 then -k else k
  {
    if k == 0 then 1.0 else if k > 0 then 10.0 * Ten(k - 1) else Ten(k + 1) / 10.0
  }

  /** So many of a unit. */
  function Times(count: nat, unit: real): real {
    if count == 0 then 0.0 else Times(count - 1, unit) + unit
  }

  /** What digits denote, read as 0.digits times ten to the `n`. */
  function Denotes(digits: Digits, n: int): real {
    Times(NumberOf(digits), Ten(n - |digits|))
  }

  lemma {:induction false} TimesAdd(a: nat, b: nat, unit: real)
    ensures Times(a + b, unit) == Times(a, unit) + Times(b, unit)
    decreases b
  {
    if b > 0 {
      TimesAdd(a, b - 1, unit);
    }
  }

  lemma {:induction false} TimesTimes(a: nat, b: nat, unit: real)
    ensures Times(a * b, unit) == Times(a, Times(b, unit))
    decreases a
  {
    if a > 0 {
      TimesTimes(a - 1, b, unit);
      assert a * b == (a - 1) * b + b;
      TimesAdd((a - 1) * b, b, unit);
    }
  }

  lemma {:induction false} TimesGrows(a: nat, b: nat, unit: real)
    requires a <= b && unit > 0.0
    ensures 0.0 <= Times(a, unit) <= Times(b, unit) && (a < b ==> Times(a, unit) < Times(b, unit))
    decreases b
  {
    if b > 0 {
      TimesGrows(if a < b then a else a - 1, b - 1, unit);
    }
  }

  lemma {:induction false} TenAdd(a: int, b: nat)
    ensures Ten(a + b) == Times(Pow(10, b), Ten(a))
    decreases b
  {
    if b == 0 {
      assert Times(1, Ten(a)) == Times(0, Ten(a)) + Ten(a);
    } else {
      TenAdd(a, b - 1);
      TimesTimes(10, Pow(10, b - 1), Ten(a));
      TenTimes(Ten(a + b - 1));
    }
  }

  lemma TenTimes(unit: real)
    ensures Times(10, unit) == 10.0 * unit
  {
    assert Times(1, unit) == unit;
    assert Times(2, unit) == unit + unit;
    TimesAdd(2, 2, unit);
    TimesAdd(4, 4, unit);
    TimesAdd(8, 2, unit);
  }
}

/** The exact decimal value of a double, worked out in limbs of nine digits. */
module ExactDecimal {
  import opened Decimals

  newtype u64 = x: int | 0 <= x < 0x1_0000_0000_0000_0000

  const BASE: u64 := 1_000_000_000

  /** A number from its limbs, least significant first. */
  function Value(limbs: seq<u64>): nat {
    if limbs == [] then 0 else limbs[0] as nat + 1_000_000_000 * Value(limbs[1..])
  }

  predicate AreLimbs(limbs: seq<u64>) {
    forall k | 0 <= k < |limbs| :: limbs[k] < BASE
  }

  lemma {:induction false} ValueConcat(a: seq<u64>, b: seq<u64>)
    ensures Value(a + b) == Value(a) + Pow(1_000_000_000, |a|) * Value(b)
    decreases |a|
  {
    if a == [] {
      assert a + b == b;
    } else {
      assert (a + b)[1..] == a[1..] + b;
      ValueConcat(a[1..], b);
      Regroup(1_000_000_000, Pow(1_000_000_000, |a| - 1), Value(b));
    }
  }

  lemma ValueSnoc(limbs: seq<u64>, limb: u64)
    ensures Value(limbs + [limb]) == Value(limbs) + Pow(1_000_000_000, |limbs|) * limb as nat
  {
    ValueConcat(limbs, [limb]);
    assert Value([limb]) == limb as nat;
  }

  /** The carry of one limb's product is less than the factor, so that the next product fits too. */
  lemma CarryFits(limb: u64, factor: u64, carry: u64)
    requires limb < BASE && carry < factor <= 0x8000_0000
    ensures 0 <= limb as int * factor as int
    ensures limb as int * factor as int + carry as int < 0x1_0000_0000_0000_0000
    ensures (limb as int * factor as int + carry as int) / 1_000_000_000 < factor as int
  {
    var l, f, c := limb as int, factor as int, carry as int;
    Grows(0, l, f);
    Grows(l, 999_999_999, f);
    QuotientBelow(l * f + c, f);
  }

  /** A limb times the factor, and the carry. */
  function Product(limb: u64, factor: u64, carry: u64): (product: u64)
    requires limb < BASE && carry < factor <= 0x8000_0000
    ensures product as int == limb as int * factor as int + carry as int
  {
    CarryFits(limb, factor, carry);
    limb * factor + carry
  }

  lemma ProductFits(limb: u64, factor: u64, carry: u64, product: u64)
    requires limb < BASE && carry < factor <= 0x8000_0000
    requires product as int == limb as int * factor as int + carry as int
    ensures product / BASE < factor
  {
    CarryFits(limb, factor, carry);
  }

  lemma QuotientBelow(a: int, f: int)
    requires a < 1_000_000_000 * f
    ensures a / 1_000_000_000 < f
  {
  }

  lemma LimbStep(p: nat, limb: nat, factor: nat, carry: nat, product: nat, before: nat, done: nat)
    requires product == limb * factor + carry
    requires done + p * carry == before * factor
    ensures done + p * (product % 1_000_000_000) + 1_000_000_000 * p * (product / 1_000_000_000)
         == (before + p * limb) * factor
  {
    SplitCarry(p, product);
    Spread(p, limb * factor, carry);
    Regroup(p, limb, factor);
    Spread(factor, before, p * limb);
  }

  /** A big integer, multiplied in place. */
  class Big {
    var limbs: seq<u64>

    constructor (mantissa: u64)
      ensures AreLimbs(limbs) && Value(limbs) == mantissa as nat
      requires mantissa < 0x20_0000_0000_0000
    {
      limbs := [mantissa % BASE, mantissa / BASE % BASE, mantissa / BASE / BASE];
      new;
      var m := mantissa as nat;
      assert Value(limbs[2..]) == limbs[2] as nat;
      assert limbs[1..][1..] == limbs[2..];
      assert m == m % 1_000_000_000 + 1_000_000_000 * (m / 1_000_000_000 % 1_000_000_000
                                                       + 1_000_000_000 * (m / 1_000_000_000 / 1_000_000_000));
    }

    method Multiply(factor: u64)
      requires AreLimbs(limbs) && 0 < factor <= 0x8000_0000
      modifies this
      ensures AreLimbs(limbs) && Value(limbs) == old(Value(limbs)) * factor as nat
    {
      ghost var was := limbs;
      var carry: u64 := 0;
      assert Scaled(was, limbs, 0, factor, 0);
      for i := 0 to |limbs|
        invariant AreLimbs(limbs) && |limbs| == |was| && carry < factor
        invariant Scaled(was, limbs, i, factor, carry)
      {
        var product := Product(limbs[i], factor, carry);
        ProductFits(limbs[i], factor, carry, product);
        ScaledStep(was, limbs, i, factor, carry, product);
        limbs := limbs[i := product % BASE];
        carry := product / BASE;
      }
      ghost var whole := Value(was) * factor as nat;
      ScaledAll(was, limbs, factor, carry);
      while 0 < carry
        invariant AreLimbs(limbs) && Owes(limbs, carry, whole)
      {
        PushLimb(limbs, carry, whole);
        limbs := limbs + [carry % BASE];
        carry := carry / BASE;
      }
      NothingOwed(limbs, whole);
    }
  }

  /** The limbs below `i` multiplied, but for the carry; the others as they were. */
  ghost predicate Scaled(was: seq<u64>, now: seq<u64>, i: nat, factor: u64, carry: u64) {
    && i <= |was| == |now| && now[i..] == was[i..]
    && Value(now[..i]) + Pow(1_000_000_000, i) * carry as nat == Value(was[..i]) * factor as nat
  }

  lemma ScaledStep(was: seq<u64>, now: seq<u64>, i: nat, factor: u64, carry: u64, product: u64)
    requires i < |was| && Scaled(was, now, i, factor, carry)
    requires product as nat == now[i] as nat * factor as nat + carry as nat
    ensures Scaled(was, now[i := product % BASE], i + 1, factor, product / BASE)
  {
    var next := now[i := product % BASE];
    assert now[i] == now[i..][0] == was[i];
    assert next[i + 1..] == now[i..][1..] == was[i..][1..] == was[i + 1..];
    assert next[..i + 1] == now[..i] + [product % BASE];
    assert was[..i + 1] == was[..i] + [was[i]];
    ValueSnoc(now[..i], product % BASE);
    ValueSnoc(was[..i], was[i]);
    LimbStep(Pow(1_000_000_000, i), was[i] as nat, factor as nat, carry as nat, product as nat, Value(was[..i]), Value(now[..i]));
  }

  lemma ScaledAll(was: seq<u64>, now: seq<u64>, factor: u64, carry: u64)
    requires Scaled(was, now, |was|, factor, carry)
    ensures Owes(now, carry, Value(was) * factor as nat)
  {
    assert now[..|now|] == now && was[..|was|] == was;
  }

  /** The limbs and the carry above them make up the whole. */
  ghost predicate Owes(limbs: seq<u64>, carry: u64, whole: nat) {
    Value(limbs) + Pow(1_000_000_000, |limbs|) * carry as nat == whole
  }

  lemma NothingOwed(limbs: seq<u64>, whole: nat)
    requires Owes(limbs, 0, whole)
    ensures Value(limbs) == whole
  {
  }

  lemma PushLimb(limbs: seq<u64>, carry: u64, whole: nat)
    requires Owes(limbs, carry, whole)
    ensures Owes(limbs + [carry % BASE], carry / BASE, whole)
  {
    ValueSnoc(limbs, carry % BASE);
    SplitCarry(Pow(1_000_000_000, |limbs|), carry as nat);
  }

  lemma SplitCarry(p: nat, c: nat)
    ensures p * (c % 1_000_000_000) + 1_000_000_000 * p * (c / 1_000_000_000) == p * c
  {
    var q, r := c / 1_000_000_000, c % 1_000_000_000;
    assert c == 1_000_000_000 * q + r;
    Spread(p, 1_000_000_000 * q, r);
    Regroup(p, 1_000_000_000, q);
  }

  // ----- a double's digits -----

  lemma SmallPowers()
    ensures Pow(2, 30) == 1_073_741_824 && Pow(5, 13) == 1_220_703_125
  {
    assert Pow(2, 5) == 32;
    PowAdd(2, 5, 5);
    PowAdd(2, 10, 10);
    PowAdd(2, 20, 10);
    assert Pow(5, 4) == 625;
    PowAdd(5, 4, 4);
    PowAdd(5, 8, 4);
    PowAdd(5, 12, 1);
    assert Pow(5, 1) == 5;
  }

  /** The digits of a limb, padded to a width. */
  function Padded(limb: nat, width: nat): (r: Digits)
    ensures |r| == width && AreDigits(r)
  {
    if width == 0 then [] else Padded(limb / 10, width - 1) + [limb % 10]
  }

  lemma {:induction false} PaddedDenotes(limb: nat, width: nat)
    requires limb < Pow(10, width)
    ensures NumberOf(Padded(limb, width)) == limb
  {
    if width > 0 {
      assert limb / 10 < Pow(10, width - 1);
      PaddedDenotes(limb / 10, width - 1);
      assert Padded(limb, width)[..width - 1] == Padded(limb / 10, width - 1);
    }
  }

  /** Digits without their leading zeros. */
  function Trimmed(digits: Digits): (r: Digits) {
    if digits != [] && digits[0] == 0 then Trimmed(digits[1..]) else digits
  }

  lemma {:induction false} TrimmedDenotes(digits: Digits)
    requires AreDigits(digits)
    ensures AreDigits(Trimmed(digits)) && NumberOf(Trimmed(digits)) == NumberOf(digits)
    ensures NumberOf(digits) > 0 ==> Significant(Trimmed(digits))
  {
    if digits != [] && digits[0] == 0 {
      assert digits == [0] + digits[1..];
      NumberOfConcat([0], digits[1..]);
      assert NumberOf([0]) == 0;
      TrimmedDenotes(digits[1..]);
    }
  }

  /** The digits of a big integer, nine to a limb. */
  method Text(limbs: seq<u64>) returns (text: Digits)
    requires AreLimbs(limbs)
    ensures AreDigits(text) && NumberOf(text) == Value(limbs)
  {
    text := [];
    for i := |limbs| downto 0
      invariant AreDigits(text) && NumberOf(text) == Value(limbs[i..])
    {
      assert limbs[i..][1..] == limbs[i + 1..] && limbs[i..][0] == limbs[i];
      assert Pow(10, 9) == 1_000_000_000;
      PaddedDenotes(limbs[i] as nat, 9);
      NumberOfConcat(text, Padded(limbs[i] as nat, 9));
      text := text + Padded(limbs[i] as nat, 9);
    }
    assert limbs[0..] == limbs;
  }

  /** A positive finite double, by its biased exponent and its fraction bits. */
  predicate Positive(biased: nat, fraction: u64) {
    biased < 0x7ff && fraction < 0x10_0000_0000_0000 && (biased > 0 || fraction > 0)
  }

  function Mantissa(biased: nat, fraction: u64): u64
    requires Positive(biased, fraction)
  {
    if biased == 0 then fraction else fraction + 0x10_0000_0000_0000
  }

  function Exponent(biased: nat): int {
    if biased == 0 then -1074 else biased - 1075
  }

  /** What multiplying by a power of `base` in steps has still to do. */
  lemma StepTaken(value: nat, base: nat, now: nat, left: nat)
    requires now <= left
    ensures value * Pow(base, now) * Pow(base, left - now) == value * Pow(base, left)
  {
    PowAdd(base, now, left - now);
    Regroup(value, Pow(base, now), Pow(base, left - now));
  }

  /** Multiply by a power of `base`, in steps whose factors a limb's product leaves room for. */
  method MultiplyByPower(big: Big, base: nat, step: nat, power: nat)
    requires AreLimbs(big.limbs) && ((base == 2 && step == 30) || (base == 5 && step == 13))
    modifies big
    ensures AreLimbs(big.limbs) && Value(big.limbs) == old(Value(big.limbs)) * Pow(base, power)
  {
    var count := power;
    while 0 < count
      invariant 0 <= count && AreLimbs(big.limbs)
      invariant Value(big.limbs) * Pow(base, count) == old(Value(big.limbs)) * Pow(base, power)
    {
      var now := if count < step then count else step;
      SmallPowers();
      PowGrows(base, now, step);
      StepTaken(Value(big.limbs), base, now, count);
      big.Multiply(Pow(base, now) as u64);
      count := count - now;
    }
  }

  /** The mantissa times 2^e, or times 5^-e where e is negative: every digit of the double's value. */
  method ExactDecimal(biased: nat, fraction: u64) returns (digits: Digits, n: int)
    requires Positive(biased, fraction)
    ensures Significant(digits) && n == |digits| + (if Exponent(biased) < 0 then Exponent(biased) else 0)
    ensures NumberOf(digits) == Mantissa(biased, fraction) as nat * Scale(Exponent(biased))
    ensures biased == 0 ==> Denotes(digits, n) == fraction as real / 4503599627370496.0 * Two(-1022)
    ensures biased > 0 ==> Denotes(digits, n) == (1.0 + fraction as real / 4503599627370496.0) * Two(biased - 1023)
  {
    var mantissa, exponent := Mantissa(biased, fraction), Exponent(biased);
    var big := new Big(mantissa);
    if 0 <= exponent {
      MultiplyByPower(big, 2, 30, exponent);
    } else {
      MultiplyByPower(big, 5, 13, -exponent);
    }
    ScaleGrows(mantissa as nat, exponent);
    var text := Text(big.limbs);
    TrimmedDenotes(text);
    digits := Trimmed(text);
    n := |digits| + if exponent < 0 then exponent else 0;
    ScaleDenotes(mantissa as nat, exponent);
    MantissaDenotes(biased, fraction);
  }

  /** The mantissa times a power of two is the value section 3.4 of IEEE 754 gives the fields. */
  lemma MantissaDenotes(biased: nat, fraction: u64)
    requires Positive(biased, fraction)
    ensures var value := Times(Mantissa(biased, fraction) as nat, Two(Exponent(biased)));
            if biased == 0 then value == fraction as real / 4503599627370496.0 * Two(-1022)
            else value == (1.0 + fraction as real / 4503599627370496.0) * Two(biased - 1023)
  {
    var unit := Two(Exponent(biased));
    TwoTo52(Exponent(biased));
    TimesIsProduct(Mantissa(biased, fraction) as nat, unit);
    if biased == 0 {
      Cancels(fraction as real, unit);
    } else {
      Cancels(fraction as real + 4503599627370496.0, unit);
    }
  }

  lemma Cancels(m: real, unit: real)
    ensures m * unit == m / 4503599627370496.0 * (4503599627370496.0 * unit)
  {
  }

  lemma {:induction false} TimesIsProduct(count: nat, unit: real)
    ensures Times(count, unit) == count as real * unit
  {
    if count > 0 {
      TimesIsProduct(count - 1, unit);
      assert count as real * unit == (count - 1) as real * unit + unit;
    }
  }

  lemma TwoTo4(k: int)
    ensures Two(k + 4) == 16.0 * Two(k)
  {
    assert Two(k + 1) == 2.0 * Two(k);
    assert Two(k + 2) == 2.0 * Two(k + 1);
    assert Two(k + 3) == 2.0 * Two(k + 2);
    assert Two(k + 4) == 2.0 * Two(k + 3);
  }

  lemma TwoTo16(k: int)
    ensures Two(k + 16) == 65536.0 * Two(k)
  {
    TwoTo4(k);
    TwoTo4(k + 4);
    TwoTo4(k + 8);
    TwoTo4(k + 12);
  }

  lemma TwoTo52(k: int)
    ensures Two(k + 52) == 4503599627370496.0 * Two(k)
  {
    TwoTo16(k);
    TwoTo16(k + 16);
    TwoTo16(k + 32);
    TwoTo4(k + 48);
  }

  /** Two to any power. */
  function Two(k: int): real
    decreases if k < 0 then -k else k
  {
    if k == 0 then 1.0 else if k > 0 then 2.0 * Two(k - 1) else Two(k + 1) / 2.0
  }

  /** A count of powers of two is the count, scaled, of powers of ten where the exponent is negative and of ones where it is not. */
  lemma ScaleDenotes(mantissa: nat, exponent: int)
    ensures Times(mantissa * Scale(exponent), Ten(if exponent < 0 then exponent else 0)) == Times(mantissa, Two(exponent))
  {
    if exponent >= 0 {
      TwoDenotes(exponent);
    } else {
      HalvesDenote(-exponent);
    }
    TimesTimes(mantissa, Scale(exponent), Ten(if exponent < 0 then exponent else 0));
  }

  lemma {:induction false} TwoDenotes(e: nat)
    ensures Two(e) == Times(Pow(2, e), 1.0)
  {
    if e == 0 {
      assert Times(1, 1.0) == Times(0, 1.0) + 1.0;
    } else {
      TwoDenotes(e - 1);
      TimesAdd(Pow(2, e - 1), Pow(2, e - 1), 1.0);
    }
  }

  lemma {:induction false} TimesHalf(count: nat, unit: real)
    ensures Times(count, unit / 2.0) == Times(count, unit) / 2.0
  {
    if count > 0 {
      TimesHalf(count - 1, unit);
    }
  }

  /** Five to the a, in units of ten to the -a, is a half to the a. */
  lemma {:induction false} HalvesDenote(a: int)
    requires a >= 0
    ensures Two(-a) == Times(Pow(5, a), Ten(-a))
  {
    if a == 0 {
      assert Times(1, 1.0) == Times(0, 1.0) + 1.0;
    } else {
      HalvesDenote(a - 1);
      var p, unit := Pow(5, a - 1), Ten(-(a - 1));
      assert -(a - 1) == -a + 1 && Ten(-a) == unit / 10.0;
      assert Times(1, unit / 10.0) == unit / 10.0;
      assert Times(5, unit / 10.0) == unit / 2.0 by {
        TimesAdd(1, 1, unit / 10.0);
        TimesAdd(2, 2, unit / 10.0);
        TimesAdd(4, 1, unit / 10.0);
      }
      TimesTimes(p, 5, unit / 10.0);
      assert p * 5 == Pow(5, a);
      TimesHalf(p, unit);
    }
  }

  function Scale(exponent: int): nat {
    if exponent >= 0 then Pow(2, exponent) else Pow(5, -exponent)
  }

  lemma ScaleGrows(mantissa: nat, exponent: int)
    requires mantissa > 0
    ensures mantissa * Scale(exponent) > 0
  {
    PowGrows(2, 0, if exponent >= 0 then exponent else 0);
    PowGrows(5, 0, if exponent < 0 then -exponent else 0);
    Grows(1, mantissa, Scale(exponent));
  }
}

/** The fewest digits that read back as a number, nearest to it, ties to an even digit. */
module ShortestDigits {
  import opened Decimals

  /** Rounding to the nearest double is monotone: what reads back as a number is an interval around it. */
  ghost predicate Interval(readsBack: real -> bool) {
    forall a: real, b: real, c: real {:trigger readsBack(a), readsBack(b), readsBack(c)}
      | a <= b <= c && readsBack(a) && readsBack(c) :: readsBack(b)
  }

  predicate AllZero(digits: Digits) {
    forall k | 0 <= k < |digits| :: digits[k] == 0
  }

  /** How many digits are up to the last that is not a nine; none, where all are nines. */
  method BeforeNines(digits: Digits) returns (at: nat)
    ensures at <= |digits|
    ensures forall k | at <= k < |digits| :: digits[k] == 9
    ensures at > 0 ==> digits[at - 1] != 9
  {
    at := |digits|;
    while at > 0 && digits[at - 1] == 9
      invariant at <= |digits| && forall k | at <= k < |digits| :: digits[k] == 9
    {
      at := at - 1;
    }
  }

  function Zeros(count: nat): (r: Digits)
    ensures |r| == count && AllZero(r) && AreDigits(r)
  {
    seq(count, _ => 0)
  }

  lemma {:induction false} NinesDenote(digits: Digits)
    requires forall k | 0 <= k < |digits| :: digits[k] == 9
    ensures NumberOf(digits) + 1 == Pow(10, |digits|)
  {
    if digits != [] {
      NinesDenote(digits[..|digits| - 1]);
    }
  }

  lemma ZerosDenote(count: nat)
    ensures NumberOf(Zeros(count)) == 0
  {
    ZerosDenoteZero(Zeros(count));
  }

  lemma DigitThen(d: nat, rest: Digits)
    ensures NumberOf([d] + rest) == d * Pow(10, |rest|) + NumberOf(rest)
  {
    NumberOfConcat([d], rest);
    assert NumberOf([d]) == d;
  }

  /** Counting up at a digit, the nines after it turned to zeros, adds one. */
  lemma CarriedAddsOne(head: Digits, d: nat, nines: Digits)
    requires forall k | 0 <= k < |nines| :: nines[k] == 9
    ensures NumberOf(head + [d + 1] + Zeros(|nines|)) == NumberOf(head + ([d] + nines)) + 1
  {
    var zeros := Zeros(|nines|);
    assert head + [d + 1] + zeros == head + ([d + 1] + zeros);
    NinesDenote(nines);
    ZerosDenote(|nines|);
    TailCounts(d, nines, zeros);
    SameHead(head, [d] + nines, [d + 1] + zeros);
  }

  lemma SplitAround<T>(s: seq<T>, at: nat)
    requires 0 < at <= |s|
    ensures s == s[..at - 1] + ([s[at - 1]] + s[at..])
  {
    assert s == s[..at] + s[at..];
  }

  lemma SameHead(head: Digits, a: Digits, b: Digits)
    requires |a| == |b| && NumberOf(b) == NumberOf(a) + 1
    ensures NumberOf(head + b) == NumberOf(head + a) + 1
  {
    NumberOfConcat(head, a);
    NumberOfConcat(head, b);
  }

  lemma CarriedSignificant(digits: Digits, at: nat)
    requires Significant(digits) && 0 < at <= |digits| && digits[at - 1] != 9
    ensures Significant(digits[..at - 1] + [digits[at - 1] + 1] + Zeros(|digits| - at))
  {
  }

  lemma TailCounts(d: nat, nines: Digits, zeros: Digits)
    requires |nines| == |zeros| && NumberOf(nines) + 1 == Pow(10, |nines|) && NumberOf(zeros) == 0
    ensures NumberOf([d + 1] + zeros) == NumberOf([d] + nines) + 1
  {
    DigitThen(d, nines);
    DigitThen(d + 1, zeros);
    Spread(Pow(10, |nines|), d, 1);
  }

  lemma CarriedIsNext(low: Digits, n: int, at: nat)
    requires Significant(low) && 0 < at <= |low| && low[at - 1] != 9 && forall k | at <= k < |low| :: low[k] == 9
    ensures IsNextUp(low, n, low[..at - 1] + [low[at - 1] + 1] + Zeros(|low| - at), n)
  {
    var high := low[..at - 1] + [low[at - 1] + 1] + Zeros(|low| - at);
    SplitAround(low, at);
    CarriedAddsOne(low[..at - 1], low[at - 1], low[at..]);
    CarriedSignificant(low, at);
    NumberOfRest(high);
  }

  lemma NinesAreNext(low: Digits, n: int)
    requires Significant(low) && low != [] && forall k | 0 <= k < |low| :: low[k] == 9
    ensures IsNextUp(low, n, [1] + Zeros(|low| - 1), n + 1)
  {
    NinesDenote(low);
    DigitThen(1, Zeros(|low| - 1));
    ZerosDenote(|low| - 1);
  }

  /** Digits one more in the last place, which a carry out of nines would lengthen: so the exponent goes up instead. */
  method NextUp(low: Digits, n: int) returns (high: Digits, highN: int)
    requires Significant(low)
    ensures IsNextUp(low, n, high, highN)
  {
    var at := BeforeNines(low);
    if at > 0 {
      high, highN := low[..at - 1] + [low[at - 1] + 1] + Zeros(|low| - at), n;
      CarriedIsNext(low, n, at);
    } else {
      high, highN := [1] + Zeros(|low| - 1), n + 1;
      NinesAreNext(low, n);
    }
  }

  // ----- where the candidates are -----

  /** The exact value, in units of the k-th place: the first k digits, and what the rest add. */
  lemma ExactSplits(exact: Digits, n: int, k: nat)
    requires Significant(exact) && k <= |exact|
    ensures Ten(n - k) == Times(Pow(10, |exact| - k), Ten(n - |exact|))
    ensures Denotes(exact, n) == Times(NumberOf(exact[..k]), Ten(n - k)) + Times(NumberOf(exact[k..]), Ten(n - |exact|))
    ensures NumberOf(exact[k..]) < Pow(10, |exact| - k)
  {
    var lo, p, rest, last := NumberOf(exact[..k]), Pow(10, |exact| - k), NumberOf(exact[k..]), Ten(n - |exact|);
    TenAdd(n - |exact|, |exact| - k);
    NumberSplits(exact, k);
    TimesAdd(lo * p, rest, last);
    TimesTimes(lo, p, last);
  }

  lemma NumberSplits(exact: Digits, k: nat)
    requires AreDigits(exact) && k <= |exact|
    ensures NumberOf(exact) == NumberOf(exact[..k]) * Pow(10, |exact| - k) + NumberOf(exact[k..])
    ensures NumberOf(exact[k..]) < Pow(10, |exact| - k)
  {
    assert exact == exact[..k] + exact[k..];
    NumberOfConcat(exact[..k], exact[k..]);
    NumberOfRest(exact[k..]);
  }

  /** What `NextUp` gives. */
  ghost predicate IsNextUp(low: Digits, n: int, high: Digits, highN: int) {
    && Significant(high) && |high| == |low| && low != []
    && (NumberOf(low) + 1 < Pow(10, |low|) ==> highN == n && NumberOf(high) == NumberOf(low) + 1)
    && (NumberOf(low) + 1 == Pow(10, |low|) ==> highN == n + 1 && NumberOf(high) == Pow(10, |low| - 1))
  }

  /** The next candidate up denotes one unit more, whether its digits carried or not. */
  lemma NextDenotes(low: Digits, n: int, high: Digits, highN: int)
    requires Significant(low) && IsNextUp(low, n, high, highN)
    ensures Denotes(high, highN) == Times(NumberOf(low) + 1, Ten(n - |low|))
  {
    NumberOfRest(low);
    if NumberOf(low) + 1 == Pow(10, |low|) {
      var p, unit := Pow(10, |low| - 1), Ten(n - |low|);
      TenTimes(unit);
      TimesTimes(p, 10, unit);
      assert p * 10 == Pow(10, |low|);
    }
  }

  /** Any number of as many digits, at a higher exponent, is at least one unit up. */
  lemma MorePlaces(low: Digits, n: int, e: Digits, j: int)
    requires Significant(low) && Significant(e) && |e| == |low| && n < j
    ensures Times(NumberOf(low) + 1, Ten(n - |low|)) <= Denotes(e, j)
  {
    var k := |low|;
    TenAdd(n - k, j - n);
    TimesTimes(NumberOf(e), Pow(10, j - n), Ten(n - k));
    AtLeast(low, e, j - n);
    TimesGrows(NumberOf(low) + 1, NumberOf(e) * Pow(10, j - n), Ten(n - k));
  }

  lemma AtLeast(low: Digits, e: Digits, up: nat)
    requires Significant(low) && Significant(e) && |e| == |low| && up > 0
    ensures NumberOf(low) + 1 <= NumberOf(e) * Pow(10, up)
  {
    var p, v, u := Pow(10, |low| - 1), NumberOf(e), Pow(10, up);
    NumberOfRest(low);
    NumberOfBound(e);
    PowGrows(10, 0, |low| - 1);
    Grows(1, e[0], p);
    PowGrows(10, 1, up);
    assert Pow(10, 1) == 10;
    Grows(10, u, v);
    assert v * u == u * v;
  }

  /** No number of k significant digits lies strictly between two neighbours of the k-th place. */
  lemma NothingBetween(low: Digits, n: int, e: Digits, j: int)
    requires Significant(low) && Significant(e) && |e| == |low|
    ensures Denotes(e, j) <= Denotes(low, n) || Times(NumberOf(low) + 1, Ten(n - |low|)) <= Denotes(e, j)
  {
    var lo, v, unit := NumberOf(low), NumberOf(e), Ten(n - |low|);
    if j < n {
      MorePlaces(e, j, low, n);
      TimesGrows(v, v + 1, Ten(j - |e|));
    } else if j > n {
      MorePlaces(low, n, e, j);
    } else if v <= lo {
      TimesGrows(v, lo, unit);
    } else {
      TimesGrows(lo + 1, v, unit);
    }
  }

  // ----- the main result -----

  function Distance(a: real, b: real): real {
    if a <= b then b - a else a - b
  }

  function Twice(half: nat): nat {
    2 * half
  }

  /** An even count of the unit. */
  ghost predicate Even(value: real, unit: real) {
    exists half: nat :: value == Times(Twice(half), unit)
  }

  /** The chosen value is nearer, or the same, or as near and even. */
  ghost predicate Preferred(chosen: real, other: real, exact: real, unit: real) {
    || Distance(chosen, exact) < Distance(other, exact)
    || chosen == other
    || (Distance(chosen, exact) == Distance(other, exact) && Even(chosen, unit))
  }

  /** No digits fewer than k read back. */
  ghost predicate NoneShorter(k: nat, readsBack: real -> bool) {
    forall e: Digits, j: int {:trigger Denotes(e, j)} | Significant(e) && |e| < k :: !readsBack(Denotes(e, j))
  }

  /** Of the digits as many as those chosen that read back, the chosen ones are preferred. */
  ghost predicate Best(chosen: real, k: nat, exact: real, unit: real, readsBack: real -> bool) {
    forall e: Digits, j: int {:trigger Denotes(e, j)} | Significant(e) && |e| == k && readsBack(Denotes(e, j)) ::
      Preferred(chosen, Denotes(e, j), exact, unit)
  }

  /** Where the exact value lies between its first k digits and the next up, by the digits that are left. */
  lemma BetweenNeighbours(exact: Digits, n: int, k: nat)
    requires Significant(exact) && 0 < k <= |exact|
    ensures var low, high, x := Times(NumberOf(exact[..k]), Ten(n - k)), Times(NumberOf(exact[..k]) + 1, Ten(n - k)), Denotes(exact, n);
            && low <= x < high
            && (AllZero(exact[k..]) ==> x == low)
            && (k < |exact| && exact[k] < 5 ==> x - low < high - x)
            && (k < |exact| && exact[k] > 5 ==> high - x < x - low)
            && (k < |exact| && exact[k] == 5 ==> if AllZero(exact[k + 1..]) then x - low == high - x else high - x < x - low)
  {
    var lo, rest, last, p := NumberOf(exact[..k]), NumberOf(exact[k..]), Ten(n - |exact|), Pow(10, |exact| - k);
    ExactSplits(exact, n, k);
    ZerosDenoteZero(exact[k..]);
    assert Times(lo + 1, Ten(n - k)) == Times(lo, Ten(n - k)) + Ten(n - k);
    TimesGrows(0, rest, last);
    TimesGrows(rest, p, last);
    TimesAdd(rest, p - rest, last);
    if k < |exact| {
      HalfWay(exact[k..]);
      assert exact[k..][1..] == exact[k + 1..];
      if 2 * rest < p {
        TimesGrows(rest, p - rest, last);
      } else if 2 * rest > p {
        TimesGrows(p - rest, rest, last);
      }
    }
  }

  /** The first digit tells on which side of a half its digits are, and those after it whether they are just there. */
  lemma HalfWay(rest: Digits)
    requires AreDigits(rest) && rest != []
    ensures rest[0] < 5 ==> 2 * NumberOf(rest) < Pow(10, |rest|)
    ensures rest[0] > 5 ==> 2 * NumberOf(rest) > Pow(10, |rest|)
    ensures rest[0] == 5 ==>
              if AllZero(rest[1..]) then 2 * NumberOf(rest) == Pow(10, |rest|) else 2 * NumberOf(rest) > Pow(10, |rest|)
  {
    var d, tail := rest[0], rest[1..];
    assert rest == [d] + tail;
    DigitThen(d, tail);
    NumberOfRest(tail);
    ZerosDenoteZero(tail);
    var p := Pow(10, |tail|);
    assert Pow(10, |rest|) == 10 * p;
    if d < 5 {
      Grows(d, 4, p);
    } else {
      Grows(if d == 5 then 5 else 6, d, p);
    }
  }

  /** Anything of k digits that reads back lies beyond a neighbour that does. */
  lemma BeyondNeighbours(exact: Digits, n: int, k: nat, readsBack: real -> bool, e: Digits, j: int)
    requires Significant(exact) && 0 < k <= |exact| && Interval(readsBack) && readsBack(Denotes(exact, n))
    requires Significant(e) && |e| == k && readsBack(Denotes(e, j))
    ensures var low, high := Times(NumberOf(exact[..k]), Ten(n - k)), Times(NumberOf(exact[..k]) + 1, Ten(n - k));
            (Denotes(e, j) <= low && readsBack(low)) || (high <= Denotes(e, j) && readsBack(high))
  {
    BetweenNeighbours(exact, n, k);
    NothingBetween(exact[..k], n, e, j);
    var low, high := Times(NumberOf(exact[..k]), Ten(n - k)), Times(NumberOf(exact[..k]) + 1, Ten(n - k));
    assert low <= Denotes(exact, n) <= high;
  }

  lemma ParityOf(digits: Digits)
    requires digits != []
    ensures NumberOf(digits) % 2 == digits[|digits| - 1] % 2
  {
  }

  lemma EvenTimes(count: nat, unit: real)
    requires count % 2 == 0
    ensures Even(Times(count, unit), unit)
  {
    assert count == Twice(count / 2);
  }

  /** The digit after the first k, and evenness where it leaves a tie, settle which neighbour is taken. */
  lemma Decided(exact: Digits, n: int, k: nat, takeHigh: bool)
    requires Significant(exact) && 0 < k < |exact|
    requires takeHigh == (exact[k] > 5 || (exact[k] == 5 && (!AllZero(exact[k + 1..]) || exact[k - 1] % 2 == 1)))
    ensures var low, high, x := Times(NumberOf(exact[..k]), Ten(n - k)), Times(NumberOf(exact[..k]) + 1, Ten(n - k)), Denotes(exact, n);
            Nearer(low, high, x, Ten(n - k), takeHigh)
  {
    BetweenNeighbours(exact, n, k);
    if takeHigh == (exact[k - 1] % 2 == 1) {
      EvenNeighbour(exact[..k], Ten(n - k), takeHigh);
    }
  }

  /** Of a number and the next, the one its last digit points to is even. */
  lemma EvenNeighbour(digits: Digits, unit: real, takeHigh: bool)
    requires digits != [] && takeHigh == (digits[|digits| - 1] % 2 == 1)
    ensures Even(Times(if takeHigh then NumberOf(digits) + 1 else NumberOf(digits), unit), unit)
  {
    ParityOf(digits);
    EvenTimes(if takeHigh then NumberOf(digits) + 1 else NumberOf(digits), unit);
  }

  /** The neighbour taken is the nearer one, or as near as the other and even. */
  ghost predicate Nearer(low: real, high: real, x: real, unit: real, takeHigh: bool) {
    if takeHigh then high - x < x - low || (high - x == x - low && Even(high, unit))
    else x - low < high - x || (x - low == high - x && Even(low, unit))
  }

  /** The neighbour taken is preferred to whatever lies beyond a neighbour that reads back. */
  lemma NearerPreferred(low: real, high: real, other: real, x: real, unit: real, lowBack: bool, highBack: bool, takeHigh: bool)
    requires low <= x <= high && ((other <= low && lowBack) || (high <= other && highBack))
    requires (lowBack && !highBack ==> !takeHigh) && (!lowBack && highBack ==> takeHigh)
    requires lowBack && highBack ==> Nearer(low, high, x, unit, takeHigh)
    ensures Preferred(if takeHigh then high else low, other, x, unit)
  {
  }

  /** What settles between the two neighbours, and that it is preferred to everything of as many digits. */
  lemma Chosen(exact: Digits, n: int, k: nat, readsBack: real -> bool, takeHigh: bool)
    requires Significant(exact) && 0 < k < |exact| && Interval(readsBack) && readsBack(Denotes(exact, n))
    requires var low, high := Times(NumberOf(exact[..k]), Ten(n - k)), Times(NumberOf(exact[..k]) + 1, Ten(n - k));
             && (readsBack(low) || readsBack(high))
             && (readsBack(low) && !readsBack(high) ==> !takeHigh)
             && (!readsBack(low) && readsBack(high) ==> takeHigh)
             && (readsBack(low) && readsBack(high) ==>
                   takeHigh == (exact[k] > 5 || (exact[k] == 5 && (!AllZero(exact[k + 1..]) || exact[k - 1] % 2 == 1))))
    ensures Best(Times(if takeHigh then NumberOf(exact[..k]) + 1 else NumberOf(exact[..k]), Ten(n - k)), k,
                 Denotes(exact, n), Ten(n - k), readsBack)
  {
    var unit, x := Ten(n - k), Denotes(exact, n);
    var low, high := Times(NumberOf(exact[..k]), unit), Times(NumberOf(exact[..k]) + 1, unit);
    assert low <= x <= high by {
      BetweenNeighbours(exact, n, k);
    }
    assert readsBack(low) && readsBack(high) ==> Nearer(low, high, x, unit, takeHigh) by {
      if readsBack(low) && readsBack(high) {
        Decided(exact, n, k, takeHigh);
      }
    }
    forall e: Digits, j: int {:trigger Denotes(e, j)} | Significant(e) && |e| == k && readsBack(Denotes(e, j))
      ensures Preferred(if takeHigh then high else low, Denotes(e, j), x, unit)
    {
      BeyondNeighbours(exact, n, k, readsBack, e, j);
      NearerPreferred(low, high, Denotes(e, j), x, unit, readsBack(low), readsBack(high), takeHigh);
    }
  }

  /**
   The digits of a number from its exact ones: none fewer read back, and of
   as many that do they denote the nearest, an even one where two are as near.
   */
  method JsNumber(exact: Digits, n: int, readsBack: real -> bool) returns (digits: Digits, point: int)
    requires Significant(exact) && Interval(readsBack) && readsBack(Denotes(exact, n))
    ensures Significant(digits) && |digits| <= |exact| && readsBack(Denotes(digits, point))
    ensures NoneShorter(|digits|, readsBack)
    ensures Best(Denotes(digits, point), |digits|, Denotes(exact, n), Ten(n - |digits|), readsBack)
  {
    var k := 1;
    while true
      invariant 0 < k <= |exact| && NoneShorter(k, readsBack)
      decreases |exact| - k
    {
      var low, rest := exact[..k], exact[k..];
      BetweenNeighbours(exact, n, k);
      if AllZero(rest) {
        return low, n;
      }
      var high, highN := NextUp(low, n);
      NextDenotes(low, n, high, highN);
      var lowBack, highBack := readsBack(Denotes(low, n)), readsBack(Denotes(high, highN));
      if !lowBack && !highBack {
        NotThisLong(exact, n, k, readsBack);
        k := k + 1;
      } else {
        var takeHigh := highBack && (!lowBack || rest[0] > 5
                                     || (rest[0] == 5 && (!AllZero(rest[1..]) || low[k - 1] % 2 == 1)));
        assert rest[1..] == exact[k + 1..];
        Chosen(exact, n, k, readsBack, takeHigh);
        if takeHigh {
          return high, highN;
        } else {
          return low, n;
        }
      }
    }
  }

  lemma NotThisLong(exact: Digits, n: int, k: nat, readsBack: real -> bool)
    requires Significant(exact) && 0 < k <= |exact| && Interval(readsBack) && readsBack(Denotes(exact, n))
    requires NoneShorter(k, readsBack)
    requires !readsBack(Times(NumberOf(exact[..k]), Ten(n - k))) && !readsBack(Times(NumberOf(exact[..k]) + 1, Ten(n - k)))
    ensures NoneShorter(k + 1, readsBack)
  {
    forall e: Digits, j: int {:trigger Denotes(e, j)} | Significant(e) && |e| < k + 1
      ensures !readsBack(Denotes(e, j))
    {
      if |e| == k && readsBack(Denotes(e, j)) {
        BeyondNeighbours(exact, n, k, readsBack, e, j);
      }
    }
  }

  // ----- laying the digits out -----

  /** A number as it is spelled: fixed, or with an exponent. */
  datatype Spelling = Fixed(whole: Digits, fraction: Digits) | Exponential(lead: Digits, fraction: Digits, power: int)

  /** What a spelling says, read as a decimal numeral. */
  function Says(spelling: Spelling): real {
    match spelling
    case Fixed(whole, fraction) => Times(NumberOf(whole + fraction), Ten(-|fraction|))
    case Exponential(lead, fraction, power) => Times(NumberOf(lead + fraction), Ten(power - |fraction|))
  }

  function WithoutTrailingZeros(digits: Digits): (r: Digits)
    ensures r <= digits && (r != [] ==> r[|r| - 1] != 0)
  {
    if digits != [] && digits[|digits| - 1] == 0 then WithoutTrailingZeros(digits[..|digits| - 1]) else digits
  }

  function JsLayout(all: Digits, n: int): (r: Spelling)
    requires Significant(all)
  {
    var digits := WithoutTrailingZeros(all);
    LeadStays(all);
    var k := |digits|;
    if k <= n && n <= 21 then Fixed(digits + Zeros(n - k), [])
    else if 0 < n && n <= 21 then Fixed(digits[..n], digits[n..])
    else if -6 < n && n <= 0 then Fixed([0], Zeros(-n) + digits)
    else Exponential(digits[..1], digits[1..], n - 1)
  }

  lemma {:induction false} LeadStays(digits: Digits)
    requires Significant(digits)
    ensures Significant(WithoutTrailingZeros(digits))
  {
    if digits[|digits| - 1] == 0 {
      LeadStays(digits[..|digits| - 1]);
    }
  }

  /** Zeros after the digits, at the same exponent, say nothing more. */
  lemma ZerosAfter(digits: Digits, count: nat, n: int)
    ensures Denotes(digits + Zeros(count), n) == Denotes(digits, n)
  {
    NumberOfConcat(digits, Zeros(count));
    ZerosDenote(count);
    TenAdd(n - |digits| - count, count);
    TimesTimes(NumberOf(digits), Pow(10, count), Ten(n - |digits| - count));
  }

  lemma {:induction false} TrimmedSays(digits: Digits, n: int)
    requires Significant(digits)
    ensures Denotes(WithoutTrailingZeros(digits), n) == Denotes(digits, n)
  {
    var last := |digits| - 1;
    if digits[last] == 0 {
      TrimmedSays(digits[..last], n);
      assert digits == digits[..last] + Zeros(1);
      ZerosAfter(digits[..last], 1, n);
    }
  }

  /** Digits at exponent n lie from ten to the n less one up to ten to the n. */
  lemma Magnitude(digits: Digits, n: int)
    requires Significant(digits)
    ensures Ten(n - 1) <= Denotes(digits, n) < Ten(n)
  {
    var k, unit := |digits|, Ten(n - |digits|);
    NumberOfBound(digits);
    Grows(1, digits[0], Pow(10, k - 1));
    TenAdd(n - k, k - 1);
    TenAdd(n - k, k);
    TimesGrows(Pow(10, k - 1), NumberOf(digits), unit);
    TimesGrows(NumberOf(digits), Pow(10, k), unit);
  }

  lemma {:induction false} TenGrows(a: int, b: int)
    requires a <= b
    ensures Ten(a) <= Ten(b) && (a < b ==> Ten(a) < Ten(b))
    decreases b - a
  {
    if a < b {
      TenGrows(a, b - 1);
      TenAdd(b - 1, 1);
      TenTimes(Ten(b - 1));
    }
  }

  lemma FixedForm(digits: Digits, n: int)
    requires Significant(digits)
    ensures -6 < n <= 21 <==> Ten(-6) <= Denotes(digits, n) < Ten(21)
  {
    Magnitude(digits, n);
    if n <= -6 {
      TenGrows(n, -6);
    } else {
      TenGrows(-6, n - 1);
    }
    if n <= 21 {
      TenGrows(n, 21);
    } else {
      TenGrows(21, n - 1);
    }
  }

  lemma PointWithin(d: Digits, n: int)
    requires 0 <= n <= |d|
    ensures Says(Fixed(d[..n], d[n..])) == Denotes(d, n)
  {
    assert d[..n] + d[n..] == d;
  }

  lemma PointAfter(d: Digits, n: int)
    requires |d| <= n
    ensures Says(Fixed(d + Zeros(n - |d|), [])) == Denotes(d, n)
  {
    ZerosAfter(d, n - |d|, n);
    assert d + Zeros(n - |d|) + [] == d + Zeros(n - |d|);
  }

  lemma PointBefore(d: Digits, n: int)
    requires n <= 0
    ensures Says(Fixed([0], Zeros(-n) + d)) == Denotes(d, n)
  {
    assert [0] + (Zeros(-n) + d) == Zeros(1 - n) + d;
    NumberOfConcat(Zeros(1 - n), d);
    ZerosDenote(1 - n);
  }

  lemma PointAndPower(d: Digits, n: int)
    requires d != []
    ensures Says(Exponential(d[..1], d[1..], n - 1)) == Denotes(d, n)
  {
    assert d[..1] + d[1..] == d;
  }

  /**
   What is laid out says the number, fixed exactly from one millionth up to
   ten to the twenty-first, and its fraction never ends in a zero.
   */
  lemma LayoutSays(digits: Digits, n: int)
    requires Significant(digits)
    ensures Says(JsLayout(digits, n)) == Denotes(digits, n)
    ensures JsLayout(digits, n).Fixed? <==> Ten(-6) <= Denotes(digits, n) < Ten(21)
    ensures var f := JsLayout(digits, n).fraction; f != [] ==> f[|f| - 1] != 0
  {
    var d := WithoutTrailingZeros(digits);
    LeadStays(digits);
    TrimmedSays(digits, n);
    FixedForm(digits, n);
    if |d| <= n <= 21 {
      PointAfter(d, n);
    } else if 0 < n <= 21 {
      PointWithin(d, n);
    } else if -6 < n <= 0 {
      PointBefore(d, n);
    } else {
      PointAndPower(d, n);
    }
  }
}

/** The fast digit generator: a segment of 19 digits, cut by magic multiplication. */
module FixedDigits {
  import opened Machine
  import opened Multiplication
  import opened Rounding

  // ---- Division by multiplication

  /** Multiplying by a little more than `p / d` and dropping the low part
      divides by `d`, as long as the excess stays below `p`. */
  lemma MagicDivide(x: nat, m: nat, p: nat, d: nat, excess: nat)
    requires d > 0 && p > 0 && Mul(m, d) == p + excess && Mul(x, excess) < p
    ensures Mul(x, m) / p == x / d
  {
    var q := x / d;
    assert x == Mul(d, q) + x % d;
    hide Mul;
    MulAssoc(x, m, d);
    MulAdd(x, p, excess);
    MagicBounds(x, d, q, x % d, p);
    if Mul(x, m) < Mul(q, p) {
      MulComm(Mul(x, m), d);
      MulLess(d, Mul(x, m), Mul(q, p));
      MulComm(d, Mul(q, p));
      assert false;
    }
    if Mul(x, m) >= Mul(q + 1, p) {
      MulComm(Mul(x, m), d);
      MulMono(d, Mul(q + 1, p), Mul(x, m));
      MulComm(d, Mul(q + 1, p));
      assert false;
    }
    QuotientBetween(Mul(x, m), p, q);
  }

  lemma MagicBounds(x: nat, d: nat, q: nat, r: nat, p: nat)
    requires x == Mul(d, q) + r && r < d
    ensures Mul(Mul(q, p), d) <= Mul(x, p) && Mul(x, p) + p <= Mul(Mul(q + 1, p), d)
  {
    hide Mul;
    MulSwap(q, p, d);
    MulSwap(q + 1, p, d);
    MulComm(q, d);
    MulComm(q + 1, d);
    MulAdd(d, q, 1);
    MulOne(d);
    MulMonoLeft(Mul(d, q), x, p);
    MulMonoLeft(x + 1, Mul(d, q + 1), p);
    MulAddLeft1(x, p);
  }

  /** The upper 64 bits of a product of two 64-bit numbers. */
  function UpperHalf(x: nat, y: nat): nat {
    Mul(x, y) / UINT64
  }

  const TEN9 := 1_000_000_000
  const TEN10 := 10_000_000_000
  const TEN19 := 10_000_000_000_000_000_000

  /** The first nine digits of a segment. */
  function FirstSubsegment(segment: nat): nat {
    UpperHalf(segment, 7922816251426433760) / UINT32
  }

  /** The next nine, of the ten that remain. */
  function SecondSubsegment(rest: nat): nat {
    UpperHalf(rest, 1844674407370955162)
  }

  /** The tenth, computed in 32 bits. */
  function ThirdSubsegment(rest: nat): nat {
    (rest % UINT32 - SecondSubsegment(rest) * 10 % UINT32) % UINT32
  }

  /** The magic numbers cut a segment exactly into 9, 9 and 1 digits. */
  lemma SplitIsExact(segment: nat)
    requires segment < TEN19
    ensures FirstSubsegment(segment) == segment / TEN10 < TEN9
    ensures var rest := segment % TEN10;
      SecondSubsegment(rest) == rest / 10 < TEN9 && ThirdSubsegment(rest) == rest % 10
  {
    var rest := segment % TEN10;
    FirstIsExact(segment);
    SecondIsExact(rest);
    assert (rest - rest / 10 * 10) % UINT32 == rest % 10;
  }

  lemma FirstIsExact(segment: nat)
    requires segment < TEN19
    ensures FirstSubsegment(segment) == segment / TEN10
  {
    var p := UINT64 * UINT32;
    assert Mul(7922816251426433760, TEN10) == p + 6456049664;
    assert Mul(segment, 6456049664) < p;
    hide Mul;
    MagicDivide(segment, 7922816251426433760, p, TEN10, 6456049664);
  }

  lemma SecondIsExact(rest: nat)
    requires rest < TEN10
    ensures SecondSubsegment(rest) == rest / 10
  {
    assert Mul(1844674407370955162, 10) == UINT64 + 4;
    assert Mul(rest, 4) < UINT64;
    hide Mul;
    MagicDivide(rest, 1844674407370955162, UINT64, 10, 4);
  }

  // ---- Printing nine digits

  /** The fixed-point form of `subsegment` in hand after some digits: they are
      the integer part, `fraction / 2^32` stands for the rest over the
      remaining power `d` of ten, too high by less than one unit of the
      subsegment, an excess that no step changes. */
  ghost predicate InFixedPoint(subsegment: nat, text: seq<nat>, fraction: nat, d: nat) {
    && 0 < d && fraction < UINT32
    && subsegment * UINT32 < Mul(TextValue(text) * UINT32 + fraction, d) < (subsegment + 1) * UINT32
  }

  /** The integer part is exact. */
  lemma IntegerPart(subsegment: nat, text: seq<nat>, fraction: nat, d: nat)
    requires InFixedPoint(subsegment, text, fraction, d)
    ensures Mul(TextValue(text), d) <= subsegment < Mul(TextValue(text), d) + d
    ensures var rest := subsegment - Mul(TextValue(text), d);
      rest * UINT32 < Mul(fraction, d) < (rest + 1) * UINT32
  {
    hide Mul, TextValue;
    var t := TextValue(text);
    MulAddLeft2(t, fraction, d);
    MulComm(fraction, d);
    MulMono(d, fraction, UINT32 - 1);
    MulOf32(d);
  }

  lemma MulAddLeft2(t: nat, fraction: nat, d: nat)
    ensures Mul(t * UINT32 + fraction, d) == Mul(t, d) * UINT32 + Mul(fraction, d)
  {
    assert (t * UINT32 + fraction) * d == t * d * UINT32 + fraction * d;
  }

  lemma MulOf32(d: nat)
    ensures Mul(d, UINT32 - 1) == d * UINT32 - d
  {
  }

  /** A further pair of digits. */
  lemma PairStep(subsegment: nat, text: seq<nat>, fraction: nat, d: nat)
    requires d > 0 && InFixedPoint(subsegment, text, fraction, 100 * d)
    ensures var digits := fraction * 100 / UINT32;
      digits < 100 && InFixedPoint(subsegment, text + [digits / 10, digits % 10], fraction * 100 % UINT32, d)
  {
    var (digits, rest) := (fraction * 100 / UINT32, fraction * 100 % UINT32);
    TextPushPair(text, digits);
    hide TextValue;
    var t := TextValue(text);
    assert (100 * t + digits) * UINT32 + rest == 100 * (t * UINT32 + fraction);
    HundredTimes(t * UINT32 + fraction, d);
  }

  lemma HundredTimes(x: nat, d: nat)
    ensures Mul(100 * x, d) == Mul(x, 100 * d)
  {
    assert (100 * x) * d == x * (100 * d);
  }

  lemma TextPushPair(text: seq<nat>, digits: nat)
    requires digits < 100
    ensures TextValue(text + [digits / 10, digits % 10]) == 100 * TextValue(text) + digits
    ensures Decimal(text) ==> Decimal(text + [digits / 10, digits % 10])
  {
    TextPush(text, digits / 10);
    TextPush(text + [digits / 10], digits % 10);
    assert text + [digits / 10, digits % 10] == text + [digits / 10] + [digits % 10];
    assert digits / 10 <= 9;
  }

  /** The first digit when their number is odd. */
  lemma OddStart(subsegment: nat)
    requires subsegment < TEN9
    ensures var prod := subsegment * 720575941 / 0x100_0000 + 1;
      prod / UINT32 <= 9 && prod < UINT64 && InFixedPoint(subsegment, [prod / UINT32], prod % UINT32, 100_000_000)
  {
    var prod := subsegment * 720575941 / 0x100_0000 + 1;
    assert [prod / UINT32][..0] == [];
    var (x, y) := (subsegment * UINT32, prod * 100_000_000);
    assert x < y < x + UINT32;
    assert TextValue([prod / UINT32]) * UINT32 + prod % UINT32 == prod;
  }

  /** The first two digits when their number is even. */
  lemma EvenStart(subsegment: nat)
    requires subsegment < TEN9
    ensures var prod := subsegment * 450359963 / 0x10_0000 + 1;
      && prod / UINT32 < 100 && prod < UINT64
      && InFixedPoint(subsegment, [prod / UINT32 / 10, prod / UINT32 % 10], prod % UINT32, 10_000_000)
  {
    var prod := subsegment * 450359963 / 0x10_0000 + 1;
    var digits := prod / UINT32;
    var (x, y) := (subsegment * UINT32, prod * 10_000_000);
    assert x < y < x + UINT32;
    assert digits < 100;
    TextPushPair([], digits);
    assert [] + [digits / 10, digits % 10] == [digits / 10, digits % 10];
  }

  /** The first digit or the first two, by a multiplication into fixed point. */
  method PrintFirst(subsegment: nat, odd: bool) returns (text: seq<nat>, prod: nat, digits: nat)
    requires subsegment < TEN9
    ensures |text| == (if odd then 1 else 2) && Decimal(text) && digits % 2 == TextValue(text) % 2
    ensures InFixedPoint(subsegment, text, prod % UINT32, Pow(10, 9 - |text|)) && prod < 100 * UINT32
  {
    TensUpTo9();
    hide InFixedPoint, Pow;
    if odd {
      OddStart(subsegment);
      prod := subsegment * 720575941 / 0x100_0000 + 1;
      digits := prod / UINT32;
      text := [digits];
      assert text == [] + [digits];
      TextPush([], digits);
    } else {
      EvenStart(subsegment);
      prod := subsegment * 450359963 / 0x10_0000 + 1;
      digits := prod / UINT32;
      text := [digits / 10, digits % 10];
      assert text == [] + [digits / 10, digits % 10];
      TextPushPair([], digits);
    }
  }

  /** The next two digits of a fraction. */
  method PrintPair(ghost subsegment: nat, text: seq<nat>, fraction: nat, ghost d: nat)
    returns (longer: seq<nat>, next: nat, digits: nat)
    requires d > 0 && Decimal(text) && InFixedPoint(subsegment, text, fraction, 100 * d)
    ensures |longer| == |text| + 2 && Decimal(longer) && digits % 2 == TextValue(longer) % 2
    ensures InFixedPoint(subsegment, longer, next % UINT32, d)
  {
    hide InFixedPoint, TextValue, Decimal;
    PairStep(subsegment, text, fraction, d);
    next := fraction * 100;
    digits := next / UINT32;
    TextPushPair(text, digits);
    longer := text + [digits / 10, digits % 10];
    PairParity(TextValue(text), digits);
  }

  lemma PairParity(t: nat, digits: nat)
    ensures (100 * t + digits) % 2 == digits % 2
  {
  }

  /** Prints `m` digits of a nine-digit subsegment. */
  method PrintSubsegment(subsegment: nat, m: nat) returns (text: seq<nat>, prod: nat, digits: nat)
    requires subsegment < TEN9 && 1 <= m <= 9
    ensures |text| == m && Decimal(text) && digits % 2 == TextValue(text) % 2
    ensures InFixedPoint(subsegment, text, prod % UINT32, Pow(10, 9 - m))
  {
    hide InFixedPoint, TextValue, Decimal, Pow;
    text, prod, digits := PrintFirst(subsegment, m % 2 != 0);
    while |text| < m
      invariant |text| <= m && |text| % 2 == m % 2
      invariant Decimal(text) && digits % 2 == TextValue(text) % 2
      invariant InFixedPoint(subsegment, text, prod % UINT32, Pow(10, 9 - |text|))
    {
      HundredAt(9 - |text|);
      text, prod, digits := PrintPair(subsegment, text, prod % UINT32, Pow(10, 7 - |text|));
    }
  }

  lemma TensUpTo9()
    ensures Pow(10, 8) == 100_000_000 && Pow(10, 7) == 10_000_000
  {
  }

  lemma HundredAt(k: nat)
    requires k >= 2
    ensures Pow(10, k) == 100 * Pow(10, k - 2)
  {
    assert Pow(10, k - 1) == 10 * Pow(10, k - 2);
  }

  // ---- Rounding

  /** The table of the rounding thresholds. */
  function Threshold(index: nat): nat
    requires index < 8
  {
    [0x9999999a, 0x828f5c29, 0x80418938, 0x80068db9, 0x8000a7c6, 0x800010c7, 0x800001ae, 0x8000002b][index]
  }

  /** Each entry is 2^31 + 2^32 / 10^(index + 1), rounded up. */
  lemma ThresholdIsCeiling(index: nat)
    requires index < 8
    ensures var d := Pow(10, index + 1);
      d % 2 == 0 && (Threshold(index) - 1) * d < 0x8000_0000 * d + UINT32 <= Threshold(index) * d
  {
    assert Pow(10, 1) == 10 && Pow(10, 2) == 100 && Pow(10, 3) == 1000 && Pow(10, 4) == 10_000;
    assert Pow(10, 5) == 100_000 && Pow(10, 6) == 1_000_000 && Pow(10, 7) == 10_000_000 && Pow(10, 8) == 100_000_000;
  }

  /** The fraction's top bit and its threshold tell whether the digits left out
      make at least half, and more than half. */
  lemma FractionDecides(subsegment: nat, text: seq<nat>, fraction: nat, index: nat)
    requires index < 8 && InFixedPoint(subsegment, text, fraction, Pow(10, index + 1))
    ensures var d := Pow(10, index + 1);
      && Mul(TextValue(text), d) <= subsegment
      && var rest := subsegment - Mul(TextValue(text), d);
        rest < d && d % 2 == 0 &&
        (fraction >= 0x8000_0000 <==> 2 * rest >= d) && (fraction >= Threshold(index) <==> 2 * rest > d)
  {
    var d := Pow(10, index + 1);
    ThresholdIsCeiling(index);
    IntegerPart(subsegment, text, fraction, d);
    var rest := subsegment - Mul(TextValue(text), d);
    hide TextValue, Threshold, Pow, InFixedPoint;
    FractionAgainst(fraction, d, rest, 0x8000_0000);
    FractionAgainst(fraction, d, rest, Threshold(index));
  }

  lemma FractionAgainst(fraction: nat, d: nat, rest: nat, t: nat)
    requires t > 0 && rest * UINT32 < Mul(fraction, d) < (rest + 1) * UINT32
    ensures fraction >= t ==> t * d < (rest + 1) * UINT32
    ensures fraction < t ==> rest * UINT32 < (t - 1) * d
  {
    if fraction >= t {
      MulMonoLeft(t, fraction, d);
    } else {
      MulMonoLeft(fraction, t - 1, d);
    }
  }

  /** Whether a remainder of `d`, with more below it or not, rounds up. */
  predicate ShouldRoundUp(rest: nat, d: nat, odd: bool, more: bool) {
    2 * rest > d || (2 * rest == d && (odd || more))
  }

  /** A further run `s` of digits below the remainder only breaks the tie. */
  lemma LowerRunDecides(rest: nat, d: nat, s: nat, w: nat, odd: bool, more: bool)
    requires s < w && d % 2 == 0
    ensures ShouldRoundUp(Mul(rest, w) + s, Mul(d, w), odd, more) <==>
            2 * rest > d || (2 * rest >= d && (odd || s != 0 || more))
  {
    var half := d / 2;
    assert Mul(d, w) == 2 * Mul(half, w) by { assert d * w == 2 * (half * w); }
    hide Mul;
    if rest > half {
      MulMonoLeft(half + 1, rest, w);
      MulAddLeft1(half, w);
    } else if rest < half {
      MulMonoLeft(rest + 1, half, w);
      MulAddLeft1(rest, w);
    }
  }

  // ---- The whole segment

  /** `text` holds the leading digits of `segment`, `weight` is the weight of
      the last, and `up` says whether what is left rounds up. */
  ghost predicate IsCut(segment: nat, weight: nat, text: seq<nat>, up: bool, more: bool) {
    var head := Mul(TextValue(text), weight);
    && head <= segment < head + weight
    && (up <==> ShouldRoundUp(segment - head, weight, TextValue(text) % 2 == 1, more))
  }

  /** The decision inside a subsegment `x`, with `y < w` below it. */
  lemma CutInside(x: nat, y: nat, w: nat, text: seq<nat>, fraction: nat, index: nat, more: bool)
    requires index < 8 && y < w && InFixedPoint(x, text, fraction, Pow(10, index + 1))
    ensures IsCut(Mul(x, w) + y, Mul(Pow(10, index + 1), w), text,
                  fraction >= Threshold(index) ||
                  (fraction >= 0x8000_0000 && (TextValue(text) % 2 == 1 || y != 0 || more)), more)
  {
    FractionDecides(x, text, fraction, index);
    hide TextValue, Threshold, Pow, InFixedPoint, ShouldRoundUp;
    var d := Pow(10, index + 1);
    var rest := x - Mul(TextValue(text), d);
    LowerRunDecides(rest, d, y, w, TextValue(text) % 2 == 1, more);
    CutValue(x, y, w, TextValue(text), d, rest);
  }

  lemma CutValue(x: nat, y: nat, w: nat, t: nat, d: nat, rest: nat)
    requires x == Mul(t, d) + rest && rest < d && y < w
    ensures Mul(x, w) + y == Mul(t, Mul(d, w)) + (Mul(rest, w) + y) && Mul(rest, w) + y < Mul(d, w)
  {
    hide Mul;
    MulAddLeft2w(Mul(t, d), rest, w);
    MulAssoc(t, d, w);
    MulMonoLeft(rest + 1, d, w);
    MulAddLeft1(rest, w);
  }

  lemma MulAddLeft2w(x: nat, y: nat, w: nat)
    ensures Mul(x + y, w) == Mul(x, w) + Mul(y, w)
  {
  }

  /** The decision at the end of a subsegment. */
  lemma CutAtEnd(x: nat, y: nat, w: nat, text: seq<nat>, fraction: nat, more: bool)
    requires y < w && InFixedPoint(x, text, fraction, Pow(10, 0))
    ensures TextValue(text) == x
    ensures IsCut(Mul(x, w) + y, w, text, 2 * y > w || (2 * y == w && (TextValue(text) % 2 == 1 || more)), more)
  {
    PowZero10();
    IntegerPart(x, text, fraction, 1);
    hide TextValue, InFixedPoint, Mul;
    MulOne(TextValue(text));
  }

  lemma PowZero10()
    ensures Pow(10, 0) == 1
  {
  }

  /** The first subsegment is the last to print. */
  method CutFirst(segment: nat, hasMore: bool, precision: nat) returns (text: seq<nat>, up: bool)
    requires segment < TEN19 && 1 <= precision <= 9
    ensures |text| == precision && Decimal(text)
    ensures IsCut(segment, Pow(10, 19 - precision), text, up, hasMore)
  {
    hide InFixedPoint, TextValue, Pow, Threshold, IsCut, FirstSubsegment, Mul;
    SplitIsExact(segment);
    var first := FirstSubsegment(segment);
    var rest := segment - first * TEN10;
    var prod, digits;
    text, prod, digits := PrintSubsegment(first, precision);
    SegmentIs(first, rest, 9 - precision);
    if precision < 9 {
      var fraction := prod % UINT32;
      CutInside(first, rest, TEN10, text, fraction, 8 - precision, hasMore);
      up := fraction >= Threshold(8 - precision) ||
            (fraction >= 0x8000_0000 && (digits % 2 == 1 || rest != 0 || hasMore));
    } else {
      CutAtEnd(first, rest, TEN10, text, prod % UINT32, hasMore);
      up := rest > 5_000_000_000 || (rest == 5_000_000_000 && (digits % 2 != 0 || hasMore));
    }
  }

  lemma SegmentIs(first: nat, rest: nat, k: nat)
    ensures Mul(first, TEN10) + rest == first * TEN10 + rest
    ensures Mul(Pow(10, k), TEN10) == Pow(10, k + 10)
    ensures Pow(10, 10) == TEN10
  {
    Ten10();
    assert Mul(first, TEN10) == first * TEN10;
    hide Pow, Mul;
    PowAdd(10, k, 10);
  }

  lemma Ten10()
    ensures Pow(10, 10) == TEN10
  {
    assert Pow(10, 5) == 100_000;
    PowAdd(10, 5, 5);
  }

  lemma ValueBehind(first: nat, t1: seq<nat>, t2: seq<nat>)
    requires TextValue(t1) == first && 1 <= |t2| <= 9
    ensures var w := Pow(10, 10 - |t2|); Mul(TextValue(t1 + t2), w) == first * TEN10 + Mul(TextValue(t2), w)
    ensures TextValue(t1 + t2) % 2 == TextValue(t2) % 2
  {
    hide Mul, Pow, TextValue;
    var (w, n2, n) := (Pow(10, 10 - |t2|), TextValue(t2), TextValue(t1 + t2));
    TextConcat(t1, t2);
    TenTimesPower(|t2| - 1);
    EvenMultiple(first, Pow(10, |t2| - 1));
    PowAdd(10, |t2|, 10 - |t2|);
    Ten10();
    HeadBehind(first, Pow(10, |t2|), n2, n, w);
  }

  /** Digits cut from the lower ten, after all nine of the first subsegment. */
  lemma CutBehind(first: nat, rest: nat, t1: seq<nat>, t2: seq<nat>, up: bool, more: bool)
    requires TextValue(t1) == first && 1 <= |t2| <= 9 && IsCut(rest, Pow(10, 10 - |t2|), t2, up, more)
    ensures IsCut(first * TEN10 + rest, Pow(10, 10 - |t2|), t1 + t2, up, more)
  {
    hide Mul, Pow, TextValue, ShouldRoundUp;
    ValueBehind(first, t1, t2);
  }

  lemma HeadBehind(first: nat, p: nat, n2: nat, n: nat, w: nat)
    requires n == Mul(first, p) + n2 && Mul(p, w) == TEN10
    ensures Mul(n, w) == first * TEN10 + Mul(n2, w)
  {
    assert Mul(first, TEN10) == first * TEN10;
    hide Mul;
    MulAssoc(first, p, w);
    MulAddLeft2w(Mul(first, p), n2, w);
  }

  lemma EvenMultiple(x: nat, y: nat)
    ensures Mul(x, 10 * y) % 2 == 0
  {
    assert x * (10 * y) == 2 * (5 * (x * y));
  }

  /** The second subsegment is the last to print. */
  method CutSecond(segment: nat, hasMore: bool, precision: nat) returns (text: seq<nat>, up: bool)
    requires segment < TEN19 && 10 <= precision <= 18
    ensures |text| == precision && Decimal(text)
    ensures IsCut(segment, Pow(10, 19 - precision), text, up, hasMore)
  {
    hide InFixedPoint, TextValue, Pow, Threshold, IsCut, FirstSubsegment, SecondSubsegment, ThirdSubsegment, Mul;
    SplitIsExact(segment);
    var first := FirstSubsegment(segment);
    var rest := segment - first * TEN10;
    var t1, p1, d1 := PrintSubsegment(first, 9);
    CutAtEnd(first, rest, TEN10, t1, p1 % UINT32, hasMore);
    var second := SecondSubsegment(rest);
    var third := ThirdSubsegment(rest);
    var t2, prod, digits := PrintSubsegment(second, precision - 9);
    LowerRun(second, third, 18 - precision);
    if precision < 18 {
      var fraction := prod % UINT32;
      CutInside(second, third, 10, t2, fraction, 17 - precision, hasMore);
      up := fraction >= Threshold(17 - precision) ||
            (fraction >= 0x8000_0000 && (digits % 2 == 1 || third != 0 || hasMore));
    } else {
      CutAtEnd(second, third, 10, t2, prod % UINT32, hasMore);
      up := third > 5 || (third == 5 && (digits % 2 != 0 || hasMore));
    }
    text := t1 + t2;
    CutBehind(first, rest, t1, t2, up, hasMore);
  }

  lemma LowerRun(second: nat, third: nat, k: nat)
    ensures Mul(second, 10) + third == second * 10 + third
    ensures Mul(Pow(10, k), 10) == Pow(10, k + 1) && Pow(10, 1) == 10
  {
    assert Pow(10, k + 1) == Mul(10, Pow(10, k));
  }

  /** Adding one to the last digit, with the carry. */
  method RoundUp(text: seq<nat>, isFixed: bool, q: int) returns (r: seq<nat>, exp: int)
    requires text != [] && Decimal(text)
    ensures var n := TextValue(text) + 1;
      (exp == q && TextValue(r) == n) || (exp == q + 1 && 10 * TextValue(r) == n)
    ensures Shape(|text|, isFixed, q, r, exp) && Decimal(r)
  {
    var n := |text|;
    exp := q;
    TextPush(text[..n - 1], text[n - 1]);
    TextPush(text[..n - 1], text[n - 1] + 1);
    assert text == text[..n - 1] + [text[n - 1]];
    r := text[..n - 1] + [text[n - 1] + 1];
    r := PropagateCarry(r);
    if r[0] > 9 {
      TextLead(r, 10);
      r := r[0 := 1];
      TextLead(r, 1);
      CarriedOut(n);
      if isFixed {
        TextPush(r, 0);
        r := r + [0];
      } else {
        exp := exp + 1;
      }
    }
  }

  /** `r` is the integer nearest to a number at `x / d`, or above it by less
      than anything that matters when `more` is set. */
  predicate RoundsSticky(x: nat, d: nat, more: bool, r: nat) {
    && Mul(2, x) <= Mul(2 * r + 1, d) && (Mul(2, x) >= Mul(2 * r + 1, d) ==> r % 2 == 0 && !more)
    && (r > 0 ==> Mul(2 * r - 1, d) <= Mul(2, x) && (Mul(2 * r - 1, d) >= Mul(2, x) ==> r % 2 == 0 || more))
  }

  lemma CutRounds(segment: nat, w: nat, text: seq<nat>, up: bool, more: bool)
    requires IsCut(segment, w, text, up, more)
    ensures RoundsSticky(segment, w, more, TextValue(text) + if up then 1 else 0)
  {
    hide TextValue;
    var q := TextValue(text);
    Odd(q, w);
    assert Mul(2, segment) == 2 * segment;
    if up {
      Odd(q + 1, w);
    } else if q > 0 {
      Odd(q - 1, w);
    }
  }

  /** The text and exponent that a segment of `digits` digits, padded to 19,
      must give. */
  predicate PrintsSegment(segment: nat, more: bool, digits: nat, precision: nat, exp0: int, text: seq<nat>, exp: int)
    requires precision <= 19
  {
    var (w, q) := (Pow(10, 19 - precision), exp0 + digits - precision);
    || (exp == q && RoundsSticky(segment, w, more, TextValue(text)))
    || (exp == q + 1 && RoundsSticky(segment, w, more, 10 * TextValue(text)))
  }

  /** The digit generation from the first segment on. */
  method FormatSegment(segment: nat, hasMore: bool, digits: nat, precision: int, isFixed: bool, exp0: int)
    returns (text: seq<nat>, exp: int)
    requires segment < TEN19 && 18 <= digits <= 19 && precision < digits
    ensures Decimal(text)
    ensures precision < 0 ==> text == [] && exp == exp0 + digits
    ensures precision >= 0 ==>
      && PrintsSegment(segment, hasMore, digits, precision, exp0, text, exp)
      && Shape(precision, isFixed, exp0 + digits - precision, text, exp)
  {
    hide TextValue, Pow, IsCut, RoundsSticky;
    if precision <= 0 {
      exp := exp0 + digits;
      if precision < 0 {
        text := [];
      } else {
        var bits := if hasMore && segment % 2 == 0 then segment + 1 else segment;
        text := [if bits > 5_000_000_000_000_000_000 then 1 else 0];
        NoDigits(segment, hasMore, text, isFixed, exp);
      }
      return;
    }
    exp := exp0 + digits - precision;
    var up;
    if precision <= 9 {
      text, up := CutFirst(segment, hasMore, precision);
    } else {
      text, up := CutSecond(segment, hasMore, precision);
    }
    CutRounds(segment, Pow(10, 19 - precision), text, up, hasMore);
    if up {
      text, exp := RoundUp(text, isFixed, exp);
    }
  }

  lemma NoDigits(segment: nat, more: bool, text: seq<nat>, isFixed: bool, q: int)
    requires segment < TEN19
    requires var bits := if more && segment % 2 == 0 then segment + 1 else segment;
      text == [if bits > 5_000_000_000_000_000_000 then 1 else 0]
    ensures RoundsSticky(segment, Pow(10, 19), more, TextValue(text)) && Shape(0, isFixed, q, text, q)
  {
    assert text[..0] == [];
    Ten19();
    hide Pow;
    assert forall k: nat :: Mul(k, TEN19) == k * TEN19;
  }

  lemma Ten19()
    ensures Pow(10, 19) == TEN19
  {
    assert Pow(10, 9) == TEN9;
    PowAdd(10, 10, 9);
    Ten10();
  }

  // ---- What the text means

  lemma StickyTight(o: nat, d: nat, c: nat, y: nat, k: nat)
    requires d % 2 == 0 && y < Mul(o + 1, c) && Mul(2, o) < Mul(k, d)
    ensures Mul(2, y) < Mul(k, Mul(c, d))
  {
    var half := d / 2;
    assert Mul(k, d) == 2 * Mul(k, half) by { assert k * d == 2 * (k * half); }
    assert Mul(2, o) == 2 * o;
    assert Mul(k, Mul(c, d)) == 2 * Mul(Mul(k, half), c) by { assert k * (c * d) == 2 * (k * half * c); }
    assert Mul(2, y) == 2 * y;
    hide Mul;
    MulMonoLeft(o + 1, Mul(k, half), c);
  }

  lemma StickyScaled(o: nat, d: nat, c: nat, k: nat)
    requires c > 0
    ensures Mul(k, Mul(c, d)) <= Mul(2, Mul(o, c)) <==> Mul(k, d) <= Mul(2, o)
    ensures Mul(k, Mul(c, d)) >= Mul(2, Mul(o, c)) <==> Mul(k, d) >= Mul(2, o)
  {
    hide Mul;
    MulComm(c, d);
    MulAssoc(k, d, c);
    MulAssoc(2, o, c);
    if Mul(k, d) < Mul(2, o) { MulMonoLess(Mul(k, d), Mul(2, o), c); }
    if Mul(k, d) > Mul(2, o) { MulMonoLess(Mul(2, o), Mul(k, d), c); }
  }

  lemma MulMonoLess(x: nat, y: nat, c: nat)
    requires x < y && c > 0
    ensures Mul(x, c) < Mul(y, c)
  {
    hide Mul;
    MulComm(x, c);
    MulComm(y, c);
    MulLess(c, x, y);
  }

  /** `o` is the first segment of `y / c`, before padding, and `more` says
      whether it is inexact. */
  predicate FirstSegment(y: nat, c: nat, o: nat, more: bool) {
    c > 0 && Mul(o, c) <= y < Mul(o + 1, c) && (more <==> y != Mul(o, c))
  }

  /** Rounding the integer part with a sticky bit is rounding the number. */
  lemma StickyRounds(o: nat, d: nat, more: bool, r: nat, y: nat, c: nat)
    requires RoundsSticky(o, d, more, r) && d % 2 == 0 && FirstSegment(y, c, o, more)
    ensures IsRounded(y, Mul(c, d), r)
  {
    assert Mul(2, y) == 2 * y && Mul(2, Mul(o, c)) == 2 * Mul(o, c);
    hide Mul;
    if Mul(2, o) < Mul(2 * r + 1, d) {
      StickyTight(o, d, c, y, 2 * r + 1);
    } else {
      StickyScaled(o, d, c, 2 * r + 1);
    }
    if r > 0 { StickyScaled(o, d, c, 2 * r - 1); }
  }

  lemma StickyUnpad(o: nat, d: nat, more: bool, r: nat)
    requires RoundsSticky(10 * o, 10 * d, more, r)
    ensures RoundsSticky(o, d, more, r)
  {
    hide Mul;
    TimesTenRight(2, o);
    TimesTenRight(2 * r + 1, d);
    if r > 0 { TimesTenRight(2 * r - 1, d); }
  }

  lemma TimesTenRight(x: nat, y: nat)
    ensures Mul(x, 10 * y) == 10 * Mul(x, y)
  {
    assert x * (10 * y) == 10 * (x * y);
  }

  lemma TenTimesPower(k: nat)
    ensures Pow(10, k + 1) == 10 * Pow(10, k)
  {
  }

  lemma SegmentRounds(y: nat, c: nat, o: nat, more: bool, digits: nat, precision: nat, r: nat)
    requires FirstSegment(y, c, o, more) && 18 <= digits <= 19 && precision < digits
    requires RoundsSticky(if digits == 18 then 10 * o else o, Pow(10, 19 - precision), more, r)
    ensures IsRounded(y, Mul(c, Pow(10, digits - precision)), r)
  {
    hide *;
    var d := Pow(10, digits - precision);
    EvenPower(digits - precision);
    if digits == 18 {
      TenTimesPower(digits - precision);
      StickyUnpad(o, d, more, r);
    }
    StickyRounds(o, d, more, r, y, c);
  }

  lemma EvenPower(k: nat)
    requires k > 0
    ensures Pow(10, k) % 2 == 0
  {
    TenTimesPower(k - 1);
  }

  /** Whatever the number whose leading digits the segment holds, the text and
      the exponent are that number, times 10^exp0, rounded half to even. */
  lemma SegmentTextIsRounded(y: nat, c: nat, o: nat, more: bool, digits: nat, precision: nat, exp0: int,
                             text: seq<nat>, exp: int)
    requires FirstSegment(y, c, o, more) && 18 <= digits <= 19 && precision < digits
    requires PrintsSegment(if digits == 18 then 10 * o else o, more, digits, precision, exp0, text, exp)
    ensures Prints(y, Mul(c, Pow(10, digits - precision)), exp0 + digits - precision, text, exp)
  {
    hide Mul, Pow, TextValue, RoundsSticky, IsRounded, FirstSegment;
    if exp == exp0 + digits - precision {
      SegmentRounds(y, c, o, more, digits, precision, TextValue(text));
    } else {
      SegmentRounds(y, c, o, more, digits, precision, 10 * TextValue(text));
    }
  }

  /** An empty text for a number that rounds to zero. */
  lemma NothingToPrint(y: nat, c: nat, o: nat, more: bool, digits: nat, precision: int)
    requires FirstSegment(y, c, o, more) && o < Pow(10, digits) && precision < 0
    ensures IsRounded(y, Mul(c, Pow(10, digits - precision)), 0)
  {
    PowAdd(10, digits, -precision);
    assert Pow(10, -precision) == 10 * Pow(10, -precision - 1);
    hide Pow, Mul;
    var (p, k) := (Pow(10, digits), Pow(10, -precision));
    MulMono(p, 2, k);
    MulComm(p, 2);
    TwiceBelow(y, c, o, p);
    MulMono(c, Mul(2, p), Mul(p, k));
    MulComm(c, Mul(2, p));
    MulAssoc(2, p, c);
    MulOne(Mul(c, Mul(p, k)));
  }

  lemma TwiceBelow(y: nat, c: nat, o: nat, p: nat)
    requires y < Mul(o + 1, c) && o < p
    ensures Mul(2, y) < Mul(2, Mul(p, c))
  {
    hide Mul;
    MulMonoLeft(o + 1, p, c);
    MulLess(2, y, Mul(p, c));
  }
}

/** The bignum digit generator, for a given number of digits. */
module Dragon {
  import opened Machine
  import opened Multiplication
  import opened Limbs
  import opened BigintValue
  import opened BigintPower
  import opened BigintDivide
  import opened BigintClass
  import opened Rounding
  import opened DragonDigits

  // ---- The set-up

  /** `ScaledNum / ScaledDen` is f * 2^e / 10^x. */
  function ScaledNum(f: nat, e: int, x: int): nat {
    Mul(Mul(f, P2(e)), P10(-x))
  }

  function ScaledDen(e: int, x: int): (r: nat)
    ensures r > 0
  {
    MulPositive(P2(-e), P10(x));
    Mul(P2(-e), P10(x))
  }

  /** The set-up's exponents, whose order decides whether a one can be missed. */
  function NumExp(e: int, x: int, shift: nat): nat {
    if e >= 0 then (e + shift) / 32 else if x < 0 then -x / 32 else shift / 32
  }

  function DenExp(e: int, x: int, shift: nat): int {
    if e >= 0 then x / 32 + shift / 32 else if x < 0 then (shift - e) / 32 else x / 32 + (shift - e) / 32
  }

  /** An assignment followed by a shift. */
  method AssignShifted(b: Bigint, n: nat, k: nat)
    requires 0 < n < UINT128
    modifies b
    ensures b.Abs().Normal() && b.Abs().Value() == Mul(n, Pow(2, k)) && b.exp == k / 32
  {
    hide Big.Value, Mul, Pow, Spill;
    b.Assign(n);
    SpillNum(n);
    SmallValue(b.bigits);
    ShiftedValue(b.Abs(), k);
    b.ShiftLeft(k);
  }

  /** A power of ten followed by a shift. */
  method AssignPow10Shifted(b: Bigint, x: nat, k: nat)
    requires x < POW10_LIMIT
    modifies b
    ensures b.Abs().Normal() && b.Abs().Value() == Mul(Pow(10, x), Pow(2, k)) && b.exp == x / 32 + k / 32
  {
    hide Big.Value, Mul, Pow, Spill;
    b.AssignPow10(x);
    ShiftedValue(b.Abs(), k);
    b.ShiftLeft(k);
  }

  /** What every branch of the set-up establishes: numerator over denominator is
      f * 2^e / 10^x, and the upper half-gap is half the ulp on the same scale. */
  ghost predicate IsSetUp(f: nat, e: int, x: int, shift: nat, num: Big, den: Big, upper: Big) {
    && num.Normal() && den.Normal() && upper.Normal() && shift > 0
    && num.Value() == Mul(ScaledNum(f, e, x), Pow(2, shift))
    && den.Value() == Mul(ScaledDen(e, x), Pow(2, shift))
    && upper.Value() == Mul(ScaledNum(1, e, x), Pow(2, shift - 1))
    && num.exp == NumExp(e, x, shift) && den.exp == DenExp(e, x, shift)
  }

  lemma ScaledWhole(n: nat, e: int, x: int, k: nat)
    requires e >= 0 && x >= 0
    ensures Mul(n, Pow(2, e + k)) == Mul(ScaledNum(n, e, x), Pow(2, k))
    ensures Mul(Pow(10, x), Pow(2, k)) == Mul(ScaledDen(e, x), Pow(2, k))
  {
    hide Mul;
    PowAdd(2, e, k);
    MulAssoc(n, Pow(2, e), Pow(2, k));
    MulOne(Mul(n, P2(e)));
    MulOne(P10(x));
  }

  lemma ScaledTiny(n: nat, e: int, x: int, k: nat)
    requires e < 0 && x < 0
    ensures Mul(Mul(Pow(10, -x), n), Pow(2, k)) == Mul(ScaledNum(n, e, x), Pow(2, k))
    ensures Mul(1, Pow(2, k - e)) == Mul(ScaledDen(e, x), Pow(2, k))
  {
    hide Mul;
    MulOne(n);
    MulComm(Pow(10, -x), n);
    PowAdd(2, -e, k);
    MulOne(Pow(2, k - e));
    MulOne(P2(-e));
  }

  lemma ScaledMiddle(n: nat, e: int, x: int, k: nat)
    requires e < 0 && x >= 0
    ensures Mul(n, Pow(2, k)) == Mul(ScaledNum(n, e, x), Pow(2, k))
    ensures Mul(Pow(10, x), Pow(2, k - e)) == Mul(ScaledDen(e, x), Pow(2, k))
  {
    hide Mul;
    MulOne(n);
    PowAdd(2, -e, k);
    MulAssoc(P10(x), P2(-e), Pow(2, k));
    MulComm(P2(-e), P10(x));
  }

  /** The branch for a non-negative binary exponent. */
  method SetUpWhole(f: nat, e: int, x: int, closer: bool)
    returns (numerator: Bigint, denominator: Bigint, upper: Bigint)
    requires 0 < f < UINT128 && e >= 0 && 0 <= x < POW10_LIMIT
    ensures fresh(numerator) && fresh(denominator) && fresh(upper)
    ensures numerator != denominator && upper != numerator && upper != denominator
    ensures IsSetUp(f, e, x, if closer then 2 else 1, numerator.Abs(), denominator.Abs(), upper.Abs())
  {
    hide Big.Value, Mul, Pow, ScaledNum, ScaledDen;
    numerator := new Bigint();
    denominator := new Bigint();
    var lower := new Bigint();
    var upperStore := new Bigint();
    var shift := if closer then 2 else 1;
    ScaledWhole(f, e, x, shift);
    ScaledWhole(1, e, x, shift - 1);
    AssignShifted(numerator, f, e + shift);
    AssignShifted(lower, 1, e);
    upper := lower;
    if closer {
      AssignShifted(upperStore, 1, e + 1);
      upper := upperStore;
    }
    AssignPow10Shifted(denominator, x, shift);
  }

  /** The branch for a negative decimal exponent. */
  method SetUpTiny(f: nat, e: int, x: int, closer: bool)
    returns (numerator: Bigint, denominator: Bigint, upper: Bigint)
    requires 0 < f < UINT128 && e < 0 && -POW10_LIMIT < x < 0
    ensures fresh(numerator) && fresh(denominator) && fresh(upper)
    ensures numerator != denominator && upper != numerator && upper != denominator
    ensures IsSetUp(f, e, x, if closer then 2 else 1, numerator.Abs(), denominator.Abs(), upper.Abs())
  {
    hide Big.Value, Mul, Pow, ScaledNum, ScaledDen, MulCarry;
    numerator := new Bigint();
    denominator := new Bigint();
    var lower := new Bigint();
    var upperStore := new Bigint();
    var shift := if closer then 2 else 1;
    ScaledTiny(f, e, x, shift);
    ScaledTiny(1, e, x, shift - 1);
    numerator.AssignPow10(-x);
    MulOne(Pow(10, -x));
    ShiftedValue(numerator.Abs(), shift - 1);
    lower.AssignCopy(numerator);
    upper := lower;
    if closer {
      upperStore.AssignCopy(numerator);
      upperStore.ShiftLeft(1);
      upper := upperStore;
    } else {
      PowZero(2);
    }
    TimesValue(numerator.Abs(), f);
    numerator.Times(f);
    ShiftedValue(numerator.Abs(), shift);
    numerator.ShiftLeft(shift);
    AssignShifted(denominator, 1, shift - e);
  }

  /** The branch for a negative binary and a non-negative decimal exponent. */
  method SetUpMiddle(f: nat, e: int, x: int, closer: bool)
    returns (numerator: Bigint, denominator: Bigint, upper: Bigint)
    requires 0 < f < UINT128 && e < 0 && 0 <= x < POW10_LIMIT
    ensures fresh(numerator) && fresh(denominator) && fresh(upper)
    ensures numerator != denominator && upper != numerator && upper != denominator
    ensures IsSetUp(f, e, x, if closer then 2 else 1, numerator.Abs(), denominator.Abs(), upper.Abs())
  {
    hide Big.Value, Mul, ScaledNum, ScaledDen, Spill;
    numerator := new Bigint();
    denominator := new Bigint();
    var lower := new Bigint();
    var upperStore := new Bigint();
    var shift := if closer then 2 else 1;
    ScaledMiddle(f, e, x, shift);
    ScaledMiddle(1, e, x, shift - 1);
    MulOne(Pow(2, shift - 1));
    AssignShifted(numerator, f, shift);
    AssignPow10Shifted(denominator, x, shift - e);
    lower.Assign(1);
    upper := lower;
    SpillNum(shift);
    SmallPowers();
    if closer {
      upperStore.Assign(2);
      upper := upperStore;
    }
    SmallValue(upper.bigits);
  }

  lemma SmallPowers()
    ensures Pow(2, 0) == 1 && Pow(2, 1) == 2
  {
  }

  method SetUp(f: nat, e: int, x: int, closer: bool)
    returns (numerator: Bigint, denominator: Bigint, upper: Bigint)
    requires 0 < f < UINT128 && -POW10_LIMIT < x < POW10_LIMIT && (e >= 0 ==> x >= 0)
    ensures fresh(numerator) && fresh(denominator) && fresh(upper)
    ensures numerator != denominator && upper != numerator && upper != denominator
    ensures IsSetUp(f, e, x, if closer then 2 else 1, numerator.Abs(), denominator.Abs(), upper.Abs())
  {
    if e >= 0 {
      numerator, denominator, upper := SetUpWhole(f, e, x, closer);
    } else if x < 0 {
      numerator, denominator, upper := SetUpTiny(f, e, x, closer);
    } else {
      numerator, denominator, upper := SetUpMiddle(f, e, x, closer);
    }
  }

  // ---- From the set-up to the decimal value

  lemma TenBalance(x: int, q: int)
    ensures Mul(Mul(P10(-x), P10(x - q)), P10(q)) == Mul(Mul(P10(-q), P10(q - x)), P10(x))
  {
    hide Mul;
    PowAdd3(if x < 0 then -x else 0, if x > q then x - q else 0, if q > 0 then q else 0);
    PowAdd3(if q < 0 then -q else 0, if q > x then q - x else 0, if x > 0 then x else 0);
  }

  lemma PowAdd3(a: nat, b: nat, c: nat)
    ensures Mul(Mul(Pow(10, a), Pow(10, b)), Pow(10, c)) == Pow(10, a + b + c)
  {
    hide Mul;
    PowAdd(10, a, b);
    PowAdd(10, a + b, c);
  }

  /** The same value seen at another power of ten. */
  lemma Rescale(f: nat, e: int, x: int, q: int)
    ensures SameRatio(Mul(ScaledNum(f, e, x), P10(x - q)), Mul(ScaledDen(e, x), P10(q - x)),
                      ScaledNum(f, e, q), ScaledDen(e, q))
  {
    hide Mul, P10, P2;
    TenBalance(x, q);
    var (u, g) := (Mul(f, P2(e)), P2(-e));
    MulAssoc(u, P10(-x), P10(x - q));
    MulShuffle(u, Mul(P10(-x), P10(x - q)), g, P10(q));
    MulSwap(g, P10(x), P10(q - x));
    MulAssoc(g, P10(q - x), P10(x));
    MulShuffle(u, P10(-q), g, Mul(P10(q - x), P10(x)));
    MulAssoc(P10(-q), P10(q - x), P10(x));
  }

  lemma RatioWhole(n: nat, d: nat, k: nat)
    ensures SameRatio(Mul(n, k), Mul(d, k), n, d)
  {
    hide Mul;
    MulSwap(n, k, d);
    MulAssoc(n, d, k);
    MulComm(d, k);
    MulAssoc(n, k, d);
  }

  /** Printing a ratio equal to f * 2^e / 10^x is printing f * 2^e. */
  lemma PrintsValue(num: nat, den: nat, f: nat, e: int, x: int, q: int, text: seq<nat>, exp10: int)
    requires den > 0 && SameRatio(num, den, ScaledNum(f, e, x), ScaledDen(e, x))
    requires Prints(Mul(num, P10(x - q)), Mul(den, P10(q - x)), q, text, exp10)
    ensures Prints(ScaledNum(f, e, q), ScaledDen(e, q), q, text, exp10)
  {
    hide Mul, IsRounded, ScaledNum, ScaledDen, SameRatio, P10, TextValue;
    var (n, d, u, l) := (ScaledNum(f, e, x), ScaledDen(e, x), P10(x - q), P10(q - x));
    RatioScaleTop(num, den, n, d, u);
    RatioScaleBottom(Mul(num, u), den, Mul(n, u), d, l);
    Rescale(f, e, x, q);
    MulPositive(d, l);
    MulPositive(den, l);
    RatioTrans(Mul(num, u), Mul(den, l), Mul(n, u), Mul(d, l), ScaledNum(f, e, q), ScaledDen(e, q));
    if exp10 == q && IsRounded(Mul(num, u), Mul(den, l), TextValue(text)) {
      RatioRounded(Mul(num, u), Mul(den, l), ScaledNum(f, e, q), ScaledDen(e, q), TextValue(text));
    } else {
      RatioRounded(Mul(num, u), Mul(den, l), ScaledNum(f, e, q), ScaledDen(e, q), 10 * TextValue(text));
    }
  }

  // ---- The whole function

  /** When the fix-up lowers the exponent: f * 2^e and half an ulp stay below
      10^x, or reach just it when f is odd. */
  predicate Lowers(f: nat, e: int, x: int) {
    var (upper, power) := (2 * ScaledNum(f, e, x) + ScaledNum(1, e, x), 2 * ScaledDen(e, x));
    upper < power || (upper == power && f % 2 == 1)
  }

  function FixedUp(f: nat, e: int, x: int, fixup: bool): int {
    if fixup && Lowers(f, e, x) then x - 1 else x
  }

  /** The number of digits after `adjust_precision`. */
  function DigitCount(precision: nat, x: int, adjusts: bool): int {
    if adjusts then precision + x + 1 else precision
  }

  predicate TooPrecise(precision: nat, x: int) {
    x > 0 && precision > INT_MAX - x
  }

  datatype Outcome = NumberIsTooBig | Printed(text: seq<nat>, exp10: int)

  /** Whether some digit but the last is written as the character after '9'. */
  predicate WritesColon(f: nat, e: int, estimate: int, x: int, closer: bool, n: int) {
    && n > 0 && NumExp(e, estimate, if closer then 2 else 1) > DenExp(e, estimate, if closer then 2 else 1)
    && Meets(ScaledNum(f, e, x), ScaledDen(e, x), n - 1)
  }

  lemma LowersDecides(f: nat, e: int, x: int, shift: nat, num: Big, den: Big, upper: Big)
    requires IsSetUp(f, e, x, shift, num, den, upper)
    ensures Lowers(f, e, x) <==>
            Sign(num.Value() + upper.Value() - den.Value()) + (if f % 2 == 0 then 1 else 0) <= 0
  {
    hide Big.Value, ScaledNum, ScaledDen, Mul;
    var k := Pow(2, shift - 1);
    var (n, u, d) := (ScaledNum(f, e, x), ScaledNum(1, e, x), ScaledDen(e, x));
    assert Pow(2, shift) == Mul(2, k);
    TwiceMul(n, k);
    TwiceMul(d, k);
    MulAddLeft(2 * n, u, k);
    MulComm(2 * n + u, k);
    MulComm(2 * d, k);
    if 2 * n + u < 2 * d { MulLess(k, 2 * n + u, 2 * d); }
    if 2 * n + u > 2 * d { MulLess(k, 2 * d, 2 * n + u); }
  }

  lemma TwiceMul(x: nat, k: nat)
    ensures Mul(x, Mul(2, k)) == Mul(2 * x, k) == 2 * Mul(x, k)
  {
    assert x * (2 * k) == (2 * x) * k == 2 * (x * k);
  }

  /** The fix-up keeps numerator / denominator * 10^x. */
  lemma AfterFixup(f: nat, e: int, x: int, shift: nat, num: Big, den: Big, upper: Big, lowered: bool)
    requires IsSetUp(f, e, x, shift, num, den, upper)
    requires ScaledNum(f, e, x) < 10 * ScaledDen(e, x)
    requires lowered ==> Lowers(f, e, x)
    ensures var (n, y) := if lowered then (Mul(num.Value(), 10), x - 1) else (num.Value(), x);
      SameRatio(n, den.Value(), ScaledNum(f, e, y), ScaledDen(e, y)) && n < 10 * den.Value() && den.Value() > 0
  {
    hide Big.Value, ScaledNum, ScaledDen, Mul, SameRatio, P10, P2;
    var (n, d, k) := (ScaledNum(f, e, x), ScaledDen(e, x), Pow(2, shift));
    RatioWhole(n, d, k);
    NormalPositive(den);
    TimesTen(n, k);
    TimesTen(d, k);
    MulComm(n, k);
    if lowered {
      LowersBelow(f, e, x);
      RatioScaleTop(num.Value(), den.Value(), n, d, 10);
      Rescale(f, e, x, x - 1);
      PowersOfOne();
      MulOne(d);
      RatioTrans(Mul(num.Value(), 10), den.Value(), Mul(n, 10), d, ScaledNum(f, e, x - 1), ScaledDen(e, x - 1));
      MulComm(d, k);
      MulLess(k, n, d);
      MulComm(num.Value(), 10);
      TenTimes(num.Value());
    } else {
      MulComm(10 * d, k);
      MulLess(k, n, 10 * d);
    }
  }

  lemma LowersBelow(f: nat, e: int, x: int)
    requires Lowers(f, e, x)
    ensures ScaledNum(f, e, x) < ScaledDen(e, x)
  {
    hide Mul, P2, P10;
    MulPositive(1, P2(e));
    MulPositive(Mul(1, P2(e)), P10(-x));
  }

  lemma PowersOfOne()
    ensures P10(1) == 10 && P10(-1) == 1
  {
  }

  lemma TenTimes(x: nat)
    ensures Mul(10, x) == 10 * x
  {
  }

  /** `format_dragon` with a number of digits: the text and the exponent denote
      f * 2^e rounded half to even at the last digit's power of ten, and all
      characters are digits unless a one is missed.  The estimate must not be
      too low by more than the fix-up allows. */
  method FormatDragon(f: nat, e: int, closer: bool, fixup: bool, isFixed: bool, precision: nat, estimate: int)
    returns (r: Outcome)
    requires 0 < f < UINT128 && -POW10_LIMIT < estimate < POW10_LIMIT && (e >= 0 ==> estimate >= 0)
    requires ScaledNum(f, e, estimate) < 10 * ScaledDen(e, estimate)
    ensures r.NumberIsTooBig? <==>
      var exp10 := FixedUp(f, e, estimate, fixup) + 1;
      fixup && isFixed && exp10 > 0 && precision + exp10 > 0x7FFF_FFFF
    ensures r.Printed? ==>
      var x := FixedUp(f, e, estimate, fixup);
      var n := DigitCount(precision, x, fixup && isFixed);
      var q := x - (n - 1);
      && Prints(ScaledNum(f, e, q), ScaledDen(e, q), q, r.text, r.exp10)
      && Shape(n, isFixed, q, r.text, r.exp10)
      && (Decimal(r.text) <==> !WritesColon(f, e, estimate, x, closer, n))
  {
    hide Big.Value, Mul, ScaledNum, ScaledDen, Prints, Shape, Meets, IsSetUp, Lowers, MulCarry, SameRatio, P10;
    var numerator, denominator, upper := SetUp(f, e, estimate, closer);
    ghost var num, den := numerator.Abs(), denominator.Abs();
    var (x, n) := (estimate, precision as int);
    ghost var shift := if closer then 2 else 1;
    SetUpNormal(f, e, estimate, shift, num, den, upper.Abs());
    LowersDecides(f, e, estimate, shift, num, den, upper.Abs());
    if fixup {
      var order := Bigint.AddCompare(numerator, upper, denominator);
      var even := if f % 2 == 0 then 1 else 0;
      if order + even <= 0 {
        x := x - 1;
        TimesValue(num, 10);
        numerator.Times(10);
      }
    }
    ghost var a := numerator.Abs();
    AfterFixup(f, e, estimate, shift, num, den, upper.Abs(), x < estimate);
    if fixup && isFixed {
      if TooPrecise(precision, x + 1) {
        return NumberIsTooBig;
      }
      n := n + x + 1;
    }
    var text, exp10 := Generate(numerator, denominator, n, isFixed, x);
    PrintsValue(a.Value(), den.Value(), f, e, x, x - (n - 1), text, exp10);
    if n > 0 {
      MeetsRatio(a.Value(), den.Value(), ScaledNum(f, e, x), ScaledDen(e, x), n - 1);
    }
    r := Printed(text, exp10);
  }

  lemma SetUpNormal(f: nat, e: int, x: int, shift: nat, num: Big, den: Big, upper: Big)
    requires IsSetUp(f, e, x, shift, num, den, upper)
    ensures num.Normal() && den.Normal() && upper.Normal()
    ensures num.exp == NumExp(e, x, shift) && den.exp == DenExp(e, x, shift)
  {
  }

  lemma {:induction false} MeetsRatio(x: nat, d: nat, y: nat, c: nat, k: nat)
    requires SameRatio(x, d, y, c) && d > 0 && c > 0
    ensures Meets(x, d, k) <==> Meets(y, c, k)
    decreases k
  {
    hide Mul;
    if k > 0 {
      RatioScaleTop(x, d, y, c, 10);
      MulComm(x, 10);
      MulComm(y, 10);
      TenTimes(x);
      TenTimes(y);
      MulComm(d, c);
      if x == d { MulCancel(d, y, c); }
      if y == c { MulCancel(c, x, d); }
      MeetsRatio(10 * x, d, 10 * y, c, k - 1);
    }
  }

  // ---- When a digit is written as a colon

  lemma {:induction false} MeetsAt(c: nat, d: nat, k: nat) returns (i: nat)
    requires Meets(c, d, k)
    ensures Mul(c, Pow(10, i)) == d
    decreases k
  {
    hide Mul;
    if c == d {
      i := 0;
      MulOne(c);
    } else {
      i := MeetsAt(10 * c, d, k - 1);
      TimesTen(c, Pow(10, i));
      i := i + 1;
    }
  }

  lemma {:induction false} FiveIsOdd(k: nat)
    ensures Pow(5, k) % 2 == 1
  {
    if k > 0 { FiveIsOdd(k - 1); }
  }

  lemma {:induction false} TwoHasNoFive(k: nat)
    ensures Pow(2, k) % 5 != 0
  {
    if k > 0 { TwoHasNoFive(k - 1); }
  }

  /** A number times 2^e that is a power of ten, times another or not, is a power
      of five and a small power of two. */
  lemma PowerOfTenNeedsFives(f: nat, e: nat, j: nat, y: nat) returns (m: nat)
    requires Mul(Mul(f, Pow(2, e)), Pow(10, j)) == Pow(10, y) && f > 0
    ensures e <= m <= y && f == Mul(Pow(5, m), Pow(2, m - e))
  {
    hide Mul, Pow;
    var u := Mul(f, Pow(2, e));
    MulPositive(f, Pow(2, e));
    if j > y {
      PowGrows(10, y, j);
      MulMono(Pow(10, j), 1, u);
      MulOne(Pow(10, j));
      MulComm(u, Pow(10, j));
      assert false;
    }
    m := y - j;
    PowAdd(10, m, j);
    MulCancel(Pow(10, j), u, Pow(10, m));
    PowerOfTenIs(f, e, m);
  }

  lemma PowerOfTenIs(f: nat, e: nat, m: nat)
    requires Mul(f, Pow(2, e)) == Pow(10, m) && f > 0
    ensures e <= m && f == Mul(Pow(5, m), Pow(2, m - e))
  {
    assert Mul(5, 2) == 10;
    hide Mul, Pow;
    PowMul(5, 2, m);
    if m < e {
      PowAdd(2, e - m, m);
      MulAssoc(f, Pow(2, e - m), Pow(2, m));
      MulCancel(Pow(2, m), Mul(f, Pow(2, e - m)), Pow(5, m));
      FiveIsOdd(m);
      EvenProduct(f, e - m);
      assert false;
    }
    PowAdd(2, m - e, e);
    MulAssoc(Pow(5, m), Pow(2, m - e), Pow(2, e));
    MulCancel(Pow(2, e), f, Mul(Pow(5, m), Pow(2, m - e)));
  }

  lemma EvenProduct(f: nat, k: nat)
    requires k > 0
    ensures Mul(f, Pow(2, k)) % 2 == 0
  {
    assert Pow(2, k) == 2 * Pow(2, k - 1);
    assert f * (2 * Pow(2, k - 1)) == 2 * (f * Pow(2, k - 1));
  }

  const TWO112 := 0x1_0000_0000_0000_0000_0000_0000_0000

  /** The significands of the formats: of 64 bits at most, or of exactly 113. */
  predicate IsSignificand(f: nat) {
    0 < f < UINT64 || TWO112 <= f < 2 * TWO112
  }

  /** No significand of a floating-point format has a digit written as a colon. */
  lemma NeverColon(f: nat, e: int, estimate: int, x: int, closer: bool, n: int)
    requires IsSignificand(f) && (e >= 0 ==> estimate >= 0) && estimate - 1 <= x <= estimate
    ensures !WritesColon(f, e, estimate, x, closer, n)
  {
    hide Meets, ScaledNum, ScaledDen, Pow, Mul, IsSignificand;
    if WritesColon(f, e, estimate, x, closer, n) {
      var i := MeetsAt(ScaledNum(f, e, x), ScaledDen(e, x), n - 1);
      if e >= 0 {
        NeverWhole(f, e, estimate, x, i);
      } else {
        NeverTiny(f, e, x, i);
      }
      assert false;
    }
  }

  lemma NeverWhole(f: nat, e: int, estimate: int, x: int, i: nat)
    requires IsSignificand(f) && e >= 30 && x <= estimate <= e + 1 && estimate / 32 < (e + 2) / 32
    ensures Mul(ScaledNum(f, e, x), Pow(10, i)) != ScaledDen(e, x)
  {
    hide Mul, Pow;
    PowZero(2);
    PowZero(10);
    var y := if x > 0 then x else 0;
    var j := if x < 0 then i - x else i;
    PowAdd(10, j - i, i);
    MulAssoc(Mul(f, Pow(2, e)), Pow(10, j - i), Pow(10, i));
    MulOne(Pow(10, y));
    if Mul(Mul(f, Pow(2, e)), Pow(10, j)) == Pow(10, y) {
      var m := PowerOfTenNeedsFives(f, e, j, y);
      if f < UINT64 { FivesAreLarge(f, e, m); } else { FivesAreQuad(f, e, m); }
    }
  }

  lemma FivesAreLarge(f: nat, e: nat, m: nat)
    requires 30 <= e <= m && f == Mul(Pow(5, m), Pow(2, m - e))
    ensures f > UINT64
  {
    hide Mul, Pow;
    FiveAt30();
    if m > 30 { PowGrows(5, 30, m); }
    MulMono(Pow(5, m), 1, Pow(2, m - e));
    MulOne(Pow(5, m));
  }

  lemma FiveAt30()
    ensures Pow(5, 30) > UINT64
  {
    assert Pow(5, 10) == 9765625;
    PowAdd(5, 10, 10);
    PowAdd(5, 20, 10);
  }

  lemma OnceOrTwice(x: nat, k: nat)
    requires k <= 1
    ensures Mul(x, Pow(2, k)) == if k == 0 then x else 2 * x
  {
    assert Pow(2, 0) == 1 && Pow(2, 1) == 2;
  }

  /** Only 2 * 5^48 has 113 bits. */
  lemma FivesAreQuad(f: nat, e: nat, m: nat)
    requires e <= m <= e + 1 && f == Mul(Pow(5, m), Pow(2, m - e)) && TWO112 <= f < 2 * TWO112
    ensures m == 48 && e == 47
  {
    hide Mul, Pow;
    FivesNear48();
    OnceOrTwice(Pow(5, m), m - e);
    if m < 47 { PowGrows(5, m, 47); }
    if m > 49 { PowGrows(5, 49, m); }
  }

  lemma FivesNear48()
    ensures 2 * Pow(5, 47) < TWO112 && Pow(5, 48) < TWO112 && Pow(5, 49) >= 2 * TWO112
  {
    assert Pow(5, 12) == 244140625;
    PowAdd(5, 12, 12);
    PowAdd(5, 24, 24);
    assert Pow(5, 48) == 5 * Pow(5, 47) && Pow(5, 49) == 5 * Pow(5, 48);
  }

  lemma NeverTiny(f: nat, e: int, x: int, i: nat)
    requires e < 0 && x < 0
    ensures Mul(ScaledNum(f, e, x), Pow(10, i)) != ScaledDen(e, x)
  {
    hide Mul, Pow;
    PowZero(2);
    PowZero(10);
    MulOne(f);
    MulOne(Pow(2, -e));
    MulAssoc(f, Pow(10, -x), Pow(10, i));
    PowAdd(10, -x, i);
    TenHasFive(f, i - x);
    TwoHasNoFive(-e);
  }

  lemma TenHasFive(f: nat, k: nat)
    requires k > 0
    ensures Mul(f, Pow(10, k)) % 5 == 0
  {
    assert Pow(10, k) == 10 * Pow(10, k - 1);
    assert f * (10 * Pow(10, k - 1)) == 5 * (2 * (f * Pow(10, k - 1)));
  }

  lemma FivesAndTwos(k: nat)
    ensures ScaledNum(Pow(5, k), k, k) == ScaledDen(k, k) > 0
  {
    assert Mul(5, 2) == 10;
    PowMul(5, 2, k);
    hide Mul, Pow;
    PowZero(2);
    PowZero(10);
    MulOne(Mul(Pow(5, k), Pow(2, k)));
    MulOne(Pow(10, k));
  }

  /** For 5^31 * 2^31, which is 10^31, the first of two digits is a zero and the
      second the colon.  No format has this significand: only a direct call of
      `format_dragon` can pass it. */
  lemma ColonIsWritten()
    ensures 0 < Pow(5, 31) < UINT128 && ScaledNum(Pow(5, 31), 31, 31) < 10 * ScaledDen(31, 31)
    ensures WritesColon(Pow(5, 31), 31, 31, 31, false, 2) && !IsSignificand(Pow(5, 31))
  {
    hide Mul, Pow, ScaledNum, ScaledDen;
    FivesAndTwos(31);
    FiveAt31();
  }

  lemma FiveAt31()
    ensures UINT64 < Pow(5, 31) < TWO112 < UINT128
  {
    assert Pow(5, 10) == 9765625;
    PowAdd(5, 10, 10);
    PowAdd(5, 20, 10);
  }
}

/** What the fix-up of the decimal exponent is for: the first digit. */
module DragonFixup {
  import opened Multiplication
  import opened Rounding
  import opened DragonDigits
  import opened Dragon

  lemma ScaledPositive(f: nat, e: int, x: int)
    requires f > 0
    ensures ScaledNum(f, e, x) > 0
  {
    hide Mul, P2, P10;
    MulPositive(f, P2(e));
    MulPositive(Mul(f, P2(e)), P10(-x));
  }

  /** One power of ten further down the ratio is ten times as large. */
  lemma OneDown(f: nat, e: int, x: int)
    requires ScaledNum(f, e, x) < ScaledDen(e, x)
    ensures ScaledNum(f, e, x - 1) < 10 * ScaledDen(e, x - 1)
  {
    hide Mul, P2, P10, ScaledNum, ScaledDen, SameRatio;
    var (n, d, y, c) := (ScaledNum(f, e, x), ScaledDen(e, x), ScaledNum(f, e, x - 1), ScaledDen(e, x - 1));
    Rescale(f, e, x, x - 1);
    PowersOfOne();
    MulOne(d);
    RatioGreater(Mul(n, 10), d, y, c, 1, 10);
    MulComm(n, 10);
    TenTimes(n);
    TenTimes(d);
    TenTimes(c);
    MulOne(Mul(n, 10));
    MulOne(y);
  }

  /** An estimate that is right or one too high is made right: the value and half
      an ulp reach ten to the exponent left, even for an odd significand, and the
      value stays below the next power of ten. */
  lemma FixupSettles(f: nat, e: int, x: int)
    requires ScaledNum(f, e, x) < 10 * ScaledDen(e, x)
    requires var reach := 2 * ScaledNum(f, e, x - 1) + ScaledNum(1, e, x - 1);
      reach > 2 * ScaledDen(e, x - 1) || (reach == 2 * ScaledDen(e, x - 1) && f % 2 == 0)
    ensures var y := FixedUp(f, e, x, true);
      && (y == x || y == x - 1)
      && 2 * ScaledNum(f, e, y) + ScaledNum(1, e, y) >= 2 * ScaledDen(e, y)
      && (f % 2 == 1 ==> 2 * ScaledNum(f, e, y) + ScaledNum(1, e, y) > 2 * ScaledDen(e, y))
      && ScaledNum(f, e, y) < 10 * ScaledDen(e, y)
  {
    if Lowers(f, e, x) {
      LowersBelow(f, e, x);
      OneDown(f, e, x);
    }
  }

  /** A value between 10^(x - 1) and 10^(x + 1) has such an estimate. */
  lemma EstimateReaches(f: nat, e: int, x: int)
    requires ScaledNum(f, e, x - 1) >= ScaledDen(e, x - 1)
    ensures 2 * ScaledNum(f, e, x - 1) + ScaledNum(1, e, x - 1) > 2 * ScaledDen(e, x - 1)
  {
    ScaledPositive(1, e, x - 1);
  }

  /** What is at least `m` does not round below it. */
  lemma RoundedAtLeast(y: nat, c: nat, r: nat, m: nat)
    requires c > 0 && IsRounded(y, c, r) && Mul(m, c) <= y
    ensures r >= m
  {
    if r < m {
      assert Mul(2, y) == 2 * y && Mul(2 * m, c) == 2 * Mul(m, c) by { assert (2 * m) * c == 2 * (m * c); }
      hide Mul;
      MulComm(2 * m - 1, c);
      MulComm(2 * m, c);
      MulLess(c, 2 * m - 1, 2 * m);
      MulMonoLeft(2 * r + 1, 2 * m - 1, c);
    }
  }

  /** The ratio at the last digit of a value that reaches 10^x. */
  lemma LastReaches(f: nat, e: int, x: int, n: nat)
    requires n > 0 && ScaledNum(f, e, x) >= ScaledDen(e, x)
    ensures Mul(Pow(10, n - 1), ScaledDen(e, x - (n - 1))) <= ScaledNum(f, e, x - (n - 1))
  {
    hide Mul, P2, ScaledNum, ScaledDen, SameRatio;
    var (a, d, p) := (ScaledNum(f, e, x), ScaledDen(e, x), Pow(10, n - 1));
    var (y, c) := (ScaledNum(f, e, x - (n - 1)), ScaledDen(e, x - (n - 1)));
    Rescale(f, e, x, x - (n - 1));
    ManyDigits(d, n);
    RatioGreater(Mul(a, p), d, y, c, 1, p);
    MulOne(Mul(a, p));
    MulOne(y);
    MulComm(a, p);
    MulMono(p, d, a);
  }

  /** A text that begins with a zero is below the power of its length less one. */
  lemma {:induction false} LeadingZero(t: seq<nat>)
    requires t != [] && Decimal(t) && t[0] == 0
    ensures TextValue(t) < Pow(10, |t| - 1)
    decreases |t|
  {
    if |t| == 1 {
      assert t[..0] == [];
    } else {
      LeadingZero(t[..|t| - 1]);
    }
  }

  /** The first of the digits of a value that reaches 10^x is not zero; `text` and
      `exp10` are what FormatDragon promises of its result. */
  lemma FirstDigitIsNotZero(f: nat, e: int, x: int, n: nat, isFixed: bool, text: seq<nat>, exp10: int)
    requires n > 0 && ScaledNum(f, e, x) >= ScaledDen(e, x) && Decimal(text)
    requires var q := x - (n - 1);
      Prints(ScaledNum(f, e, q), ScaledDen(e, q), q, text, exp10) && Shape(n, isFixed, q, text, exp10)
    ensures text[0] != 0
  {
    if text[0] == 0 {
      hide Mul, Pow, ScaledNum, ScaledDen, IsRounded, TextValue;
      var q := x - (n - 1);
      LeadingZero(text);
      LastReaches(f, e, x, n);
      if exp10 == q && |text| == n {
        RoundedAtLeast(ScaledNum(f, e, q), ScaledDen(e, q), TextValue(text), Pow(10, n - 1));
      }
      assert false;
    }
  }

  /** Which digit is the last: in fixed format the one `precision` places after
      the point, and otherwise the one that makes `precision` digits. */
  lemma DigitsAskedFor(precision: nat, x: int, text: seq<nat>, exp10: int)
    ensures x - (DigitCount(precision, x, true) - 1) + precision == 0
    ensures precision > 0 && Shape(DigitCount(precision, x, false), false, x - (precision - 1), text, exp10) ==>
      |text| == precision
  {
  }
}

/** The digits of a ratio of two bignums, rounded at the last. */
module DragonDigits {
  import opened Machine
  import opened Multiplication
  import opened Limbs
  import opened BigintValue
  import opened BigintPower
  import opened BigintDivide
  import opened BigintClass
  import opened Rounding

  // ---- The digits, on values

  /** One of the first `k` numbers `c`, `10 * c`, `100 * c`, ... is `d`. */
  predicate Meets(c: nat, d: nat, k: nat)
    decreases k
  {
    k > 0 && (c == d || Meets(10 * c, d, k - 1))
  }

  lemma {:induction false} MeetsNoMore(c: nat, d: nat, k: nat)
    requires c > d
    ensures !Meets(c, d, k)
    decreases k
  {
    if k > 0 { MeetsNoMore(10 * c, d, k - 1); }
  }

  /** Whether a digit before the last of `m + 1` comes out as ten: the division
      misses a one, which the next digit makes up for. */
  predicate Colon(a: Big, d: Big, m: nat) {
    a.exp > d.exp && Meets(a.Value(), d.Value(), m)
  }

  datatype Phase = Leading | Counting | Missed | Done

  /** The digits `t` have come out of `a / d`, leaving `c` for the rest. */
  ghost predicate Emitted(a: Big, d: Big, t: seq<nat>, c: Big) {
    && d.Normal() && c.Canon(d.exp)
    && Mul(a.Value(), Pow(10, |t|)) == 10 * Mul(TextValue(t), d.Value()) + c.Value()
  }

  ghost predicate InPhase(p: Phase, a: Big, d: Big, m: nat, t: seq<nat>, c: Big) {
    && |t| <= m
    && match p {
         case Leading => c.exp == a.exp && c.Value() < 10 * d.Value() && Decimal(t) &&
                         (Colon(a, d, m) <==> Colon(c, d, m - |t|))
         case Counting => c.exp <= d.exp && c.Value() < 10 * d.Value() && Decimal(t) && !Colon(a, d, m)
         case Missed => c.Value() == 10 * d.Value() && Decimal(t) && Colon(a, d, m)
         case Done => c.Value() == 0 && !Decimal(t) && Colon(a, d, m)
       }
  }

  /** What a division leaves, as `divmod_assign` promises it. */
  ghost predicate Divided(c: Big, d: Big, q: nat, r: Big) {
    && r.Canon(d.exp) && c.Value() == Mul(d.Value(), q) + r.Value()
    && (r.Value() < d.Value() <==> !MissesOne(c, d))
    && (q == 0 ==> r == c) && (q > 0 ==> r.exp <= d.exp)
  }

  lemma QuotientSmall(c: nat, d: nat, q: nat, r: nat)
    requires c == Mul(d, q) + r && r < d
    ensures c < 10 * d ==> q <= 9
    ensures c == 10 * d ==> q == 10 && r == 0
    ensures c == 0 ==> r == 0
  {
    assert Mul(d, 10) == 10 * d;
    hide Mul;
    if c < 10 * d { MulCancelLess(d, q, 10); }
    if c == 10 * d {
      MulAdd(d, q, 1);
      MulOne(d);
      MulCancelLess(d, 10, q + 1);
      if q > 10 { MulMono(d, 11, q); MulAdd(d, 10, 1); }
    }
  }

  lemma EmittedStep(a: Big, d: Big, t: seq<nat>, c: Big, q: nat, r: Big)
    requires Emitted(a, d, t, c) && Divided(c, d, q, r)
    ensures Emitted(a, d, t + [q], TimesBig(r, 10))
    ensures TimesBig(r, 10).Value() == 10 * r.Value()
  {
    TimesValue(r, 10);
    assert Mul(r.Value(), 10) == 10 * r.Value();
    TextPush(t, q);
    hide Mul, Num, BPow, TextValue, MulCarry;
    var (n, v) := (TextValue(t), d.Value());
    assert Pow(10, |t + [q]|) == Mul(10, Pow(10, |t|));
    TimesTen(a.Value(), Pow(10, |t|));
    TimesTen(n, v);
    MulAddLeft(10 * n, q, v);
    MulComm(v, q);
  }

  /** A division that misses a one leaves the dividend, which equals the divisor. */
  lemma MissedOne(c: Big, d: Big, k: nat, q: nat, r: Big)
    requires d.Value() > 0 && Divided(c, d, q, r) && MissesOne(c, d) && k > 0
    ensures q == 0 && r == c && Colon(c, d, k)
  {
    assert Meets(c.Value(), d.Value(), k);
    hide Mul, Num, BPow, Meets;
    if q > 0 {
      MulMono(d.Value(), 1, q);
      MulOne(d.Value());
    }
  }

  lemma NothingMissed(c: Big, d: Big, k: nat, q: nat, r: Big)
    requires d.Value() > 0 && Divided(c, d, q, r) && !MissesOne(c, d) && k > 0
    ensures q == 0 ==> (Colon(c, d, k) <==> Colon(TimesBig(r, 10), d, k - 1))
    ensures q > 0 ==> !Colon(c, d, k)
  {
    assert Meets(c.Value(), d.Value(), k) <==> c.Value() == d.Value() || Meets(10 * c.Value(), d.Value(), k - 1);
    TimesValue(r, 10);
    assert Mul(r.Value(), 10) == 10 * r.Value();
    hide Mul, Num, BPow, Meets, MulCarry;
    MulZero(d.Value());
    if q > 0 {
      MulMono(d.Value(), 1, q);
      MulOne(d.Value());
      if c.Value() > d.Value() { MeetsNoMore(c.Value(), d.Value(), k); }
    }
  }

  lemma NotDecimal(t: seq<nat>, q: nat)
    ensures Decimal(t + [q]) <==> Decimal(t) && q <= 9
  {
    if Decimal(t + [q]) {
      assert (t + [q])[|t|] == q;
      forall j | 0 <= j < |t| ensures t[j] <= 9 { assert (t + [q])[j] == t[j]; }
    }
  }

  /** One digit moves the generation on. */
  lemma DigitStep(p: Phase, a: Big, d: Big, m: nat, t: seq<nat>, c: Big, q: nat, r: Big) returns (next: Phase)
    requires d.Normal() && InPhase(p, a, d, m, t, c) && |t| < m && Divided(c, d, q, r)
    ensures InPhase(next, a, d, m, t + [q], TimesBig(r, 10))
  {
    TimesValue(r, 10);
    assert Mul(r.Value(), 10) == 10 * r.Value();
    hide Mul, Num, BPow, MulCarry, Colon, Decimal;
    NormalPositive(d);
    NotDecimal(t, q);
    next := p;
    if MissesOne(c, d) {
      MissedOne(c, d, m - |t|, q, r);
      next := Missed;
    } else {
      NothingMissed(c, d, m - |t|, q, r);
      QuotientSmall(c.Value(), d.Value(), q, r.Value());
      if p == Leading && q > 0 { next := Counting; }
      if p == Missed { next := Done; }
    }
  }

  /** The number that digits and one more denote. */
  function Whole(t: seq<nat>, digit: nat): nat {
    10 * TextValue(t) + digit
  }

  lemma WholeParity(t: seq<nat>, digit: nat)
    ensures Whole(t, digit) % 2 == digit % 2
  {
  }

  /** The last division: the quotient in whole, and whether a ten was written. */
  lemma LastDigit(p: Phase, a: Big, d: Big, m: nat, t: seq<nat>, c: Big, q: nat, r: Big)
    requires Emitted(a, d, t, c) && InPhase(p, a, d, m, t, c) && |t| == m && Divided(c, d, q, r)
    ensures Mul(a.Value(), Pow(10, m)) == Mul(Whole(t, q), d.Value()) + r.Value()
    ensures r.Value() <= d.Value()
    ensures Decimal(t) && q <= 9 <==> !Colon(a, d, m)
    ensures r.Value() > 0 ==> !Colon(a, d, m)
  {
    assert !Meets(c.Value(), d.Value(), 0);
    hide Mul, Num, BPow, Decimal, TextValue, Meets;
    NormalPositive(d);
    var v := d.Value();
    MulAddLeft(10 * TextValue(t), q, v);
    TimesTen(TextValue(t), v);
    MulComm(v, q);
    if MissesOne(c, d) {
      MulPositiveOrZero(v, q);
    } else {
      QuotientSmall(c.Value(), v, q, r.Value());
    }
  }

  lemma MulPositiveOrZero(v: nat, q: nat)
    ensures q > 0 ==> Mul(v, q) >= v
    ensures q == 0 ==> Mul(v, q) == 0
  {
    hide Mul;
    MulZero(v);
    MulOne(v);
    if q > 0 { MulMono(v, 1, q); }
  }

  // ---- The digits, step by step

  /** The digit loop: `m` divisions, each followed by a multiplication by ten. */
  method EmitDigits(numerator: Bigint, denominator: Bigint, m: nat) returns (text: seq<nat>, ghost p: Phase)
    requires numerator != denominator && numerator.Abs().Normal() && denominator.Abs().Normal()
    requires numerator.Abs().Value() < 10 * denominator.Abs().Value()
    modifies numerator
    ensures Emitted(old(numerator.Abs()), denominator.Abs(), text, numerator.Abs()) && |text| == m
    ensures InPhase(p, old(numerator.Abs()), denominator.Abs(), m, text, numerator.Abs())
  {
    hide Emitted, InPhase, Big.Value, Mul, Divided;
    ghost var a, d := numerator.Abs(), denominator.Abs();
    text, p := [], Leading;
    NothingEmitted(a, d, m);
    for i := 0 to m
      invariant |text| == i && denominator.Abs() == d
      invariant Emitted(a, d, text, numerator.Abs()) && InPhase(p, a, d, m, text, numerator.Abs())
    {
      ghost var c := numerator.Abs();
      DigitFits(p, a, d, m, text, c);
      var digit := numerator.DivmodAssign(denominator);
      ghost var r := numerator.Abs();
      DividedBy(c, d, digit, r);
      p := DigitStep(p, a, d, m, text, c, digit, r);
      EmittedStep(a, d, text, c, digit, r);
      text := text + [digit];
      numerator.Times(10);
    }
  }

  lemma NothingEmitted(a: Big, d: Big, m: nat)
    requires a.Normal() && d.Normal() && a.Value() < 10 * d.Value()
    ensures Emitted(a, d, [], a) && InPhase(Leading, a, d, m, [], a)
  {
    hide Big.Value, Mul;
    MulOne(a.Value());
    MulZero(d.Value());
    PowZero(10);
    assert TextValue([]) == 0;
  }

  /** The dividend is small enough for the division. */
  lemma DigitFits(p: Phase, a: Big, d: Big, m: nat, t: seq<nat>, c: Big)
    requires Emitted(a, d, t, c) && InPhase(p, a, d, m, t, c)
    ensures d.Normal() && c.Canon(d.exp) && c.Value() < Mul(d.Value(), INT_MAX + 1)
  {
    hide Big.Value;
    NormalPositive(d);
  }

  lemma DividedBy(c: Big, d: Big, q: nat, r: Big)
    requires r.Canon(d.exp) && c.Value() == Mul(d.Value(), q) + r.Value()
    requires r.Value() < d.Value() <==> !MissesOne(c, d)
    requires q == 0 ==> r == c
    requires q > 0 ==> r.exp <= d.exp
    ensures Divided(c, d, q, r)
  {
  }

  /** The last digit is rounded up or not, and a carry moved up. */
  method RoundText(t: seq<nat>, digit: nat, up: bool, isFixed: bool, q: int) returns (text: seq<nat>, exp10: int)
    requires up ==> Decimal(t) && digit <= 9
    ensures var r := Whole(t, digit) + if up then 1 else 0;
      (exp10 == q && TextValue(text) == r) || (exp10 == q + 1 && 10 * TextValue(text) == r)
    ensures Shape(|t| + 1, isFixed, q, text, exp10)
    ensures Decimal(text) <==> Decimal(t) && digit <= 9
  {
    var n := |t| + 1;
    exp10 := q;
    TextPush(t, digit);
    TextPush(t, digit + 1);
    NotDecimal(t, digit);
    NotDecimal(t, digit + 1);
    if !up || digit != 9 {
      text := t + [if up then digit + 1 else digit];
      return;
    }
    text := t + [10];
    assert text[..|text| - 1] == t;
    text := PropagateCarry(text);
    if text[0] == 10 {
      TextLead(text, 10);
      text := text[0 := 1];
      TextLead(text, 1);
      CarriedOut(n);
      if isFixed {
        TextPush(text, 0);
        text := text + [0];
      } else {
        exp10 := exp10 + 1;
      }
    }
  }

  function P10(k: int): (r: nat)
    ensures r > 0
  {
    Pow(10, if k > 0 then k else 0)
  }

  function P2(k: int): (r: nat)
    ensures r > 0
  {
    Pow(2, if k > 0 then k else 0)
  }

  /** The generation of `n` digits of `numerator / denominator * 10^x`. */
  method Generate(numerator: Bigint, denominator: Bigint, n: int, isFixed: bool, x: int)
    returns (text: seq<nat>, exp10: int)
    requires numerator != denominator && numerator.Abs().Normal() && denominator.Abs().Normal()
    requires numerator.Abs().Value() < 10 * denominator.Abs().Value()
    modifies numerator, denominator
    ensures Prints(Mul(old(numerator.Abs()).Value(), P10(n - 1)), Mul(old(denominator.Abs()).Value(), P10(1 - n)),
                   x - (n - 1), text, exp10)
    ensures Shape(n, isFixed, x - (n - 1), text, exp10)
    ensures Decimal(text) <==> n <= 0 || !Colon(old(numerator.Abs()), old(denominator.Abs()), n - 1)
  {
    hide Big.Value, Mul, IsRounded, InPhase, Emitted, Colon, TextValue, Shape, Pow;
    ghost var a, d := numerator.Abs(), denominator.Abs();
    exp10 := x - (n - 1);
    if n <= 0 {
      var digit := 0;
      FewDigits(a.Value(), d.Value(), n);
      if n == 0 {
        TimesValue(d, 10);
        denominator.Times(10);
        var order := Bigint.AddCompare(numerator, numerator, denominator);
        digit := if order > 0 then 1 else 0;
      }
      text := [digit];
      SingleDigit(digit, n, isFixed, x - (n - 1));
      return;
    }
    text, exp10 := GenerateDigits(numerator, denominator, n, isFixed, exp10);
    ManyDigits(d.Value(), n);
  }

  /** The case of one digit or more. */
  method GenerateDigits(numerator: Bigint, denominator: Bigint, n: nat, isFixed: bool, q: int)
    returns (text: seq<nat>, exp10: int)
    requires numerator != denominator && numerator.Abs().Normal() && denominator.Abs().Normal() && n > 0
    requires numerator.Abs().Value() < 10 * denominator.Abs().Value()
    modifies numerator
    ensures Prints(Mul(old(numerator.Abs()).Value(), Pow(10, n - 1)), denominator.Abs().Value(), q, text, exp10)
    ensures Shape(n, isFixed, q, text, exp10)
    ensures Decimal(text) <==> !Colon(old(numerator.Abs()), denominator.Abs(), n - 1)
  {
    hide Big.Value, Mul, IsRounded, InPhase, Emitted, Divided, Colon, TextValue, Shape, Pow, Decimal, Whole;
    ghost var a, d := numerator.Abs(), denominator.Abs();
    var t, p := EmitDigits(numerator, denominator, n - 1);
    ghost var c := numerator.Abs();
    DigitFits(p, a, d, n - 1, t, c);
    var digit := numerator.DivmodAssign(denominator);
    ghost var r := numerator.Abs();
    DividedBy(c, d, digit, r);
    LastDigit(p, a, d, n - 1, t, c, digit, r);
    var result := Bigint.AddCompare(numerator, numerator, denominator);
    var up := result > 0 || (result == 0 && digit % 2 != 0);
    WholeParity(t, digit);
    RoundedByRemainder(Mul(a.Value(), Pow(10, n - 1)), d.Value(), Whole(t, digit), r.Value(), up);
    text, exp10 := RoundText(t, digit, up, isFixed, q);
  }

  lemma ManyDigits(d: nat, n: int)
    requires n > 0
    ensures P10(n - 1) == Pow(10, n - 1) && Mul(d, P10(1 - n)) == d
  {
    hide Mul;
    PowZero(10);
    MulOne(d);
  }

  lemma SingleDigit(digit: nat, n: int, isFixed: bool, q: int)
    requires digit <= 1 && n <= 0
    ensures TextValue([digit]) == digit && Decimal([digit]) && Shape(n, isFixed, q, [digit], q)
  {
    assert [digit][..0] == [];
  }

  /** With no digit or fewer the number rounds to zero or, for no digit, to one. */
  lemma FewDigits(a: nat, d: nat, n: int)
    requires n <= 0 && a < 10 * d
    ensures n == 0 ==> IsRounded(Mul(a, P10(n - 1)), Mul(d, P10(1 - n)), if 2 * a > Mul(d, 10) then 1 else 0)
    ensures n < 0 ==> IsRounded(Mul(a, P10(n - 1)), Mul(d, P10(1 - n)), 0)
  {
    assert Pow(10, 1) == 10 && Pow(10, 0) == 1;
    if n < 0 {
      if n < -1 { PowGrows(10, 2, 1 - n); }
      assert Pow(10, 2) == 100;
      hide Mul, Pow;
      MulMono(d, 100, P10(1 - n));
      Hundred(a, d, Mul(d, P10(1 - n)));
      MulOne(a);
    } else {
      hide Pow;
    }
  }

  lemma Hundred(a: nat, d: nat, c: nat)
    requires a < 10 * d && c >= Mul(d, 100)
    ensures IsRounded(a, c, 0)
  {
  }
}

/** Values of the bignum, and the order on them that digit-wise comparison decides. */
module BigintValue {
  import opened Multiplication
  import opened Limbs

  datatype Big = Big(limbs: seq<Bigit>, exp: nat) {
    function Value(): nat {
      Mul(BPow(exp), Num(limbs))
    }

    function NumBigits(): nat {
      |limbs| + exp
    }

    /** The limb at absolute position `i`. */
    function At(i: int): Bigit {
      if exp <= i < NumBigits() then limbs[i - exp] else 0
    }

    predicate Normal() {
      limbs != [] && limbs[|limbs| - 1] != 0
    }

    /** Normal, or a zero whose exponent is at most `e`. */
    predicate Canon(e: nat) {
      Normal() || (limbs == [0] && exp <= e)
    }
  }

  function Sign(x: int): int {
    if x > 0 then 1 else if x < 0 then -1 else 0
  }

  /** The value of the limbs from position `i` up, scaled to start at `i`. */
  function Top(n: Big, i: nat): nat
    decreases n.NumBigits() - i
  {
    if i >= n.NumBigits() then 0 else n.At(i) + B * Top(n, i + 1)
  }

  lemma {:induction false} TopNum(n: Big, i: nat)
    requires n.exp <= i <= n.NumBigits()
    ensures Top(n, i) == Num(n.limbs[i - n.exp..])
    decreases n.NumBigits() - i
  {
    if i < n.NumBigits() {
      TopNum(n, i + 1);
      assert n.limbs[i - n.exp..][1..] == n.limbs[i + 1 - n.exp..];
    }
  }

  lemma {:induction false} TopLow(n: Big, i: nat)
    requires i <= n.exp
    ensures Top(n, i) == Mul(BPow(n.exp - i), Num(n.limbs))
    decreases n.exp - i
  {
    hide Mul;
    if i == n.exp {
      TopNum(n, i);
      assert n.limbs[0..] == n.limbs;
      MulOne(Num(n.limbs));
    } else {
      TopLow(n, i + 1);
      MulScale(BPow(n.exp - i - 1), Num(n.limbs));
    }
  }

  lemma TopIsValue(n: Big)
    ensures Top(n, 0) == n.Value()
  {
    hide Mul, Num, BPow, Top;
    TopLow(n, 0);
  }

  lemma TopStep(n: Big, i: nat)
    ensures Top(n, i) == n.At(i) + B * Top(n, i + 1)
  {
  }

  lemma ValueUpper(n: Big)
    ensures n.Value() < BPow(n.NumBigits())
  {
    hide Mul, Num, BPow;
    NumBound(n.limbs);
    BPowAdd(n.exp, |n.limbs|);
    MulLess(BPow(n.exp), Num(n.limbs), BPow(|n.limbs|));
  }

  lemma ValueLower(n: Big)
    requires n.Normal()
    ensures BPow(n.NumBigits() - 1) <= n.Value()
  {
    hide Mul, Num, BPow;
    NumTop(n.limbs);
    BPowAdd(n.exp, |n.limbs| - 1);
    MulMono(BPow(n.exp), BPow(|n.limbs| - 1), Num(n.limbs));
  }

  /** More limbs, with a non-zero top one, mean a greater value. */
  lemma MoreBigits(l: Big, r: Big)
    requires l.Normal() && l.NumBigits() > r.NumBigits()
    ensures l.Value() > r.Value()
  {
    hide Mul, Num, BPow;
    ValueLower(l);
    ValueUpper(r);
    BPowMonotone(r.NumBigits(), l.NumBigits() - 1);
  }

  lemma ZeroValue(a: Big)
    requires a.limbs == [0]
    ensures a.Value() == 0
  {
    hide Mul;
    NumZero();
    MulZero(BPow(a.exp));
  }

  lemma NormalPositive(a: Big)
    requires a.Normal()
    ensures a.Value() > 0
  {
    hide Mul, Num, BPow;
    ValueLower(a);
  }

  /** A difference seen from position `i` up decides the difference of the values. */
  lemma {:induction false} TopDecides(l: Big, r: Big, i: nat)
    requires Top(l, i) > Top(r, i)
    ensures l.Value() > r.Value()
    decreases i
  {
    hide Mul, Num, BPow, Top;
    if i == 0 {
      TopIsValue(l);
      TopIsValue(r);
    } else {
      TopStep(l, i - 1);
      TopStep(r, i - 1);
      TopDecides(l, r, i - 1);
    }
  }

  /** When `r` has no limbs below position `i`, equal tops leave `l` at least `r`. */
  lemma {:induction false} TopAtLeast(l: Big, r: Big, i: nat)
    requires Top(l, i) >= Top(r, i) && i <= r.exp
    ensures l.Value() >= r.Value()
    decreases i
  {
    hide Mul, Num, BPow, Top;
    if i == 0 {
      TopIsValue(l);
      TopIsValue(r);
    } else {
      TopStep(l, i - 1);
      TopStep(r, i - 1);
      TopAtLeast(l, r, i - 1);
    }
  }

  // ---- The same for a sum on the left

  /** How far the sum falls short of `r`, from position `i` up. */
  function Shortfall(l1: Big, l2: Big, r: Big, i: nat): int {
    Top(r, i) - Top(l1, i) - Top(l2, i)
  }

  lemma ShortfallStep(l1: Big, l2: Big, r: Big, i: nat)
    ensures Shortfall(l1, l2, r, i) == B * Shortfall(l1, l2, r, i + 1) + r.At(i) - l1.At(i) - l2.At(i)
  {
    hide Top;
    TopStep(l1, i);
    TopStep(l2, i);
    TopStep(r, i);
  }

  lemma ShortfallAtZero(l1: Big, l2: Big, r: Big)
    ensures Shortfall(l1, l2, r, 0) == r.Value() - l1.Value() - l2.Value()
  {
    hide Mul, Num, BPow, Top;
    TopIsValue(l1);
    TopIsValue(l2);
    TopIsValue(r);
  }

  lemma {:induction false} ShortfallDecides(l1: Big, l2: Big, r: Big, i: nat)
    ensures Shortfall(l1, l2, r, i) >= 2 ==> l1.Value() + l2.Value() < r.Value()
    ensures Shortfall(l1, l2, r, i) <= -1 ==> l1.Value() + l2.Value() > r.Value()
    decreases i
  {
    hide Mul, Num, BPow, Shortfall;
    if i == 0 {
      ShortfallAtZero(l1, l2, r);
    } else {
      ShortfallStep(l1, l2, r, i - 1);
      ShortfallDecides(l1, l2, r, i - 1);
    }
  }

  /** Below every exponent the shortfall only scales. */
  lemma {:induction false} ShortfallScales(l1: Big, l2: Big, r: Big, i: nat)
    requires i <= l1.exp && i <= l2.exp && i <= r.exp
    ensures Sign(Shortfall(l1, l2, r, i)) == Sign(r.Value() - l1.Value() - l2.Value())
    decreases i
  {
    hide Mul, Num, BPow, Shortfall;
    if i == 0 {
      ShortfallAtZero(l1, l2, r);
    } else {
      ShortfallStep(l1, l2, r, i - 1);
      ShortfallScales(l1, l2, r, i - 1);
    }
  }

  /** The first early exit of `add_compare`: too few limbs for the sum to reach `r`. */
  lemma SumTooShort(l1: Big, l2: Big, r: Big)
    requires r.Normal() && l1.NumBigits() + 1 < r.NumBigits() && l2.NumBigits() + 1 < r.NumBigits()
    ensures l1.Value() + l2.Value() < r.Value()
  {
    hide Mul, Num;
    ValueUpper(l1);
    ValueUpper(l2);
    ValueLower(r);
    var k := r.NumBigits() - 2;
    BPowMonotone(l1.NumBigits(), k);
    BPowMonotone(l2.NumBigits(), k);
    assert BPow(k + 1) == B * BPow(k);
  }
}

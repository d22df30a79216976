/** What the operations of the number class do to values, up to powers of ten. */
module BigintPower {
  import opened Machine
  import opened Multiplication
  import opened Limbs
  import opened BigintValue

  /** Twice as many limbs still have an int for their number. */
  const MAX_BIGITS := 0x800_0000
  /** From this exponent on, the search for the top bit overflows an int. */
  const POW10_LIMIT := 0x4000_0000

  lemma SmallValue(s: seq<Bigit>)
    ensures Big(s, 0).Value() == Num(s)
  {
    hide Mul, Num;
    MulOne(Num(s));
  }

  /** The number that `<<=` leaves. */
  function ShiftedBig(n: Big, shift: nat): Big {
    Big(if shift % 32 == 0 then n.limbs else MulCarry(n.limbs, Pow(2, shift % 32), 0), n.exp + shift / 32)
  }

  function TimesBig(n: Big, v: nat): Big {
    Big(MulCarry(n.limbs, v, 0), n.exp)
  }

  lemma TimesValue(n: Big, v: nat)
    ensures TimesBig(n, v).Value() == Mul(n.Value(), v)
    ensures n.Normal() && v > 0 ==> TimesBig(n, v).Normal()
    ensures n.limbs == [0] ==> TimesBig(n, v).limbs == [0]
  {
    hide Mul, Num, BPow, MulCarry;
    MulCarryNum(n.limbs, v, 0);
    MulComm(v, Num(n.limbs));
    MulAssoc(BPow(n.exp), Num(n.limbs), v);
    if n.Normal() && v > 0 {
      MulCarryTop(n.limbs, v, 0);
    }
    TimesZero(v);
  }

  lemma TimesZero(v: nat)
    ensures MulCarry([0], v, 0) == [0]
  {
    hide Mul;
    MulZero(v);
    assert Low(v, 0, 0) == 0 && High(v, 0, 0) == 0;
    assert [0][1..] == [];
  }

  lemma ShiftedValue(n: Big, shift: nat)
    ensures ShiftedBig(n, shift).Value() == Mul(n.Value(), Pow(2, shift))
    ensures n.Normal() ==> ShiftedBig(n, shift).Normal()
  {
    hide Mul, Num, BPow, MulCarry, Pow, Big.Value, Big.Normal;
    ShiftedParts(n, shift / 32, shift % 32);
    assert shift == 32 * (shift / 32) + shift % 32;
  }

  /** A shift by whole limbs and by fewer bits than a limb has. */
  lemma ShiftedParts(n: Big, k: nat, sh: nat)
    ensures var r := Big(if sh == 0 then n.limbs else MulCarry(n.limbs, Pow(2, sh), 0), n.exp + k);
      r.Value() == Mul(n.Value(), Pow(2, 32 * k + sh)) && (n.Normal() ==> r.Normal())
  {
    hide Mul, Num, BPow, MulCarry, Pow;
    BPowIsPow2(k);
    if sh == 0 {
      ScaledValue(n, k);
    } else {
      TimesValue(n, Pow(2, sh));
      ScaledValue(TimesBig(n, Pow(2, sh)), k);
      PowAdd(2, 32 * k, sh);
      MulComm(Pow(2, 32 * k), Pow(2, sh));
      MulAssoc(n.Value(), Pow(2, sh), Pow(2, 32 * k));
    }
  }

  lemma ScaledValue(n: Big, k: nat)
    ensures Big(n.limbs, n.exp + k).Value() == Mul(n.Value(), BPow(k))
  {
    hide Mul, Num, BPow;
    BPowAdd(n.exp, k);
    MulSwap(BPow(n.exp), BPow(k), Num(n.limbs));
  }

  // ---- Powers of ten

  /** The mask that the search for the top bit of `e` ends with. */
  function TopMask(e: nat, mask: nat): nat
    requires mask > 0
    decreases if e >= mask then e - mask + 1 else 0
  {
    if e >= mask then TopMask(e, 2 * mask) else mask
  }

  lemma {:induction false} TopMaskReaches(e: nat, j: nat)
    requires e >= POW10_LIMIT && j <= 30
    ensures TopMask(e, Pow(2, j)) > INT_MAX
    decreases 30 - j
  {
    Pow2At30(j);
    if j < 30 {
      TopMaskReaches(e, j + 1);
    } else {
      TopMaskGrows(e, 2 * Pow(2, 30));
    }
  }

  lemma {:induction false} TopMaskGrows(e: nat, mask: nat)
    requires mask > 0
    ensures TopMask(e, mask) >= mask
    ensures e >= mask ==> TopMask(e, mask) <= 2 * e
    decreases if e >= mask then e - mask + 1 else 0
  {
    if e >= mask {
      TopMaskGrows(e, 2 * mask);
    }
  }

  lemma Pow2At30(j: nat)
    requires j <= 30
    ensures Pow(2, j) <= POW10_LIMIT && Pow(2, 30) == POW10_LIMIT
    ensures Pow(2, j + 1) == 2 * Pow(2, j)
  {
    assert Pow(2, 10) == 1024;
    PowAdd(2, 10, 10);
    PowAdd(2, 10, 20);
    if j < 30 { PowGrows(2, j, 30); }
  }

  /** The mask stays an int exactly for exponents below 2^30. */
  lemma MaskFitsIff(e: nat)
    ensures TopMask(e, 1) <= INT_MAX <==> e < POW10_LIMIT
  {
    if e >= POW10_LIMIT {
      TopMaskReaches(e, 0);
    } else {
      TopMaskGrows(e, 1);
    }
  }

  predicate IsMask(m: nat) {
    m <= 1 || (m % 2 == 0 && IsMask(m / 2))
  }

  /** `e & mask`, for a power of two. */
  predicate BitSet(e: nat, mask: nat) {
    if mask <= 1 then e % 2 == 1 else BitSet(e / 2, mask / 2)
  }

  /** `e / mask`, for a power of two. */
  function HighPart(e: nat, mask: nat): (r: nat)
    ensures r <= e
    decreases mask
  {
    if mask <= 1 then e else HighPart(e / 2, mask / 2)
  }

  /** The leading bits of `e` that squaring has consumed when `mask` is next. */
  function Consumed(e: nat, mask: nat): (r: nat)
    ensures r <= e
  {
    if mask == 0 then e else HighPart(e / 2, mask)
  }

  /** Only the top bit is consumed at first. */
  lemma {:induction false} FirstBit(e: nat, top: nat)
    requires top <= e < 2 * top && IsMask(top)
    ensures HighPart(e, top) == 1 && Consumed(e, top / 2) == 1
    decreases top
  {
    if top > 1 {
      FirstBit(e / 2, top / 2);
    }
  }

  lemma {:induction false} NextBit(e: nat, mask: nat)
    requires mask > 0
    ensures HighPart(e, mask) == 2 * Consumed(e, mask) + if BitSet(e, mask) then 1 else 0
    ensures Consumed(e, mask / 2) == HighPart(e, mask)
    decreases mask
  {
    if mask > 1 {
      NextBit(e / 2, mask / 2);
    }
  }

  lemma {:induction false} FiveBelowEight(k: nat)
    ensures Pow(5, k) <= Pow(2, 3 * k)
  {
    if k > 0 {
      FiveBelowEight(k - 1);
      PowAdd(2, 3, 3 * (k - 1));
      assert Pow(2, 3) == 8;
    }
  }

  /** Powers of five that `assign_pow10` squares have few enough limbs. */
  lemma FivesFit(s: seq<Bigit>, k: nat)
    requires s != [] && s[|s| - 1] != 0 && Num(s) == Pow(5, k) && k < POW10_LIMIT
    ensures |s| <= MAX_BIGITS
  {
    hide Mul, Num, BPow, Pow;
    NumTop(s);
    BPowIsPow2(|s| - 1);
    FiveBelowEight(k);
    if 3 * k < 32 * (|s| - 1) {
      PowGrows(2, 3 * k, 32 * (|s| - 1));
      assert false;
    }
  }

  lemma SquareOfPower(s: seq<Bigit>, k: nat)
    requires Num(s) == Pow(5, k) && s != []
    ensures Num(Squared(s)) == Pow(5, 2 * k) && Squared(s) != [] && Squared(s)[|Squared(s)| - 1] != 0
  {
    hide Mul, Num, Pow, Squared;
    PowAdd(5, k, k);
    SquaredNum(s);
  }

  lemma TimesFive(s: seq<Bigit>, k: nat)
    requires Num(s) == Pow(5, k) && s != [] && s[|s| - 1] != 0
    ensures var r := MulCarry(s, 5, 0); Num(r) == Pow(5, k + 1) && r != [] && r[|r| - 1] != 0
  {
    hide Mul, Num, MulCarry;
    MulCarryNum(s, 5, 0);
    MulCarryTop(s, 5, 0);
  }

  /** 5^e shifted left by e is 10^e. */
  lemma FiveTimesTwo(s: seq<Bigit>, e: nat)
    requires Num(s) == Pow(5, e) && s != [] && s[|s| - 1] != 0
    ensures ShiftedBig(Big(s, 0), e).Value() == Pow(10, e) && ShiftedBig(Big(s, 0), e).Normal()
  {
    assert Mul(5, 2) == 10;
    hide Mul, Num, Pow, ShiftedBig;
    SmallValue(s);
    ShiftedValue(Big(s, 0), e);
    PowMul(5, 2, e);
  }
}

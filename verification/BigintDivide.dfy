/** Aligned subtraction and division by repeated subtraction, on values. */
module BigintDivide {
  import opened Machine
  import opened Multiplication
  import opened Limbs
  import opened BigintValue
  import opened BigintPower

  /** What `compare` answers: the order of the values, and for equal values the
      order of the exponents, reversed. */
  function CompareResult(l: Big, r: Big): int {
    if l.Value() != r.Value() then Sign(l.Value() - r.Value()) else Sign(r.exp - l.exp)
  }

  /** `compare` decides the order of the values exactly when they differ or
      their exponents agree. */
  lemma CompareExactIff(l: Big, r: Big)
    ensures CompareResult(l, r) == Sign(l.Value() - r.Value()) <==> l.Value() != r.Value() || l.exp == r.exp
  {
  }

  /** Two normal numbers on which `compare` calls equal values different. */
  lemma EqualValuesDiffer()
    ensures var (l, r) := (Big([1], 1), Big([0, 1], 0));
      l.Normal() && r.Normal() && l.Value() == r.Value() && CompareResult(l, r) == -1
  {
    assert BPow(1) == B * BPow(0) && BPow(0) == 1;
    assert [1][1..] == [] && [0, 1][1..] == [1];
    assert Num([1]) == 1 && Num([0, 1]) == B;
  }

  /** What `compare` answers for any two numbers: first the order of their sizes. */
  function CompareAnswer(l: Big, r: Big): int {
    if l.NumBigits() != r.NumBigits() then Sign(l.NumBigits() - r.NumBigits()) else CompareResult(l, r)
  }

  /** Without needless zeros on top the sizes decide as the values do. */
  lemma CompareAnswerIs(l: Big, r: Big)
    requires r.Normal() && l.Canon(r.exp)
    ensures CompareAnswer(l, r) == CompareResult(l, r)
  {
    hide Mul, Num, BPow, CompareResult;
    if l.NumBigits() != r.NumBigits() { SizesDecide(l, r); }
  }

  lemma SizesDecide(l: Big, r: Big)
    requires r.Normal() && l.Canon(r.exp) && l.NumBigits() != r.NumBigits()
    ensures CompareResult(l, r) == if l.NumBigits() > r.NumBigits() then 1 else -1
  {
    hide Mul, Num, BPow;
    if l.NumBigits() > r.NumBigits() { MoreBigits(l, r); } else { MoreBigits(r, l); }
  }

  lemma TopsAgree(l: Big, r: Big)
    requires l.NumBigits() == r.NumBigits()
    ensures Top(l, l.NumBigits()) == Top(r, l.NumBigits())
  {
  }

  /** Where all higher limbs agree, position `p` decides unless it agrees too. */
  lemma LimbsDecide(l: Big, r: Big, p: nat)
    requires Top(l, p + 1) == Top(r, p + 1)
    ensures l.At(p) > r.At(p) ==> CompareResult(l, r) == 1
    ensures l.At(p) < r.At(p) ==> CompareResult(l, r) == -1
    ensures l.At(p) == r.At(p) ==> Top(l, p) == Top(r, p)
  {
    hide Mul, Num, BPow, Top;
    TopStep(l, p);
    TopStep(r, p);
    if l.At(p) > r.At(p) { TopDecides(l, r, p); }
    if l.At(p) < r.At(p) { TopDecides(r, l, p); }
  }

  /** Where one number has run out of limbs and all others agree. */
  lemma TailsDecide(l: Big, r: Big, p: nat)
    requires Top(l, p) == Top(r, p) && p == if l.exp > r.exp then l.exp else r.exp
    ensures CompareResult(l, r) == Sign(r.exp - l.exp)
  {
    hide Mul, Num, BPow, Top;
    if p == r.exp { TopAtLeast(l, r, p); }
    if p == l.exp { TopAtLeast(r, l, p); }
  }

  lemma SumTooLong(l1: Big, l2: Big, r: Big)
    requires r.Normal() && l1.Canon(r.exp) && l2.Canon(r.exp)
    requires l1.NumBigits() > r.NumBigits() || l2.NumBigits() > r.NumBigits()
    ensures l1.Value() + l2.Value() > r.Value()
  {
    hide Mul, Num, BPow;
    if l1.NumBigits() > r.NumBigits() { MoreBigits(l1, r); } else { MoreBigits(l2, r); }
  }

  lemma ShortfallAtTop(l1: Big, l2: Big, r: Big)
    requires l1.NumBigits() <= r.NumBigits() && l2.NumBigits() <= r.NumBigits()
    ensures Shortfall(l1, l2, r, r.NumBigits()) == 0
  {
  }

  function Zeros(n: nat): (r: seq<Bigit>)
    ensures |r| == n && forall k :: 0 <= k < n ==> r[k] == 0
  {
    seq(n, _ => 0)
  }

  /** The number that `align` leaves. */
  function AlignedBig(n: Big, e: nat): Big {
    if n.exp <= e then n else Big(Zeros(n.exp - e) + n.limbs, e)
  }

  lemma {:induction false} NumZeros(n: nat, s: seq<Bigit>)
    ensures Num(Zeros(n) + s) == Mul(BPow(n), Num(s))
  {
    hide Mul;
    if n == 0 {
      assert Zeros(0) + s == s;
      MulOne(Num(s));
    } else {
      NumZeros(n - 1, s);
      assert (Zeros(n) + s)[1..] == Zeros(n - 1) + s;
      MulScale(BPow(n - 1), Num(s));
    }
  }

  /** Aligning keeps the value, the size and the top limb. */
  lemma AlignedKeeps(n: Big, e: nat)
    requires n.limbs != []
    ensures var a := AlignedBig(n, e);
      a.Value() == n.Value() && a.exp <= e && a.NumBigits() == n.NumBigits() && (n.Normal() ==> a.Normal())
  {
    hide Mul, Num, BPow;
    if n.exp > e {
      NumZeros(n.exp - e, n.limbs);
      BPowAdd(e, n.exp - e);
      MulAssoc(BPow(e), BPow(n.exp - e), Num(n.limbs));
    }
  }

  /** The limb that the final borrow loop of `subtract_aligned` leaves.  The
      loop does not move to the next limb, so on zero it borrows twice. */
  function SpendBorrow(x: Bigit): Bigit {
    if x > 0 then x - 1 else B - 2
  }

  /** The limbs above the subtracted ones, less a borrow. */
  function SpendTop(t: seq<Bigit>, borrow: bool): (r: seq<Bigit>)
    ensures |r| == |t| && (|t| > 1 ==> r[|t| - 1] == t[|t| - 1])
  {
    if borrow && t != [] then [SpendBorrow(t[0])] + t[1..] else t
  }

  /** `subtract_aligned` before leading zeros are removed: `o` is taken off `a`
      from limb `i` on. */
  function SubAligned(a: seq<Bigit>, o: seq<Bigit>, i: nat): (r: seq<Bigit>)
    requires i + |o| <= |a|
    ensures |r| == |a| && (i + |o| + 1 < |a| ==> r[|a| - 1] == a[|a| - 1])
  {
    var (d, b) := SubDigits(a[i..i + |o|], o, false);
    a[..i] + d + SpendTop(a[i + |o|..], b)
  }

  /** Whether the subtraction borrows from a zero limb, where it goes wrong. */
  predicate BorrowsFromZero(a: seq<Bigit>, o: seq<Bigit>, i: nat)
    requires i + |o| <= |a|
  {
    SubDigits(a[i..i + |o|], o, false).1 && (i + |o| == |a| || a[i + |o|] == 0)
  }

  lemma SpendTopNum(t: seq<Bigit>)
    requires t != [] && t[0] > 0
    ensures Num(SpendTop(t, true)) == Num(t) - 1
  {
    assert ([t[0] - 1] + t[1..])[1..] == t[1..];
  }

  /** The value of two runs of limbs. */
  function Num2(y: seq<nat>, z: seq<nat>): nat {
    Num(y) + Mul(BPow(|y|), Num(z))
  }

  lemma Num3Is(x: seq<nat>, y: seq<nat>, z: seq<nat>)
    ensures Num(x + y + z) == Num(x) + Mul(BPow(|x|), Num2(y, z))
  {
    hide Mul, Num, BPow;
    Num3(x, y, z);
  }

  /** The value of three runs of limbs, of which the upper two lose `n`. */
  lemma SubRuns(x: seq<nat>, s: seq<nat>, t: seq<nat>, d: seq<nat>, u: seq<nat>, n: nat)
    requires Num2(d, u) == Num2(s, t) - n
    ensures Mul(BPow(|x|), n) <= Num(x + s + t)
    ensures Num(x + d + u) == Num(x + s + t) - Mul(BPow(|x|), n)
  {
    hide Mul, Num, BPow, Num2;
    Num3Is(x, s, t);
    Num3Is(x, d, u);
    SubWhole(BPow(|x|), Num2(s, t), n, Num2(d, u));
  }

  lemma SubWhole(p: nat, x: nat, y: nat, z: nat)
    requires z == x - y
    ensures Mul(p, y) <= Mul(p, x) && Mul(p, z) == Mul(p, x) - Mul(p, y)
  {
    hide Mul;
    MulSub(p, x, y);
    MulMono(p, y, x);
  }

  /** Without a borrow from a zero limb the subtraction is exact. */
  lemma SubExact(a: seq<Bigit>, o: seq<Bigit>, i: nat)
    requires i + |o| <= |a| && !BorrowsFromZero(a, o, i)
    ensures Mul(BPow(i), Num(o)) <= Num(a)
    ensures Num(SubAligned(a, o, i)) == Num(a) - Mul(BPow(i), Num(o))
  {
    hide Mul, Num, BPow, SubDigits, SpendTop;
    var (x, s, t) := (a[..i], a[i..i + |o|], a[i + |o|..]);
    assert a == x + s + t;
    var (d, b) := SubDigits(s, o, false);
    SubDigitsNum(s, o, false);
    SpendTopOff(t, b, BPow(|o|));
    SubRuns(x, s, t, d, SpendTop(t, b), Num(o));
  }

  lemma SpendTopOff(t: seq<Bigit>, b: bool, p: nat)
    requires b ==> t != [] && t[0] > 0
    ensures Mul(p, Num(SpendTop(t, b))) == Mul(p, Num(t)) - if b then p else 0
  {
    if b {
      SpendTopNum(t);
      hide Mul, SpendTop;
      MulSub(p, Num(t), 1);
      MulOne(p);
    }
  }

  /** A borrow from a zero limb leaves 2^32 too much there. */
  lemma SpendTopZero(t: seq<Bigit>)
    requires t != [] && t[0] == 0
    ensures Num(SpendTop(t, true)) == Num(t) + B - 2
  {
    assert ([B - 2] + t[1..])[1..] == t[1..];
  }

  lemma SplitInThree<T>(a: seq<T>, i: nat, j: nat)
    requires i <= j <= |a|
    ensures a == a[..i] + a[i..j] + a[j..]
  {
  }

  /** With a borrow from a zero limb the subtraction is wrong. */
  lemma SubWrong(a: seq<Bigit>, o: seq<Bigit>, i: nat)
    requires i + |o| < |a| && BorrowsFromZero(a, o, i) && Mul(BPow(i), Num(o)) <= Num(a)
    ensures Num(SubAligned(a, o, i)) != Num(a) - Mul(BPow(i), Num(o))
  {
    var (x, s, t) := (a[..i], a[i..i + |o|], a[i + |o|..]);
    SpendTopZero(t);
    SplitInThree(a, i, i + |o|);
    hide Mul, Num, BPow, SubDigits, SpendTop;
    var d := SubDigits(s, o, false).0;
    SubDigitsNum(s, o, false);
    WrongValue(x, s, t, d, SpendTop(t, true), Num(o));
  }

  lemma WrongValue(x: seq<nat>, s: seq<nat>, t: seq<nat>, d: seq<nat>, u: seq<nat>, n: nat)
    requires |d| == |s| && Num(d) == Num(s) - n + BPow(|s|) && Num(u) == Num(t) + B - 2
    requires Mul(BPow(|x|), n) <= Num(x + s + t)
    ensures Num(x + d + u) != Num(x + s + t) - Mul(BPow(|x|), n)
  {
    hide Mul, Num, BPow, Num2;
    Num3Is(x, s, t);
    Num3Is(x, d, u);
    WrongNum2(s, t, d, u, n);
    MulMovesPast(BPow(|x|), Num2(d, u), n, Num2(s, t));
  }

  lemma WrongNum2(s: seq<nat>, t: seq<nat>, d: seq<nat>, u: seq<nat>, n: nat)
    requires |d| == |s| && Num(d) == Num(s) - n + BPow(|s|) && Num(u) == Num(t) + B - 2
    ensures Num2(d, u) + n > Num2(s, t)
  {
    hide Mul, Num, BPow;
    MulMono(BPow(|s|), Num(t), Num(u));
  }

  lemma MulMovesPast(p: nat, x: nat, n: nat, y: nat)
    requires x + n > y && p > 0
    ensures Mul(p, x) + Mul(p, n) > Mul(p, y)
  {
    hide Mul;
    MulAdd(p, x, n);
    MulLess(p, y, x + n);
  }

  /** The subtraction of a number that is not greater is exact if and only if it
      does not borrow from a zero limb. */
  lemma SubExactIff(a: seq<Bigit>, o: seq<Bigit>, i: nat)
    requires i + |o| <= |a| && Mul(BPow(i), Num(o)) <= Num(a)
    ensures Num(SubAligned(a, o, i)) == Num(a) - Mul(BPow(i), Num(o)) <==> !BorrowsFromZero(a, o, i)
  {
    hide Mul, Num, BPow, SubAligned, SubDigits;
    if !BorrowsFromZero(a, o, i) {
      SubExact(a, o, i);
    } else {
      if i + |o| == |a| { TopNeedsNoBorrow(a, o, i); }
      SubWrong(a, o, i);
    }
  }

  /** Where the subtraction reaches the top limb it leaves no borrow. */
  lemma TopNeedsNoBorrow(a: seq<Bigit>, o: seq<Bigit>, i: nat)
    requires i + |o| == |a| && Mul(BPow(i), Num(o)) <= Num(a)
    ensures !SubDigits(a[i..i + |o|], o, false).1
  {
    hide Mul, Num, BPow, SubDigits;
    var s := a[i..i + |o|];
    assert s == a[i..];
    HighAtLeast(a, i, Num(o));
    SubDigitsNum(s, o, false);
    NumBound(SubDigits(s, o, false).0);
  }

  /** 2^64 less 1 borrows from a zero limb, and neither that limb nor the top one
      comes out right. */
  lemma BorrowFromZeroIsWrong()
    ensures BorrowsFromZero([0, 0, 1], [1], 0) && SubAligned([0, 0, 1], [1], 0) == [B - 1, B - 2, 1]
    ensures Num([0, 0, 1]) - Mul(BPow(0), Num([1])) == Num([B - 1, B - 1])
  {
    assert [0, 0, 1][0..1] == [0] && [0, 0, 1][1..] == [0, 1] && [0, 0, 1][..0] == [];
    assert [0, 1][1..] == [1] && [1][1..] == [] && [0][1..] == [];
    var zero: seq<Bigit> := [0];
    var one: seq<Bigit> := [1];
    assert zero[1..] == one[1..] == [] && SubDigits([], [], true) == ([], true);
    assert SubDigits(zero, one, false) == ([B - 1] + [], true);
    assert [B - 1, B - 1][1..] == [B - 1] && [B - 1][1..] == [];
    assert Num([1]) == 1 && Num([0, 1]) == B && Num([0, 0, 1]) == B * B;
    assert BPow(0) == 1;
  }

  /** One pass of the dividing loop. */
  function DivStep(a: Big, o: Big): Big
    requires a.exp <= o.exp && o.NumBigits() <= a.NumBigits()
  {
    Big(Trim(SubAligned(a.limbs, o.limbs, o.exp - a.exp)), a.exp)
  }

  /** Taking the divisor off once is exact when the dividend has at most one
      limb more. */
  lemma DivStepExact(a: Big, o: Big)
    requires a.Normal() && o.Normal() && a.exp <= o.exp && o.Value() <= a.Value()
    requires a.NumBigits() <= o.NumBigits() + 1
    ensures o.NumBigits() <= a.NumBigits()
    ensures !BorrowsFromZero(a.limbs, o.limbs, o.exp - a.exp)
    ensures var r := DivStep(a, o);
      && r.Value() == a.Value() - o.Value() && r.exp == a.exp
      && (r.Normal() || r.limbs == [0]) && r.NumBigits() <= a.NumBigits()
  {
    hide Mul, Num, BPow, SubAligned, Trim, BorrowsFromZero;
    if o.NumBigits() > a.NumBigits() { MoreBigits(o, a); }
    var i := o.exp - a.exp;
    AlignedValues(a, o);
    NoBorrowFromZero(a, o);
    SubExact(a.limbs, o.limbs, i);
    TrimNum(SubAligned(a.limbs, o.limbs, i));
    MulSub(BPow(a.exp), Num(a.limbs), Mul(BPow(i), Num(o.limbs)));
    OneLimb(Trim(SubAligned(a.limbs, o.limbs, i)));
  }

  lemma OneLimb(s: seq<Bigit>)
    requires s != [] && (|s| == 1 || s[|s| - 1] != 0)
    ensures Big(s, 0).Normal() || s == [0]
  {
    if |s| == 1 && s[0] == 0 { assert s == [0]; }
  }

  /** Both values on the dividend's exponent. */
  lemma AlignedValues(a: Big, o: Big)
    requires a.exp <= o.exp && o.Value() <= a.Value()
    ensures o.Value() == Mul(BPow(a.exp), Mul(BPow(o.exp - a.exp), Num(o.limbs)))
    ensures Mul(BPow(o.exp - a.exp), Num(o.limbs)) <= Num(a.limbs)
  {
    hide Mul, Num, BPow;
    var (p, q, n) := (BPow(a.exp), BPow(o.exp - a.exp), Num(o.limbs));
    BPowAdd(a.exp, o.exp - a.exp);
    MulAssoc(p, q, n);
    if Mul(q, n) > Num(a.limbs) {
      MulLess(p, Num(a.limbs), Mul(q, n));
      assert false;
    }
  }

  /** One pass takes the divisor off once exactly when it does not borrow from a
      zero limb. */
  lemma DivStepExactIff(a: Big, o: Big)
    requires a.Normal() && o.Normal() && a.exp <= o.exp && o.Value() <= a.Value()
    ensures o.NumBigits() <= a.NumBigits()
    ensures DivStep(a, o).Value() == a.Value() - o.Value() <==> !BorrowsFromZero(a.limbs, o.limbs, o.exp - a.exp)
  {
    hide Mul, Num, BPow, SubAligned, Trim, BorrowsFromZero;
    if o.NumBigits() > a.NumBigits() { MoreBigits(o, a); }
    var i := o.exp - a.exp;
    var (p, n, r) := (BPow(a.exp), Num(a.limbs), Num(SubAligned(a.limbs, o.limbs, i)));
    AlignedValues(a, o);
    SubExactIff(a.limbs, o.limbs, i);
    TrimNum(SubAligned(a.limbs, o.limbs, i));
    var m := n - Mul(BPow(i), Num(o.limbs));
    MulSub(p, n, Mul(BPow(i), Num(o.limbs)));
    if r < m { MulLess(p, r, m); }
    if r > m { MulLess(p, m, r); }
  }

  lemma NoBorrowFromZero(a: Big, o: Big)
    requires a.Normal() && o.Normal() && a.exp <= o.exp && o.NumBigits() <= a.NumBigits() <= o.NumBigits() + 1
    requires Mul(BPow(o.exp - a.exp), Num(o.limbs)) <= Num(a.limbs)
    ensures !BorrowsFromZero(a.limbs, o.limbs, o.exp - a.exp)
  {
    hide Mul, Num, BPow, SubDigits;
    var i := o.exp - a.exp;
    var s := a.limbs[i..i + |o.limbs|];
    if i + |o.limbs| == |a.limbs| {
      TopNeedsNoBorrow(a.limbs, o.limbs, i);
    }
  }

  /** Dropping low limbs keeps a bound that is a multiple of their power. */
  lemma HighAtLeast(s: seq<Bigit>, i: nat, n: nat)
    requires i <= |s| && Mul(BPow(i), n) <= Num(s)
    ensures n <= Num(s[i..])
  {
    hide Mul, Num, BPow;
    assert s == s[..i] + s[i..];
    NumConcat(s[..i], s[i..]);
    NumBound(s[..i]);
    if n > Num(s[i..]) {
      MulMono(BPow(i), Num(s[i..]) + 1, n);
      MulAdd(BPow(i), Num(s[i..]), 1);
      MulOne(BPow(i));
      assert false;
    }
  }

  // ---- The dividing loop

  /** The dividend for which `divmod_assign` answers 0 in place of 1. */
  predicate MissesOne(a: Big, o: Big) {
    a.Value() == o.Value() && a.exp > o.exp
  }

  /** After `q` passes `r` is left of the dividend `a`. */
  ghost predicate InDivision(a: Big, r: Big, o: Big, q: nat) {
    && o.Normal() && (r.Normal() || r.limbs == [0]) && r.exp <= o.exp && r.NumBigits() <= o.NumBigits() + 1
    && q <= INT_MAX && a.Value() == Mul(o.Value(), q) + r.Value() && a.Value() < Mul(o.Value(), INT_MAX + 1)
  }

  /** A dividend that is at least the divisor, aligned, starts the loop. */
  lemma AlignedFits(a: Big, o: Big)
    requires o.Normal() && a.Canon(o.exp) && CompareResult(a, o) >= 0 && a.Value() < Mul(o.Value(), INT_MAX + 1)
    ensures InDivision(a, AlignedBig(a, o.exp), o, 0) && o.Value() <= a.Value() && !MissesOne(a, o)
    ensures AlignedBig(a, o.exp).Value() == a.Value()
  {
    hide Mul, Num, BPow;
    MulZero(o.Value());
    NormalPositive(o);
    if a.limbs == [0] { ZeroValue(a); }
    AlignedKeeps(a, o.exp);
    MulIntRange(o.Value());
    OneMoreLimb(AlignedBig(a, o.exp), o);
  }

  /** One pass keeps the relation and makes the remainder smaller. */
  lemma DivPass(a: Big, r: Big, o: Big, q: nat)
    requires InDivision(a, r, o, q) && o.Value() <= r.Value()
    ensures r.Normal() && o.NumBigits() <= r.NumBigits()
    ensures !BorrowsFromZero(r.limbs, o.limbs, o.exp - r.exp)
    ensures InDivision(a, DivStep(r, o), o, q + 1) && DivStep(r, o).Value() < r.Value()
  {
    hide Mul, Num, BPow, DivStep, BorrowsFromZero;
    NormalPositive(o);
    if r.limbs == [0] { ZeroValue(r); }
    DivStepExact(r, o);
    MulAdd(o.Value(), q, 1);
    MulOne(o.Value());
    MulCancelLess(o.Value(), q + 1, INT_MAX + 1);
  }

  // ---- When the loop ends

  function DivIter(a: Big, o: Big, n: nat): Big
    requires o.Normal()
    decreases n
  {
    if n == 0 || a.exp > o.exp || a.NumBigits() < o.NumBigits() then a else DivIter(DivStep(a, o), o, n - 1)
  }

  /** With two limbs more, a pass leaves the top limb and the size alone. */
  lemma DivStepKeepsTop(a: Big, o: Big)
    requires a.Normal() && o.Normal() && a.exp <= o.exp && a.NumBigits() >= o.NumBigits() + 2
    ensures DivStep(a, o).Normal() && DivStep(a, o).exp == a.exp && DivStep(a, o).NumBigits() == a.NumBigits()
  {
    hide SubAligned, Num, BPow;
    var r := SubAligned(a.limbs, o.limbs, o.exp - a.exp);
    assert r[|r| - 1] == a.limbs[|r| - 1];
  }

  /** With two limbs more than the divisor the dividend keeps its top limb for
      ever: the loop never ends. */
  lemma {:induction false} DivNeverEnds(a: Big, o: Big, n: nat)
    requires a.Normal() && o.Normal() && a.exp <= o.exp && a.NumBigits() >= o.NumBigits() + 2
    ensures DivIter(a, o, n).Value() > o.Value()
    decreases n
  {
    hide Mul, DivStep, Num, BPow;
    if n == 0 {
      MoreBigits(a, o);
    } else {
      DivStepKeepsTop(a, o);
      DivNeverEnds(DivStep(a, o), o, n - 1);
    }
  }

  /** With at most one limb more, `n` passes take the divisor off `n` times. */
  lemma {:induction false} DivIterExact(a: Big, o: Big, n: nat)
    requires o.Normal() && (a.Normal() || a.limbs == [0]) && a.exp <= o.exp && a.NumBigits() <= o.NumBigits() + 1
    requires Mul(o.Value(), n) <= a.Value()
    ensures DivIter(a, o, n).Value() == a.Value() - Mul(o.Value(), n)
    decreases n
  {
    hide Mul, DivStep, Num, BPow;
    if n == 0 {
      MulZero(o.Value());
    } else {
      NormalPositive(o);
      MulAdd(o.Value(), n - 1, 1);
      MulOne(o.Value());
      if a.limbs == [0] { ZeroValue(a); }
      DivStepExact(a, o);
      DivIterExact(DivStep(a, o), o, n - 1);
    }
  }

  /** Two limbs more mean a quotient of at least 2^32. */
  lemma TwoMoreLimbs(a: Big, o: Big)
    requires a.Normal() && a.NumBigits() >= o.NumBigits() + 2
    ensures a.Value() >= B * o.Value()
  {
    hide Mul, Num;
    ValueLower(a);
    ValueUpper(o);
    BPowMonotone(o.NumBigits() + 1, a.NumBigits() - 1);
  }

  /** A quotient below 2^32 means at most one limb more. */
  lemma OneMoreLimb(a: Big, o: Big)
    requires a.Normal() && o.Normal() && a.Value() < B * o.Value()
    ensures a.NumBigits() <= o.NumBigits() + 1
  {
    if a.NumBigits() >= o.NumBigits() + 2 {
      TwoMoreLimbs(a, o);
    }
  }

  /** The dividing loop ends exactly when the dividend has at most one limb more. */
  lemma DivEndsIff(a: Big, o: Big)
    requires a.Normal() && o.Normal() && a.exp <= o.exp
    ensures (exists n: nat :: DivIter(a, o, n).Value() < o.Value()) <==> a.NumBigits() <= o.NumBigits() + 1
  {
    hide Mul, DivIter, Num, BPow;
    var v := o.Value();
    if a.NumBigits() >= o.NumBigits() + 2 {
      forall n: nat ensures DivIter(a, o, n).Value() >= v {
        DivNeverEnds(a, o, n);
      }
    } else {
      NormalPositive(o);
      MulMono(a.Value() + 1, 1, v);
      MulOne(a.Value() + 1);
      MulComm(v, a.Value() + 1);
      var n := FloorQuotient(a.Value(), v, a.Value());
      DivIterExact(a, o, n);
      assert DivIter(a, o, n).Value() < v;
    }
  }

  /** The quotient, an int, overflows exactly when the floor quotient exceeds
      its range: the loop's guard still holds after `INT_MAX` passes. */
  lemma QuotientOverflowsIff(a: Big, o: Big)
    requires a.Normal() && o.Normal() && a.exp <= o.exp && o.Value() <= a.Value()
    ensures (forall n: nat :: n <= INT_MAX ==> DivIter(a, o, n).Value() >= o.Value()) <==>
            a.Value() >= Mul(o.Value(), INT_MAX + 1)
  {
    hide Mul, DivIter, Num, BPow;
    if a.NumBigits() >= o.NumBigits() + 2 {
      TwoMoreLimbs(a, o);
      MulIntRange(o.Value());
      forall n: nat ensures DivIter(a, o, n).Value() >= o.Value() {
        DivNeverEnds(a, o, n);
      }
    } else {
      QuotientOverflowsNear(a, o);
    }
  }

  lemma MulIntRange(x: nat)
    ensures Mul(x, INT_MAX + 1) <= B * x
  {
  }

  lemma QuotientOverflowsNear(a: Big, o: Big)
    requires a.Normal() && o.Normal() && a.exp <= o.exp && o.Value() <= a.Value()
    requires a.NumBigits() <= o.NumBigits() + 1
    ensures (forall n: nat :: n <= INT_MAX ==> DivIter(a, o, n).Value() >= o.Value()) <==>
            a.Value() >= Mul(o.Value(), INT_MAX + 1)
  {
    hide Mul, DivIter, Num, BPow;
    var v := o.Value();
    if a.Value() >= Mul(v, INT_MAX + 1) {
      forall n: nat | n <= INT_MAX ensures DivIter(a, o, n).Value() >= v {
        MulMono(v, n + 1, INT_MAX + 1);
        MulAdd(v, n, 1);
        MulOne(v);
        DivIterExact(a, o, n);
      }
    } else {
      var n := FloorQuotient(a.Value(), v, INT_MAX);
      DivIterExact(a, o, n);
    }
  }

  /** The number of times `d` goes into `v`, when it is at most `m`. */
  lemma {:induction false} FloorQuotient(v: nat, d: nat, m: nat) returns (n: nat)
    requires v < Mul(d, m + 1)
    ensures n <= m && Mul(d, n) <= v < Mul(d, n) + d
    decreases m
  {
    hide Mul;
    MulAdd(d, m, 1);
    MulOne(d);
    if Mul(d, m) <= v {
      n := m;
    } else {
      MulZero(d);
      n := FloorQuotient(v, d, m - 1);
    }
  }
}

/** The multi-limb number class behind the digit generator. */
module BigintClass {
  import opened Machine
  import opened Multiplication
  import opened Limbs
  import opened BigintValue
  import opened BigintPower
  import opened BigintDivide

  // ---- Lemmas about single limbs

  /** The product of two 32-bit numbers and a carry fits 64 bits. */
  lemma Product32(v: Bigit, b: Bigit, c: Bigit)
    ensures Mul(v, b) + c < UINT64 && High(v, b, c) < B
  {
    assert Mul(B - 1, B - 1) == 0xFFFF_FFFE_0000_0001;
    hide Mul, Low, High;
    MulBound(v, b, B - 1, B - 1);
    LowHigh(v, b, c);
  }

  /** One step of the wide multiplication by halves is one step of schoolbook
      multiplication; `k` is the half's base over 2^32. */
  lemma WideStep(upper: nat, lower: nat, k: nat, b: Bigit, carry: nat)
    ensures var (value, result) := (upper * (k * B) + lower, Mul(lower, b) + carry % B);
      && result % B == Low(value, b, carry)
      && Mul(Mul(upper, b), k) + result / B + carry / B == High(value, b, carry)
  {
    var (value, result) := (upper * (k * B) + lower, Mul(lower, b) + carry % B);
    var rest := Mul(Mul(upper, b), k) + carry / B;
    WideSplit(upper, lower, k, b);
    hide Mul;
    DivMod(carry);
    DivMod(result);
    DivUnique(Mul(value, b) + carry, rest + result / B, result % B);
  }

  lemma WideSplit(upper: nat, lower: nat, k: nat, b: nat)
    ensures Mul(upper * (k * B) + lower, b) == B * Mul(Mul(upper, b), k) + Mul(lower, b)
  {
    assert upper * (k * B) == B * Mul(upper, k);
    MulAddLeft(B * Mul(upper, k), lower, b);
    MulScale(Mul(upper, k), b);
    MulSwap(upper, k, b);
  }

  lemma DivUnique(x: nat, q: nat, r: nat)
    requires x == B * q + r && r < B
    ensures x / B == q && x % B == r
  {
  }

  /** A carry never exceeds the multiplier. */
  lemma CarryBelow(value: nat, b: Bigit, carry: nat)
    requires carry <= value
    ensures High(value, b, carry) <= value
  {
    hide Mul;
    LowHigh(value, b, carry);
    MulMono(value, b, B - 1);
    MulAdd(value, B - 1, 1);
    MulOne(value);
    MulComm(value, B);
    MulByB(value);
  }

  /** Shifting one limb by less than 32 bits is multiplying by a power of two. */
  lemma ShiftLimb(b: Bigit, p: nat, q: nat, c: nat)
    requires p > 0 && Mul(p, q) == B && c < p
    ensures q > 0
    ensures Mul(p, b) % B + c == Low(p, b, c) && b / q == High(p, b, c) < p
  {
    var h, r := ShiftParts(b, p, q);
    hide Mul;
    MulComm(p, q);
    ShiftDigits(p, q, h, r, c);
    MulAdd(p, Mul(q, h), r);
    MulAssoc(p, q, h);
    MulByB(h);
    DivUnique(Mul(p, b), h, Mul(p, r));
    DivUnique(Mul(p, b) + c, h, Mul(p, r) + c);
  }

  lemma ShiftParts(b: Bigit, p: nat, q: nat) returns (h: nat, r: nat)
    requires p > 0 && Mul(p, q) == B
    ensures q > 0 && h == b / q && r < q && b == Mul(q, h) + r
  {
    h, r := b / q, b % q;
  }

  lemma ShiftDigits(p: nat, q: nat, h: nat, r: nat, c: nat)
    requires Mul(p, q) == B == Mul(q, p) && r < q && c < p && Mul(q, h) < B
    ensures h < p && Mul(p, r) + c < B
  {
    hide Mul;
    MulMono(p, r + 1, q);
    MulAdd(p, r, 1);
    MulOne(p);
    if h >= p { MulMono(q, p, h); assert false; }
  }

  lemma SubAlignedIs(a: seq<Bigit>, o: seq<Bigit>, i: nat, d: seq<Bigit>, b: bool)
    requires i + |o| <= |a| && SubDigits(a[i..i + |o|], o, false) == (d, b)
    ensures SubAligned(a, o, i) == a[..i] + d + SpendTop(a[i + |o|..], b) && |d| == |o|
    ensures b && i + |o| == |a| ==> BorrowsFromZero(a, o, i)
  {
    hide SubDigits, SpendTop;
  }

  /** The limbs after both loops of `subtract_aligned`. */
  lemma SubtractedRuns(x: seq<Bigit>, d: seq<Bigit>, t: seq<Bigit>, b: bool, r: seq<Bigit>)
    requires b ==> t != []
    requires var (joined, i) := (x + d + t, |x| + |d|); r == if b then joined[i := SpendBorrow(joined[i])] else joined
    ensures r == x + d + SpendTop(t, b)
  {
    hide SpendBorrow;
    if b {
      StoredThird(x, d, t, SpendBorrow(t[0]));
    }
  }

  /** Elements are being moved up by `difference` from the last one down, and
      `i` is the next. */
  ghost predicate Moving<T>(s: seq<T>, r: seq<T>, i: int, difference: nat) {
    && -1 <= i < |s| && |r| == |s| + difference
    && (forall k :: 0 <= k <= i ==> r[k] == s[k])
    && r[i + 1 + difference..] == s[i + 1..]
  }

  lemma MovedOne<T>(s: seq<T>, r: seq<T>, i: int, difference: nat)
    requires Moving(s, r, i, difference) && i >= 0 && difference > 0
    ensures Moving(s, r[i + difference := r[i]], i - 1, difference)
  {
    assert r[i + difference := r[i]][i + difference..] == [s[i]] + r[i + 1 + difference..];
    assert s[i..] == [s[i]] + s[i + 1..];
  }

  lemma StartMoving<T>(s: seq<T>, room: seq<T>, difference: nat)
    requires |room| == |s| + difference && room[..|s|] == s
    ensures Moving(s, room, |s| - 1, difference)
  {
    forall k | 0 <= k < |s| ensures room[k] == s[k] { assert room[k] == room[..|s|][k]; }
  }

  /** Storing the first element of the third of three runs. */
  lemma StoredThird<T>(x: seq<T>, y: seq<T>, z: seq<T>, v: T)
    requires z != []
    ensures (x + y + z)[|x| + |y|] == z[0] && (x + y + z)[|x| + |y| := v] == x + y + ([v] + z[1..])
  {
  }

  class Bigint {
    var bigits: seq<Bigit>
    var exp: nat

    ghost function Abs(): Big
      reads this
    {
      Big(bigits, exp)
    }

    constructor ()
      ensures bigits == [] && exp == 0
    {
      bigits, exp := [], 0;
    }

    /** `n` is a 64- or 128-bit number. */
    method Assign(n: nat)
      requires 0 < n < UINT128
      modifies this
      ensures Abs() == Big(Spill(n), 0)
    {
      var rest: nat := n;
      bigits := [];
      while rest != 0
        invariant bigits + Spill(rest) == Spill(n)
        decreases rest
      {
        bigits := bigits + [rest % B];
        rest := rest / B;
      }
      exp := 0;
    }

    method AssignCopy(other: Bigint)
      requires other != this
      modifies this
      ensures Abs() == other.Abs()
    {
      bigits, exp := other.bigits, other.exp;
    }

    /** `multiply` by a 32-bit number. */
    method Multiply32(value: Bigit)
      requires value > 0
      modifies `bigits
      ensures bigits == MulCarry(old(bigits), value, 0)
    {
      var carry: Bigit := 0;
      ghost var s := bigits;
      assert s[0..] == s && s[|s|..] == [];
      for i := 0 to |bigits|
        invariant |bigits| == |s| && bigits[i..] == s[i..]
        invariant bigits[..i] + MulCarry(s[i..], value, carry) == MulCarry(s, value, 0)
      {
        assert bigits[i] == bigits[i..][0] == s[i];
        var low, high := Limb32(bigits[i], value, carry);
        MulCarryStep(s, i, value, carry, bigits[..i]);
        Stored(bigits, i, low);
        bigits := bigits[i := low];
        carry := high;
      }
      SpillNum(carry);
      if carry != 0 {
        bigits := bigits + [carry];
      }
    }

    /** The 64-bit product of a limb, split into limb and carry. */
    static method Limb32(b: Bigit, value: Bigit, carry: Bigit) returns (low: Bigit, high: Bigit)
      ensures low == Low(value, b, carry) && high == High(value, b, carry)
    {
      Product32(value, b, carry);
      var result := Mul(value, b) + carry;
      assert result < UINT64;
      low, high := result % B, result / B;
    }

    /** `multiply` by a 64-bit number, or a 128-bit one when `is128`, by halves. */
    method MultiplyWide(value: nat, is128: bool)
      requires 0 < value < if is128 then UINT128 else UINT64
      modifies `bigits
      ensures bigits == MulCarry(old(bigits), value, 0)
    {
      hide Low, High;
      var carry: nat := 0;
      ghost var s := bigits;
      assert s[0..] == s && s[|s|..] == [];
      for i := 0 to |bigits|
        invariant |bigits| == |s| && bigits[i..] == s[i..]
        invariant carry <= value
        invariant bigits[..i] + MulCarry(s[i..], value, carry) == MulCarry(s, value, 0)
      {
        assert bigits[i] == bigits[i..][0] == s[i];
        var low, high := LimbWide(bigits[i], value, is128, carry);
        MulCarryStep(s, i, value, carry, bigits[..i]);
        Stored(bigits, i, low);
        bigits := bigits[i := low];
        carry := high;
      }
      PushCarry(carry);
    }

    /** The final loop of the wide multiplication. */
    method PushCarry(value: nat)
      modifies `bigits
      ensures bigits == old(bigits) + Spill(value)
    {
      var carry := value;
      while carry != 0
        invariant 0 <= carry && bigits + Spill(carry) == old(bigits) + Spill(value)
        decreases carry
      {
        bigits := bigits + [carry % B];
        carry := carry / B;
      }
    }

    /** One limb of the wide product; no intermediate exceeds the wide type. */
    static method LimbWide(b: Bigit, value: nat, is128: bool, carry: nat) returns (low: Bigit, high: nat)
      requires carry <= value < if is128 then UINT128 else UINT64
      ensures low == Low(value, b, carry) && high == High(value, b, carry) <= value
    {
      hide Mul, Low, High;
      var half := if is128 then UINT64 else B;
      var lower, upper, shift := value % half, value / half, half / B;
      WideStep(upper, lower, shift, b, carry);
      CarryBelow(value, b, carry);
      MulBound(lower, b, half - 1, B - 1);
      var result := Mul(lower, b) + carry % B;
      MulLiteral(is128);
      assert result < if is128 then UINT128 else UINT64;
      low := result % B;
      high := Mul(Mul(upper, b), shift) + result / B + carry / B;
    }

    static lemma MulLiteral(is128: bool)
      ensures var half := if is128 then UINT64 else B; Mul(half - 1, B - 1) + B <= half * half
    {
    }

    /** `*=`, which picks the width of the multiplication from the operand's type. */
    method Times(value: nat)
      requires 0 < value < UINT128
      modifies `bigits
      ensures bigits == MulCarry(old(bigits), value, 0)
    {
      if value < B {
        Multiply32(value);
      } else if value < UINT64 {
        MultiplyWide(value, false);
      } else {
        MultiplyWide(value, true);
      }
    }

    /** `<<=`. */
    method ShiftLeft(shift: nat)
      modifies this
      ensures Abs() == ShiftedBig(old(Abs()), shift)
    {
      exp := exp + shift / 32;
      var sh := shift % 32;
      if sh == 0 {
        return;
      }
      var p, q := Pow(2, sh), Pow(2, 32 - sh);
      ShiftPowers(sh);
      var carry: Bigit := 0;
      ghost var s := bigits;
      assert s[0..] == s && s[|s|..] == [];
      for i := 0 to |bigits|
        invariant |bigits| == |s| && bigits[i..] == s[i..] && exp == old(exp) + shift / 32
        invariant carry < p
        invariant bigits[..i] + MulCarry(s[i..], p, carry) == MulCarry(s, p, 0)
      {
        assert bigits[i] == bigits[i..][0] == s[i];
        var low, high := LimbShift(bigits[i], p, q, carry);
        MulCarryStep(s, i, p, carry, bigits[..i]);
        Stored(bigits, i, low);
        bigits := bigits[i := low];
        carry := high;
      }
      SpillNum(carry);
      if carry != 0 {
        bigits := bigits + [carry];
      }
    }

    static method LimbShift(b: Bigit, p: nat, q: nat, carry: Bigit) returns (low: Bigit, high: Bigit)
      requires p > 0 && Mul(p, q) == B && carry < p
      ensures low == Low(p, b, carry) && high == High(p, b, carry) && high < p
    {
      ShiftLimb(b, p, q, carry);
      var c := b / q;
      low, high := Mul(p, b) % B + carry, c;
    }

    /** The search for the top bit; no shift leaves the range of an int. */
    static method FindTopBit(e: nat) returns (bitmask: nat)
      requires 0 < e < POW10_LIMIT
      ensures bitmask <= e < 2 * bitmask && IsMask(bitmask)
    {
      bitmask := 1;
      while e >= bitmask
        invariant 0 < bitmask <= 2 * e && IsMask(bitmask)
        invariant bitmask > 1 ==> IsMask(bitmask / 2) && bitmask / 2 <= e
        decreases 2 * e - bitmask
      {
        assert 2 * bitmask <= INT_MAX;
        bitmask := 2 * bitmask;
      }
      bitmask := bitmask / 2;
    }

    /** `assign_pow10`: repeated squaring of 5, then a shift. */
    method AssignPow10(e: nat)
      requires e < POW10_LIMIT
      modifies this
      ensures Abs().Normal() && Abs().Value() == Pow(10, e) && exp == e / 32
    {
      if e == 0 {
        Assign(1);
        SpillNum(1);
        SmallValue(bigits);
        return;
      }
      var bitmask := FindTopBit(e);
      Assign(5);
      SpillNum(5);
      assert Pow(5, 1) == 5;
      FirstBit(e, bitmask);
      bitmask := bitmask / 2;
      while bitmask != 0
        invariant exp == 0 && Abs().Normal() && 0 <= bitmask
        invariant Num(bigits) == Pow(5, Consumed(e, bitmask))
        decreases bitmask
      {
        NextBit(e, bitmask);
        SquareAndMultiply(Consumed(e, bitmask), BitSet(e, bitmask));
        bitmask := bitmask / 2;
      }
      FiveTimesTwo(bigits, e);
      ShiftedValue(Abs(), e);
      ShiftLeft(e);
    }

    /** One bit of the exponent. */
    method SquareAndMultiply(ghost k: nat, odd: bool)
      requires Abs().Normal() && exp == 0 && Num(bigits) == Pow(5, k) && k < POW10_LIMIT
      modifies this
      ensures Abs().Normal() && exp == 0 && Num(bigits) == Pow(5, 2 * k + if odd then 1 else 0)
    {
      hide Mul, Num, Pow, BPow, Squared, MulCarry;
      FivesFit(bigits, k);
      SquareOfPower(bigits, k);
      Square();
      if odd {
        TimesFive(bigits, 2 * k);
        Times(5);
      }
    }

    /** `compare`. */
    static method Compare(lhs: Bigint, rhs: Bigint) returns (result: int)
      ensures result == CompareAnswer(lhs.Abs(), rhs.Abs())
      ensures rhs.Abs().Normal() && lhs.Abs().Canon(rhs.exp) ==> result == CompareResult(lhs.Abs(), rhs.Abs())
    {
      hide Mul, Num, BPow, Top, CompareResult;
      ghost var l, r := lhs.Abs(), rhs.Abs();
      if r.Normal() && l.Canon(r.exp) { CompareAnswerIs(l, r); }
      var numLhs, numRhs := |lhs.bigits| + lhs.exp, |rhs.bigits| + rhs.exp;
      if numLhs != numRhs {
        return if numLhs > numRhs then 1 else -1;
      }
      var i, j := |lhs.bigits| - 1, |rhs.bigits| - 1;
      var end := if i - j < 0 then 0 else i - j;
      TopsAgree(l, r);
      while i >= end
        invariant end - 1 <= i < |l.limbs| && j < |r.limbs| && i + l.exp == j + r.exp
        invariant Top(l, i + 1 + l.exp) == Top(r, i + 1 + l.exp)
      {
        var lhsBigit, rhsBigit := lhs.bigits[i], rhs.bigits[j];
        LimbsDecide(l, r, i + l.exp);
        if lhsBigit != rhsBigit {
          return if lhsBigit > rhsBigit then 1 else -1;
        }
        i, j := i - 1, j - 1;
      }
      TailsDecide(l, r, end + l.exp);
      if i != j {
        return if i > j then 1 else -1;
      }
      return 0;
    }

    /** `add_compare`: the order of `lhs1 + lhs2` and `rhs`. */
    static method AddCompare(lhs1: Bigint, lhs2: Bigint, rhs: Bigint) returns (result: int)
      requires rhs.Abs().Normal() && lhs1.Abs().Canon(rhs.exp) && lhs2.Abs().Canon(rhs.exp)
      ensures result == Sign(lhs1.Abs().Value() + lhs2.Abs().Value() - rhs.Abs().Value())
    {
      hide Mul, Num, BPow, Top, Shortfall;
      ghost var l1, l2, r := lhs1.Abs(), lhs2.Abs(), rhs.Abs();
      var size1, size2 := |lhs1.bigits| + lhs1.exp, |lhs2.bigits| + lhs2.exp;
      var maxLhs := if size1 > size2 then size1 else size2;
      var numRhs := |rhs.bigits| + rhs.exp;
      if maxLhs + 1 < numRhs {
        SumTooShort(l1, l2, r);
        return -1;
      }
      if maxLhs > numRhs {
        SumTooLong(l1, l2, r);
        return 1;
      }
      var minExp := if lhs1.exp < lhs2.exp then lhs1.exp else lhs2.exp;
      if rhs.exp < minExp { minExp := rhs.exp; }
      ShortfallAtTop(l1, l2, r);
      var borrow := 0;
      var i := numRhs - 1;
      while i >= minExp
        invariant minExp - 1 <= i < numRhs
        invariant borrow == B * Shortfall(l1, l2, r, i + 1) && (borrow == 0 || borrow == B)
      {
        ShortfallStep(l1, l2, r, i);
        ShortfallDecides(l1, l2, r, i);
        var sum := GetBigit(lhs1, i) as int + GetBigit(lhs2, i) as int;
        var rhsBigit := GetBigit(rhs, i) as int;
        if sum > rhsBigit + borrow {
          return 1;
        }
        borrow := rhsBigit + borrow - sum;
        assert borrow < UINT64;
        if borrow > 1 {
          return -1;
        }
        borrow := borrow * B;
        i := i - 1;
      }
      ShortfallScales(l1, l2, r, minExp);
      return if borrow != 0 then -1 else 0;
    }

    static function GetBigit(n: Bigint, i: int): Bigit
      reads n
    {
      if i >= n.exp && i < |n.bigits| + n.exp then n.bigits[i - n.exp] else 0
    }

    /** `align`: moves the limbs up so that the exponent is not above the other's. */
    method Align(other: Bigint)
      requires other != this
      modifies this
      ensures Abs() == AlignedBig(old(Abs()), other.exp)
    {
      var difference := exp - other.exp;
      if difference <= 0 {
        return;
      }
      bigits := MoveUp(bigits, difference);
      exp := exp - difference;
    }

    /** The moving loop and the memset of `align`. */
    static method MoveUp(s: seq<Bigit>, difference: nat) returns (r: seq<Bigit>)
      requires difference > 0
      ensures r == Zeros(difference) + s
    {
      r := MoveLimbs(s, s + Zeros(difference), difference);
      r := Zeros(difference) + r[difference..];
    }

    /** The loop, from the last limb down. */
    static method MoveLimbs(s: seq<Bigit>, room: seq<Bigit>, difference: nat) returns (r: seq<Bigit>)
      requires difference > 0 && |room| == |s| + difference && room[..|s|] == s
      ensures |r| == |room| && r[difference..] == s
    {
      r := room;
      var i := |s| - 1;
      StartMoving(s, room, difference);
      while i >= 0
        invariant Moving(s, r, i, difference)
      {
        MovedOne(s, r, i, difference);
        r := r[i + difference := r[i]];
        i := i - 1;
      }
      assert s[0..] == s;
    }

    /** One `subtract_bigits`: the limb and the borrow it leaves. */
    static function SubtractBigit(x: Bigit, other: Bigit, borrow: Bigit): (r: (Bigit, Bigit))
      requires borrow <= 1
      ensures r.1 <= 1
    {
      var result := x as int - other as int - borrow as int;
      if result < 0 then (result + B, 1) else (result, 0)
    }

    /** `subtract_aligned`.  Whether it is exact is a matter of `BorrowsFromZero`. */
    method SubtractAligned(other: Bigint)
      requires other != this && other.exp >= exp && other.exp + |other.bigits| <= exp + |bigits| && bigits != []
      requires other.exp + |other.bigits| == exp + |bigits| ==> !BorrowsFromZero(bigits, other.bigits, other.exp - exp)
      modifies `bigits
      ensures bigits == Trim(SubAligned(old(bigits), other.bigits, other.exp - exp))
    {
      hide SubDigits, SpendBorrow, SpendTop, SubAligned, BorrowsFromZero, Trim;
      var start := other.exp - exp;
      var i := start + |other.bigits|;
      var digits, borrow := SubtractLimbs(bigits[start..i], other.bigits);
      ghost var x, t := bigits[..start], bigits[i..];
      SubAlignedIs(bigits, other.bigits, start, digits, borrow > 0);
      bigits := bigits[..start] + digits + bigits[i..];
      if borrow > 0 {
        SpendBorrowAt(i);
      }
      SubtractedRuns(x, digits, t, borrow > 0, bigits);
      RemoveLeadingZeros();
    }

    /** The second loop of `subtract_aligned`, which stays at limb `i`. */
    method SpendBorrowAt(i: nat)
      requires i < |bigits|
      modifies `bigits
      ensures bigits == old(bigits)[i := SpendBorrow(old(bigits)[i])]
    {
      ghost var x := bigits[i];
      var borrow: Bigit := 1;
      while borrow > 0
        invariant |bigits| == |old(bigits)| && borrow <= 1
        invariant bigits == old(bigits)[i := bigits[i]]
        invariant borrow == 1 ==> bigits[i] == x || (x == 0 && bigits[i] == B - 1)
        invariant borrow == 0 ==> bigits[i] == SpendBorrow(x)
        decreases borrow, if bigits[i] == 0 then 1 else 0
      {
        var (y, b) := SubtractBigit(bigits[i], 0, borrow);
        bigits := bigits[i := y];
        borrow := b;
      }
    }

    /** The first loop of `subtract_aligned`. */
    static method SubtractLimbs(x: seq<Bigit>, o: seq<Bigit>) returns (digits: seq<Bigit>, borrow: Bigit)
      requires |x| == |o|
      ensures borrow <= 1 && digits == SubDigits(x, o, false).0 && ((borrow == 1) <==> SubDigits(x, o, false).1)
    {
      hide SubDigits;
      digits, borrow := [], 0;
      NothingSubtracted();
      assert x[0..] == x && o[0..] == o;
      for j := 0 to |o|
        invariant borrow <= 1 && |digits| == j
        invariant digits + SubDigits(x[j..], o[j..], borrow == 1).0 == SubDigits(x, o, false).0
        invariant SubDigits(x[j..], o[j..], borrow == 1).1 == SubDigits(x, o, false).1
      {
        SubDigitsStep(x, o, j, borrow == 1, digits);
        var (y, b) := SubtractBigit(x[j], o[j], borrow);
        digits := digits + [y];
        borrow := b;
      }
    }

    static lemma NothingSubtracted()
      ensures SubDigits([], [], false) == ([], false) && SubDigits([], [], true) == ([], true)
    {
    }

    /** `divmod_assign`: the floor quotient, leaving the remainder.  One case
        differs: of two equal values the one with the higher exponent counts as
        the smaller, so the quotient is 0.  The premise keeps the quotient an int. */
    method DivmodAssign(divisor: Bigint) returns (quotient: nat)
      requires divisor != this && divisor.Abs().Normal() && Abs().Canon(divisor.exp)
      requires Abs().Value() < Mul(divisor.Abs().Value(), INT_MAX + 1)
      modifies this
      ensures Abs().Canon(divisor.exp) && quotient <= INT_MAX
      ensures old(Abs()).Value() == Mul(divisor.Abs().Value(), quotient) + Abs().Value()
      ensures Abs().Value() < divisor.Abs().Value() <==> !MissesOne(old(Abs()), divisor.Abs())
      ensures quotient == 0 ==> Abs() == old(Abs())
      ensures quotient > 0 ==> exp <= divisor.exp
    {
      hide Mul, Num, BPow, SubAligned, Trim, BorrowsFromZero, Pow;
      ghost var a, d := Abs(), divisor.Abs();
      quotient := 0;
      var order := Compare(this, divisor);
      if order < 0 {
        MulZero(d.Value());
        return;
      }
      AlignedFits(a, d);
      Align(divisor);
      MulZero(d.Value());
      while order >= 0
        invariant divisor.Abs() == d && InDivision(a, Abs(), d, quotient)
        invariant order >= 0 <==> Abs().Value() >= d.Value()
        invariant quotient == 0 ==> order >= 0
        decreases Abs().Value()
      {
        DivPass(a, Abs(), d, quotient);
        SubtractAligned(divisor);
        quotient := quotient + 1;
        order := Compare(this, divisor);
      }
    }

    /** `remove_leading_zeros`. */
    method RemoveLeadingZeros()
      requires bigits != []
      modifies `bigits
      ensures bigits == Trim(old(bigits))
    {
      var n := |bigits| - 1;
      assert bigits[..n + 1] == bigits;
      while n > 0 && bigits[n] == 0
        invariant 0 <= n < |bigits|
        invariant Trim(bigits[..n + 1]) == Trim(bigits)
      {
        assert bigits[..n + 1][..n] == bigits[..n];
        n := n - 1;
      }
      bigits := bigits[..n + 1];
    }

    /** Column `k` of the lower half. */
    static method AddLowColumn(n: seq<Bigit>, k: nat, sum0: nat) returns (sum: nat)
      requires k < |n|
      ensures sum == sum0 + PairsFrom(n, 0, k)
    {
      sum := sum0;
      var i, j := 0, k;
      while j >= 0
        invariant 0 <= i <= |n| && j == k - i
        invariant sum + PairsFrom(n, i, k) == sum0 + PairsFrom(n, 0, k)
      {
        sum := sum + Mul(n[i], n[j]);
        i, j := i + 1, j - 1;
      }
    }

    /** Column `k` of the upper half. */
    static method AddHighColumn(n: seq<Bigit>, k: nat, sum0: nat) returns (sum: nat)
      requires |n| <= k < 2 * |n|
      ensures sum == sum0 + PairsFrom(n, k - |n| + 1, k)
    {
      sum := sum0;
      var j := |n| - 1;
      var i := k - j;
      while i < |n|
        invariant 0 <= i <= |n| && j == k - i
        invariant sum + PairsFrom(n, i, k) == sum0 + PairsFrom(n, k - |n| + 1, k)
      {
        sum := sum + Mul(n[i], n[j]);
        i, j := i + 1, j - 1;
      }
    }

    /** The column sum in 128 bits, which cannot overflow. */
    static method ColumnSum(n: seq<Bigit>, k: nat, carry: nat) returns (sum: nat)
      requires k < 2 * |n| && |n| <= MAX_BIGITS && carry <= COLUMN_LIMIT
      ensures sum == carry + Cross(n, n, k) && sum / B <= COLUMN_LIMIT
    {
      ColumnFits(n, k, carry);
      ColumnPairs(n, k);
      if k < |n| {
        sum := AddLowColumn(n, k, carry);
      } else {
        sum := AddHighColumn(n, k, carry);
      }
      assert sum < UINT128;
    }

    /** All columns, lowest first. */
    static method SquareColumns(n: seq<Bigit>) returns (r: seq<Bigit>)
      requires |n| <= MAX_BIGITS
      ensures r == SquareLimbs(n, 0, 2 * |n|, 0)
    {
      assert 2 * |n| <= INT_MAX;
      var carry: nat := 0;
      r := [];
      for k := 0 to 2 * |n|
        invariant |r| == k && carry <= COLUMN_LIMIT
        invariant r + SquareLimbs(n, k, 2 * |n| - k, carry) == SquareLimbs(n, 0, 2 * |n|, 0)
      {
        var sum := ColumnSum(n, k, carry);
        ColumnStep(n, k, 2 * |n| - k, carry, sum, r);
        r := r + [sum % B];
        carry := sum / B;
      }
    }

    /** `square`. */
    method Square()
      requires bigits != [] && |bigits| <= MAX_BIGITS
      modifies this
      ensures bigits == Squared(old(bigits))
      ensures exp == 2 * old(exp)
    {
      bigits := SquareColumns(bigits);
      RemoveLeadingZeros();
      exp := exp * 2;
    }
  }

  const COLUMN_LIMIT := 0x1_0000_0000_0000_0000_0000_0000

  lemma ColumnFits(n: seq<Bigit>, k: nat, sum: nat)
    requires |n| <= MAX_BIGITS && sum <= COLUMN_LIMIT
    ensures sum + Cross(n, n, k) < UINT128
    ensures (sum + Cross(n, n, k)) / B <= COLUMN_LIMIT
  {
    hide Cross;
    CrossBound(n, n, k);
  }

  lemma ShiftPowers(sh: nat)
    requires 0 < sh < 32
    ensures Pow(2, sh) > 0 && Mul(Pow(2, sh), Pow(2, 32 - sh)) == B
  {
    PowAdd(2, sh, 32 - sh);
    Pow2Of32();
  }
}

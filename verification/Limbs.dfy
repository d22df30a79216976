/** Numbers held as 32-bit limbs, least significant first, and the functions
    that the loops of `bigint` compute on them. */
module Limbs {
  import opened Multiplication

  const B := 0x1_0000_0000

  type Bigit = x: int | 0 <= x < 0x1_0000_0000

  function Num(s: seq<nat>): nat {
    if s == [] then 0 else s[0] + B * Num(s[1..])
  }

  function BPow(k: nat): (r: nat)
    ensures r > 0
  {
    if k == 0 then 1 else B * BPow(k - 1)
  }

  /** A limb's weight moves in and out of a product. */
  lemma MulScale(x: nat, y: nat)
    ensures Mul(B * x, y) == B * Mul(x, y) && Mul(x, B * y) == B * Mul(x, y)
  {
    assert (B * x) * y == B * (x * y);
    assert x * (B * y) == B * (x * y);
  }

  lemma {:induction false} BPowAdd(a: nat, b: nat)
    ensures BPow(a + b) == Mul(BPow(a), BPow(b))
  {
    hide Mul;
    if a == 0 {
      MulOne(BPow(b));
    } else {
      BPowAdd(a - 1, b);
      MulScale(BPow(a - 1), BPow(b));
    }
  }

  lemma {:induction false} BPowMonotone(a: nat, b: nat)
    requires a <= b
    ensures BPow(a) <= BPow(b)
    decreases b
  {
    if a < b {
      BPowMonotone(a, b - 1);
    }
  }

  lemma Pow2Of32()
    ensures Pow(2, 32) == B
  {
    assert Pow(2, 8) == 256;
    PowAdd(2, 8, 8);
    PowAdd(2, 16, 16);
  }

  /** 2^32 per limb of exponent. */
  lemma {:induction false} BPowIsPow2(k: nat)
    ensures BPow(k) == Pow(2, 32 * k)
  {
    hide Mul, Pow;
    if k == 0 {
      PowZero(2);
    } else {
      BPowIsPow2(k - 1);
      PowAdd(2, 32, 32 * (k - 1));
      Pow2Of32();
      MulByB(BPow(k - 1));
    }
  }

  lemma PowZero(x: nat)
    ensures Pow(x, 0) == 1
  {
  }

  lemma MulByB(x: nat)
    ensures Mul(B, x) == B * x
  {
  }

  lemma {:induction false} NumConcat(a: seq<nat>, b: seq<nat>)
    ensures Num(a + b) == Num(a) + Mul(BPow(|a|), Num(b))
  {
    hide Mul;
    if a == [] {
      assert a + b == b;
      MulOne(Num(b));
    } else {
      assert (a + b)[1..] == a[1..] + b;
      NumConcat(a[1..], b);
      MulScale(BPow(|a| - 1), Num(b));
    }
  }

  lemma Num3(x: seq<nat>, y: seq<nat>, z: seq<nat>)
    ensures Num(x + y + z) == Num(x) + Mul(BPow(|x|), Num(y) + Mul(BPow(|y|), Num(z)))
  {
    hide Mul, Num, BPow;
    NumConcat(x, y + z);
    NumConcat(y, z);
    assert x + (y + z) == x + y + z;
  }

  lemma {:induction false} NumBound(s: seq<Bigit>)
    ensures Num(s) < BPow(|s|)
  {
    if s != [] {
      NumBound(s[1..]);
    }
  }

  /** A number whose top limb is not zero is at least the power below it. */
  lemma {:induction false} NumTop(s: seq<Bigit>)
    requires s != [] && s[|s| - 1] != 0
    ensures BPow(|s| - 1) <= Num(s)
  {
    if |s| > 1 {
      NumTop(s[1..]);
    }
  }

  lemma NumZero()
    ensures Num([0]) == 0
  {
    assert [0][1..] == [];
  }

  lemma DivMod(x: nat)
    ensures x == x % B + B * (x / B)
  {
  }

  // ---- Multiplication by a small number

  /** The limb and the carry that one limb of a product leaves. */
  function Low(v: nat, b: nat, c: nat): Bigit {
    (Mul(v, b) + c) % B
  }

  function High(v: nat, b: nat, c: nat): nat {
    (Mul(v, b) + c) / B
  }

  lemma LowHigh(v: nat, b: nat, c: nat)
    ensures Mul(v, b) + c == Low(v, b, c) + B * High(v, b, c)
  {
    hide Mul;
    DivMod(Mul(v, b) + c);
  }

  /** The limbs of a number. */
  function Spill(c: nat): seq<Bigit> {
    if c == 0 then [] else [c % B] + Spill(c / B)
  }

  /** The limbs of `v * Num(s) + c`, with all remaining carries appended. */
  function MulCarry(s: seq<Bigit>, v: nat, c: nat): (r: seq<Bigit>)
    decreases |s|
  {
    if s == [] then Spill(c) else [Low(v, s[0], c)] + MulCarry(s[1..], v, High(v, s[0], c))
  }

  lemma {:induction false} SpillNum(c: nat)
    ensures Num(Spill(c)) == c
    ensures c != 0 ==> Spill(c) != [] && Spill(c)[|Spill(c)| - 1] != 0
    ensures c < B ==> Spill(c) == if c == 0 then [] else [c]
  {
    if c != 0 {
      SpillNum(c / B);
      DivMod(c);
      assert ([c % B] + Spill(c / B))[1..] == Spill(c / B);
    }
  }

  lemma {:induction false} MulCarryNum(s: seq<Bigit>, v: nat, c: nat)
    ensures Num(MulCarry(s, v, c)) == Mul(v, Num(s)) + c
    decreases |s|
  {
    hide Mul, Low, High;
    if s == [] {
      SpillNum(c);
      MulZero(v);
    } else {
      var (l, h) := (Low(v, s[0], c), High(v, s[0], c));
      MulCarryNum(s[1..], v, h);
      assert ([l] + MulCarry(s[1..], v, h))[1..] == MulCarry(s[1..], v, h);
      MulAdd(v, s[0], B * Num(s[1..]));
      MulScale(v, Num(s[1..]));
      LowHigh(v, s[0], c);
    }
  }

  /** The top limb stays non-zero under multiplication by a positive number. */
  lemma {:induction false} MulCarryTop(s: seq<Bigit>, v: nat, c: nat)
    requires v > 0 && s != [] && s[|s| - 1] != 0
    ensures var r := MulCarry(s, v, c); |r| >= |s| && r[|r| - 1] != 0
    decreases |s|
  {
    hide Mul, Low, High;
    var h := High(v, s[0], c);
    if |s| > 1 {
      MulCarryTop(s[1..], v, h);
    } else {
      assert MulCarry(s, v, c) == [Low(v, s[0], c)] + Spill(h);
      SpillNum(h);
      LowHigh(v, s[0], c);
      MulPositive(v, s[0]);
    }
  }

  /** One more limb done: the loop's next limb and carry continue the product. */
  lemma MulCarryStep(s: seq<Bigit>, i: nat, v: nat, c: nat, done: seq<Bigit>)
    requires i < |s|
    ensures done + MulCarry(s[i..], v, c) == done + [Low(v, s[i], c)] + MulCarry(s[i + 1..], v, High(v, s[i], c))
  {
    hide Low, High;
    assert s[i..][0] == s[i] && s[i..][1..] == s[i + 1..];
    var (x, rest) := (Low(v, s[i], c), MulCarry(s[i + 1..], v, High(v, s[i], c)));
    assert done + [x] + rest == done + ([x] + rest);
  }

  /** Storing element `i` of a sequence extends the part already done. */
  lemma Stored<T>(s: seq<T>, i: nat, x: T)
    requires i < |s|
    ensures s[i := x][..i + 1] == s[..i] + [x] && s[i := x][i + 1..] == s[i + 1..]
  {
  }

  // ---- Subtraction

  /** Subtracts the limbs `o` and a borrow from as many limbs `x`; the second
      result is the borrow left over. */
  function SubDigits(x: seq<Bigit>, o: seq<Bigit>, borrow: bool): (r: (seq<Bigit>, bool))
    requires |o| == |x|
    ensures |r.0| == |x|
    decreases |o|
  {
    if o == [] then ([], borrow)
    else
      var y := x[0] as int - o[0] as int - (if borrow then 1 else 0);
      var (rest, b) := SubDigits(x[1..], o[1..], y < 0);
      ([if y < 0 then y + B else y] + rest, b)
  }

  /** One more limb done. */
  lemma SubDigitsStep(x: seq<Bigit>, o: seq<Bigit>, j: nat, borrow: bool, done: seq<Bigit>)
    requires |o| == |x| && j < |x|
    ensures var y := x[j] as int - o[j] as int - (if borrow then 1 else 0);
      var (z, next) := (if y < 0 then y + B else y, SubDigits(x[j + 1..], o[j + 1..], y < 0));
      && done + SubDigits(x[j..], o[j..], borrow).0 == done + [z] + next.0
      && SubDigits(x[j..], o[j..], borrow).1 == next.1
  {
    assert x[j..][1..] == x[j + 1..] && o[j..][1..] == o[j + 1..];
    var y := x[j] as int - o[j] as int - (if borrow then 1 else 0);
    var z: Bigit := if y < 0 then y + B else y;
    var next := SubDigits(x[j + 1..], o[j + 1..], y < 0);
    assert SubDigits(x[j..], o[j..], borrow) == ([z] + next.0, next.1);
    assert done + ([z] + next.0) == done + [z] + next.0;
  }

  lemma {:induction false} SubDigitsNum(x: seq<Bigit>, o: seq<Bigit>, borrow: bool)
    requires |o| == |x|
    ensures var (r, b) := SubDigits(x, o, borrow);
      Num(r) == Num(x) - Num(o) - (if borrow then 1 else 0) + (if b then BPow(|o|) else 0)
    decreases |o|
  {
    if o != [] {
      var y := x[0] as int - o[0] as int - (if borrow then 1 else 0);
      SubDigitsNum(x[1..], o[1..], y < 0);
      var (rest, b) := SubDigits(x[1..], o[1..], y < 0);
      var z: Bigit := if y < 0 then y + B else y;
      assert ([z] + rest)[1..] == rest;
    }
  }

  // ---- Products of limb sequences

  function Get(s: seq<nat>, k: int): nat {
    if 0 <= k < |s| then s[k] else 0
  }

  /** The sum of the cross products `a[i] * b[j]` with `i + j == k`. */
  function Cross(a: seq<nat>, b: seq<nat>, k: int): nat
    decreases |a|
  {
    if a == [] || k < 0 then 0 else Mul(a[0], Get(b, k)) + Cross(a[1..], b, k - 1)
  }

  /** `m` columns from column `k` on: `Cross(k) + B * Cross(k + 1) + ...`. */
  function Columns(a: seq<nat>, b: seq<nat>, k: int, m: nat): nat
    decreases m
  {
    if m == 0 then 0 else Cross(a, b, k) + B * Columns(a, b, k + 1, m - 1)
  }

  function Shifted(b: seq<nat>, k: int, m: nat): nat
    decreases m
  {
    if m == 0 then 0 else Get(b, k) + B * Shifted(b, k + 1, m - 1)
  }

  lemma {:induction false} ShiftedNum(b: seq<nat>, k: nat, m: nat)
    requires k + m >= |b|
    ensures Shifted(b, k, m) == if k <= |b| then Num(b[k..]) else 0
    decreases m
  {
    if m > 0 {
      ShiftedNum(b, k + 1, m - 1);
      if k < |b| { assert b[k..][1..] == b[k + 1..]; }
    }
  }

  lemma {:induction false} ColumnsEmpty(b: seq<nat>, k: int, m: nat)
    ensures Columns([], b, k, m) == 0
    decreases m
  {
    if m > 0 { ColumnsEmpty(b, k + 1, m - 1); }
  }

  /** One more limb on the left: its row plus the other rows one column later. */
  lemma {:induction false} ColumnsSplit(a: seq<nat>, b: seq<nat>, k: nat, m: nat)
    requires a != []
    ensures Columns(a, b, k, m) == Mul(a[0], Shifted(b, k, m)) + Columns(a[1..], b, k - 1, m)
    decreases m
  {
    hide Mul;
    if m == 0 {
      MulZero(a[0]);
    } else {
      ColumnsSplit(a, b, k + 1, m - 1);
      var s := Shifted(b, k + 1, m - 1);
      MulAdd(a[0], Get(b, k), B * s);
      MulScale(a[0], s);
    }
  }

  /** All columns together are the product. */
  lemma {:induction false} ColumnsProduct(a: seq<nat>, b: seq<nat>, m: nat)
    requires m >= |a| + |b|
    ensures Columns(a, b, 0, m) == Mul(Num(a), Num(b))
    decreases |a|
  {
    hide Mul;
    if a == [] {
      ColumnsEmpty(b, 0, m);
      MulZero(Num(b));
    } else {
      ColumnsSplit(a, b, 0, m);
      ShiftedNum(b, 0, m);
      assert b[0..] == b;
      assert Columns(a[1..], b, -1, m) == Cross(a[1..], b, -1) + B * Columns(a[1..], b, 0, m - 1);
      ColumnsProduct(a[1..], b, m - 1);
      MulAddLeft(a[0], B * Num(a[1..]), Num(b));
      MulScale(Num(a[1..]), Num(b));
    }
  }

  lemma MulAddLeft(x: nat, y: nat, z: nat)
    ensures Mul(x + y, z) == Mul(x, z) + Mul(y, z)
  {
  }

  /** Leading limbs that meet only columns beyond `b` contribute nothing. */
  lemma {:induction false} CrossSkip(a: seq<nat>, b: seq<nat>, k: int, i: nat)
    requires i <= |a| && k - i + 1 >= |b|
    ensures Cross(a, b, k) == Cross(a[i..], b, k - i)
    decreases i
  {
    hide Mul;
    if i == 0 {
      assert a[0..] == a;
    } else if k >= 0 {
      MulZero(a[0]);
      CrossSkip(a[1..], b, k - 1, i - 1);
      assert a[1..][i - 1..] == a[i..];
    }
  }

  lemma {:induction false} CrossBound(a: seq<Bigit>, b: seq<Bigit>, k: int)
    ensures Cross(a, b, k) <= |a| * 0xFFFF_FFFE_0000_0001
    decreases |a|
  {
    if a != [] && k >= 0 {
      CrossBound(a[1..], b, k - 1);
      MulBound(a[0], Get(b, k), B - 1, B - 1);
    }
  }

  // ---- Squaring

  /** The limbs that the column loop of `square` stores, from column `k` on,
      given the carry into that column. */
  function SquareLimbs(n: seq<Bigit>, k: nat, m: nat, carry: nat): (r: seq<Bigit>)
    ensures |r| == m
    decreases m
  {
    if m == 0 then [] else [(carry + Cross(n, n, k)) % B] + SquareLimbs(n, k + 1, m - 1, (carry + Cross(n, n, k)) / B)
  }

  function LastCarry(n: seq<Bigit>, k: nat, m: nat, carry: nat): nat
    decreases m
  {
    if m == 0 then carry else LastCarry(n, k + 1, m - 1, (carry + Cross(n, n, k)) / B)
  }

  lemma {:induction false} SquareLimbsNum(n: seq<Bigit>, k: nat, m: nat, carry: nat)
    ensures Num(SquareLimbs(n, k, m, carry)) + Mul(BPow(m), LastCarry(n, k, m, carry)) == carry + Columns(n, n, k, m)
    decreases m
  {
    hide Mul, Cross;
    if m == 0 {
      MulOne(carry);
    } else {
      var x := carry + Cross(n, n, k);
      SquareLimbsNum(n, k + 1, m - 1, x / B);
      DivMod(x);
      var (rest, last) := (SquareLimbs(n, k + 1, m - 1, x / B), LastCarry(n, k + 1, m - 1, x / B));
      assert ([x % B] + rest)[1..] == rest;
      MulScale(BPow(m - 1), last);
    }
  }

  lemma SquareBound(n: seq<Bigit>)
    ensures Mul(Num(n), Num(n)) < BPow(2 * |n|)
  {
    hide Mul, Num, BPow;
    NumBound(n);
    BPowAdd(|n|, |n|);
    MulMono(Num(n), Num(n), BPow(|n|));
    MulComm(Num(n), BPow(|n|));
    MulLess(BPow(|n|), Num(n), BPow(|n|));
  }

  lemma NothingCarried(p: nat, last: nat, low: nat, total: nat)
    requires low + Mul(p, last) == total < p
    ensures low == total
  {
    hide Mul;
    MulZero(p);
    if last > 0 {
      MulMono(p, 1, last);
      MulOne(p);
      assert false;
    }
  }

  /** The stored limbs are exactly the square. */
  lemma SquareIsExact(n: seq<Bigit>)
    ensures Num(SquareLimbs(n, 0, 2 * |n|, 0)) == Mul(Num(n), Num(n))
  {
    hide *;
    var m := 2 * |n|;
    SquareLimbsNum(n, 0, m, 0);
    ColumnsProduct(n, n, m);
    SquareBound(n);
    NothingCarried(BPow(m), LastCarry(n, 0, m, 0), Num(SquareLimbs(n, 0, m, 0)), Mul(Num(n), Num(n)));
  }

  // ---- Leading zeros

  /** Drops zero limbs from the top, keeping at least one limb. */
  function Trim(s: seq<Bigit>): (r: seq<Bigit>)
    ensures s != [] ==> r != [] && (|r| == 1 || r[|r| - 1] != 0)
    ensures |r| <= |s| && (s != [] && s[|s| - 1] != 0 ==> r == s)
  {
    if |s| > 1 && s[|s| - 1] == 0 then Trim(s[..|s| - 1]) else s
  }

  lemma {:induction false} TrimNum(s: seq<Bigit>)
    ensures Num(Trim(s)) == Num(s)
  {
    hide Mul, Num, BPow;
    if |s| > 1 && s[|s| - 1] == 0 {
      TrimNum(s[..|s| - 1]);
      NumConcat(s[..|s| - 1], [0]);
      assert s[..|s| - 1] + [0] == s;
      NumZero();
      MulZero(BPow(|s| - 1));
    }
  }

  lemma TrimPositive(q: seq<Bigit>)
    requires q != [] && Num(q) > 0
    ensures var r := Trim(q); Num(r) == Num(q) && r != [] && r[|r| - 1] != 0
  {
    hide Num;
    TrimNum(q);
    NumZero();
    if |Trim(q)| == 1 {
      assert Trim(q) == [Trim(q)[0]];
    }
  }

  /** What `square` leaves. */
  function Squared(s: seq<Bigit>): seq<Bigit> {
    Trim(SquareLimbs(s, 0, 2 * |s|, 0))
  }

  lemma SquaredNum(s: seq<Bigit>)
    requires Num(s) > 0 && s != []
    ensures Num(Squared(s)) == Mul(Num(s), Num(s))
    ensures Squared(s) != [] && Squared(s)[|Squared(s)| - 1] != 0
  {
    hide Mul, Num, SquareLimbs, Trim;
    SquareIsExact(s);
    MulPositive(Num(s), Num(s));
    TrimPositive(SquareLimbs(s, 0, 2 * |s|, 0));
  }

  lemma ColumnStep(n: seq<Bigit>, k: nat, m: nat, carry: nat, x: nat, done: seq<Bigit>)
    requires m > 0 && x == carry + Cross(n, n, k)
    ensures done + SquareLimbs(n, k, m, carry) == done + [x % B] + SquareLimbs(n, k + 1, m - 1, x / B)
  {
    hide Cross;
    var rest := SquareLimbs(n, k + 1, m - 1, x / B);
    assert done + ([x % B] + rest) == done + [x % B] + rest;
  }

  /** The cross products of one column of a square, from the `i`-th pair on. */
  function PairsFrom(n: seq<Bigit>, i: nat, k: nat): nat
    decreases |n| - i
  {
    if i >= |n| || i > k then 0 else Mul(n[i], Get(n, k - i)) + PairsFrom(n, i + 1, k)
  }

  lemma {:induction false} PairsAreCross(n: seq<Bigit>, i: nat, k: nat)
    requires i <= |n|
    ensures PairsFrom(n, i, k) == Cross(n[i..], n, k - i)
    decreases |n| - i
  {
    hide Mul;
    if i < |n| && i <= k {
      PairsAreCross(n, i + 1, k);
      assert n[i..][0] == n[i] && n[i..][1..] == n[i + 1..];
    }
  }

  /** The upper columns start at the first pair of limbs that exists. */
  lemma ColumnPairs(n: seq<Bigit>, k: nat)
    ensures PairsFrom(n, 0, k) == Cross(n, n, k)
    ensures |n| <= k < 2 * |n| ==> PairsFrom(n, k - |n| + 1, k) == Cross(n, n, k)
  {
    hide Mul, Cross, PairsFrom;
    assert n[0..] == n;
    PairsAreCross(n, 0, k);
    if |n| <= k < 2 * |n| {
      CrossSkip(n, n, k, k - |n| + 1);
      PairsAreCross(n, k - |n| + 1, k);
    }
  }
}

/** Removing trailing decimal zeros by modular inverses and rotation. */
module TrailingZeros {
  import opened Machine
  import opened Multiplication

  const TEN8 := 100_000_000
  /** 2^90 / 10^8, rounded up. */
  const MAGIC := 12379400392853802749

  /** Rotation to the right by `r` bits, where `low` is 2^r and `high` the
      rest of the word's 2^32 or 2^64. */
  function Rotr(n: nat, low: nat, high: nat): nat
    requires low > 0
  {
    n / low + n % low * high
  }

  function Hundredth32(n: nat): nat {
    Rotr(Mul(n, 0xc28f5c29) % UINT32, 4, UINT32 / 4)
  }

  function Tenth32(n: nat): nat {
    Rotr(Mul(n, 0xcccccccd) % UINT32, 2, UINT32 / 2)
  }

  function Hundredth64(n: nat): nat {
    Rotr(Mul(n, 0x8f5c28f5c28f5c29) % UINT64, 4, UINT64 / 4)
  }

  function Tenth64(n: nat): nat {
    Rotr(Mul(n, 0xcccccccccccccccd) % UINT64, 2, UINT64 / 2)
  }

  /** A number times the inverse of `d`, modulo `w`. */
  lemma InverseOfMultiple(u: nat, d: nat, inv: nat, j: nat, w: nat)
    requires u < w && Mul(d, inv) == Mul(j, w) + 1
    ensures Mul(Mul(u, d), inv) % w == u
  {
    hide Mul;
    MulAssoc(u, d, inv);
    MulAdd(u, Mul(j, w), 1);
    MulOne(u);
    MulAssoc(u, j, w);
    QuotientAndRest(Mul(u, j), w, u);
  }

  lemma InverseBack(n: nat, d: nat, inv: nat, j: nat, w: nat) returns (c: int)
    requires w > 0 && Mul(d, inv) == Mul(j, w) + 1
    ensures d * (Mul(n, inv) % w) == n + w * c
  {
    var m, k := Mul(n, inv) % w, Mul(n, inv) / w;
    assert Mul(n, inv) == w * k + m;
    c := j * n - d * k;
    Scaled(n, d, inv, j, w, k, m);
  }

  lemma Scaled(n: nat, d: nat, inv: nat, j: nat, w: nat, k: nat, m: nat)
    requires Mul(d, inv) == Mul(j, w) + 1 && Mul(n, inv) == w * k + m
    ensures d * m == n + w * (j * n - d * k)
  {
    assert d * (n * inv) == n * (d * inv);
    assert d * (w * k + m) == w * (d * k) + d * m;
    assert n * (j * w + 1) == w * (j * n) + n;
  }

  /** A small rotation has rotated nothing out. */
  lemma NothingRotated(m: nat, low: nat, high: nat, limit: nat)
    requires (low == 2 || low == 4) && limit < high && Rotr(m, low, high) <= limit
    ensures m == low * Rotr(m, low, high)
  {
  }

  lemma NothingWrapped(x: nat, n: nat, w: nat, c: int)
    requires x == n + w * c && x < w && n < w
    ensures x == n
  {
  }

  /** The rotated product is small exactly for the multiples of 100, and is then
      the quotient. */
  lemma Hundredth32Exact(n: nat)
    requires n < UINT32
    ensures Hundredth32(n) <= (UINT32 - 1) / 100 <==> n % 100 == 0
    ensures n % 100 == 0 ==> Hundredth32(n) == n / 100
  {
    assert Mul(25, 0xc28f5c29) == Mul(19, UINT32) + 1;
    var t := n / 100;
    assert n % 100 == 0 ==> n == Mul(4 * t, 25);
    hide Mul;
    if n % 100 == 0 {
      InverseOfMultiple(4 * t, 25, 0xc28f5c29, 19, UINT32);
    }
    var q := Hundredth32(n);
    if q <= (UINT32 - 1) / 100 {
      var c := InverseBack(n, 25, 0xc28f5c29, 19, UINT32);
      NothingRotated(Mul(n, 0xc28f5c29) % UINT32, 4, UINT32 / 4, (UINT32 - 1) / 100);
      hide Hundredth32, Rotr;
      NothingWrapped(100 * q, n, UINT32, c);
    }
  }

  lemma Tenth32Exact(n: nat)
    requires n < UINT32
    ensures Tenth32(n) <= (UINT32 - 1) / 10 <==> n % 10 == 0
    ensures n % 10 == 0 ==> Tenth32(n) == n / 10
  {
    assert Mul(5, 0xcccccccd) == Mul(4, UINT32) + 1;
    var t := n / 10;
    assert n % 10 == 0 ==> n == Mul(2 * t, 5);
    hide Mul;
    if n % 10 == 0 {
      InverseOfMultiple(2 * t, 5, 0xcccccccd, 4, UINT32);
    }
    var q := Tenth32(n);
    if q <= (UINT32 - 1) / 10 {
      var c := InverseBack(n, 5, 0xcccccccd, 4, UINT32);
      NothingRotated(Mul(n, 0xcccccccd) % UINT32, 2, UINT32 / 2, (UINT32 - 1) / 10);
      hide Tenth32, Rotr;
      NothingWrapped(10 * q, n, UINT32, c);
    }
  }

  lemma Hundredth64Exact(n: nat)
    requires n < UINT64
    ensures Hundredth64(n) <= (UINT64 - 1) / 100 <==> n % 100 == 0
    ensures n % 100 == 0 ==> Hundredth64(n) == n / 100
  {
    assert Mul(25, 0x8f5c28f5c28f5c29) == Mul(14, UINT64) + 1;
    var t := n / 100;
    assert n % 100 == 0 ==> n == Mul(4 * t, 25);
    hide Mul;
    if n % 100 == 0 {
      InverseOfMultiple(4 * t, 25, 0x8f5c28f5c28f5c29, 14, UINT64);
    }
    var q := Hundredth64(n);
    if q <= (UINT64 - 1) / 100 {
      var c := InverseBack(n, 25, 0x8f5c28f5c28f5c29, 14, UINT64);
      NothingRotated(Mul(n, 0x8f5c28f5c28f5c29) % UINT64, 4, UINT64 / 4, (UINT64 - 1) / 100);
      hide Hundredth64, Rotr;
      NothingWrapped(100 * q, n, UINT64, c);
    }
  }

  lemma Tenth64Exact(n: nat)
    requires n < UINT64
    ensures Tenth64(n) <= (UINT64 - 1) / 10 <==> n % 10 == 0
    ensures n % 10 == 0 ==> Tenth64(n) == n / 10
  {
    assert Mul(5, 0xcccccccccccccccd) == Mul(4, UINT64) + 1;
    var t := n / 10;
    assert n % 10 == 0 ==> n == Mul(2 * t, 5);
    hide Mul;
    if n % 10 == 0 {
      InverseOfMultiple(2 * t, 5, 0xcccccccccccccccd, 4, UINT64);
    }
    var q := Tenth64(n);
    if q <= (UINT64 - 1) / 10 {
      var c := InverseBack(n, 5, 0xcccccccccccccccd, 4, UINT64);
      NothingRotated(Mul(n, 0xcccccccccccccccd) % UINT64, 2, UINT64 / 2, (UINT64 - 1) / 10);
      hide Tenth64, Rotr;
      NothingWrapped(10 * q, n, UINT64, c);
    }
  }

  // ---- The 32-bit loop

  /** `r` is `n` without its trailing zeros, of which there are `z`. */
  predicate Stripped(n: nat, r: nat, z: nat) {
    r % 10 != 0 && Mul(r, Pow(10, z)) == n
  }

  /** A number determines its stripped form. */
  lemma {:induction false} StrippedOnce(n: nat, r: nat, z: nat, q: nat, y: nat)
    requires n > 0 && Stripped(n, r, z) && Stripped(n, q, y)
    ensures r == q && z == y
    decreases z + y
  {
    hide Mul, Pow;
    StrippedTen(r, z);
    StrippedTen(q, y);
    if z > 0 && y > 0 {
      StrippedOnce(n / 10, r, z - 1, q, y - 1);
    }
  }

  lemma StrippedTen(r: nat, z: nat)
    ensures z > 0 ==> Mul(r, Pow(10, z)) == 10 * Mul(r, Pow(10, z - 1))
    ensures z == 0 ==> Mul(r, Pow(10, z)) == r
  {
    if z > 0 {
      var p := Pow(10, z - 1);
      assert r * (10 * p) == 10 * (r * p);
    }
  }

  lemma StripMore(n: nat, r: nat, z: nat, k: nat)
    requires Mul(r, Pow(10, z)) == n && 1 <= k <= 2 && r % (if k == 1 then 10 else 100) == 0
    ensures Mul(r / (if k == 1 then 10 else 100), Pow(10, z + k)) == n
  {
    var q := r / (if k == 1 then 10 else 100);
    var p := Pow(10, z);
    assert Pow(10, z + 1) == 10 * p && (k == 2 ==> Pow(10, z + 2) == 100 * p);
    assert k == 1 ==> q * (10 * p) == (10 * q) * p;
    assert k == 2 ==> q * (100 * p) == (100 * q) * p;
  }

  /** `s |= 1` on a non-negative number. */
  function SetLowBit(s: nat): nat {
    if s % 2 == 0 then s + 1 else s
  }

  lemma PairStep32(n0: nat, n: nat, z: nat)
    requires 0 < n < UINT32 && Mul(n, Pow(10, z)) == n0
    ensures Hundredth32(n) <= (UINT32 - 1) / 100 ==>
      0 < Hundredth32(n) < n && Mul(Hundredth32(n), Pow(10, z + 2)) == n0
    ensures Hundredth32(n) > (UINT32 - 1) / 100 ==> n % 100 != 0
  {
    hide Mul, Pow, Hundredth32;
    Hundredth32Exact(n);
    if n % 100 == 0 { StripMore(n0, n, z, 2); }
  }

  lemma LastStep32(n0: nat, n: nat, z: nat)
    requires 0 < n < UINT32 && Mul(n, Pow(10, z)) == n0 && n % 100 != 0
    ensures Tenth32(n) <= (UINT32 - 1) / 10 ==> 0 < Tenth32(n) < n && Stripped(n0, Tenth32(n), z + 1)
    ensures Tenth32(n) > (UINT32 - 1) / 10 ==> Stripped(n0, n, z)
  {
    hide Mul, Pow, Tenth32;
    Tenth32Exact(n);
    if n % 10 == 0 { StripMore(n0, n, z, 1); }
  }

  /** `remove_trailing_zeros` for 32 bits, with an even count to start from. */
  method RemoveTrailingZeros32(n0: nat, s0: nat) returns (n: nat, s: nat)
    requires 0 < n0 < UINT32 && s0 % 2 == 0
    ensures s >= s0 && n < UINT32 && Stripped(n0, n, s - s0)
  {
    hide Mul, Pow, Hundredth32, Tenth32, Stripped;
    n, s := n0, s0;
    StrippedTen(n, 0);
    while true
      invariant 0 < n < UINT32 && s >= s0 && s % 2 == 0 && Mul(n, Pow(10, s - s0)) == n0
      decreases n
    {
      PairStep32(n0, n, s - s0);
      var q := Hundredth32(n);
      if q > (UINT32 - 1) / 100 {
        break;
      }
      n := q;
      s := s + 2;
    }
    LastStep32(n0, n, s - s0);
    var q := Tenth32(n);
    if q <= (UINT32 - 1) / 10 {
      n := q;
      s := SetLowBit(s);
    }
  }

  // ---- The 64-bit form

  /** The test for a multiple of 10^8 on the halves of the 128-bit product. */
  predicate LooksDivisible(n: nat) {
    Mul(n, MAGIC) / UINT64 % 0x400_0000 == 0 && Mul(n, MAGIC) % UINT64 < MAGIC
  }

  /** The quotient by 10^8 that is handed to the 32-bit form. */
  function Handed(n: nat): nat {
    Mul(n, MAGIC) / UINT64 / 0x400_0000 % UINT32
  }

  const SHIFT90 := UINT64 * 0x400_0000

  /** The 128-bit product, whose part below 2^90 tells the multiples of 10^8. */
  lemma MagicProduct(n: nat) returns (rest: nat)
    requires n < UINT64
    ensures Mul(n, MAGIC) == SHIFT90 * (n / TEN8) + rest && rest < SHIFT90
    ensures rest < MAGIC <==> n % TEN8 == 0
  {
    var (a, b) := (n / TEN8, n % TEN8);
    assert MAGIC * TEN8 == SHIFT90 + 875776;
    rest := a * 875776 + b * MAGIC;
  }

  lemma Halves(x: nat, a: nat, rest: nat)
    requires x == SHIFT90 * a + rest && rest < SHIFT90
    ensures x / UINT64 % 0x400_0000 == rest / UINT64 && x % UINT64 == rest % UINT64
    ensures x / UINT64 / 0x400_0000 == a
  {
    var (h, l) := (rest / UINT64, rest % UINT64);
    assert x == UINT64 * (0x400_0000 * a + h) + l;
    assert h < 0x400_0000;
    assert x / UINT64 == 0x400_0000 * a + h && x % UINT64 == l;
  }

  /** The test is exact, and so is the quotient before it is cut to 32 bits. */
  lemma MagicIsExact(n: nat)
    requires n < UINT64
    ensures LooksDivisible(n) <==> n % TEN8 == 0
    ensures n % TEN8 == 0 ==> Handed(n) == n / TEN8 % UINT32
  {
    hide Mul;
    var rest := MagicProduct(n);
    Halves(Mul(n, MAGIC), n / TEN8, rest);
    BelowMagic(rest);
  }

  lemma BelowMagic(rest: nat)
    requires rest < SHIFT90
    ensures rest / UINT64 == 0 && rest % UINT64 < MAGIC <==> rest < MAGIC
  {
  }

  /** The cut to 32 bits loses nothing exactly below 10^8 * 2^32. */
  lemma HandOffExactIff(n: nat)
    requires n < UINT64 && n % TEN8 == 0
    ensures Handed(n) * TEN8 == n <==> n < TEN8 * UINT32
  {
    MagicIsExact(n);
    hide Handed, LooksDivisible;
  }

  /** The hand-off passes a zero exactly for the multiples of 10^8 * 2^32, and the
      32-bit loop never leaves zero. */
  lemma ZeroIsHandedOffIff(n: nat)
    requires n < UINT64 && n % TEN8 == 0
    ensures Handed(n) == 0 <==> n % (TEN8 * UINT32) == 0
    ensures Hundredth32(0) == 0 <= (UINT32 - 1) / 100
  {
    MagicIsExact(n);
    hide Handed, LooksDivisible;
    var (q, r) := (n / TEN8 / UINT32, n / TEN8 % UINT32);
    assert n == TEN8 * UINT32 * q + TEN8 * r;
  }

  /** `remove_trailing_zeros` for 64 bits.  The hand-off needs a non-zero rest:
      for other numbers the source's loop does not end. */
  method RemoveTrailingZeros64(n0: nat) returns (n: nat, s: nat)
    requires 0 < n0 < UINT64 && n0 % (TEN8 * UINT32) != 0
    ensures Stripped(n0, n, s) <==> n0 < TEN8 * UINT32 || n0 % TEN8 != 0
  {
    hide Mul, Pow, Handed, LooksDivisible;
    MagicIsExact(n0);
    if LooksDivisible(n0) {
      HandOffExactIff(n0);
      ZeroIsHandedOffIff(n0);
      var n32 := Handed(n0);
      n, s := RemoveTrailingZeros32(n32, 8);
      Eight(n, s);
    } else {
      n, s := Strip64(n0);
    }
  }

  lemma PairStep64(n0: nat, n: nat, z: nat)
    requires 0 < n < UINT64 && Mul(n, Pow(10, z)) == n0
    ensures Hundredth64(n) <= (UINT64 - 1) / 100 ==>
      0 < Hundredth64(n) < n && Mul(Hundredth64(n), Pow(10, z + 2)) == n0
    ensures Hundredth64(n) > (UINT64 - 1) / 100 ==> n % 100 != 0
  {
    hide Mul, Pow, Hundredth64;
    Hundredth64Exact(n);
    if n % 100 == 0 { StripMore(n0, n, z, 2); }
  }

  lemma LastStep64(n0: nat, n: nat, z: nat)
    requires 0 < n < UINT64 && Mul(n, Pow(10, z)) == n0 && n % 100 != 0
    ensures Tenth64(n) <= (UINT64 - 1) / 10 ==> 0 < Tenth64(n) < n && Stripped(n0, Tenth64(n), z + 1)
    ensures Tenth64(n) > (UINT64 - 1) / 10 ==> Stripped(n0, n, z)
  {
    hide Mul, Pow, Tenth64;
    Tenth64Exact(n);
    if n % 10 == 0 { StripMore(n0, n, z, 1); }
  }

  /** The 64-bit loop. */
  method Strip64(n0: nat) returns (n: nat, s: nat)
    requires 0 < n0 < UINT64
    ensures Stripped(n0, n, s)
  {
    hide Mul, Pow, Hundredth64, Tenth64, Stripped;
    n, s := n0, 0;
    StrippedTen(n, 0);
    while true
      invariant 0 < n < UINT64 && s % 2 == 0 && Mul(n, Pow(10, s)) == n0
      decreases n
    {
      PairStep64(n0, n, s);
      var q := Hundredth64(n);
      if q > (UINT64 - 1) / 100 {
        break;
      }
      n := q;
      s := s + 2;
    }
    LastStep64(n0, n, s);
    var q := Tenth64(n);
    if q <= (UINT64 - 1) / 10 {
      n := q;
      s := SetLowBit(s);
    }
  }

  lemma Eight(n: nat, s: nat)
    requires s >= 8
    ensures Mul(n, Pow(10, s)) == Mul(n, Pow(10, s - 8)) * TEN8
  {
    assert Pow(10, 8) == TEN8;
    PowAdd(10, s - 8, 8);
    MulAssoc(n, Pow(10, s - 8), Pow(10, 8));
  }
}

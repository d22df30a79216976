/** Multiplication under a name, so that proofs can set its arithmetic aside,
    with the laws they then use; and powers. */
module Multiplication {

  function Mul(x: nat, y: nat): nat {
    x * y
  }

  lemma MulComm(x: nat, y: nat)
    ensures Mul(x, y) == Mul(y, x)
  {
  }

  lemma MulAssoc(x: nat, y: nat, z: nat)
    ensures Mul(Mul(x, y), z) == Mul(x, Mul(y, z))
  {
  }

  lemma MulAdd(x: nat, y: nat, z: nat)
    ensures Mul(x, y + z) == Mul(x, y) + Mul(x, z)
  {
  }

  lemma MulSub(x: nat, y: nat, z: nat)
    requires z <= y
    ensures Mul(x, y - z) == Mul(x, y) - Mul(x, z)
  {
  }

  lemma MulMono(x: nat, y: nat, z: nat)
    requires y <= z
    ensures Mul(x, y) <= Mul(x, z)
  {
  }

  lemma MulLess(x: nat, y: nat, z: nat)
    requires 0 < x && y < z
    ensures Mul(x, y) < Mul(x, z)
  {
  }

  lemma MulCancelLess(x: nat, y: nat, z: nat)
    requires Mul(x, y) < Mul(x, z)
    ensures y < z
  {
    hide Mul;
    if z <= y {
      MulMono(x, z, y);
    }
  }

  lemma MulPositive(x: nat, y: nat)
    requires 0 < x && 0 < y
    ensures Mul(x, y) > 0
  {
  }

  lemma MulBound(x: nat, y: nat, m: nat, n: nat)
    requires x <= m && y <= n
    ensures Mul(x, y) <= Mul(m, n)
  {
    MulMono(x, y, n);
    MulComm(x, n);
    MulComm(m, n);
    MulMono(n, x, m);
  }

  lemma MulZero(x: nat)
    ensures Mul(x, 0) == 0 && Mul(0, x) == 0
  {
  }

  lemma MulOne(x: nat)
    ensures Mul(x, 1) == x && Mul(1, x) == x
  {
  }

  // ---- Division by a variable

  lemma MulAddLeft1(x: nat, p: nat)
    ensures Mul(x + 1, p) == Mul(x, p) + p
  {
  }

  lemma QuotientBetween(y: nat, p: nat, q: nat)
    requires p > 0 && Mul(q, p) <= y < Mul(q + 1, p)
    ensures y / p == q
  {
    DivisionBounds(y, p);
    var k := y / p;
    hide Mul;
    MulComm(q, p);
    MulComm(q + 1, p);
    MulCancelLess(p, q, k + 1);
    MulCancelLess(p, k, q + 1);
  }

  lemma DivisionBounds(y: nat, p: nat)
    requires p > 0
    ensures Mul(p, y / p) <= y < Mul(p, y / p + 1)
  {
  }

  lemma QuotientAndRest(k: nat, w: nat, u: nat)
    requires u < w
    ensures (Mul(k, w) + u) / w == k && (Mul(k, w) + u) % w == u
  {
    MulAddLeft1(k, w);
    QuotientBetween(Mul(k, w) + u, w, k);
    assert Mul(k, w) == w * k;
  }

  /** Two products with their inner factors exchanged. */
  lemma MulShuffle(x: nat, y: nat, p: nat, q: nat)
    ensures Mul(Mul(x, y), Mul(p, q)) == Mul(Mul(x, p), Mul(y, q))
  {
    hide Mul;
    MulAssoc(x, y, Mul(p, q));
    MulAssoc(y, p, q);
    MulComm(y, p);
    MulAssoc(p, y, q);
    MulAssoc(x, p, Mul(y, q));
  }

  /** A factor in the middle moved to the end. */
  lemma MulSwap(x: nat, y: nat, z: nat)
    ensures Mul(Mul(x, y), z) == Mul(Mul(x, z), y)
  {
    hide Mul;
    MulAssoc(x, y, z);
    MulComm(y, z);
    MulAssoc(x, z, y);
  }

  function Pow(b: nat, k: nat): (r: nat)
    ensures b > 0 ==> r > 0
  {
    if k == 0 then 1 else Mul(b, Pow(b, k - 1))
  }

  lemma {:induction false} PowAdd(x: nat, a: nat, b: nat)
    ensures Pow(x, a + b) == Mul(Pow(x, a), Pow(x, b))
  {
    hide Mul;
    if a == 0 {
      MulOne(Pow(x, b));
    } else {
      PowAdd(x, a - 1, b);
      MulAssoc(x, Pow(x, a - 1), Pow(x, b));
    }
  }

  lemma {:induction false} PowMul(x: nat, y: nat, k: nat)
    ensures Pow(Mul(x, y), k) == Mul(Pow(x, k), Pow(y, k))
  {
    hide Mul;
    if k == 0 {
      MulOne(1);
    } else {
      PowMul(x, y, k - 1);
      MulShuffle(x, y, Pow(x, k - 1), Pow(y, k - 1));
    }
  }

  lemma {:induction false} PowGrows(x: nat, a: nat, b: nat)
    requires x > 1 && a < b
    ensures Pow(x, a) < Pow(x, b)
    decreases b
  {
    hide Mul;
    MulLess(Pow(x, b - 1), 1, x);
    MulOne(Pow(x, b - 1));
    MulComm(x, Pow(x, b - 1));
    if a + 1 < b {
      PowGrows(x, a, b - 1);
    }
  }
}

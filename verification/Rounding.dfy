/** Decimal digit strings, rounding half to even, and ratios. */
module Rounding {
  import opened Multiplication

  /** The number that a string of digits denotes, most significant first.  A
      buffer cell holding the character '0' + d is written d. */
  function TextValue(t: seq<nat>): nat {
    if t == [] then 0 else 10 * TextValue(t[..|t| - 1]) + t[|t| - 1]
  }

  predicate Decimal(t: seq<nat>) {
    forall j :: 0 <= j < |t| ==> t[j] <= 9
  }

  lemma TextPush(t: seq<nat>, d: nat)
    ensures TextValue(t + [d]) == 10 * TextValue(t) + d
  {
    assert (t + [d])[..|t|] == t;
  }

  lemma {:induction false} TextConcat(s: seq<nat>, t: seq<nat>)
    ensures TextValue(s + t) == Mul(TextValue(s), Pow(10, |t|)) + TextValue(t)
    decreases |t|
  {
    if t == [] {
      assert s + t == s;
      MulOne(TextValue(s));
    } else {
      var (u, n) := (t[..|t| - 1], |t| - 1);
      TextConcat(s, u);
      assert s + t == (s + u) + [t[n]];
      TextPush(s + u, t[n]);
      TimesTen(TextValue(s), Pow(10, n));
    }
  }

  /** A string of decimal digits is below the power of its length. */
  lemma {:induction false} TextBound(t: seq<nat>)
    requires Decimal(t)
    ensures TextValue(t) < Pow(10, |t|)
  {
    if t != [] {
      TextBound(t[..|t| - 1]);
    }
  }

  /** Moving a ten to the next higher digit keeps the number. */
  lemma {:induction false} TextCarry(t: seq<nat>, i: nat)
    requires 0 < i < |t| && t[i] == 10
    ensures TextValue(t[i := 0][i - 1 := t[i - 1] + 1]) == TextValue(t)
    decreases |t|
  {
    var (u, n) := (t[i := 0][i - 1 := t[i - 1] + 1], |t| - 1);
    if i < n {
      TextCarry(t[..n], i);
      assert u[..n] == t[..n][i := 0][i - 1 := t[..n][i - 1] + 1];
    } else {
      assert t == t[..i - 1] + [t[i - 1]] + [10];
      assert u == t[..i - 1] + [t[i - 1] + 1] + [0];
      TextPush(t[..i - 1] + [t[i - 1]], 10);
      TextPush(t[..i - 1] + [t[i - 1] + 1], 0);
      TextPush(t[..i - 1], t[i - 1]);
      TextPush(t[..i - 1], t[i - 1] + 1);
    }
  }

  /** A leading ten followed by zeros is a one followed by one zero more. */
  lemma {:induction false} TextLead(t: seq<nat>, d: nat)
    requires t != [] && t[0] == d && forall j :: 0 < j < |t| ==> t[j] == 0
    ensures TextValue(t) == Mul(d, Pow(10, |t| - 1))
    decreases |t|
  {
    if |t| == 1 {
      assert t == [d];
    } else {
      var u := t[..|t| - 1];
      TextLead(u, d);
      assert TextValue(t) == 10 * TextValue(u);
      TimesTen(d, Pow(10, |t| - 2));
    }
  }

  lemma TimesTen(x: nat, y: nat)
    ensures Mul(x, Mul(10, y)) == 10 * Mul(x, y) == Mul(10 * x, y) == Mul(10, Mul(x, y))
  {
    assert x * (10 * y) == 10 * (x * y);
  }

  // ---- Rounding

  /** `r` is the integer nearest to `x / d`, the even one of two. */
  predicate IsRounded(x: nat, d: nat, r: nat) {
    && Mul(2, x) <= Mul(2 * r + 1, d) && (Mul(2, x) >= Mul(2 * r + 1, d) ==> r % 2 == 0)
    && (r > 0 ==> Mul(2 * r - 1, d) <= Mul(2, x) && (Mul(2 * r - 1, d) >= Mul(2, x) ==> r % 2 == 0))
  }

  /** There is only one. */
  lemma RoundedUnique(x: nat, d: nat, r: nat, s: nat)
    requires d > 0 && IsRounded(x, d, r) && IsRounded(x, d, s)
    ensures r == s
  {
    if r < s { RoundedApart(x, d, r, s); }
    if s < r { RoundedApart(x, d, s, r); }
  }

  lemma RoundedApart(x: nat, d: nat, r: nat, s: nat)
    requires d > 0 && r < s
    ensures !IsRounded(x, d, r) || !IsRounded(x, d, s)
  {
    hide Mul;
    if r + 1 < s {
      MulMonoLeft(2 * r + 1, 2 * s - 1, d);
      MulComm(2 * r + 1, d);
      MulComm(2 * s - 1, d);
      MulLess(d, 2 * r + 1, 2 * s - 1);
    }
  }

  lemma MulMonoLeft(x: nat, y: nat, z: nat)
    requires x <= y
    ensures Mul(x, z) <= Mul(y, z)
  {
    hide Mul;
    MulComm(x, z);
    MulComm(y, z);
    MulMono(z, x, y);
  }

  /** Rounding a quotient with its remainder. */
  lemma RoundedByRemainder(x: nat, d: nat, q: nat, r: nat, up: bool)
    requires x == Mul(q, d) + r && r <= d
    requires up <==> 2 * r > d || (2 * r == d && q % 2 == 1)
    ensures IsRounded(x, d, if up then q + 1 else q)
  {
    assert Mul(2, x) == 2 * x;
    hide Mul;
    Odd(q, d);
    if up {
      Odd(q + 1, d);
    } else if q > 0 {
      Odd(q - 1, d);
    }
  }

  lemma Odd(q: nat, d: nat)
    ensures Mul(2 * q + 1, d) == 2 * Mul(q, d) + d && Mul(q + 1, d) == Mul(q, d) + d
  {
    assert (2 * q + 1) * d == 2 * (q * d) + d;
    assert (q + 1) * d == q * d + d;
  }

  // ---- Ratios

  /** `x / d == y / c`. */
  predicate SameRatio(x: nat, d: nat, y: nat, c: nat) {
    Mul(x, c) == Mul(y, d)
  }

  /** Equal ratios compare alike with any other ratio. */
  lemma RatioOrder(x: nat, d: nat, y: nat, c: nat, a: nat, b: nat)
    requires SameRatio(x, d, y, c) && d > 0 && c > 0
    ensures Mul(a, x) <= Mul(b, d) <==> Mul(a, y) <= Mul(b, c)
  {
    hide Mul;
    if Mul(a, x) <= Mul(b, d) { RatioOrderOneWay(x, d, y, c, a, b); }
    if Mul(a, y) <= Mul(b, c) { RatioOrderOneWay(y, c, x, d, a, b); }
  }

  lemma RatioOrderOneWay(x: nat, d: nat, y: nat, c: nat, a: nat, b: nat)
    requires SameRatio(x, d, y, c) && d > 0 && c > 0 && Mul(a, x) <= Mul(b, d)
    ensures Mul(a, y) <= Mul(b, c)
  {
    hide Mul;
    MulMonoLeft(Mul(a, x), Mul(b, d), c);
    MulAssoc(a, x, c);
    MulAssoc(a, y, d);
    MulSwap(b, d, c);
    if Mul(b, c) < Mul(a, y) {
      MulComm(Mul(b, c), d);
      MulComm(Mul(a, y), d);
      MulLess(d, Mul(b, c), Mul(a, y));
    }
  }

  lemma RatioGreater(x: nat, d: nat, y: nat, c: nat, a: nat, b: nat)
    requires SameRatio(x, d, y, c) && d > 0 && c > 0
    ensures Mul(a, x) >= Mul(b, d) <==> Mul(a, y) >= Mul(b, c)
  {
    hide Mul;
    if Mul(a, x) >= Mul(b, d) { RatioGreaterOneWay(x, d, y, c, a, b); }
    if Mul(a, y) >= Mul(b, c) { RatioGreaterOneWay(y, c, x, d, a, b); }
  }

  lemma RatioGreaterOneWay(x: nat, d: nat, y: nat, c: nat, a: nat, b: nat)
    requires SameRatio(x, d, y, c) && d > 0 && c > 0 && Mul(a, x) >= Mul(b, d)
    ensures Mul(a, y) >= Mul(b, c)
  {
    hide Mul;
    MulMonoLeft(Mul(b, d), Mul(a, x), c);
    MulAssoc(a, x, c);
    MulAssoc(a, y, d);
    MulSwap(b, d, c);
    if Mul(b, c) > Mul(a, y) {
      MulComm(Mul(b, c), d);
      MulComm(Mul(a, y), d);
      MulLess(d, Mul(a, y), Mul(b, c));
    }
  }

  /** Equal ratios round alike. */
  lemma RatioRounded(x: nat, d: nat, y: nat, c: nat, r: nat)
    requires SameRatio(x, d, y, c) && d > 0 && c > 0 && IsRounded(x, d, r)
    ensures IsRounded(y, c, r)
  {
    hide Mul, SameRatio;
    RatioOrder(x, d, y, c, 2, 2 * r + 1);
    RatioGreater(x, d, y, c, 2, 2 * r + 1);
    if r > 0 {
      RatioOrder(x, d, y, c, 2, 2 * r - 1);
      RatioGreater(x, d, y, c, 2, 2 * r - 1);
    }
  }

  lemma RatioTrans(x: nat, d: nat, y: nat, c: nat, z: nat, b: nat)
    requires SameRatio(x, d, y, c) && SameRatio(y, c, z, b) && c > 0
    ensures SameRatio(x, d, z, b)
  {
    hide Mul;
    MulSwap(x, c, b);
    MulSwap(y, d, b);
    MulSwap(z, c, d);
    MulCancel(c, Mul(x, b), Mul(z, d));
  }

  lemma MulCancel(c: nat, x: nat, y: nat)
    requires c > 0 && Mul(x, c) == Mul(y, c)
    ensures x == y
  {
    hide Mul;
    MulComm(x, c);
    MulComm(y, c);
    if x < y { MulLess(c, x, y); }
    if y < x { MulLess(c, y, x); }
  }

  lemma RatioScaleTop(x: nat, d: nat, y: nat, c: nat, k: nat)
    requires SameRatio(x, d, y, c)
    ensures SameRatio(Mul(x, k), d, Mul(y, k), c)
  {
    hide Mul;
    MulSwap(x, k, c);
    MulSwap(y, k, d);
  }

  lemma RatioScaleBottom(x: nat, d: nat, y: nat, c: nat, k: nat)
    requires SameRatio(x, d, y, c)
    ensures SameRatio(x, Mul(d, k), y, Mul(c, k))
  {
    hide Mul;
    MulAssoc(x, c, k);
    MulAssoc(y, d, k);
  }

  // ---- The carry out of rounding up

  /** The loop that moves a carry up through the digits. */
  method PropagateCarry(text: seq<nat>) returns (r: seq<nat>)
    requires text != [] && Decimal(text[..|text| - 1]) && text[|text| - 1] <= 10
    ensures |r| == |text| && TextValue(r) == TextValue(text)
    ensures Decimal(r) || (r[0] == 10 && forall j :: 0 < j < |r| ==> r[j] == 0)
  {
    r := text;
    var i := |text| - 1;
    while i > 0 && r[i] > 9
      invariant 0 <= i < |r| == |text| && r[..i] == text[..i] && r[i] <= 10
      invariant TextValue(r) == TextValue(text)
      invariant forall j :: i < j < |r| ==> r[j] == 0
    {
      TextCarry(r, i);
      assert r[..i][i - 1] == text[..i][i - 1] == text[..|text| - 1][i - 1];
      assert r[i := 0][i - 1 := r[i - 1] + 1][..i - 1] == r[..i][..i - 1] == text[..i - 1];
      r := r[i := 0];
      r := r[i - 1 := r[i - 1] + 1];
      i := i - 1;
    }
    forall j | 0 <= j < i ensures r[j] <= 9 {
      assert r[j] == r[..i][j] == text[..i][j] == text[..|text| - 1][j];
    }
  }

  /** The text and the exponent stand for `y / c`, rounded, times 10^q. */
  predicate Prints(y: nat, c: nat, q: int, text: seq<nat>, exp10: int) {
    || (exp10 == q && IsRounded(y, c, TextValue(text)))
    || (exp10 == q + 1 && IsRounded(y, c, 10 * TextValue(text)))
  }

  /** The length of the text: a carry out of the top adds a digit in fixed
      format and otherwise moves the exponent. */
  predicate Shape(n: int, isFixed: bool, q: int, text: seq<nat>, exp10: int) {
    || (exp10 == q && |text| == if n > 0 then n else 1)
    || (n > 0 && isFixed && exp10 == q && |text| == n + 1 && TextValue(text) == Pow(10, n))
    || (n > 0 && !isFixed && exp10 == q + 1 && |text| == n && TextValue(text) == Pow(10, n - 1))
  }

  lemma CarriedOut(n: nat)
    requires n > 0
    ensures var p := Pow(10, n - 1); Mul(10, p) == Pow(10, n) == 10 * Mul(1, p) && Mul(1, p) == p
  {
  }
}

/** Numbers as digits, the most significant first, in any radix. */
module Radix {
  import opened Bits

  function Pow(b: nat, e: nat): (p: nat)
    ensures b >= 1 ==> p >= 1
  {
    if e == 0 then 1
    else
      var p := Pow(b, e - 1);
      assert b >= 1 ==> b * p >= p by { if b >= 1 { Multiple(b, if p >= 1 then p else 1); } }
      b * p
  }

  ghost predicate InRange(d: seq<nat>, b: nat) {
    forall i | 0 <= i < |d| :: d[i] < b
  }

  function Num(d: seq<nat>, b: nat): nat {
    if d == [] then 0 else Num(d[..|d| - 1], b) * b + d[|d| - 1]
  }

  /** The digits of a number, without leading zeros. */
  function Digits(v: nat, b: nat): seq<nat>
    requires b >= 2
  {
    if v == 0 then []
    else
      Shrinks(v, b);
      Digits(v / b, b) + [v % b]
  }

  lemma Shrinks(v: nat, b: nat)
    requires v > 0 && b >= 2
    ensures 0 <= v / b < v && 0 <= v % b < b && v == v / b * b + v % b
  {
    var q := v / b;
    assert v == q * b + v % b;
    if q >= 1 { Multiple(q, b); assert q * b >= 2 * q by { assert (b - 2) * q >= 0; } }
    if q <= -1 { Multiple(q, b); }
  }

  lemma {:induction false} DigitsBack(v: nat, b: nat)
    requires b >= 2
    ensures Num(Digits(v, b), b) == v
    ensures InRange(Digits(v, b), b)
    ensures v > 0 ==> Digits(v, b) != [] && Digits(v, b)[0] != 0
    ensures v == 0 ==> Digits(v, b) == []
  {
    if v > 0 {
      Shrinks(v, b);
      DigitsBack(v / b, b);
      assert Digits(v, b)[..|Digits(v, b)| - 1] == Digits(v / b, b);
    }
  }

  /** Digits without a leading zero are the digits of their number. */
  lemma {:induction false} NumBack(d: seq<nat>, b: nat)
    requires b >= 2 && InRange(d, b) && (d != [] ==> d[0] != 0)
    ensures Digits(Num(d, b), b) == d
    ensures d != [] ==> Num(d, b) > 0
  {
    if d != [] {
      var front, last := d[..|d| - 1], d[|d| - 1];
      NumBack(front, b);
      var v := Num(front, b);
      if front != [] { Multiple(v, b); }
      assert front == [] ==> d[0] == last && v == 0 && v * b == 0;
      DivMod(v * b + last, b, v, last);
      assert d == front + [last];
    }
  }

  function Lead<T(==)>(s: seq<T>, x: T): (n: nat)
    ensures n <= |s|
    ensures forall i | 0 <= i < n :: s[i] == x
    ensures n < |s| ==> s[n] != x
  {
    if s != [] && s[0] == x then 1 + Lead(s[1..], x) else 0
  }

  /** Leading zeros do not change a number. */
  lemma {:induction false} NumStrip(d: seq<nat>, b: nat, k: nat)
    requires k <= |d| && forall i | 0 <= i < k :: d[i] == 0
    ensures Num(d[k..], b) == Num(d, b)
    decreases |d|
  {
    if k == |d| {
      NumZero(d, b);
    } else {
      NumStrip(d[..|d| - 1], b, k);
      assert d[..|d| - 1][k..] == d[k..][..|d| - 1 - k];
    }
  }

  lemma {:induction false} NumZero(d: seq<nat>, b: nat)
    requires forall i | 0 <= i < |d| :: d[i] == 0
    ensures Num(d, b) == 0
  {
    if d != [] { NumZero(d[..|d| - 1], b); assert 0 * b == 0; }
  }

  /** Changes the radix and keeps the number of leading zeros. */
  function Convert(d: seq<nat>, from: nat, to: nat): seq<nat>
    requires to >= 2
  {
    seq(Lead(d, 0), _ => 0) + Digits(Num(d, from), to)
  }

  lemma {:induction false} ConvertLead(d: seq<nat>, from: nat, to: nat)
    requires to >= 2
    ensures var c := Convert(d, from, to);
      && Lead(c, 0) == Lead(d, 0) && c[Lead(d, 0)..] == Digits(Num(d, from), to) && InRange(c, to)
  {
    hide Digits, Num, Lead;
    var c, n := Convert(d, from, to), Lead(d, 0);
    DigitsBack(Num(d, from), to);
    assert c[n..] == Digits(Num(d, from), to);
    assert forall i | 0 <= i < n :: c[i] == 0;
    LeadIs(c, 0, n);
  }

  lemma {:induction false} LeadIs<T>(s: seq<T>, x: T, n: nat)
    requires n <= |s| && (forall i | 0 <= i < n :: s[i] == x) && (n < |s| ==> s[n] != x)
    ensures Lead(s, x) == n
  {
    var k := Lead(s, x);
    assert k < |s| ==> s[k] != x;
    assert n < |s| ==> s[n] != x;
  }

  /** Converting back restores the digits. */
  lemma {:induction false} ConvertBack(d: seq<nat>, from: nat, to: nat)
    requires from >= 2 && to >= 2 && InRange(d, from)
    ensures Convert(Convert(d, from, to), to, from) == d
  {
    hide Digits, Num, Lead;
    var c, n := Convert(d, from, to), Lead(d, 0);
    ConvertLead(d, from, to);
    NumStrip(c, to, n);
    DigitsBack(Num(d, from), to);
    NumStrip(d, from, n);
    NumBack(d[n..], from);
    assert d == seq(n, _ => 0) + d[n..];
  }

  /* Sizes. */

  lemma {:induction false} NumBound(d: seq<nat>, b: nat)
    requires b >= 1 && InRange(d, b)
    ensures Num(d, b) < Pow(b, |d|)
  {
    if d != [] {
      NumBound(d[..|d| - 1], b);
      NumStep(Num(d[..|d| - 1], b), b, Pow(b, |d| - 1), d[|d| - 1]);
    }
  }

  lemma NumStep(v: nat, b: nat, p: nat, last: nat)
    requires v < p && last < b
    ensures v * b + last < b * p
  {
    Product(v + 1, p, b, b);
    assert (v + 1) * b == v * b + b;
  }

  lemma {:induction false} PowStep(b: nat, e: nat)
    ensures Pow(b, 0) == 1 && Pow(b, e + 1) == b * Pow(b, e)
  {
  }

  lemma {:induction false} PowAdd(b: nat, e: nat, f: nat)
    ensures Pow(b, e + f) == Pow(b, e) * Pow(b, f)
  {
    hide Pow;
    if e > 0 {
      PowAdd(b, e - 1, f);
      PowStep(b, e - 1);
      PowStep(b, e - 1 + f);
      Assoc(b, Pow(b, e - 1), Pow(b, f));
    } else {
      PowStep(b, 0);
    }
  }

  lemma {:induction false} PowPow(b: nat, e: nat, f: nat)
    ensures Pow(Pow(b, e), f) == Pow(b, e * f)
  {
    hide Pow;
    if f > 0 {
      PowPow(b, e, f - 1);
      PowStep(Pow(b, e), f - 1);
      PowAdd(b, e, e * (f - 1));
      assert e * f == e + e * (f - 1);
    } else {
      PowStep(Pow(b, e), 0);
      PowStep(b, 0);
      assert e * 0 == 0;
    }
  }

  lemma {:induction false} PowBase(a: nat, b: nat, e: nat)
    requires a <= b
    ensures Pow(a, e) <= Pow(b, e)
    ensures a < b && e > 0 ==> Pow(a, e) < Pow(b, e)
  {
    if e > 0 {
      PowBase(a, b, e - 1);
      Product(a, b, Pow(a, e - 1), Pow(b, e - 1));
    }
  }

  lemma Product(a: nat, b: nat, p: nat, q: nat)
    requires a <= b && p <= q
    ensures a * p <= b * q
    ensures a < b && q > 0 ==> a * p < b * q
  {
    assert (b - a) * q >= 0 && a * (q - p) >= 0;
    assert a < b && q > 0 ==> (b - a) * q > 0;
  }

  lemma {:induction false} PowExp(b: nat, e: nat, f: nat)
    requires b >= 1 && e <= f
    ensures Pow(b, e) <= Pow(b, f)
  {
    hide Pow;
    PowAdd(b, e, f - e);
    Product(1, Pow(b, f - e), Pow(b, e), Pow(b, e));
  }

  /** k digits to base c are enough for n digits to base b, if num/den digits are enough for each. */
  lemma Enough(b: nat, c: nat, n: nat, k: nat, num: nat, den: nat)
    requires b >= 1 && c >= 1 && den > 0
    requires Pow(b, den) <= Pow(c, num) && n * num <= k * den
    ensures Pow(b, n) <= Pow(c, k)
  {
    hide Pow;
    PowSwap(b, n, den);
    PowBase(Pow(b, den), Pow(c, num), n);
    PowLe(c, num, n, k, den);
    if Pow(b, n) > Pow(c, k) { PowBase(Pow(c, k), Pow(b, n), den); }
  }

  lemma PowSwap(b: nat, e: nat, f: nat)
    ensures Pow(Pow(b, e), f) == Pow(Pow(b, f), e)
  {
    hide Pow;
    PowPow(b, e, f);
    PowPow(b, f, e);
    assert e * f == f * e;
  }

  lemma PowLe(c: nat, e: nat, f: nat, g: nat, h: nat)
    requires c >= 1 && f * e <= g * h
    ensures Pow(Pow(c, e), f) <= Pow(Pow(c, g), h)
  {
    hide Pow;
    PowPow(c, e, f);
    PowPow(c, g, h);
    assert e * f == f * e;
    PowExp(c, e * f, g * h);
  }
}

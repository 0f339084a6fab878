/** Single bits of natural numbers. */
module Bits {

  function Pow2(n: nat): (p: nat)
    ensures p >= 1
  {
    if n == 0 then 1 else 2 * Pow2(n - 1)
  }

  /** (x & (1 << i)) != 0 */
  predicate TestBit(x: nat, i: nat) {
    if i == 0 then x % 2 == 1 else TestBit(x / 2, i - 1)
  }

  lemma {:induction false} TestBitIs(x: nat, i: nat)
    ensures TestBit(x, i) <==> x / Pow2(i) % 2 == 1
  {
    if i == 0 {
      assert x / 1 == x;
    } else {
      TestBitIs(x / 2, i - 1);
      Halved(x, Pow2(i - 1));
    }
  }

  lemma Halved(x: nat, p: nat)
    requires p > 0
    ensures x / 2 / p == x / (2 * p)
  {
    var h := x / 2;
    assert h == h / p * p + h % p;
    assert h / p * (2 * p) == 2 * (h / p * p);
    DivMod(x, 2 * p, h / p, 2 * (h % p) + x % 2);
  }

  /** x | (1 << i) */
  function SetBit(x: nat, i: nat): (r: nat)
  {
    if i == 0 then (if x % 2 == 1 then x else x + 1)
    else 2 * SetBit(x / 2, i - 1) + x % 2
  }

  lemma {:induction false} SetBitTest(x: nat, i: nat, p: nat)
    ensures TestBit(SetBit(x, i), p) <==> p == i || TestBit(x, p)
  {
    if i == 0 {
      if p > 0 { assert SetBit(x, 0) / 2 == x / 2; }
    } else if p > 0 {
      assert SetBit(x, i) / 2 == SetBit(x / 2, i - 1);
      SetBitTest(x / 2, i - 1, p - 1);
    }
  }

  lemma {:induction false} PowNext(n: nat)
    ensures Pow2(0) == 1 && Pow2(n + 1) == 2 * Pow2(n)
  {
  }

  lemma {:induction false} SetBitNext(x: nat, i: nat)
    ensures SetBit(x, 0) == x + 1 - x % 2 && SetBit(x, i + 1) == 2 * SetBit(x / 2, i) + x % 2
  {
  }

  lemma {:induction false} SetBitBound(x: nat, i: nat, n: nat)
    requires i < n && x < Pow2(n)
    ensures x <= SetBit(x, i) < Pow2(n)
  {
    hide *;
    PowNext(n - 1);
    if i == 0 {
      SetBitNext(x, 0);
    } else {
      SetBitNext(x, i - 1);
      SetBitBound(x / 2, i - 1, n - 1);
    }
  }

  lemma {:induction false} TestBitZero(i: nat)
    ensures !TestBit(0, i)
  {
    if i > 0 { TestBitZero(i - 1); }
  }

  /** Numbers of n bits are equal when their bits are. */
  lemma {:induction false} SameBits(x: nat, y: nat, n: nat)
    requires x < Pow2(n) && y < Pow2(n)
    requires forall p :: 0 <= p < n ==> (TestBit(x, p) <==> TestBit(y, p))
    ensures x == y
  {
    if n > 0 {
      assert TestBit(x, 0) <==> TestBit(y, 0);
      forall p | 0 <= p < n - 1 ensures TestBit(x / 2, p) <==> TestBit(y / 2, p) {
        assert TestBit(x, p + 1) <==> TestBit(y, p + 1);
      }
      SameBits(x / 2, y / 2, n - 1);
    }
  }

  lemma {:induction false} NoBits(x: nat, n: nat)
    requires x < Pow2(n)
    ensures x != 0 ==> exists p :: 0 <= p < n && TestBit(x, p)
  {
    if forall p :: 0 <= p < n ==> !TestBit(x, p) {
      forall p: nat ensures !TestBit(0, p) { TestBitZero(p); }
      SameBits(x, 0, n);
    }
  }

  lemma {:induction false} Pow2Add(a: nat, b: nat)
    ensures Pow2(a + b) == Pow2(a) * Pow2(b)
  {
    if a > 0 {
      Pow2Add(a - 1, b);
      assert Pow2(a + b) == 2 * (Pow2(a - 1) * Pow2(b));
    }
  }

  lemma {:induction false} Pow2Mono(a: nat, b: nat)
    requires a <= b
    ensures Pow2(a) <= Pow2(b)
    ensures a < b ==> 2 * Pow2(a) <= Pow2(b)
  {
    if a < b { Pow2Mono(a, b - 1); }
  }

  /** x | y */
  function Or(x: nat, y: nat): nat
    decreases x + y
  {
    if x == 0 && y == 0 then 0
    else 2 * Or(x / 2, y / 2) + if x % 2 == 1 || y % 2 == 1 then 1 else 0
  }

  lemma {:induction false} OrZero(y: nat)
    ensures Or(0, y) == y
  {
    if y > 0 { OrZero(y / 2); }
  }

  /** Where no bits overlap, or is addition. */
  lemma {:induction false} OrDisjoint(low: nat, q: nat, k: nat)
    requires low < Pow2(k)
    ensures Or(low, q * Pow2(k)) == low + q * Pow2(k)
    decreases k
  {
    if k == 0 {
      OrZero(q);
    } else {
      var y := q * Pow2(k);
      assert y == 2 * (q * Pow2(k - 1));
      OrDisjoint(low / 2, q, k - 1);
      assert y % 2 == 0 && y / 2 == q * Pow2(k - 1);
    }
  }

  lemma {:induction false} OrBetween(low: nat, q: nat, k: nat)
    requires low < Pow2(k)
    ensures Or(low + q * Pow2(k + 1), Pow2(k)) == low + Pow2(k) + q * Pow2(k + 1)
    decreases k
  {
    var x := low + q * Pow2(k + 1);
    if k == 0 {
      assert Pow2(1) == 2 && Pow2(0) == 1;
      assert x == 2 * q && Or(x, 1) == 2 * Or(x / 2, 0) + 1;
      OrZeroRight(q);
    } else {
      assert x == low + 2 * (q * Pow2(k));
      OrBetween(low / 2, q, k - 1);
      assert x / 2 == low / 2 + q * Pow2(k) && x % 2 == low % 2;
      assert Pow2(k) / 2 == Pow2(k - 1) && Pow2(k) % 2 == 0;
    }
  }

  lemma {:induction false} OrZeroRight(x: nat)
    ensures Or(x, 0) == x
  {
    if x > 0 { OrZeroRight(x / 2); }
  }

  /** Setting a bit that is clear, with all bits below it. */
  lemma {:induction false} SetClearBit(q: nat, i: nat)
    ensures SetBit(q * Pow2(i + 1), i) == q * Pow2(i + 1) + Pow2(i)
  {
    var x := q * Pow2(i + 1);
    assert x == 2 * (q * Pow2(i));
    if i > 0 { SetClearBit(q, i - 1); }
  }

  /** x & y */
  function And(x: nat, y: nat): nat
    decreases x
  {
    if x == 0 then 0
    else 2 * And(x / 2, y / 2) + if x % 2 == 1 && y % 2 == 1 then 1 else 0
  }

  lemma {:induction false} AndTest(x: nat, y: nat, p: nat)
    ensures TestBit(And(x, y), p) <==> TestBit(x, p) && TestBit(y, p)
    ensures And(x, y) <= x
  {
    if x == 0 {
      TestBitZero(p);
    } else {
      AndTest(x / 2, y / 2, if p > 0 then p - 1 else 0);
    }
  }

  lemma Assoc(x: int, y: int, z: int)
    ensures x * (y * z) == x * y * z
  {
  }

  lemma SumTimes(x: int, y: int, p: int)
    ensures (x + y) * p == x * p + y * p
  {
  }

  lemma PartsTimes(q: int, u: int, r: int, t: int)
    ensures (q * u + r) * t == q * (u * t) + r * t
  {
    SumTimes(q * u, r, t);
    Assoc(q, u, t);
  }

  /** Division and remainder are determined by their defining equation. */
  lemma DivMod(x: int, m: int, q: int, r: int)
    requires 0 <= r < m && x == q * m + r
    ensures x / m == q && x % m == r
  {
    var d := x / m - q;
    assert x == x / m * m + x % m;
    assert d * m == r - x % m;
    Multiple(d, m);
  }

  lemma Multiple(d: int, m: int)
    requires m > 0
    ensures d >= 1 ==> d * m >= m
    ensures d <= -1 ==> d * m <= -m
  {
    if d >= 1 {
      assert (d - 1) * m >= 0;
    } else if d <= -1 {
      assert (d + 1) * m <= 0;
    }
  }

  lemma DivNat(x: nat, d: nat)
    requires d > 0
    ensures x / d >= 0
  {
  }
}

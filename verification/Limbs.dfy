/** Numbers written as 32-bit limbs, the least significant first. */
module Limbs {
  import opened Bits
  import opened Common

  const LIMB: int := 0x1_0000_0000

  /** The weight of limb n. */
  function P(n: nat): (p: nat)
    ensures p >= 1
  {
    if n == 0 then 1 else LIMB * P(n - 1)
  }

  function Val(s: seq<uint32>): nat {
    if s == [] then 0 else Val(s[..|s| - 1]) + s[|s| - 1] * P(|s| - 1)
  }

  lemma {:induction false} PIsPow2(n: nat)
    ensures P(n) == Pow2(32 * n)
  {
    if n > 0 {
      PIsPow2(n - 1);
      Pow2Add(32, 32 * (n - 1));
      Pow2Of32();
    }
  }

  lemma Pow2Of32()
    ensures Pow2(8) == 0x100 && Pow2(16) == 0x1_0000 && Pow2(32) == LIMB && Pow2(31) == 0x8000_0000
  {
    assert Pow2(8) == 256;
    Pow2Add(8, 8);
    Pow2Add(16, 16);
    assert Pow2(32) == 2 * Pow2(31);
  }

  lemma {:induction false} PAdd(a: nat, b: nat)
    ensures P(a + b) == P(a) * P(b)
  {
    PIsPow2(a);
    PIsPow2(b);
    PIsPow2(a + b);
    Pow2Add(32 * a, 32 * b);
  }

  lemma {:induction false} ValBound(s: seq<uint32>)
    ensures Val(s) < P(|s|)
  {
    if s != [] {
      ValBound(s[..|s| - 1]);
      var p, x := P(|s| - 1), s[|s| - 1];
      assert x * p <= (LIMB - 1) * p by { Scale(x, LIMB - 1, p); }
    }
  }

  lemma Scale(x: int, y: int, p: nat)
    requires x <= y
    ensures x * p <= y * p
  {
    assert (y - x) * p >= 0;
  }

  lemma ValNext(s: seq<uint32>, i: nat)
    requires i < |s|
    ensures Val(s[..i + 1]) == Val(s[..i]) + s[i] * P(i)
  {
    assert s[..i + 1][..i] == s[..i];
  }

  lemma {:induction false} ValUpdate(s: seq<uint32>, i: nat, x: uint32)
    requires i < |s|
    ensures Val(s[i := x]) == Val(s) - s[i] * P(i) + x * P(i)
  {
    var n := |s| - 1;
    if i == n {
      assert s[i := x][..n] == s[..n];
    } else {
      assert s[i := x][..n] == s[..n][i := x];
      ValUpdate(s[..n], i, x);
    }
  }

  lemma {:induction false} ValZero(s: seq<uint32>)
    ensures Val(s) == 0 <==> forall i | 0 <= i < |s| :: s[i] == 0
  {
    if s != [] {
      ValZero(s[..|s| - 1]);
      var p, x := P(|s| - 1), s[|s| - 1];
      assert x > 0 ==> x * p > 0;
    }
  }

  lemma {:induction false} ValSplit(s: seq<uint32>, k: nat)
    requires k <= |s|
    ensures Val(s) == Val(s[..k]) + P(k) * Val(s[k..])
    decreases |s|
  {
    if k == |s| {
      assert s[..k] == s;
    } else {
      var n := |s| - 1;
      ValSplit(s[..n], k);
      assert s[..n][..k] == s[..k] && s[..n][k..] == s[k..][..n - k];
      PAdd(k, n - k);
      hide P;
      assert Val(s[k..]) == Val(s[k..][..n - k]) + s[n] * P(n - k);
      Spread(P(k), Val(s[k..][..n - k]), s[n], P(n - k));
    }
  }

  lemma Spread(p: int, v: int, x: int, q: int)
    ensures p * (v + x * q) == p * v + x * (p * q)
  {
    assert x * (p * q) == (x * q) * p;
  }

  /** Limb sequences of one length are equal when their values are. */
  lemma {:induction false} ValInjective(s: seq<uint32>, t: seq<uint32>)
    requires |s| == |t| && Val(s) == Val(t)
    ensures s == t
  {
    if s != [] {
      var n := |s| - 1;
      ValBound(s[..n]);
      ValBound(t[..n]);
      DivMod(Val(s), P(n), s[n], Val(s[..n]));
      DivMod(Val(t), P(n), t[n], Val(t[..n]));
      ValInjective(s[..n], t[..n]);
      assert s == s[..n] + [s[n]] && t == t[..n] + [t[n]];
    }
  }

  /* One step of the carry loops. */

  lemma CarryStep(n: nat, p: nat)
    ensures n % LIMB * p + n / LIMB * (LIMB * p) == n * p
  {
    var lo, hi := n % LIMB, n / LIMB;
    assert n == lo + LIMB * hi;
    assert hi * (LIMB * p) == (LIMB * hi) * p;
    assert lo * p + (LIMB * hi) * p == (lo + LIMB * hi) * p;
  }

  lemma Sum3(a: int, b: int, c: int, p: int)
    ensures (a + b + c) * p == a * p + b * p + c * p
  {
  }

  /** No product of limbs with two more limbs added overflows 64 bits. */
  lemma ProductFits(x: int, y: int, c: int, d: int)
    requires 0 <= x < LIMB && 0 <= y < LIMB && 0 <= c < LIMB && 0 <= d < LIMB
    ensures 0 <= c + d + x * y < 0x1_0000_0000_0000_0000
  {
    Scale(0, x, y);
    Scale(x, LIMB - 1, y);
  }
}

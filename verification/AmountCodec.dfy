/** Amounts written compactly: trailing decimal zeros are counted instead of kept. */
module AmountCodec {
  import opened Bits
  import opened Common
  import opened Radix

  const WORD: int := 0x1_0000_0000_0000_0000

  /** The number of trailing zeros, but at most max. */
  function Zeros(n: nat, max: nat): (e: nat)
    requires n > 0
    ensures e <= max
  {
    if n % 10 == 0 && max > 0 then 1 + Zeros(n / 10, max - 1) else 0
  }

  function Dropped(n: nat, max: nat): (m: nat)
    requires n > 0
    ensures m > 0
  {
    if n % 10 == 0 && max > 0 then Dropped(n / 10, max - 1) else n
  }

  lemma {:induction false} DroppedIs(n: nat, max: nat)
    requires n > 0
    ensures n == Dropped(n, max) * Pow(10, Zeros(n, max))
    ensures Zeros(n, max) < max ==> Dropped(n, max) % 10 != 0
    ensures Dropped(n, max) <= n
  {
    if n % 10 == 0 && max > 0 {
      DroppedIs(n / 10, max - 1);
      Regroup(Dropped(n, max), Pow(10, Zeros(n, max) - 1));
    } else {
      assert Pow(10, 0) == 1;
    }
  }

  lemma Regroup(m: nat, p: nat)
    ensures m * (10 * p) == 10 * (m * p)
  {
  }

  /** A number is put together from a part without a trailing zero and a count in one way only. */
  lemma {:induction false} ZerosBack(m: nat, e: nat, max: nat)
    requires m > 0 && e <= max && (e < max ==> m % 10 != 0)
    ensures m * Pow(10, e) > 0
    ensures Zeros(m * Pow(10, e), max) == e && Dropped(m * Pow(10, e), max) == m
  {
    hide Zeros, Dropped, Pow;
    if e > 0 {
      var n := m * Pow(10, e - 1);
      ZerosBack(m, e - 1, max - 1);
      PowStep(10, e - 1);
      Regroup(m, Pow(10, e - 1));
      assert 10 * n % 10 == 0 && 10 * n / 10 == n;
      OneMore(10 * n, max);
    } else {
      PowStep(10, 0);
      NoMore(m, max);
    }
  }

  /** The code of what is left and of the count of the zeros dropped. */
  function CodeOf(m: nat, e: nat): nat
    requires m > 0 && e <= 9 && (e < 9 ==> m % 10 != 0)
  {
    if e < 9 then 1 + (m / 10 * 9 + m % 10 - 1) * 10 + e else 1 + (m - 1) * 10 + 9
  }

  /** The compact form, on numbers without a bound. */
  function Compress(n: nat): nat {
    if n == 0 then 0
    else
      DroppedIs(n, 9);
      CodeOf(Dropped(n, 9), Zeros(n, 9))
  }

  function Decompress(x: nat): nat {
    if x == 0 then 0
    else
      var e, y := (x - 1) % 10, (x - 1) / 10;
      (if e < 9 then y / 9 * 10 + y % 9 + 1 else y + 1) * Pow(10, e)
  }

  /** The two are inverse on all numbers, so no form is wasted. */
  lemma Bijection(n: nat, x: nat)
    ensures Decompress(Compress(n)) == n
    ensures Compress(Decompress(x)) == x
  {
    CompressBack(n);
    DecompressBack(x);
  }

  lemma CompressBack(n: nat)
    ensures Decompress(Compress(n)) == n
  {
    hide Zeros, Dropped, Pow;
    if n > 0 {
      DroppedIs(n, 9);
      CodeParts(Dropped(n, 9), Zeros(n, 9));
    }
  }

  lemma DecompressBack(x: nat)
    ensures Compress(Decompress(x)) == x
  {
    hide Zeros, Dropped, Pow;
    if x > 0 {
      var e, y := (x - 1) % 10, (x - 1) / 10;
      var m := if e < 9 then y / 9 * 10 + y % 9 + 1 else y + 1;
      if e < 9 { DivMod(m, 10, y / 9, y % 9 + 1); }
      ZerosBack(m, e, 9);
      Decoded(m, e);
    }
  }

  lemma Decoded(m: nat, e: nat)
    requires m > 0 && e <= 9 && (e < 9 ==> m % 10 != 0)
    requires Zeros(m * Pow(10, e), 9) == e && Dropped(m * Pow(10, e), 9) == m && m * Pow(10, e) > 0
    ensures Compress(m * Pow(10, e)) == CodeOf(m, e)
  {
    hide Zeros, Dropped, Pow;
  }

  /** What the form of a number says: its trailing zeros in the last digit, or nine of them and no more;
      before it, one less than what is left, whose last digit is then never zero and told to base 9. */
  lemma Forms(a: nat, d: nat, e: nat)
    requires 1 <= d <= 9 && e < 9
    ensures Compress(0) == 0
    ensures Compress((10 * a + d) * Pow(10, e)) == 10 * (9 * a + d - 1) + e + 1
    ensures Compress((a + 1) * Pow(10, 9)) == 10 * a + 10
  {
    hide Zeros, Dropped, Pow;
    var m := 10 * a + d;
    DivMod(m, 10, a, d);
    ZerosBack(m, e, 9);
    Decoded(m, e);
    ZerosBack(a + 1, 9, 9);
    Decoded(a + 1, 9);
  }

  lemma CodeParts(m: nat, e: nat)
    requires m > 0 && e <= 9 && (e < 9 ==> m % 10 != 0)
    ensures var x := CodeOf(m, e);
      && x > 0 && (x - 1) % 10 == e
      && (if e < 9 then (x - 1) / 10 / 9 * 10 + (x - 1) / 10 % 9 + 1 else (x - 1) / 10 + 1) == m
  {
    if e < 9 {
      var y := m / 10 * 9 + m % 10 - 1;
      DivMod(y, 9, m / 10, m % 10 - 1);
    }
  }

  /** The compact form takes at most nine times the amount, so it fits 64 bits for every amount up to a
      ninth of their range. */
  lemma Fits(n: nat)
    ensures Compress(n) <= 9 * n
    ensures n <= (WORD - 1) / 9 ==> Compress(n) < WORD
  {
    if n > 0 {
      var e, m := Zeros(n, 9), Dropped(n, 9);
      DroppedIs(n, 9);
      if e > 0 { Tenfold(m, e, n); }
    }
  }

  lemma Tenfold(m: nat, e: nat, n: nat)
    requires m > 0 && 0 < e <= 9 && n == m * Pow(10, e)
    ensures n >= 10 * m && n >= 10 * e
  {
    var p := Pow(10, e - 1);
    Regroup(m, p);
    TenPowers(e - 1);
    assert m * p >= p && m * p >= m by { Product(1, m, p, p); Product(m, m, 1, p); }
  }

  lemma {:induction false} TenPowers(k: nat)
    ensures Pow(10, k) >= k + 1
  {
    if k > 0 { TenPowers(k - 1); }
  }

  /** In 64 bits, where every operation is taken modulo their range. */
  method CompressAmount(amount: uint64) returns (x: uint64)
    ensures x == Compress(amount) % WORD
    ensures amount <= (WORD - 1) / 9 ==> x == Compress(amount)
  {
    hide Zeros, Dropped, CodeOf;
    Fits(amount);
    if amount == 0 { return 0; }
    DroppedIs(amount, 9);
    var n: uint64, e := amount, 0;
    while n % 10 == 0 && e < 9
      invariant n > 0 && 0 <= e <= 9
      invariant Zeros(amount, 9) == e + Zeros(n, 9 - e) && Dropped(amount, 9) == Dropped(n, 9 - e)
    {
      OneMore(n, 9 - e);
      n := n / 10;
      e := e + 1;
    }
    NoMore(n, 9 - e);
    x := PutTogether(n, e);
    if Compress(amount) < WORD { DivMod(Compress(amount), WORD, 0, Compress(amount)); }
  }

  /** The same in 64 bits. */
  method PutTogether(m: uint64, e: nat) returns (x: uint64)
    requires m > 0 && e <= 9 && (e < 9 ==> m % 10 != 0)
    ensures x == CodeOf(m, e) % WORD
  {
    if e < 9 {
      var d := m % 10;
      assert 1 <= d <= 9;
      var n := m / 10;
      WrapSteps(n * 9 + d - 1, e);
      x := (1 + (n * 9 + d - 1) % WORD * 10 % WORD + e) % WORD;
    } else {
      WrapSteps(m - 1, 9);
      x := (1 + (m - 1) * 10 % WORD + 9) % WORD;
    }
  }

  lemma OneMore(n: nat, max: nat)
    requires n > 0 && n % 10 == 0 && max > 0
    ensures n / 10 > 0 && Zeros(n, max) == 1 + Zeros(n / 10, max - 1) && Dropped(n, max) == Dropped(n / 10, max - 1)
  {
  }

  lemma NoMore(n: nat, max: nat)
    requires n > 0 && (n % 10 != 0 || max == 0)
    ensures Zeros(n, max) == 0 && Dropped(n, max) == n
  {
  }

  lemma WrapSteps(y: nat, e: nat)
    ensures (1 + y % WORD * 10 % WORD + e) % WORD == (1 + y * 10 + e) % WORD
    ensures (1 + y * 10 % WORD + e) % WORD == (1 + y * 10 + e) % WORD
  {
    var q := y / WORD;
    assert y == q * WORD + y % WORD;
    var z := y % WORD * 10;
    var r := z / WORD;
    assert z == r * WORD + z % WORD;
    assert y * 10 == (q * 10 + r) * WORD + z % WORD;
    var w := 1 + z % WORD + e;
    var s := w / WORD;
    DivMod(1 + y * 10 + e, WORD, q * 10 + r + s, w % WORD);
    DivMod(y * 10, WORD, q * 10 + r, z % WORD);
  }

  method DecompressAmount(code: uint64) returns (n: uint64)
    ensures n == Decompress(code) % WORD
  {
    if code == 0 { return 0; }
    var x: uint64 := code - 1;
    var e := x % 10;
    x := x / 10;
    if e < 9 {
      var d := x % 9 + 1;
      x := x / 9;
      n := x * 10 + d;
    } else {
      n := x + 1;
    }
    ghost var m, steps := n, 0;
    DivMod(m, WORD, 0, m);
    PowNone(m);
    hide Pow;
    while e > 0
      invariant 0 <= e && steps >= 0 && e + steps == (code - 1) % 10
      invariant n == m * Pow(10, steps) % WORD
    {
      TenMore(m, steps);
      n := n * 10 % WORD;
      e := e - 1;
      steps := steps + 1;
    }
  }

  lemma PowNone(m: nat)
    ensures m * Pow(10, 0) == m
  {
  }

  lemma TenMore(m: nat, k: nat)
    ensures m * Pow(10, k) % WORD * 10 % WORD == m * Pow(10, k + 1) % WORD
  {
    TimesTen(m * Pow(10, k));
    Regroup(m, Pow(10, k));
  }

  lemma TimesTen(v: nat)
    ensures v % WORD * 10 % WORD == 10 * v % WORD
  {
    WrapSteps(v, 0);
    var q, z := v / WORD, v % WORD * 10;
    assert v == q * WORD + v % WORD;
    assert 10 * v == q * 10 * WORD + z;
    var r := z / WORD;
    assert z == r * WORD + z % WORD;
    DivMod(10 * v, WORD, q * 10 + r, z % WORD);
  }

  /** An amount up to a ninth of the 64-bit range comes back unchanged. */
  method ThereAndBack(amount: uint64) returns (back: uint64)
    requires amount <= (WORD - 1) / 9
    ensures back == amount
  {
    var x := CompressAmount(amount);
    back := DecompressAmount(x);
    Bijection(amount, 0);
    DivMod(amount, WORD, 0, amount);
  }
}

/** Unsigned integers of a fixed width: an array of 32-bit limbs, worked on in place. */
module BaseUint {
  import opened Bits
  import opened Common
  import opened Limbs

  class BaseUint {
    const WIDTH: nat
    const pn: array<uint32>

    ghost predicate Valid() { pn.Length == WIDTH && WIDTH >= 2 }

    ghost function Value(): nat
      reads pn
    {
      Val(pn[..])
    }

    /** The number of values: arithmetic is modulo this. */
    ghost function Modulus(): nat {
      P(WIDTH)
    }

    constructor (width: nat)
      requires width >= 2
      ensures Valid() && WIDTH == width && fresh(pn) && Value() == 0
    {
      WIDTH, pn := width, new uint32[width](_ => 0);
      new;
      ValZero(pn[..]);
    }

    constructor Copy(b: BaseUint)
      requires b.Valid()
      ensures Valid() && WIDTH == b.WIDTH && fresh(pn) && pn[..] == b.pn[..] && Value() == b.Value()
    {
      WIDTH, pn := b.WIDTH, new uint32[b.pn.Length](i requires 0 <= i < b.pn.Length reads b.pn => b.pn[i]);
    }

    lemma Bounded()
      requires Valid()
      ensures Value() < Modulus()
    {
      ValBound(pn[..]);
    }

    lemma ValueIs()
      requires Valid()
      ensures Value() == Val(pn[..]) && Modulus() == P(WIDTH)
    {
    }

    /** Writes one limb. */
    method Put(i: nat, x: uint32)
      requires Valid() && i < WIDTH
      modifies pn
      ensures pn[..] == old(pn[..])[i := x]
      ensures Value() == old(Value()) - old(pn[i]) * P(i) + x * P(i)
    {
      pn[i] := x;
      assert pn[..] == old(pn[..])[i := x];
      ValUpdate(old(pn[..]), i, x);
    }

    method SetZero()
      requires Valid()
      modifies pn
      ensures forall m | 0 <= m < WIDTH :: pn[m] == 0
      ensures Value() == 0
    {
      for i := 0 to WIDTH
        invariant forall m | 0 <= m < i :: pn[m] == 0
      {
        pn[i] := 0;
      }
      ValZero(pn[..]);
    }

    method Assign(b: uint64)
      requires Valid()
      modifies pn
      ensures Value() == b
    {
      SetZero();
      Put(0, b % LIMB);
      Put(1, b / LIMB);
      assert P(0) == 1 && P(1) == LIMB;
    }

    /** this += b */
    method AddAssign(b: BaseUint)
      requires Valid() && b.Valid() && b.WIDTH == WIDTH
      modifies pn
      ensures Value() == (old(Value()) + old(b.Value())) % Modulus()
    {
      hide P, Val;
      ghost var x, y := pn[..], b.pn[..];
      var carry: uint64 := 0;
      Nothing(x);
      Nothing(y);
      Nothing(pn[..]);
      for i := 0 to WIDTH
        invariant carry <= 1
        invariant Val(pn[..][..i]) + carry * P(i) == Val(x[..i]) + Val(y[..i])
        invariant forall m | i <= m < WIDTH :: pn[m] == x[m] && b.pn[m] == y[m]
      {
        var n: uint64 := carry + pn[i] + b.pn[i];
        ghost var before := pn[..];
        pn[i] := n % LIMB;
        assert pn[..][..i] == before[..i];
        ValNext(pn[..], i);
        ValNext(x, i);
        ValNext(y, i);
        CarryStep(n, P(i));
        Sum3(carry, x[i], y[i], P(i));
        PNext(i);
        carry := n / LIMB;
      }
      Whole(x, y, pn[..]);
      Bounded();
      DivMod(old(Value()) + old(b.Value()), P(WIDTH), carry, Value());
    }

    /** -this */
    method Negate() returns (ret: BaseUint)
      requires Valid()
      ensures ret.Valid() && ret.WIDTH == WIDTH && fresh(ret) && fresh(ret.pn)
      ensures ret.Value() == (Modulus() - Value()) % Modulus()
    {
      hide P, Val;
      ret := new BaseUint(WIDTH);
      Nothing(pn[..]);
      Nothing(ret.pn[..]);
      for i := 0 to WIDTH
        invariant Val(ret.pn[..][..i]) + Val(pn[..][..i]) == P(i) - 1
      {
        ghost var before := ret.pn[..];
        ret.pn[i] := LIMB - 1 - pn[i];
        assert ret.pn[..][..i] == before[..i];
        ValNext(ret.pn[..], i);
        ValNext(pn[..], i);
        PNext(i);
        Complement(pn[i], P(i));
      }
      Whole(pn[..], ret.pn[..], ret.pn[..]);
      ret.Increment();
    }

    /** this -= b */
    method SubAssign(b: BaseUint)
      requires Valid() && b.Valid() && b.WIDTH == WIDTH
      modifies pn
      ensures Value() == (old(Value()) - old(b.Value())) % Modulus()
    {
      hide BaseUint.Value, P;
      Bounded();
      b.Bounded();
      var neg := b.Negate();
      AddAssign(neg);
      AddNegated(old(Value()), old(b.Value()), Modulus());
    }

    /** ++this */
    method Increment()
      requires Valid()
      modifies pn
      ensures Value() == (old(Value()) + 1) % Modulus()
    {
      hide P, Val;
      PNext(0);
      var i := 0;
      LimbUp(pn[0], P(0));
      Put(0, (pn[0] + 1) % LIMB);
      while pn[i] == 0 && i < WIDTH - 1
        invariant i < WIDTH
        invariant Value() + (if pn[i] == 0 then P(i + 1) else 0) == old(Value()) + 1
      {
        PNext(i + 1);
        i := i + 1;
        LimbUp(pn[i], P(i));
        Put(i, (pn[i] + 1) % LIMB);
      }
      Bounded();
      DivMod(old(Value()) + 1, P(WIDTH), if pn[i] == 0 then 1 else 0, Value());
    }

    /** --this */
    method Decrement()
      requires Valid()
      modifies pn
      ensures Value() == (old(Value()) - 1) % Modulus()
    {
      hide P, Val;
      PNext(0);
      var i := 0;
      LimbDown(pn[0], P(0));
      Put(0, (pn[0] - 1) % LIMB);
      while pn[i] == LIMB - 1 && i < WIDTH - 1
        invariant i < WIDTH
        invariant Value() - (if pn[i] == LIMB - 1 then P(i + 1) else 0) == old(Value()) - 1
      {
        PNext(i + 1);
        i := i + 1;
        LimbDown(pn[i], P(i));
        Put(i, (pn[i] - 1) % LIMB);
      }
      Bounded();
      DivMod(old(Value()) - 1, P(WIDTH), if pn[i] == LIMB - 1 then -1 else 0, Value());
    }

    /** this *= b32 */
    method MulAssign32(b32: uint32)
      requires Valid()
      modifies pn
      ensures Value() == old(Value()) * b32 % Modulus()
    {
      hide P, Val;
      ghost var x := pn[..];
      var carry: uint64 := 0;
      Nothing(x);
      for i := 0 to WIDTH
        invariant carry < LIMB
        invariant Val(pn[..][..i]) + carry * P(i) == Val(x[..i]) * b32
        invariant forall m | i <= m < WIDTH :: pn[m] == x[m]
      {
        ProductFits(b32, pn[i], carry, 0);
        var n: uint64 := carry + b32 * pn[i];
        ghost var before := pn[..];
        pn[i] := n % LIMB;
        assert pn[..][..i] == before[..i];
        ValNext(pn[..], i);
        ValNext(x, i);
        CarryStep(n, P(i));
        MulStep(carry, b32, x[i], P(i), Val(x[..i]));
        PNext(i);
        carry := n / LIMB;
      }
      Whole(x, x, pn[..]);
      Bounded();
      DivMod(old(Value()) * b32, P(WIDTH), carry, Value());
    }

    /** a times x and the carry, added at limb k; what does not fit there is carried on. */
    method AddLimb(a: uint32, x: uint32, carry: uint64, k: nat) returns (next: uint64)
      requires Valid() && k < WIDTH && carry < LIMB
      modifies pn
      ensures next < LIMB
      ensures Value() + next * P(k + 1) == old(Value()) + (carry + a * x) * P(k)
      ensures forall m | 0 <= m < WIDTH && m != k :: pn[m] == old(pn[m])
    {
      hide P, Val, BaseUint.Value;
      ProductFits(a, x, carry, pn[k]);
      var n: uint64 := carry + pn[k] + a * x;
      PNext(k);
      CarryStep(n, P(k));
      SumTimes(carry + a * x, pn[k], P(k));
      Put(k, n % LIMB);
      next := n / LIMB;
    }

    /** One limb of a times b, added at limb j. The carry out of the top is dropped. With b this number
        itself, which is zero by then, nothing comes of it. */
    method AddProduct(a: uint32, b: BaseUint, j: nat) returns (ghost dropped: nat)
      requires Valid() && b.Valid() && b.WIDTH == WIDTH && j < WIDTH
      requires b.pn == pn ==> Value() == 0
      modifies pn
      ensures b.pn == pn ==> Value() == 0
      ensures b.pn != pn ==> Value() + dropped * Modulus() == old(Value()) + a * b.Value() * P(j)
    {
      hide P, Val, BaseUint.Value, BaseUint.Modulus;
      ValueIs();
      b.ValueIs();
      ghost var y := b.pn[..];
      var carry: uint64 := 0;
      var i := 0;
      Nothing(y);
      while i + j < WIDTH
        invariant i + j <= WIDTH && carry < LIMB
        invariant b.pn == pn ==> Value() == 0 && carry == 0
        invariant b.pn != pn ==> Value() + carry * P(i + j) == old(Value()) + a * Val(y[..i]) * P(j)
      {
        ghost var c := carry;
        if b.pn == pn { ZeroLimb(i); }
        ProductStep(carry, a, y[i], i, j, Val(y[..i]));
        ValNext(y, i);
        carry := AddLimb(a, b.pn[i], carry, i + j);
        if b.pn == pn { StaysZero(Value(), carry, P(i + j + 1), (c + a * 0) * P(i + j)); }
        i := i + 1;
      }
      ValSplit(y, i);
      dropped := carry + a * Val(y[i..]);
      PAdd(i, j);
      DroppedIs(carry, a, Val(y[..i]), Val(y[i..]), P(i), P(j), P(WIDTH));
    }

    lemma ZeroLimb(i: nat)
      requires Valid() && i < WIDTH && Value() == 0
      ensures pn[i] == 0
    {
      ValZero(pn[..]);
    }

    /** this *= b. A number cannot be multiplied by itself: it is cleared before b is looked at. */
    method MulAssign(b: BaseUint)
      requires Valid() && b.Valid() && b.WIDTH == WIDTH
      modifies pn
      ensures Value() == if b.pn == pn then 0 else old(Value()) * old(b.Value()) % Modulus()
    {
      hide P, Val, BaseUint.Value;
      var a := new BaseUint.Copy(this);
      a.ValueIs();
      SetZero();
      ghost var excess := 0;
      Nothing(a.pn[..]);
      for j := 0 to WIDTH
        invariant a.pn[..] == old(pn[..]) && (b.pn != pn ==> b.pn[..] == old(b.pn[..]))
        invariant b.pn == pn ==> Value() == 0
        invariant b.pn != pn ==> Value() + excess * Modulus() == Val(a.pn[..][..j]) * old(b.Value())
      {
        ghost var dropped := AddProduct(a.pn[j], b, j);
        ValNext(a.pn[..], j);
        OuterStep(Val(a.pn[..][..j]), a.pn[j], P(j), old(b.Value()), excess, dropped, Modulus());
        excess := excess + dropped;
      }
      assert a.pn[..][..WIDTH] == a.pn[..];
      Bounded();
      if b.pn != pn { DivMod(old(Value()) * old(b.Value()), P(WIDTH), excess, Value()); }
    }

    /** One round of the left shift: limb x, at position i before, is or-ed into the two limbs it goes to.
        What does not fit is dropped. */
    method ShiftUpLimb(x: uint32, s: nat, i: nat, k: nat) returns (ghost dropped: nat)
      requires Valid() && s < 32
      requires i + k < WIDTH ==> pn[i + k] < Pow2(s)
      requires forall m | i + k < m < WIDTH :: pn[m] == 0
      modifies pn
      ensures Value() + dropped * Modulus() == old(Value()) + x * Pow2(s) * P(i + k)
      ensures i + k + 1 < WIDTH ==> pn[i + k + 1] < Pow2(s)
      ensures forall m | i + k + 1 < m < WIDTH :: pn[m] == 0
    {
      hide P, Val, Pow2, Or;
      var hi: uint32 := x / Pow2(32 - s);
      var lo: uint32 := x * Pow2(s) % LIMB;
      LimbUpShift(x, s);
      ShiftUpStep(0, x, s, i, k);
      dropped := 0;
      if i + k + 1 < WIDTH && s != 0 {
        OrZero(hi);
        Put(i + k + 1, Or(pn[i + k + 1], hi));
      }
      if i + k < WIDTH {
        OrLow(pn[i + k], x, s, P(i + k));
        Put(i + k, Or(pn[i + k], lo));
        if i + k + 1 == WIDTH { dropped := hi; }
      } else {
        PAdd(i + k - WIDTH, WIDTH);
        dropped := x * Pow2(s) * P(i + k - WIDTH);
        Assoc(x * Pow2(s), P(i + k - WIDTH), P(WIDTH));
      }
    }

    /** this <<= shift */
    method ShiftLeft(shift: nat)
      requires Valid()
      modifies pn
      ensures Value() == old(Value()) * Pow2(shift) % Modulus()
    {
      hide P, Val, Pow2;
      var a := new BaseUint.Copy(this);
      SetZero();
      var k, s := shift / 32, shift % 32;
      ghost var lost := 0;
      Nothing(a.pn[..]);
      for i := 0 to WIDTH
        invariant a.pn[..] == old(pn[..])
        invariant Value() + lost * Modulus() == Val(a.pn[..][..i]) * Pow2(s) * P(k)
        invariant i + k < WIDTH ==> pn[i + k] < Pow2(s)
        invariant forall m | i + k < m < WIDTH :: pn[m] == 0
      {
        ValNext(a.pn[..], i);
        ShiftUpStep(Val(a.pn[..][..i]), a.pn[i], s, i, k);
        ghost var dropped := ShiftUpLimb(a.pn[i], s, i, k);
        SumTimes(lost, dropped, Modulus());
        lost := lost + dropped;
      }
      assert a.pn[..][..WIDTH] == a.pn[..];
      ShiftIs(shift);
      Assoc(old(Value()), Pow2(s), P(k));
      Bounded();
      DivMod(old(Value()) * Pow2(shift), Modulus(), lost, Value());
    }

    /** One round of the right shift. */
    method ShiftDownLimb(x: uint32, s: nat, j: nat)
      requires Valid() && s < 32 && j < WIDTH
      requires j > 0 ==> pn[j - 1] < Pow2(32 - s)
      requires forall m | j <= m < WIDTH :: pn[m] == 0
      modifies pn
      ensures Pow2(s) * Value() == Pow2(s) * old(Value()) + x * P(j) - if j == 0 then x % Pow2(s) else 0
      ensures pn[j] < Pow2(32 - s)
      ensures forall m | j < m < WIDTH :: pn[m] == 0
    {
      hide P, Val, Pow2, Or;
      LimbDownShift(x, s, j);
      var hi: uint32 := x / Pow2(s);
      if j > 0 && s != 0 {
        OrHigh(pn[j - 1], x, s, P(j - 1));
        var up: uint32 := x * Pow2(32 - s) % LIMB;
        Put(j - 1, Or(pn[j - 1], up));
        Moved(Pow2(s), old(Value()), up * P(j - 1));
      }
      ghost var before := Value();
      OrZero(hi);
      Put(j, Or(pn[j], hi));
      Moved(Pow2(s), before, hi * P(j));
    }

    /** this >>= shift */
    method ShiftRight(shift: nat)
      requires Valid()
      modifies pn
      ensures Value() == old(Value()) / Pow2(shift)
    {
      hide P, Val, Pow2;
      var a := new BaseUint.Copy(this);
      SetZero();
      var k, s := shift / 32, shift % 32;
      ghost var x := a.pn[..];
      for i := 0 to WIDTH
        invariant a.pn[..] == old(pn[..]) == x
        invariant if i <= k then Value() == 0
                  else Pow2(s) * Value() + x[k] % Pow2(s) == Val(x[k..][..i - k])
        invariant i > k ==> pn[i - k - 1] < Pow2(32 - s)
        invariant forall m | 0 <= m < WIDTH && m + k >= i :: pn[m] == 0
      {
        if i >= k {
          if i == k { Nothing(x[k..]); }
          ValNext(x[k..], i - k);
          ShiftDownLimb(a.pn[i], s, i - k);
          PowPositive(s);
          assert i == k ==> P(0) == 1 by { Nothing(x); }
        }
      }
      ShiftIs(shift);
      if k < WIDTH {
        assert x[k..][..WIDTH - k] == x[k..];
        ValSplit(x, k);
        ValBound(x[..k]);
        ModBound(x[k], Pow2(s));
        DownIs(old(Value()), Value(), Pow2(s), P(k), x[k] % Pow2(s), Val(x[..k]));
      } else {
        ValBound(x);
        PMono(WIDTH, k);
        ShiftedOut(old(Value()), Pow2(s), P(k));
      }
    }

    /** The two lowest limbs. */
    method GetLow64() returns (low: uint64)
      requires Valid()
      ensures low == Value() % 0x1_0000_0000_0000_0000
    {
      hide P, Val, Pow2, Or, BaseUint.Value;
      Pow2Of32();
      OrDisjoint(pn[0], pn[1], 32);
      low := Or(pn[0], pn[1] * LIMB);
      ValueIs();
      LowTwo(pn[..]);
    }

    method CompareTo(b: BaseUint) returns (c: int)
      requires Valid() && b.Valid() && b.WIDTH == WIDTH
      ensures c == if Value() < b.Value() then -1 else if Value() > b.Value() then 1 else 0
    {
      hide P, Val;
      var i := WIDTH - 1;
      while i >= 0
        invariant -1 <= i < WIDTH
        invariant pn[i + 1..] == b.pn[i + 1..]
      {
        if pn[i] < b.pn[i] {
          Lower(pn[..], b.pn[..], i);
          return -1;
        }
        if pn[i] > b.pn[i] {
          Lower(b.pn[..], pn[..], i);
          return 1;
        }
        assert pn[i..] == [pn[i]] + pn[i + 1..] && b.pn[i..] == [b.pn[i]] + b.pn[i + 1..];
        i := i - 1;
      }
      assert pn[0..] == pn[..] && b.pn[0..] == b.pn[..];
      return 0;
    }

    /** The position of the highest bit set plus one, or zero if the value is zero. */
    method Bits() returns (n: nat)
      requires Valid()
      ensures n == 0 <==> Value() == 0
      ensures n > 0 ==> Pow2(n - 1) <= Value() < Pow2(n)
      ensures n <= 32 * WIDTH
    {
      hide P, Val, Pow2, TestBit;
      var pos := WIDTH - 1;
      while pos >= 0
        invariant -1 <= pos < WIDTH
        invariant forall m | pos < m < WIDTH :: pn[m] == 0
      {
        if pn[pos] != 0 {
          var bits := 31;
          Pow2Of32();
          while bits > 0 && !TestBit(pn[pos], bits)
            invariant 0 <= bits <= 31
            invariant pn[pos] < Pow2(bits + 1)
          {
            TopBit(pn[pos], bits);
            bits := bits - 1;
          }
          TopBit(pn[pos], bits);
          PowNext(0);
          HighestLimb(pn[..], pos, bits);
          return 32 * pos + bits + 1;
        }
        pos := pos - 1;
      }
      ValZero(pn[..]);
      return 0;
    }

    /** this /= b; dividing by zero fails, but only once this has been cleared. */
    method DivAssign(b: BaseUint) returns (ok: bool, ghost remainder: nat)
      requires Valid() && b.Valid() && b.WIDTH == WIDTH
      modifies pn
      ensures ok <==> old(b.Value()) != 0
      ensures ok ==> old(Value()) == Value() * old(b.Value()) + remainder && remainder < old(b.Value())
      ensures !ok ==> Value() == 0
    {
      hide P, Val, Pow2, ClearBelow, BaseUint.Value;
      var div := new BaseUint.Copy(b);
      var num := new BaseUint.Copy(this);
      ghost var n, d := num.Value(), div.Value();
      SetZero();
      var num_bits := num.Bits();
      var div_bits := div.Bits();
      if div_bits == 0 { return false, 0; }
      if div_bits > num_bits {
        Fewer(n, d, num_bits, div_bits);
        return true, n;
      }
      var shift := num_bits - div_bits;
      div.ShiftLeft(shift);
      Aligned(n, d, num_bits, div_bits, WIDTH);
      DivMod(d * Pow2(shift), P(WIDTH), 0, d * Pow2(shift));
      AllClear(pn[..], shift + 1);
      DivRounds(num, div, shift, d);
      return true, num.Value();
    }

    /** One round for each position of the divisor, from `top` down. */
    method DivRounds(num: BaseUint, div: BaseUint, top: nat, ghost d: nat)
      requires Valid() && num.Valid() && div.Valid() && div.WIDTH == num.WIDTH == WIDTH
      requires div.pn != num.pn && div.pn != pn && num.pn != pn
      requires top < 32 * WIDTH && ClearBelow(pn[..], top + 1) && Value() == 0
      requires div.Value() == d * Pow2(top) && num.Value() < d * Pow2(top + 1)
      modifies pn, num.pn, div.pn
      ensures num.Value() + Value() * d == old(num.Value())
      ensures num.Value() < d
    {
      hide P, Val, Pow2, ClearBelow, BaseUint.Value;
      var shift: int := top;
      while shift >= 0
        invariant -1 <= shift < 32 * WIDTH
        invariant shift >= 0 ==> div.Value() == d * Pow2(shift)
        invariant num.Value() < d * Pow2(shift + 1)
        invariant old(num.Value()) == num.Value() + Value() * d
        invariant ClearBelow(pn[..], shift + 1)
        decreases shift
      {
        DivRound(num, div, shift, d);
        shift := shift - 1;
      }
      PowNext(0);
    }

    /** Subtracts the shifted divisor, if it fits, and shifts it back by one. */
    method DivRound(num: BaseUint, div: BaseUint, shift: nat, ghost d: nat)
      requires Valid() && num.Valid() && div.Valid() && div.WIDTH == num.WIDTH == WIDTH
      requires div.pn != num.pn && div.pn != pn && num.pn != pn
      requires shift < 32 * WIDTH && ClearBelow(pn[..], shift + 1)
      requires div.Value() == d * Pow2(shift) && num.Value() < d * Pow2(shift + 1)
      modifies pn, num.pn, div.pn
      ensures num.Value() + Value() * d == old(num.Value() + Value() * d)
      ensures num.Value() < d * Pow2(shift)
      ensures shift > 0 ==> div.Value() == d * Pow2(shift - 1)
      ensures ClearBelow(pn[..], shift)
    {
      hide P, Val, Pow2, ClearBelow, BaseUint.Value;
      DivStep(d, shift);
      var c := num.CompareTo(div);
      if c >= 0 {
        num.Bounded();
        DivMod(num.Value() - div.Value(), num.Modulus(), 0, num.Value() - div.Value());
        num.SubAssign(div);
        SumTimes(Value(), Pow2(shift), d);
        SetOneBit(shift);
      } else {
        ClearLower(pn[..], shift);
      }
      div.ShiftRight(1);
    }

    /** Sets a bit that is clear, with all bits below it. */
    method SetOneBit(shift: nat)
      requires Valid() && shift < 32 * WIDTH && ClearBelow(pn[..], shift + 1)
      modifies pn
      ensures Value() == old(Value()) + Pow2(shift)
      ensures ClearBelow(pn[..], shift)
    {
      hide P, Val, Pow2, SetBit;
      SetBitClear(pn[..], shift);
      ShiftIs(shift);
      SumTimes(pn[shift / 32], Pow2(shift % 32), P(shift / 32));
      Put(shift / 32, SetBit(pn[shift / 32], shift % 32));
    }
  }

  /** Three times itself, in place, is zero. */
  method ThreeTimesItself() returns (x: BaseUint, ghost was: nat)
    ensures x.Valid() && was == 3 && x.Value() == 0 != was * was % x.Modulus()
  {
    x := new BaseUint(8);
    x.Assign(3);
    was := x.Value();
    x.MulAssign(x);
    NineFits();
  }

  lemma NineFits()
    ensures 9 % P(8) == 9
  {
    PMono(1, 8);
    assert P(1) == LIMB;
    DivMod(9, P(8), 0, 9);
  }

  /* Arithmetic steps of the loops. */

  lemma Nothing(s: seq<uint32>)
    ensures Val(s[..0]) == 0 && P(0) == 1
  {
  }

  lemma PNext(n: nat)
    ensures P(n + 1) == LIMB * P(n) && P(0) == 1
  {
  }

  lemma Whole(x: seq<uint32>, y: seq<uint32>, z: seq<uint32>)
    ensures x[..|x|] == x && y[..|y|] == y && z[..|z|] == z
  {
  }

  lemma Complement(x: int, p: int)
    ensures (LIMB - 1 - x) * p + x * p == LIMB * p - p
  {
  }

  lemma LimbUp(x: uint32, p: int)
    ensures (x + 1) % LIMB == 0 <==> x == LIMB - 1
    ensures (x + 1) % LIMB * p == x * p + p - if x == LIMB - 1 then LIMB * p else 0
  {
  }

  lemma LimbDown(x: uint32, p: int)
    ensures (x - 1) % LIMB == LIMB - 1 <==> x == 0
    ensures (x - 1) % LIMB * p == x * p - p + if x == 0 then LIMB * p else 0
  {
    assert (x - 1) % LIMB == if x == 0 then LIMB - 1 else x - 1;
  }

  lemma AddNegated(x: nat, y: nat, m: nat)
    requires x < m && y < m
    ensures (x + (m - y) % m) % m == (x - y) % m
  {
    if y == 0 {
      DivMod(m, m, 1, 0);
    } else {
      DivMod(m - y, m, 0, m - y);
      if x >= y {
        DivMod(x + (m - y), m, 1, x - y);
        DivMod(x - y, m, 0, x - y);
      } else {
        DivMod(x + (m - y), m, 0, x - y + m);
        DivMod(x - y, m, -1, x - y + m);
      }
    }
  }

  lemma MulStep(carry: int, b: int, x: int, p: int, v: int)
    ensures (carry + b * x) * p + v * b == carry * p + (v + x * p) * b
  {
    assert (b * x) * p == (x * p) * b;
  }

  lemma ProductStep(carry: nat, a: nat, x: nat, i: nat, j: nat, v: nat)
    ensures a * v * P(j) + (carry + a * x) * P(i + j) == carry * P(i + j) + a * (v + x * P(i)) * P(j)
  {
    hide P;
    PAdd(i, j);
    SumTimes(carry, a * x, P(i + j));
    Spread4(a, v, x, P(i), P(j));
  }

  lemma Spread4(a: int, v: int, x: int, p: int, q: int)
    ensures a * (v + x * p) * q == a * v * q + a * x * p * q
    ensures a * x * (p * q) == a * x * p * q
  {
    assert a * (v + x * p) == a * v + a * x * p;
    assert (a * v + a * x * p) * q == a * v * q + a * x * p * q;
  }

  lemma StaysZero(v: nat, carry: nat, p: nat, w: nat)
    requires v + carry * p == w && w == 0 && p > 0
    ensures v == 0 && carry == 0
  {
    if carry > 0 { Scale(1, carry, p); }
  }

  lemma DroppedIs(carry: nat, a: nat, low: nat, high: nat, pi: nat, pj: nat, m: nat)
    requires pi * pj == m
    ensures a * (low + pi * high) * pj == a * low * pj + a * high * m
    ensures (carry + a * high) * m == carry * m + a * high * m
  {
    assert a * (low + pi * high) == a * low + a * high * pi;
    assert a * high * pi * pj == a * high * (pi * pj);
  }

  lemma OuterStep(v: int, x: int, p: int, b: int, e: int, d: int, m: int)
    ensures (v + x * p) * b == v * b + x * b * p
    ensures (e + d) * m == e * m + d * m
  {
    assert (x * p) * b == x * b * p;
  }

  /* Shifts. */

  lemma ShiftIs(shift: nat)
    ensures Pow2(shift) == Pow2(shift % 32) * P(shift / 32)
  {
    PIsPow2(shift / 32);
    Pow2Add(shift % 32, 32 * (shift / 32));
  }

  lemma LimbParts(s: nat)
    requires s <= 32
    ensures Pow2(s) * Pow2(32 - s) == LIMB
  {
    Pow2Add(s, 32 - s);
    Pow2Of32();
  }

  /** The two limbs that a limb is shifted into. */
  lemma LimbUpShift(x: uint32, s: nat)
    requires s < 32
    ensures var t, u := Pow2(s), Pow2(32 - s);
      && x * t % LIMB == x % u * t
      && 0 <= x / u < t
      && x * t == x % u * t + x / u * LIMB
      && (s == 0 ==> x / u == 0)
  {
    hide Pow2;
    LimbParts(s);
    var t, u := Pow2(s), Pow2(32 - s);
    UpShiftParts(x, t, u);
    if s == 0 { PowNext(0); }
  }

  lemma UpShiftParts(x: nat, t: nat, u: nat)
    requires t * u == LIMB && t > 0 && u > 0 && x < LIMB
    ensures x * t % LIMB == x % u * t
    ensures 0 <= x / u < t
    ensures x * t == x % u * t + x / u * LIMB
  {
    var q, r := x / u, x % u;
    assert x == q * u + r;
    PartsTimes(q, u, r, t);
    Scale(r, u - 1, t);
    Scale(0, r, t);
    assert (u - 1) * t == LIMB - t;
    DivMod(x * t, LIMB, q, r * t);
    Below(q, u, t);
  }

  lemma Below(q: int, u: int, t: int)
    requires u > 0 && 0 <= q * u < t * u
    ensures 0 <= q < t
  {
    if q >= t { Scale(t, q, u); }
    if q < 0 { Scale(q, -1, u); }
  }

  lemma JoinFits(low: nat, q: nat, t: nat, u: nat)
    requires low < t && q < u && t * u == LIMB
    ensures low + q * t < LIMB
  {
    Scale(q, u - 1, t);
    assert (u - 1) * t == LIMB - t;
  }

  lemma ShiftUpStep(v: nat, x: uint32, s: nat, i: nat, k: nat)
    requires s < 32
    ensures (v + x * P(i)) * Pow2(s) * P(k) == v * Pow2(s) * P(k) + x * Pow2(s) * P(i + k)
    ensures x * Pow2(s) * P(i + k) == x * Pow2(s) % LIMB * P(i + k) + x / Pow2(32 - s) * P(i + k + 1)
  {
    hide P, Pow2;
    PAdd(i, k);
    PNext(i + k);
    LimbUpShift(x, s);
    var t, p, q := Pow2(s), P(i), P(k);
    Distribute(v, x, t, p, q);
    var lo, hi, r := x * t % LIMB, x / Pow2(32 - s), P(i + k);
    assert (lo + hi * LIMB) * r == lo * r + hi * (LIMB * r);
  }

  lemma Distribute(v: int, x: int, t: int, p: int, q: int)
    ensures (v + x * p) * t * q == v * t * q + x * t * (p * q)
  {
    assert (v + x * p) * t == v * t + x * p * t;
    assert (v * t + x * p * t) * q == v * t * q + x * p * t * q;
    assert x * p * t * q == x * t * (p * q) by { assert x * p * t == x * t * p; assert x * t * p * q == x * t * (p * q); }
  }

  /** The low part is or-ed in above the bits that are there. */
  lemma OrLow(low: uint32, x: uint32, s: nat, p: nat)
    requires s < 32 && low < Pow2(s)
    ensures var lo := x * Pow2(s) % LIMB;
      0 <= Or(low, lo) < LIMB && Or(low, lo) * p == low * p + lo * p
  {
    hide Pow2, Or;
    LimbUpShift(x, s);
    LimbParts(s);
    var q := x % Pow2(32 - s);
    OrDisjoint(low, q, s);
    JoinFits(low, q, Pow2(s), Pow2(32 - s));
    SumTimes(low, q * Pow2(s), p);
  }

  lemma OrHigh(low: uint32, x: uint32, s: nat, p: nat)
    requires 0 < s < 32 && low < Pow2(32 - s)
    ensures var up := x * Pow2(32 - s) % LIMB;
      0 <= Or(low, up) < LIMB && Or(low, up) * p == low * p + up * p
  {
    OrLow(low, x, 32 - s, p);
  }

  /** The two limbs that a limb is shifted into, going down. */
  lemma LimbDownShift(x: uint32, s: nat, j: nat)
    requires s < 32
    ensures 0 <= x / Pow2(s) < Pow2(32 - s) && x / Pow2(s) < LIMB
    ensures Pow2(s) * (x / Pow2(s) * P(j)) == x * P(j) - x % Pow2(s) * P(j)
    ensures j > 0 && s > 0 ==> Pow2(s) * (x * Pow2(32 - s) % LIMB * P(j - 1)) == x % Pow2(s) * P(j)
    ensures s == 0 ==> x % Pow2(s) == 0
    ensures j == 0 ==> P(j) == 1
  {
    hide Pow2;
    LimbParts(s);
    var t, u := Pow2(s), Pow2(32 - s);
    UpShiftParts(x, u, t);
    Scale(1, t, x / t);
    ScaleParts(x, t, P(j));
    if s == 0 { PowNext(0); }
    if j > 0 {
      var r, p := x % t, P(j - 1);
      assert t * ((r * u) * p) == r * ((t * u) * p) by { Reorder(t, r, u, p); }
    }
  }

  lemma Reorder(t: int, r: int, u: int, p: int)
    ensures t * ((r * u) * p) == r * ((t * u) * p)
  {
    assert t * ((r * u) * p) == (t * (r * u)) * p;
    assert t * (r * u) == r * (t * u);
    assert r * (t * u) * p == r * ((t * u) * p);
  }

  lemma ScaleParts(x: nat, t: nat, p: int)
    requires t > 0
    ensures t * (x / t * p) == x * p - x % t * p
  {
    var q, r := x / t, x % t;
    assert x == t * q + r;
    assert t * (q * p) == (t * q) * p;
    assert (t * q + r) * p == (t * q) * p + r * p;
  }

  lemma Moved(t: int, v: int, d: int)
    ensures t * (v + d) == t * v + t * d
  {
  }

  lemma PowPositive(s: nat)
    ensures Pow2(s) >= 1 && Pow2(s) * 0 == 0
  {
  }

  lemma ModBound(x: nat, t: nat)
    requires t > 0
    ensures 0 <= x % t < t
  {
  }

  lemma DownIs(x: nat, v: nat, t: nat, p: nat, r: nat, low: nat)
    requires r < t && low < p && x == low + p * (t * v + r)
    ensures x / (t * p) == v
  {
    assert p * (t * v + r) == v * (t * p) + p * r by { assert p * (t * v) == v * (t * p); }
    Scale(r, t - 1, p);
    assert (t - 1) * p == t * p - p;
    DivMod(x, t * p, v, p * r + low);
  }

  lemma {:induction false} PMono(a: nat, b: nat)
    requires a <= b
    ensures P(a) <= P(b)
  {
    if a < b { PMono(a, b - 1); }
  }

  lemma ShiftedOut(x: nat, t: nat, p: nat)
    requires x < p && t >= 1
    ensures x / (t * p) == 0
  {
    Scale(1, t, p);
    DivMod(x, t * p, 0, x);
  }

  lemma LowTwo(s: seq<uint32>)
    requires |s| >= 2
    ensures Val(s) % 0x1_0000_0000_0000_0000 == s[0] + s[1] * LIMB
  {
    hide P, Val;
    ValSplit(s, 2);
    ValNext(s, 0);
    ValNext(s, 1);
    Nothing(s);
    PNext(0);
    PNext(1);
    DivMod(Val(s), P(2), Val(s[2..]), s[0] + s[1] * LIMB);
  }

  /* Comparison and division. */

  lemma Lower(s: seq<uint32>, t: seq<uint32>, i: nat)
    requires |s| == |t| && i < |s| && s[i] < t[i] && s[i + 1..] == t[i + 1..]
    ensures Val(s) < Val(t)
  {
    hide P, Val;
    ValSplit(s, i + 1);
    ValSplit(t, i + 1);
    ValNext(s, i);
    ValNext(t, i);
    ValBound(s[..i]);
    Scale(s[i] + 1, t[i], P(i));
    SumTimes(s[i], 1, P(i));
  }

  lemma TopBit(x: nat, n: nat)
    requires x < Pow2(n + 1)
    ensures TestBit(x, n) <==> x >= Pow2(n)
  {
    if n > 0 { TopBit(x / 2, n - 1); }
  }

  lemma HighestLimb(s: seq<uint32>, pos: nat, bits: nat)
    requires pos < |s| && bits < 32
    requires Pow2(bits) <= s[pos] < Pow2(bits + 1)
    requires forall m | pos < m < |s| :: s[m] == 0
    ensures Pow2(32 * pos + bits) <= Val(s) < Pow2(32 * pos + bits + 1)
  {
    hide P, Val, Pow2;
    ValSplit(s, pos + 1);
    ValZero(s[pos + 1..]);
    ValNext(s, pos);
    ValBound(s[..pos]);
    PIsPow2(pos);
    Pow2Add(32 * pos, bits);
    Pow2Add(32 * pos, bits + 1);
    Weighted(Val(s[..pos]), s[pos], P(pos), Pow2(bits), Pow2(bits + 1));
  }

  lemma Weighted(low: nat, x: int, p: nat, lo: nat, hi: nat)
    requires low < p && lo <= x < hi
    ensures lo * p <= low + x * p < hi * p
  {
    Scale(lo, x, p);
    Scale(x + 1, hi, p);
    SumTimes(x, 1, p);
  }

  /** All bits below bit n are clear. */
  ghost predicate ClearBelow(s: seq<uint32>, n: nat) {
    && (forall m | 0 <= m < |s| && m < n / 32 :: s[m] == 0)
    && (n / 32 < |s| ==> s[n / 32] % Pow2(n % 32) == 0)
  }

  lemma AllClear(s: seq<uint32>, n: nat)
    requires forall m | 0 <= m < |s| :: s[m] == 0
    ensures ClearBelow(s, n)
  {
    DivMod(0, Pow2(n % 32), 0, 0);
  }

  lemma ClearLower(s: seq<uint32>, n: nat)
    requires ClearBelow(s, n + 1) && n < 32 * |s|
    ensures ClearBelow(s, n)
    ensures s[n / 32] % Pow2(n % 32 + 1) == 0
  {
    hide Pow2;
    var l, bit, x := n / 32, n % 32, s[n / 32];
    if bit == 31 {
      assert (n + 1) / 32 == l + 1;
      DivMod(0, Pow2(32), 0, 0);
      DivMod(0, Pow2(31), 0, 0);
    } else {
      assert (n + 1) / 32 == l && (n + 1) % 32 == bit + 1;
      var q := x / Pow2(bit + 1);
      assert x == q * Pow2(bit + 1);
      PowNext(bit);
      assert q * (2 * Pow2(bit)) == 2 * q * Pow2(bit);
      DivMod(x, Pow2(bit), 2 * q, 0);
    }
  }

  lemma SetBitClear(s: seq<uint32>, n: nat)
    requires ClearBelow(s, n + 1) && n < 32 * |s|
    ensures var x, bit := s[n / 32], n % 32;
      && SetBit(x, bit) == x + Pow2(bit) < LIMB
      && ClearBelow(s[n / 32 := x + Pow2(bit)], n)
  {
    hide Pow2, SetBit;
    ClearLower(s, n);
    var x, bit := s[n / 32], n % 32;
    var q := x / Pow2(bit + 1);
    assert x == q * Pow2(bit + 1);
    SetClearBit(q, bit);
    Pow2Of32();
    SetBitBound(x, bit, 32);
    PowNext(bit);
    assert q * (2 * Pow2(bit)) == 2 * q * Pow2(bit);
    SumTimes(2 * q, 1, Pow2(bit));
    DivMod(x + Pow2(bit), Pow2(bit), 2 * q + 1, 0);
  }

  lemma Fewer(n: nat, d: nat, nb: nat, db: nat)
    requires (n == 0 || n < Pow2(nb)) && nb < db && Pow2(db - 1) <= d
    ensures n < d && 0 * d == 0
  {
    Pow2Mono(nb, db - 1);
  }

  lemma Aligned(n: nat, d: nat, nb: nat, db: nat, w: nat)
    requires 0 < db <= nb <= 32 * w
    requires Pow2(nb - 1) <= n < Pow2(nb) && Pow2(db - 1) <= d < Pow2(db)
    ensures d * Pow2(nb - db) < P(w)
    ensures n < d * Pow2(nb - db + 1)
  {
    hide Pow2;
    var t := Pow2(nb - db);
    Scale(d + 1, Pow2(db), t);
    SumTimes(d, 1, t);
    Pow2Add(db, nb - db);
    Pow2Mono(nb, 32 * w);
    PIsPow2(w);
    Scale(Pow2(db - 1), d, Pow2(nb - db + 1));
    Pow2Add(db - 1, nb - db + 1);
  }

  lemma DivStep(d: nat, shift: nat)
    ensures d * Pow2(shift + 1) == 2 * (d * Pow2(shift))
    ensures shift > 0 ==> d * Pow2(shift) / Pow2(1) == d * Pow2(shift - 1)
  {
    if shift > 0 {
      assert Pow2(1) == 2;
      assert d * Pow2(shift) == 2 * (d * Pow2(shift - 1));
    }
  }
}

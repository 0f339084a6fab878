/** The compact form of 256-bit targets: one byte of size, a sign bit and 23 bits of mantissa. */
module Compact {
  import opened Bits
  import opened Common
  import opened Limbs
  import BU = BaseUint

  /** 256 to the e. */
  function Pow256(e: nat): (p: nat)
    ensures p >= 1
  {
    if e == 0 then 1 else 256 * Pow256(e - 1)
  }

  function Size(n: nat): nat { n / 0x100_0000 }

  function Mantissa(n: nat): nat { n % 0x80_0000 }

  predicate SignBit(n: nat) { n / 0x80_0000 % 2 == 1 }

  /** The value a code stands for, without regard to its sign or to any bound. */
  function Exact(n: nat): nat {
    if Size(n) <= 3 then
      DivNat(Mantissa(n), Pow256(3 - Size(n)));
      Mantissa(n) / Pow256(3 - Size(n))
    else Mantissa(n) * Pow256(Size(n) - 3)
  }

  /** The number of bytes a value takes. */
  function ByteLen(v: nat): nat {
    if v == 0 then 0 else 1 + ByteLen(v / 256)
  }

  /** The leading three bytes, as if those below a short value were zero. */
  function Leading(v: nat): nat {
    if ByteLen(v) <= 3 then v * Pow256(3 - ByteLen(v))
    else
      DivNat(v, Pow256(ByteLen(v) - 3));
      v / Pow256(ByteLen(v) - 3)
  }

  /** The code of a value: its leading bytes, one less if the first of them would look like a sign. */
  function Encode(v: nat): nat {
    if Leading(v) >= 0x80_0000 then Leading(v) / 256 + 0x100_0000 * (ByteLen(v) + 1)
    else Leading(v) + 0x100_0000 * ByteLen(v)
  }

  /** Codes whose mantissa starts with a significant byte, and which say nothing below one. */
  predicate Normal(n: nat) {
    n == 0 ||
    (!SignBit(n) && Mantissa(n) >= 0x8000
      && (Size(n) < 3 ==> Size(n) > 0 && Mantissa(n) % Pow256(3 - Size(n)) == 0))
  }

  lemma {:induction false} Pow256IsPow2(e: nat)
    ensures Pow256(e) == Pow2(8 * e)
  {
    if e > 0 {
      Pow256IsPow2(e - 1);
      Pow2Add(8, 8 * (e - 1));
      Pow2Of32();
    }
  }

  lemma Small()
    ensures Pow256(0) == 1 && Pow256(1) == 0x100 && Pow256(2) == 0x1_0000 && Pow256(3) == 0x100_0000
  {
  }

  /** A code says: this mantissa, with this sign, as a number of size bytes. */
  lemma Says(m: nat, negative: bool, size: nat)
    requires m < 0x80_0000
    ensures var n := m + (if negative then 0x80_0000 else 0) + 0x100_0000 * size;
      && Mantissa(n) == m && (SignBit(n) <==> negative)
      && (size >= 3 ==> Exact(n) == m * Pow2(8 * (size - 3)))
      && (size < 3 ==> Exact(n) == m / Pow2(8 * (3 - size)))
  {
    hide Pow256, Pow2;
    var low := if negative then 0x80_0000 else 0;
    var n := m + low + 0x100_0000 * size;
    DivMod(n, 0x100_0000, size, m + low);
    DivMod(n, 0x80_0000, 2 * size + (if negative then 1 else 0), m);
    if size >= 3 { Pow256IsPow2(size - 3); } else { Pow256IsPow2(3 - size); }
    if size == 3 {
      Small();
      assert m / 1 == m && m * 1 == m;
    }
  }

  lemma {:induction false} ByteLenBounds(v: nat)
    requires v > 0
    ensures ByteLen(v) > 0
    ensures Pow256(ByteLen(v) - 1) <= v < Pow256(ByteLen(v))
  {
    if v >= 256 {
      ByteLenBounds(v / 256);
    } else {
      assert ByteLen(v / 256) == 0;
      Small();
    }
  }

  lemma {:induction false} ByteLenUnique(v: nat, n: nat)
    requires n > 0 && Pow256(n - 1) <= v < Pow256(n)
    ensures ByteLen(v) == n
  {
    if n > 1 {
      ByteLenUnique(v / 256, n - 1);
    } else {
      assert ByteLen(v / 256) == 0;
    }
  }

  /** The mantissa and size of a code put together. */
  lemma CodeParts(m: nat, size: nat)
    requires m < 0x80_0000
    ensures var n := m + 0x100_0000 * size; Size(n) == size && Mantissa(n) == m && !SignBit(n)
  {
    var n := m + 0x100_0000 * size;
    DivMod(n, 0x100_0000, size, m);
    DivMod(n, 0x80_0000, 2 * size, m);
  }

  /** What the code of a positive value says: the value, cut off below the mantissa. */
  lemma EncodeIs(v: nat) returns (m: nat, size: nat)
    requires v > 0
    ensures Encode(v) == m + 0x100_0000 * size
    ensures 0x8000 <= m < 0x80_0000 && 0 < size <= ByteLen(v) + 1
    ensures size < 3 ==> m == v * Pow256(3 - size)
    ensures size >= 3 ==> m * Pow256(size - 3) <= v < (m + 1) * Pow256(size - 3)
  {
    hide Pow256, ByteLen;
    Small();
    ByteLenBounds(v);
    LeadingIs(v);
    var len, lead := ByteLen(v), Leading(v);
    if lead >= 0x80_0000 {
      m, size := lead / 256, len + 1;
      if len >= 3 {
        Pow256Next(len - 3);
        CutByte(v, lead, Pow256(len - 3));
      }
    } else {
      m, size := lead, len;
    }
  }

  lemma Pow256Next(e: nat)
    ensures Pow256(e + 1) == 256 * Pow256(e)
  {
  }

  lemma LeadingIs(v: nat)
    requires v > 0
    ensures 0x1_0000 <= Leading(v) < 0x100_0000
    ensures ByteLen(v) >= 3 ==> Leading(v) * Pow256(ByteLen(v) - 3) <= v < (Leading(v) + 1) * Pow256(ByteLen(v) - 3)
  {
    hide Pow256, ByteLen;
    ByteLenBounds(v);
    Small();
    var len := ByteLen(v);
    if len >= 3 {
      var p := Pow256(len - 3);
      Pow256Next(len - 3);
      Pow256Next(len - 2);
      Pow256Next(len - 1);
      CutOff(v, p, 0x1_0000, 0x100_0000);
      assert len == 3 ==> v / p == v && v * p == v;
    }
  }

  lemma CutOff(v: nat, p: nat, lo: nat, hi: nat)
    requires p > 0 && lo * p <= v < hi * p
    ensures lo <= v / p < hi && v / p * p <= v < (v / p + 1) * p
  {
    var q := v / p;
    assert v == q * p + v % p;
    assert (q + 1) * p == q * p + p;
    if q < lo { Scale(q + 1, lo, p); }
    if q >= hi { Scale(hi, q, p); }
  }

  lemma CutByte(v: nat, lead: nat, p: nat)
    requires lead * p <= v < (lead + 1) * p
    ensures lead / 256 * (256 * p) <= v < (lead / 256 + 1) * (256 * p)
  {
    var m := lead / 256;
    Scale(256 * m, lead, p);
    Scale(lead + 1, 256 * m + 256, p);
    assert 256 * m * p == m * (256 * p) && (256 * m + 256) * p == (m + 1) * (256 * p);
  }

  /* What the codec promises. */

  /** The code of a positive value is its leading part, with an error below one part in 32768. */
  lemma EncodeClose(v: nat)
    requires v > 0
    ensures Exact(Encode(v)) <= v
    ensures (v - Exact(Encode(v))) * 0x8000 < Exact(Encode(v))
    ensures Size(Encode(v)) <= ByteLen(v) + 1
  {
    hide Pow256, ByteLen, Encode;
    var m, size := EncodeIs(v);
    CodeParts(m, size);
    Small();
    if size >= 3 {
      var p := Pow256(size - 3);
      ErrorBelow(v, m, p);
      assert size == 3 ==> m / 1 == m && m * 1 == m;
    } else {
      DivMod(m, Pow256(3 - size), v, 0);
    }
  }

  lemma ErrorBelow(v: nat, m: nat, p: nat)
    requires m * p <= v < (m + 1) * p && m >= 0x8000
    ensures (v - m * p) * 0x8000 < m * p
  {
    assert (m + 1) * p == m * p + p;
    Scale(0x8000, m, p);
  }

  lemma EncodeBelow(v: nat)
    ensures Exact(Encode(v)) <= v
  {
    if v == 0 { ZeroCode(); } else { EncodeClose(v); }
  }

  /** No code stands for a value that is larger and still not above v: encoding rounds down as little
      as the format allows. */
  lemma EncodeBest(v: nat, n: nat)
    requires Exact(n) <= v
    ensures Exact(n) <= Exact(Encode(v)) <= v
  {
    hide Pow256, ByteLen, Encode;
    Small();
    if v == 0 {
      ZeroCode();
    } else {
      EncodeClose(v);
      var m, size := EncodeIs(v);
      CodeParts(m, size);
      if size < 3 {
        DivMod(m, Pow256(3 - size), v, 0);
      } else {
        assert Exact(Encode(v)) == m * Pow256(size - 3) by { assert size == 3 ==> m / 1 == m && m * 1 == m; }
        var f := size - 3;
        if Size(n) <= 3 {
          ExactSmall(n);
          BestOf(v, m, f, Exact(n), 0);
        } else {
          BestOf(v, m, f, Mantissa(n), Size(n) - 3);
        }
      }
    }
  }

  lemma {:induction false} BestOf(v: nat, m: nat, f: nat, m1: nat, e: nat)
    requires m * Pow256(f) <= v < (m + 1) * Pow256(f) && m >= 0x8000
    requires m1 * Pow256(e) <= v && m1 < 0x80_0000
    ensures m1 * Pow256(e) <= m * Pow256(f)
  {
    hide Pow256;
    PowerOrder(e, f);
    if e >= f {
      Assoc(m1, Pow256(e - f), Pow256(f));
      MultipleBelow(v, m, m1 * Pow256(e - f), Pow256(f));
    } else {
      Scale(m1, 0x80_0000, Pow256(e));
      Scale(0x8000, m, Pow256(f));
    }
  }

  /** The largest multiple up to v is above the others. */
  lemma MultipleBelow(v: nat, m: nat, y: nat, p: nat)
    requires v < (m + 1) * p && y * p <= v
    ensures y * p <= m * p
  {
    if y > m { Scale(m + 1, y, p); }
    Scale(y, if y <= m then m else y, p);
  }

  lemma ZeroCode()
    ensures Encode(0) == 0 && Exact(0) == 0
  {
    Small();
  }

  lemma {:induction false} ExactSmall(n: nat)
    requires Size(n) <= 3
    ensures Exact(n) < 0x80_0000
  {
    hide Pow256;
    QuotientSmall(Mantissa(n), Pow256(3 - Size(n)));
  }

  lemma QuotientSmall(x: nat, p: nat)
    requires p > 0
    ensures x / p <= x
  {
    var q := x / p;
    assert x == q * p + x % p;
    Scale(1, p, q);
  }

  /** Of two powers, the larger is a multiple of the smaller, and much larger. */
  lemma PowerOrder(e: nat, f: nat)
    ensures e >= f ==> Pow256(e) == Pow256(e - f) * Pow256(f)
    ensures e < f ==> 256 * Pow256(e) <= Pow256(f)
  {
    hide Pow256, Pow2;
    Pow256IsPow2(e);
    Pow256IsPow2(f);
    if e >= f {
      Pow256IsPow2(e - f);
      Pow2Add(8 * (e - f), 8 * f);
    } else {
      Pow256Next(f - e - 1);
      Pow256IsPow2(f - e);
      Pow2Add(8 * (f - e), 8 * e);
      Scale(256, Pow256(f - e), Pow256(e));
    }
  }

  /** Decoding what was encoded and encoding it again gives the same code; codes are unchanged by the
      other order exactly when they are normal. */
  lemma CodesNormal(v: nat)
    ensures Normal(Encode(v))
  {
    if v == 0 {
      ZeroCode();
    } else {
      hide ByteLen, Encode, Pow256;
      var m, size := EncodeIs(v);
      CodeParts(m, size);
      if size < 3 { DivMod(m, Pow256(3 - size), v, 0); }
    }
  }

  lemma NormalBack(n: nat)
    requires Normal(n)
    ensures Encode(Exact(n)) == n
  {
    if n == 0 {
      ZeroCode();
    } else {
      hide ByteLen, Encode, Pow256;
      var m1, s1, v := Mantissa(n), Size(n), Exact(n);
      Small();
      assert n == m1 + 0x100_0000 * s1;
      NormalExact(n);
      var m, size := EncodeIs(v);
      NormalUnique(m, size, m1, s1, v);
    }
  }

  /** What a normal mantissa and size make of a value. */
  ghost predicate Fits(m: nat, size: nat, v: nat) {
    && 0x8000 <= m < 0x80_0000 && size > 0
    && (size < 3 ==> m == v * Pow256(3 - size))
    && (size >= 3 ==> m * Pow256(size - 3) <= v < (m + 1) * Pow256(size - 3))
  }

  lemma {:induction false} NormalExact(n: nat)
    requires Normal(n) && n != 0
    ensures Exact(n) > 0 && Fits(Mantissa(n), Size(n), Exact(n))
  {
    hide Pow256, Mantissa, Size, SignBit;
    Small();
    var m, s := Mantissa(n), Size(n);
    MantissaSmall(n);
    if s > 3 {
      WholePart(m, Pow256(s - 3));
    } else {
      Divided(m, Pow256(3 - s));
      if s == 3 { Divided(m, 1); }
    }
  }

  lemma MantissaSmall(n: nat)
    ensures Mantissa(n) < 0x80_0000
  {
  }

  lemma WholePart(m: nat, p: nat)
    requires m > 0 && p > 0
    ensures 0 < m * p < (m + 1) * p
  {
    Scale(1, m, p);
    assert (m + 1) * p == m * p + p;
  }

  lemma Divided(m: nat, p: nat)
    requires m > 0 && p > 0
    ensures m % p == 0 ==> m / p > 0 && m / p * p == m
    ensures p == 1 ==> m / p == m && m / p * 1 == m
  {
    var q := m / p;
    assert m == q * p + m % p;
  }

  /** A value determines the normal mantissa and size. */
  lemma NormalUnique(m: nat, size: nat, m1: nat, s1: nat, v: nat)
    requires Fits(m, size, v) && Fits(m1, s1, v)
    ensures m == m1 && size == s1
  {
    hide Pow256;
    FitsAbove(m, size, v);
    FitsAbove(m1, s1, v);
    if size < s1 { FitsBelow(m, size, v, s1); }
    if s1 < size { FitsBelow(m1, s1, v, size); }
    if size >= 3 {
      var p := Pow256(size - 3);
      if m < m1 { Scale(m + 1, m1, p); }
      if m1 < m { Scale(m1 + 1, m, p); }
    }
  }

  lemma FitsAbove(m: nat, size: nat, v: nat)
    requires Fits(m, size, v)
    ensures if size >= 3 then v >= 0x8000 * Pow256(size - 3) else v * Pow256(3 - size) >= 0x8000
  {
    if size >= 3 { Scale(0x8000, m, Pow256(size - 3)); }
  }

  lemma FitsBelow(m: nat, size: nat, v: nat, larger: nat)
    requires Fits(m, size, v) && size < larger
    ensures if larger >= 3 then v < 0x8000 * Pow256(larger - 3) else v * Pow256(3 - larger) < 0x8000
  {
    hide Pow256;
    Small();
    if size >= 3 {
      PowerOrder(size - 3, larger - 3);
      Scale(m + 1, 0x80_0000, Pow256(size - 3));
    } else if larger > 3 {
      PowerOrder(0, larger - 3);
    }
  }

  /** A code survives decoding and encoding exactly when it is normal. */
  lemma RoundTrip(n: nat, v: nat)
    ensures Encode(Exact(n)) == n <==> Normal(n)
    ensures Exact(Encode(Exact(Encode(v)))) == Exact(Encode(v))
    ensures Encode(Exact(Encode(v))) == Encode(v)
  {
    CodesNormal(Exact(n));
    if Normal(n) { NormalBack(n); }
    CodesNormal(v);
    NormalBack(Encode(v));
  }

  /** Larger values get codes for values that are not smaller. */
  lemma Monotone(v: nat, w: nat)
    requires v <= w
    ensures Exact(Encode(v)) <= Exact(Encode(w))
  {
    hide Encode, Exact;
    EncodeBelow(v);
    EncodeBest(w, Encode(v));
  }

  /* The methods on 256-bit integers. */

  /** Loads a code. The value is what it stands for, cut to 256 bits; overflow says whether that loses
      anything. */
  method SetCompact(x: BU.BaseUint, nCompact: uint32) returns (fNegative: bool, fOverflow: bool)
    requires x.Valid() && x.WIDTH == 8
    modifies x.pn
    ensures x.Value() == Exact(nCompact) % Pow2(256)
    ensures fOverflow <==> Exact(nCompact) >= Pow2(256)
    ensures fNegative <==> Exact(nCompact) != 0 && SignBit(nCompact)
  {
    hide Pow256, Pow2, P;
    PIsPow2(8);
    var nSize := nCompact / 0x100_0000;
    var nWord := nCompact % 0x80_0000;
    if nSize <= 3 {
      Pow256IsPow2(3 - nSize);
      ExactSmall(nCompact);
      Large();
      nWord := nWord / Pow2(8 * (3 - nSize));
      x.Assign(nWord);
      DivMod(nWord, Pow2(256), 0, nWord);
    } else {
      x.Assign(nWord);
      Pow256IsPow2(nSize - 3);
      Overflows(nWord, nSize);
      x.ShiftLeft(8 * (nSize - 3));
    }
    fNegative := nWord != 0 && SignBit(nCompact);
    fOverflow := nWord != 0 && (nSize > 34 || (nWord > 0xff && nSize > 33) || (nWord > 0xffff && nSize > 32));
  }

  lemma Large()
    ensures Pow2(256) == Pow256(32) && Pow256(32) >= 0x100_0000
  {
    Pow256IsPow2(32);
    Pow2Mono(24, 256);
    Pow256IsPow2(3);
    Small();
  }

  /** When a shifted mantissa leaves 256 bits. */
  lemma Overflows(w: nat, size: nat)
    requires size > 3 && w < 0x80_0000
    ensures w == 0 <==> w * Pow256(size - 3) == 0
    ensures w * Pow256(size - 3) >= Pow2(256)
      <==> w != 0 && (size > 34 || (w > 0xff && size > 33) || (w > 0xffff && size > 32))
  {
    hide Pow256;
    var e := size - 3;
    Large();
    Small();
    if w > 0 { Scale(1, w, Pow256(e)); }
    if e >= 32 {
      PowerOrder(e, 32);
      Scale(1, Pow256(e - 32), Pow256(32));
    } else {
      PowerOrder(32, e);
      WhichSide(w, Pow256(32 - e), Pow256(e));
      AtLeastCube(32 - e);
    }
  }

  lemma WhichSide(w: nat, d: nat, p: nat)
    requires p > 0
    ensures w * p >= d * p <==> w >= d
  {
    if w >= d { Scale(d, w, p); } else { Scale(w + 1, d, p); }
  }

  lemma AtLeastCube(d: nat)
    ensures d >= 3 ==> Pow256(d) >= 0x100_0000
  {
    hide Pow256;
    Small();
    if d >= 3 {
      PowerOrder(d, 3);
      Scale(1, Pow256(d - 3), Pow256(3));
    }
  }

  /** The size of a value in bytes and its leading three bytes. */
  method LeadingBytes(x: BU.BaseUint) returns (nSize: nat, nCompact: uint32)
    requires x.Valid() && x.WIDTH == 8
    ensures nSize == ByteLen(x.Value()) && nSize <= 32 && nCompact == Leading(x.Value())
  {
    hide Pow256, Pow2, P, ByteLen, Leading;
    var bits := x.Bits();
    nSize := (bits + 7) / 8;
    ghost var v := x.Value();
    BytesOfBits(v, bits);
    Lead(v);
    if nSize <= 3 {
      var low := x.GetLow64();
      DivMod(v, 0x1_0000_0000_0000_0000, 0, v);
      Pow256IsPow2(3 - nSize);
      DivMod(Leading(v), LIMB, 0, Leading(v));
      nCompact := low * Pow2(8 * (3 - nSize)) % LIMB;
    } else {
      var bn := new BU.BaseUint.Copy(x);
      bn.ShiftRight(8 * (nSize - 3));
      Pow256IsPow2(nSize - 3);
      var low := bn.GetLow64();
      DivMod(Leading(v), 0x1_0000_0000_0000_0000, 0, Leading(v));
      DivMod(Leading(v), LIMB, 0, Leading(v));
      nCompact := low % LIMB;
    }
  }

  /** The code of a value; both assertions of GetCompact hold. */
  method GetCompact(x: BU.BaseUint, fNegative: bool) returns (nCompact: uint32)
    requires x.Valid() && x.WIDTH == 8
    ensures nCompact == Encode(x.Value()) + if fNegative && Mantissa(Encode(x.Value())) != 0 then 0x80_0000 else 0
  {
    hide ByteLen, Or, TestBit, Leading;
    var nSize;
    nSize, nCompact := LeadingBytes(x);
    Lead(x.Value());
    SignIsTop(nCompact);
    if TestBit(nCompact, 23) {
      nCompact := nCompact / 256;
      nSize := nSize + 1;
    }
    assert nCompact < 0x80_0000 && nSize < 256;
    CodeParts(nCompact, nSize);
    JoinSize(nCompact, nSize);
    nCompact := Or(nCompact, nSize * 0x100_0000);
    if fNegative && nCompact % 0x80_0000 != 0 {
      nCompact := Or(nCompact, 0x80_0000);
    }
  }

  /** Taking a value to its code and back rounds it down a little and raises neither flag. */
  method ThroughCompact(x: BU.BaseUint) returns (nCompact: uint32, fNegative: bool, fOverflow: bool)
    requires x.Valid() && x.WIDTH == 8
    modifies x.pn
    ensures nCompact == Encode(old(x.Value())) && x.Value() == Exact(nCompact) && !fNegative && !fOverflow
    ensures x.Value() <= old(x.Value())
    ensures old(x.Value()) > 0 ==> (old(x.Value()) - x.Value()) * 0x8000 < x.Value()
  {
    hide Pow256, Pow2, P, Encode, Exact;
    ghost var v := x.Value();
    x.Bounded();
    PIsPow2(8);
    nCompact := GetCompact(x, false);
    fNegative, fOverflow := SetCompact(x, nCompact);
    EncodeBelow(v);
    if v > 0 { EncodeClose(v); }
    DivMod(Exact(nCompact), Pow2(256), 0, Exact(nCompact));
    CodesNormal(v);
  }

  lemma BytesOfBits(v: nat, bits: nat)
    requires bits == 0 <==> v == 0
    requires bits > 0 ==> Pow2(bits - 1) <= v < Pow2(bits)
    ensures ByteLen(v) == (bits + 7) / 8
  {
    hide Pow2, Pow256;
    if bits > 0 {
      var n := (bits + 7) / 8;
      Pow256IsPow2(n - 1);
      Pow256IsPow2(n);
      Pow2Mono(8 * (n - 1), bits - 1);
      Pow2Mono(bits, 8 * n);
      ByteLenUnique(v, n);
    }
  }

  lemma Lead(v: nat)
    ensures Leading(v) < 0x100_0000
    ensures ByteLen(v) <= 3 ==> v < 0x100_0000 && Leading(v) == v * Pow256(3 - ByteLen(v))
    ensures ByteLen(v) > 3 ==> Leading(v) == v / Pow256(ByteLen(v) - 3)
  {
    Small();
    if v > 0 {
      LeadingIs(v);
      ByteLenBounds(v);
      if ByteLen(v) <= 3 { Pow256IsPow2(ByteLen(v)); Pow256IsPow2(3); Pow2Mono(8 * ByteLen(v), 24); }
    }
  }

  lemma SignIsTop(n: nat)
    requires n < 0x100_0000
    ensures TestBit(n, 23) <==> n >= 0x80_0000
  {
    Pow2Of24();
    BU.TopBit(n, 23);
  }

  lemma Pow2Of24()
    ensures Pow2(24) == 0x100_0000 && Pow2(23) == 0x80_0000
  {
    Pow2Of32();
    Pow2Add(8, 16);
    assert Pow2(24) == 2 * Pow2(23);
  }

  lemma JoinSize(m: nat, size: nat)
    requires m < 0x80_0000
    ensures Or(m, size * 0x100_0000) == m + size * 0x100_0000
    ensures Or(m + size * 0x100_0000, 0x80_0000) == m + size * 0x100_0000 + 0x80_0000
  {
    hide Or, Pow2;
    Pow2Of24();
    OrDisjoint(m, size, 24);
    OrBetween(m, size, 23);
  }
}

/** The database format of unspent outputs: availability is a bit mask whose length is not written down.
    Only its number of non-zero bytes is. */
module CoinsCodec {
  import opened Bits
  import opened Coins
  import opened Common

  datatype Token = VarInt(n: int) | Byte(b: nat) | Out(out: TxOut)

  /** Whether output i is there and unspent. */
  predicate Avail(vout: seq<TxOut>, i: nat) {
    i < |vout| && !vout[i].IsNull()
  }

  /** The first n bits of mask byte b, which covers the outputs from 2 + 8b. */
  function MaskBits(vout: seq<TxOut>, b: nat, n: nat): nat {
    if n == 0 then 0
    else
      var low := MaskBits(vout, b, n - 1);
      if Avail(vout, 2 + 8 * b + n - 1) then SetBit(low, n - 1) else low
  }

  lemma {:induction false} MaskBit(vout: seq<TxOut>, b: nat, n: nat, p: nat)
    requires n <= 8
    ensures MaskBits(vout, b, n) < Pow2(8)
    ensures TestBit(MaskBits(vout, b, n), p) <==> p < n && Avail(vout, 2 + 8 * b + p)
  {
    if n == 0 {
      TestBitZero(p);
    } else {
      MaskBit(vout, b, n - 1, p);
      SetBitTest(MaskBits(vout, b, n - 1), n - 1, p);
      SetBitBound(MaskBits(vout, b, n - 1), n - 1, 8);
    }
  }

  function MaskByte(vout: seq<TxOut>, b: nat): nat {
    MaskBits(vout, b, 8)
  }

  /** A mask byte is zero exactly when none of its outputs is available. */
  lemma {:induction false} MaskByteZero(vout: seq<TxOut>, b: nat)
    ensures MaskByte(vout, b) == 0 <==> forall k: nat | 2 + 8 * b <= k < 10 + 8 * b :: !Avail(vout, k)
  {
    MaskBit(vout, b, 8, 0);
    if MaskByte(vout, b) != 0 {
      NoBits(MaskByte(vout, b), 8);
      var p :| 0 <= p < 8 && TestBit(MaskByte(vout, b), p);
      MaskBit(vout, b, 8, p);
      assert Avail(vout, 2 + 8 * b + p);
    } else {
      forall k: nat | 2 + 8 * b <= k < 10 + 8 * b ensures !Avail(vout, k) {
        MaskBit(vout, b, 8, k - 2 - 8 * b);
        TestBitZero(k - 2 - 8 * b);
      }
    }
  }

  function Mask(vout: seq<TxOut>, n: nat): (m: seq<nat>)
    ensures |m| == n && forall b | 0 <= b < n :: m[b] == MaskByte(vout, b)
  {
    if n == 0 then [] else Mask(vout, n - 1) + [MaskByte(vout, n - 1)]
  }

  function NonZero(m: seq<nat>): nat {
    if m == [] then 0 else NonZero(m[..|m| - 1]) + if m[|m| - 1] != 0 then 1 else 0
  }

  /** The bytes up to the last one in use, and how many of them are not zero. */
  method CalcMaskSize(vout: seq<TxOut>) returns (nBytes: nat, nNonzeroBytes: nat)
    ensures nBytes > 0 ==> Mask(vout, nBytes)[nBytes - 1] != 0
    ensures forall i: nat | i >= 2 + 8 * nBytes :: !Avail(vout, i)
    ensures nNonzeroBytes == NonZero(Mask(vout, nBytes))
    ensures 8 * nBytes <= |vout| + 5
  {
    hide MaskBits, MaskByte, Mask, NonZero;
    nBytes, nNonzeroBytes := 0, 0;
    MaskNone(vout);
    var b := 0;
    while 2 + b * 8 < |vout|
      invariant nBytes <= b && 8 * b <= |vout| + 5
      invariant nBytes > 0 ==> Mask(vout, nBytes)[nBytes - 1] != 0
      invariant forall i: nat | 2 + 8 * nBytes <= i < 2 + 8 * b :: !Avail(vout, i)
      invariant nNonzeroBytes == NonZero(Mask(vout, nBytes))
    {
      var fZero := true;
      var i := 0;
      while i < 8 && 2 + b * 8 + i < |vout|
        invariant i <= 8
        invariant fZero <==> forall k: nat | 2 + 8 * b <= k < 2 + 8 * b + i :: !Avail(vout, k)
      {
        if !vout[2 + b * 8 + i].IsNull() {
          fZero := false;
          assert Avail(vout, 2 + 8 * b + i);
        }
        i := i + 1;
      }
      MaskByteZero(vout, b);
      assert forall k: nat | 2 + 8 * b + i <= k < 10 + 8 * b :: !Avail(vout, k);
      if !fZero {
        MaskZeros(vout, nBytes, b);
        nBytes := b + 1;
        nNonzeroBytes := nNonzeroBytes + 1;
      }
      b := b + 1;
    }
  }

  lemma MaskNone(vout: seq<TxOut>)
    ensures NonZero(Mask(vout, 0)) == 0
  {
  }

  /** Bytes in which nothing is available do not add to the count. */
  lemma {:induction false} MaskZeros(vout: seq<TxOut>, lo: nat, hi: nat)
    requires lo <= hi
    requires forall i: nat | 2 + 8 * lo <= i < 2 + 8 * hi :: !Avail(vout, i)
    ensures NonZero(Mask(vout, hi)) == NonZero(Mask(vout, lo))
    ensures NonZero(Mask(vout, hi + 1)) == NonZero(Mask(vout, lo)) + if MaskByte(vout, hi) != 0 then 1 else 0
  {
    assert Mask(vout, hi + 1)[..hi] == Mask(vout, hi);
    if lo < hi {
      MaskZeros(vout, lo, hi - 1);
      MaskByteZero(vout, hi - 1);
    }
  }

  function Outs(vout: seq<TxOut>): seq<Token> {
    if vout == [] then []
    else Outs(vout[..|vout| - 1]) + if vout[|vout| - 1].IsNull() then [] else [Out(vout[|vout| - 1])]
  }

  function Bytes(m: seq<nat>): (s: seq<Token>)
    ensures |s| == |m| && forall i | 0 <= i < |m| :: s[i] == Byte(m[i])
  {
    seq(|m|, i requires 0 <= i < |m| => Byte(m[i]))
  }

  function Num(b: bool): nat { if b then 1 else 0 }

  /** What the header tells of the number of non-zero mask bytes: one less if it says nothing else. */
  function Counted(vout: seq<TxOut>, nonZero: nat): int {
    nonZero - if Avail(vout, 0) || Avail(vout, 1) then 0 else 1
  }

  /** The header code; an unsigned 32-bit number. */
  function Code(c: Coins, nonZero: nat): nat
    requires Avail(c.vout, 0) || Avail(c.vout, 1) || nonZero > 0
  {
    (16 * Counted(c.vout, nonZero)
      + Num(c.coinBase) + 2 * Num(c.coinStake) + 4 * Num(Avail(c.vout, 0)) + 8 * Num(Avail(c.vout, 1))) % 0x1_0000_0000
  }

  /** Whether n mask bytes reach exactly to the last available output. */
  ghost predicate Covers(vout: seq<TxOut>, n: nat) {
    && (n > 0 ==> MaskByte(vout, n - 1) != 0)
    && forall i: nat | i >= 2 + 8 * n :: !Avail(vout, i)
  }

  /** The number of mask bytes, of n, up to the last one that is not zero. */
  function Used(vout: seq<TxOut>, n: nat): (k: nat)
    ensures k <= n && (k > 0 ==> MaskByte(vout, k - 1) != 0)
    ensures forall b | k <= b < n :: MaskByte(vout, b) == 0
  {
    if n == 0 then 0 else if MaskByte(vout, n - 1) != 0 then n else Used(vout, n - 1)
  }

  /** How many mask bytes are written. */
  function MaskLength(vout: seq<TxOut>): nat {
    Used(vout, (|vout| + 5) / 8)
  }

  lemma {:induction false} LengthCovers(vout: seq<TxOut>)
    ensures Covers(vout, MaskLength(vout)) && 8 * MaskLength(vout) <= |vout| + 5
  {
    hide MaskByte;
    var n := MaskLength(vout);
    forall i: nat | i >= 2 + 8 * n ensures !Avail(vout, i) {
      if i < |vout| { MaskByteZero(vout, (i - 2) / 8); }
    }
  }

  /** There is only one number of bytes that reaches exactly to the last available output. */
  lemma {:induction false} CoversOnce(vout: seq<TxOut>, n: nat, m: nat)
    requires Covers(vout, n) && Covers(vout, m)
    ensures n == m
  {
    hide MaskByte;
    if n > 0 { MaskByteZero(vout, n - 1); }
    if m > 0 { MaskByteZero(vout, m - 1); }
  }

  /** What is written for coins that are not pruned. */
  function Encoded(c: Coins): seq<Token>
    requires !c.IsPruned()
  {
    var m := Mask(c.vout, MaskLength(c.vout));
    LengthCovers(c.vout);
    SomethingToWrite(c, MaskLength(c.vout));
    [VarInt(c.version), VarInt(Code(c, NonZero(m)))] + Bytes(m) + Outs(c.vout) + [VarInt(c.height)]
  }

  /** Writes coins that have something unspent; the assertion on them holds. */
  method Serialize(c: Coins) returns (s: seq<Token>)
    requires !c.IsPruned()
    ensures s == Encoded(c)
  {
    hide MaskBits, MaskByte, Mask, NonZero, Outs, MaskLength, Covers;
    var nMaskSize, nMaskCode := CalcMaskSize(c.vout);
    LengthCovers(c.vout);
    CoversIf(c.vout, nMaskSize);
    CoversOnce(c.vout, nMaskSize, MaskLength(c.vout));
    var fFirst := |c.vout| > 0 && !c.vout[0].IsNull();
    var fSecond := |c.vout| > 1 && !c.vout[1].IsNull();
    SomethingToWrite(c, nMaskSize);
    assert fFirst || fSecond || nMaskCode > 0;
    var nCode := (16 * (nMaskCode - if fFirst || fSecond then 0 else 1)
      + (if c.coinBase then 1 else 0) + (if c.coinStake then 2 else 0)
      + (if fFirst then 4 else 0) + (if fSecond then 8 else 0)) % 0x1_0000_0000;
    var mask := SerializeMask(c.vout, nMaskSize);
    var outs := SerializeOuts(c.vout);
    s := [VarInt(c.version), VarInt(nCode)] + mask + outs + [VarInt(c.height)];
  }

  lemma CoversIf(vout: seq<TxOut>, n: nat)
    requires n > 0 ==> Mask(vout, n)[n - 1] != 0
    requires forall i: nat | i >= 2 + 8 * n :: !Avail(vout, i)
    ensures Covers(vout, n)
  {
  }

  /** The unspentness bit mask. */
  method SerializeMask(vout: seq<TxOut>, nMaskSize: nat) returns (s: seq<Token>)
    ensures s == Bytes(Mask(vout, nMaskSize))
  {
    hide MaskBits, SetBit;
    s := [];
    for b := 0 to nMaskSize
      invariant s == Bytes(Mask(vout, b))
    {
      var chAvail := 0;
      var i := 0;
      MaskNext(vout, b, 0);
      while i < 8 && 2 + b * 8 + i < |vout|
        invariant i <= 8
        invariant chAvail == MaskBits(vout, b, i)
      {
        MaskNext(vout, b, i);
        if !vout[2 + b * 8 + i].IsNull() {
          chAvail := SetBit(chAvail, i);
        }
        i := i + 1;
      }
      MaskRest(vout, b, i);
      s := s + [Byte(chAvail)];
    }
  }

  /** The outputs that are not spent. */
  method SerializeOuts(vout: seq<TxOut>) returns (s: seq<Token>)
    ensures s == Outs(vout)
  {
    hide Outs;
    s := [];
    OutsNone(vout);
    for i := 0 to |vout|
      invariant s == Outs(vout[..i])
    {
      OutsNext(vout, i);
      if !vout[i].IsNull() {
        s := s + [Out(vout[i])];
      }
    }
    assert vout[..|vout|] == vout;
  }

  lemma MaskNext(vout: seq<TxOut>, b: nat, i: nat)
    ensures MaskBits(vout, b, 0) == 0
    ensures var low := MaskBits(vout, b, i);
      MaskBits(vout, b, i + 1) == if Avail(vout, 2 + 8 * b + i) then SetBit(low, i) else low
  {
  }

  lemma OutsNext(vout: seq<TxOut>, i: nat)
    requires i < |vout|
    ensures Outs(vout[..i + 1]) == Outs(vout[..i]) + if vout[i].IsNull() then [] else [Out(vout[i])]
  {
    assert vout[..i + 1][..i] == vout[..i];
  }

  lemma OutsNone(vout: seq<TxOut>)
    ensures Outs(vout[..0]) == []
  {
  }

  lemma {:induction false} MaskRest(vout: seq<TxOut>, b: nat, n: nat)
    requires n <= 8 && (n == 8 || 2 + 8 * b + n >= |vout|)
    ensures MaskByte(vout, b) == MaskBits(vout, b, n)
    decreases 8 - n
  {
    if n < 8 { MaskRest(vout, b, n + 1); }
  }

  lemma {:induction false} SomethingToWrite(c: Coins, n: nat)
    requires !c.IsPruned() && Covers(c.vout, n)
    ensures Avail(c.vout, 0) || Avail(c.vout, 1) || NonZero(Mask(c.vout, n)) > 0
  {
    var o :| o in c.vout && !o.IsNull();
    var i :| 0 <= i < |c.vout| && c.vout[i] == o;
    assert Avail(c.vout, i);
    assert n > 0 ==> Mask(c.vout, n)[n - 1] != 0;
  }

  /** The eight availability bits of one mask byte. */
  function ByteBits(b: nat, n: nat): (bits: seq<bool>)
    ensures |bits| == n && forall p | 0 <= p < n :: bits[p] == TestBit(b, p)
  {
    seq(n, p requires 0 <= p < n => TestBit(b, p))
  }

  /** Mask bytes are read until this many non-zero ones have been seen. */
  function ReadMask(s: seq<Token>, need: nat): (r: Option<(seq<bool>, seq<Token>)>) {
    if need == 0 then Some(([], s))
    else if s == [] || !s[0].Byte? then None
    else
      var more := ReadMask(s[1..], if s[0].b != 0 then need - 1 else need);
      if more == None then None
      else Some((ByteBits(s[0].b, 8) + more.value.0, more.value.1))
  }

  function ReadOuts(s: seq<Token>, avail: seq<bool>): (r: Option<(seq<TxOut>, seq<Token>)>)
    ensures r.Some? ==> |r.value.0| == |avail|
    decreases |avail|
  {
    if avail == [] then Some(([], s))
    else if !avail[0] then
      var more := ReadOuts(s, avail[1..]);
      if more == None then None else Some(([NULL_OUT] + more.value.0, more.value.1))
    else if s == [] || !s[0].Out? then None
    else
      var more := ReadOuts(s[1..], avail[1..]);
      if more == None then None else Some(([s[0].out] + more.value.0, more.value.1))
  }

  /** What a reader makes of the start of a stream, and what it leaves. */
  function Decoded(s: seq<Token>): Option<(Coins, seq<Token>)> {
    if |s| < 2 || !s[0].VarInt? || !s[1].VarInt? || s[1].n < 0 then None
    else
      var code: nat := s[1].n;
      var mask := ReadMask(s[2..], code / 16 + if TestBit(code, 2) || TestBit(code, 3) then 0 else 1);
      if mask == None then None
      else
        var outs := ReadOuts(mask.value.1, [TestBit(code, 2), TestBit(code, 3)] + mask.value.0);
        if outs == None || outs.value.1 == [] || !outs.value.1[0].VarInt? then None
        else
          Some((CleanedUp(Coins(TestBit(code, 0), TestBit(code, 1), outs.value.0, outs.value.1[0].n, s[0].n)), outs.value.1[1..]))
  }

  /** The mask loop of Unserialize: it goes on until all non-zero bytes have been seen. */
  method UnserializeMask(s: seq<Token>, need: nat) returns (r: Option<(seq<bool>, seq<Token>)>)
    ensures r == ReadMask(s, need)
  {
    var vAvail, rest, nMaskCode := [], s, need;
    ReadStart(ReadMask(s, need));
    while nMaskCode > 0
      invariant Read(ReadMask(s, need), vAvail, ReadMask(rest, nMaskCode))
      decreases |rest|
    {
      if rest == [] || !rest[0].Byte? { return None; }
      var chAvail := rest[0].b;
      ghost var before := vAvail;
      for p := 0 to 8
        invariant vAvail == before + ByteBits(chAvail, p)
      {
        vAvail := vAvail + [TestBit(chAvail, p)];
      }
      ghost var more := ReadMask(rest[1..], if chAvail != 0 then nMaskCode - 1 else nMaskCode);
      ReadOn(ReadMask(s, need), before, ByteBits(chAvail, 8), more);
      rest := rest[1..];
      if chAvail != 0 { nMaskCode := nMaskCode - 1; }
    }
    assert vAvail + [] == vAvail;
    r := Some((vAvail, rest));
  }

  /** The output loop of Unserialize. */
  method UnserializeOuts(s: seq<Token>, vAvail: seq<bool>) returns (r: Option<(seq<TxOut>, seq<Token>)>)
    ensures r == ReadOuts(s, vAvail)
  {
    var vout: seq<TxOut>, rest := seq(|vAvail|, i => NULL_OUT), s;
    ReadStart(ReadOuts(s, vAvail));
    assert vAvail[0..] == vAvail && vout[..0] == [];
    for i := 0 to |vAvail|
      invariant |vout| == |vAvail|
      invariant forall k | i <= k < |vAvail| :: vout[k] == NULL_OUT
      invariant Read(ReadOuts(s, vAvail), vout[..i], ReadOuts(rest, vAvail[i..]))
    {
      assert vAvail[i..][1..] == vAvail[i + 1..];
      ghost var before := vout[..i];
      if vAvail[i] {
        if rest == [] || !rest[0].Out? { return None; }
        vout := vout[i := rest[0].out];
        rest := rest[1..];
      }
      ReadOn(ReadOuts(s, vAvail), before, [vout[i]], ReadOuts(rest, vAvail[i + 1..]));
      assert vout[..i + 1] == before + [vout[i]];
    }
    assert vout[..|vAvail|] == vout && vout + [] == vout;
    r := Some((vout, rest));
  }

  /** Reads coins from the start of a stream. */
  method Unserialize(s: seq<Token>) returns (ok: bool, c: Coins, rest: seq<Token>)
    ensures Decoded(s) == if ok then Some((c, rest)) else None
  {
    hide ReadMask, ReadOuts;
    ok, c, rest := false, NO_COINS, s;
    if |s| < 2 || !s[0].VarInt? || !s[1].VarInt? || s[1].n < 0 { return; }
    var nCode: nat := s[1].n;
    var nMaskCode: nat := nCode / 16 + if TestBit(nCode, 2) || TestBit(nCode, 3) then 0 else 1;
    var mask := UnserializeMask(s[2..], nMaskCode);
    if mask == None { return; }
    var outs := UnserializeOuts(mask.value.1, [TestBit(nCode, 2), TestBit(nCode, 3)] + mask.value.0);
    if outs == None || outs.value.1 == [] || !outs.value.1[0].VarInt? { return; }
    c := Cleanup(Coins(TestBit(nCode, 0), TestBit(nCode, 1), outs.value.0, outs.value.1[0].n, s[0].n));
    ok, rest := true, outs.value.1[1..];
  }

  /** All that a reader yields, given what it has got so far and what the rest of the stream holds. */
  ghost predicate Read<T>(all: Option<(seq<T>, seq<Token>)>, got: seq<T>, more: Option<(seq<T>, seq<Token>)>) {
    all == if more == None then None else Some((got + more.value.0, more.value.1))
  }

  lemma ReadStart<T>(all: Option<(seq<T>, seq<Token>)>)
    ensures Read(all, [], all)
  {
    if all.Some? { assert [] + all.value.0 == all.value.0; }
  }

  lemma ReadOn<T>(all: Option<(seq<T>, seq<Token>)>, got: seq<T>, item: seq<T>, more: Option<(seq<T>, seq<Token>)>)
    requires Read(all, got, if more == None then None else Some((item + more.value.0, more.value.1)))
    ensures Read(all, got + item, more)
  {
    if more.Some? { assert got + (item + more.value.0) == got + item + more.value.0; }
  }

  /** The reader knows the number of non-zero bytes only, and stops at the last of them. */
  lemma {:induction false} MaskStops(m: seq<nat>, rest: seq<Token>)
    requires m != [] ==> m[|m| - 1] != 0
    ensures ReadMask(Bytes(m) + rest, NonZero(m)) == Some((Bits8(m), rest))
  {
    if m == [] {
      assert Bytes(m) + rest == rest;
    } else {
      assert (Bytes(m) + rest)[1..] == Bytes(m[1..]) + rest;
      NonZeroFront(m);
      if |m| > 1 {
        assert m[1..][|m[1..]| - 1] == m[|m| - 1];
      }
      MaskStops(m[1..], rest);
    }
  }

  function Bits8(m: seq<nat>): (bits: seq<bool>)
    ensures |bits| == 8 * |m|
  {
    if m == [] then [] else ByteBits(m[0], 8) + Bits8(m[1..])
  }

  lemma {:induction false} Bits8At(m: seq<nat>, b: nat, p: nat)
    requires b < |m| && p < 8
    ensures Bits8(m)[8 * b + p] == TestBit(m[b], p)
  {
    if b > 0 {
      Bits8At(m[1..], b - 1, p);
      assert Bits8(m)[8 * b + p] == Bits8(m[1..])[8 * (b - 1) + p];
    }
  }

  lemma {:induction false} NonZeroFront(m: seq<nat>)
    requires m != []
    ensures NonZero(m) == (if m[0] != 0 then 1 else 0) + NonZero(m[1..])
    ensures m[|m| - 1] != 0 ==> NonZero(m) > 0
  {
    if |m| > 1 {
      NonZeroFront(m[..|m| - 1]);
      assert m[..|m| - 1][1..] == m[1..][..|m| - 2];
    }
  }

  /** The outputs as a reader restores them: nothing is left of the spent ones. */
  function Nulled(vout: seq<TxOut>): (r: seq<TxOut>)
    ensures |r| == |vout|
    ensures forall i | 0 <= i < |vout| :: r[i] == if vout[i].IsNull() then NULL_OUT else vout[i]
  {
    seq(|vout|, i requires 0 <= i < |vout| => if vout[i].IsNull() then NULL_OUT else vout[i])
  }

  /** The outputs that are available, null ones elsewhere. */
  function Restored(vout: seq<TxOut>, n: nat): (r: seq<TxOut>)
    ensures |r| == n && forall i | 0 <= i < n :: r[i] == if Avail(vout, i) then vout[i] else NULL_OUT
  {
    seq(n, i requires 0 <= i < n => if Avail(vout, i) then vout[i] else NULL_OUT)
  }

  /** An unspent output written for each available one is read back, and nothing more. */
  lemma {:induction false} OutsBack(vout: seq<TxOut>, avail: seq<bool>, rest: seq<Token>)
    requires forall i | 0 <= i < |avail| :: avail[i] <==> Avail(vout, i)
    requires forall i: nat | i >= |avail| :: !Avail(vout, i)
    ensures ReadOuts(Outs(vout) + rest, avail) == Some((Restored(vout, |avail|), rest))
    decreases |avail|
  {
    if avail == [] {
      NoOuts(vout);
      assert [] + rest == rest;
    } else {
      var tail := if vout == [] then [] else vout[1..];
      TailAvail(vout, avail, tail);
      OutsBack(tail, avail[1..], rest);
      OutsBackStep(vout, tail, avail, rest);
    }
  }

  lemma TailAvail(vout: seq<TxOut>, avail: seq<bool>, tail: seq<TxOut>)
    requires avail != [] && tail == if vout == [] then [] else vout[1..]
    requires forall i | 0 <= i < |avail| :: avail[i] <==> Avail(vout, i)
    requires forall i: nat | i >= |avail| :: !Avail(vout, i)
    ensures forall i | 0 <= i < |avail[1..]| :: avail[1..][i] <==> Avail(tail, i)
    ensures forall i: nat | i >= |avail[1..]| :: !Avail(tail, i)
  {
    assert forall i: nat :: Avail(tail, i) <==> Avail(vout, i + 1);
  }

  lemma {:induction false} OutsBackStep(vout: seq<TxOut>, tail: seq<TxOut>, avail: seq<bool>, rest: seq<Token>)
    requires avail != [] && tail == (if vout == [] then [] else vout[1..]) && avail[0] == Avail(vout, 0)
    requires ReadOuts(Outs(tail) + rest, avail[1..]) == Some((Restored(tail, |avail| - 1), rest))
    ensures ReadOuts(Outs(vout) + rest, avail) == Some((Restored(vout, |avail|), rest))
  {
    hide Outs, ReadOuts, Restored, Avail;
    RestoredFront(vout, tail, |avail|);
    OutsStep(vout, tail);
    if avail[0] {
      AvailThere(vout);
      AfterFirst(Out(vout[0]), Outs(tail), rest);
    } else {
      assert [] + Outs(tail) == Outs(tail);
    }
    ReadOutsStep(Outs(vout) + rest, avail);
  }

  lemma AvailThere(vout: seq<TxOut>)
    requires Avail(vout, 0)
    ensures vout != []
  {
  }

  lemma AfterFirst(first: Token, middle: seq<Token>, rest: seq<Token>)
    ensures ([first] + middle + rest)[1..] == middle + rest && ([first] + middle + rest)[0] == first
  {
  }

  lemma RestoredFront(vout: seq<TxOut>, tail: seq<TxOut>, n: nat)
    requires n > 0 && tail == if vout == [] then [] else vout[1..]
    ensures Restored(vout, n) == [if Avail(vout, 0) then vout[0] else NULL_OUT] + Restored(tail, n - 1)
  {
    assert Restored(vout, n)[1..] == Restored(tail, n - 1);
  }

  lemma OutsStep(vout: seq<TxOut>, tail: seq<TxOut>)
    requires tail == if vout == [] then [] else vout[1..]
    ensures Outs(vout) == (if Avail(vout, 0) then [Out(vout[0])] else []) + Outs(tail)
  {
    if vout != [] { OutsFront(vout); }
  }

  lemma ReadOutsStep(s: seq<Token>, avail: seq<bool>)
    requires avail != [] && (avail[0] ==> s != [] && s[0].Out?)
    requires ReadOuts(if avail[0] then s[1..] else s, avail[1..]).Some?
    ensures var more := ReadOuts(if avail[0] then s[1..] else s, avail[1..]).value;
      ReadOuts(s, avail) == Some(([if avail[0] then s[0].out else NULL_OUT] + more.0, more.1))
  {
  }

  lemma {:induction false} OutsFront(vout: seq<TxOut>)
    requires vout != []
    ensures Outs(vout) == (if vout[0].IsNull() then [] else [Out(vout[0])]) + Outs(vout[1..])
  {
    if |vout| > 1 {
      OutsFront(vout[..|vout| - 1]);
      assert vout[..|vout| - 1][1..] == vout[1..][..|vout| - 2];
    }
  }

  lemma {:induction false} NoOuts(vout: seq<TxOut>)
    requires forall i: nat :: !Avail(vout, i)
    ensures Outs(vout) == []
  {
    if vout != [] {
      assert !Avail(vout, |vout| - 1);
      var front := vout[..|vout| - 1];
      assert forall i: nat :: Avail(front, i) ==> Avail(vout, i);
      NoOuts(front);
    }
  }

  /** Trailing spent outputs make no difference once cleaned up. */
  lemma {:induction false} TrimmedSame(u: seq<TxOut>, v: seq<TxOut>)
    requires forall i: nat :: Avail(u, i) <==> Avail(v, i)
    requires forall i | 0 <= i < |u| && i < |v| :: u[i] == v[i]
    ensures Trimmed(u) == Trimmed(v)
  {
    var r, t := Trimmed(u), Trimmed(v);
    assert r != [] ==> Avail(u, |r| - 1) && Avail(v, |r| - 1);
    assert t != [] ==> Avail(v, |t| - 1) && Avail(u, |t| - 1);
    assert |r| == |t|;
  }

  /** The mask bits, with the two of the code before them, are the availabilities. */
  lemma {:induction false} AvailBack(vout: seq<TxOut>, n: nat, i: nat)
    requires i < 2 + 8 * n
    ensures ([Avail(vout, 0), Avail(vout, 1)] + Bits8(Mask(vout, n)))[i] <==> Avail(vout, i)
  {
    if i >= 2 {
      var b, p := (i - 2) / 8, (i - 2) % 8;
      Bits8At(Mask(vout, n), b, p);
      MaskBit(vout, b, 8, p);
    }
  }

  /** The header code gives back the flags it was made from, and the count as far as 28 bits hold it. */
  lemma {:induction false} CodeBack(c: Coins, nonZero: nat)
    requires Avail(c.vout, 0) || Avail(c.vout, 1) || nonZero > 0
    ensures var code := Code(c, nonZero);
      && TestBit(code, 0) == c.coinBase && TestBit(code, 1) == c.coinStake
      && TestBit(code, 2) == Avail(c.vout, 0) && TestBit(code, 3) == Avail(c.vout, 1)
      && code / 16 == Counted(c.vout, nonZero) % 0x1000_0000
  {
    hide TestBit;
    var first, second, high := Avail(c.vout, 0), Avail(c.vout, 1), Counted(c.vout, nonZero);
    HeaderWraps(high, Num(c.coinBase) + 2 * Num(c.coinStake) + 4 * Num(first) + 8 * Num(second));
    Digits(high % 0x1000_0000, c.coinBase, c.coinStake, first, second);
  }

  lemma HeaderWraps(high: nat, low: nat)
    requires low < 16
    ensures (16 * high + low) % 0x1_0000_0000 == 16 * (high % 0x1000_0000) + low
  {
    var q, r := high / 0x1000_0000, high % 0x1000_0000;
    assert 16 * high + low == q * 0x1_0000_0000 + (16 * r + low);
    DivMod(16 * high + low, 0x1_0000_0000, q, 16 * r + low);
  }

  lemma Digits(high: nat, b0: bool, b1: bool, b2: bool, b3: bool)
    ensures var code := 16 * high + Num(b0) + 2 * Num(b1) + 4 * Num(b2) + 8 * Num(b3);
      && TestBit(code, 0) == b0 && TestBit(code, 1) == b1 && TestBit(code, 2) == b2 && TestBit(code, 3) == b3
      && code / 16 == high
  {
    var x3 := 2 * high + Num(b3);
    var x2 := 2 * x3 + Num(b2);
    var x1 := 2 * x2 + Num(b1);
    var x0 := 2 * x1 + Num(b0);
    assert TestBit(x3, 0) == b3 && TestBit(x2, 0) == b2 && TestBit(x1, 0) == b1;
    assert x0 / 2 == x1 && x1 / 2 == x2 && x2 / 2 == x3;
    assert TestBit(x2, 1) == b3 && TestBit(x1, 1) == b2;
    assert TestBit(x1, 2) == b3;
  }

  lemma {:induction false} NonZeroBound(m: seq<nat>)
    ensures NonZero(m) <= |m|
  {
    if m != [] { NonZeroBound(m[..|m| - 1]); }
  }

  /** The count in the header is right, for want of so many outputs. */
  lemma FewOutputs(vout: seq<TxOut>)
    requires |vout| <= 0x7fff_fffa
    ensures Counted(vout, NonZero(Mask(vout, MaskLength(vout)))) < 0x1000_0000
  {
    LengthCovers(vout);
    NonZeroBound(Mask(vout, MaskLength(vout)));
  }

  /** Coins written and read back are the coins with spent outputs dropped, whatever follows in the
      stream, and the reader takes exactly what was written. It is so exactly as long as the header has
      room for the number of non-zero mask bytes. */
  lemma {:induction false} RoundTrip(c: Coins, rest: seq<Token>)
    requires !c.IsPruned()
    ensures Decoded(Encoded(c) + rest) == Some((CleanedUp(c.(vout := Nulled(c.vout))), rest))
      <==> Counted(c.vout, NonZero(Mask(c.vout, MaskLength(c.vout)))) < 0x1000_0000
  {
    hide Decoded, Mask, Code, NonZero, MaskLength, Covers, Counted;
    var n := MaskLength(c.vout);
    LengthCovers(c.vout);
    SomethingToWrite(c, n);
    if Counted(c.vout, NonZero(Mask(c.vout, n))) < 0x1000_0000 {
      BackFrom(c, n, rest);
    } else {
      NotBack(c, n, rest);
    }
  }

  /** Reading back from a mask of n bytes. */
  lemma {:induction false} BackFrom(c: Coins, n: nat, rest: seq<Token>)
    requires !c.IsPruned() && Covers(c.vout, n) && Counted(c.vout, NonZero(Mask(c.vout, n))) < 0x1000_0000
    requires Avail(c.vout, 0) || Avail(c.vout, 1) || NonZero(Mask(c.vout, n)) > 0
    ensures var m := Mask(c.vout, n);
      var s := [VarInt(c.version), VarInt(Code(c, NonZero(m)))] + Bytes(m) + Outs(c.vout) + [VarInt(c.height)] + rest;
      Decoded(s) == Some((CleanedUp(c.(vout := Nulled(c.vout))), rest))
  {
    hide *;
    var m := Mask(c.vout, n);
    var k := NonZero(m);
    CodeBack(c, k);
    CountBack(c.vout, k);
    var head, tail := [VarInt(c.version), VarInt(Code(c, k))], [VarInt(c.height)] + rest;
    LastMask(c.vout, n);
    MaskStops(m, Outs(c.vout) + tail);
    AllBack(c.vout, n, tail);
    var body := Bytes(m) + (Outs(c.vout) + tail);
    assert head + Bytes(m) + Outs(c.vout) + [VarInt(c.height)] + rest == head + body;
    InParts(c.version, Code(c, k), body, Bits8(m), Outs(c.vout) + tail, Restored(c.vout, 2 + 8 * n), c.height, rest);
    DropSpent(c.vout, n);
    SameCleaned(c, Restored(c.vout, 2 + 8 * n), Nulled(c.vout));
  }

  lemma SameCleaned(c: Coins, u: seq<TxOut>, v: seq<TxOut>)
    requires Trimmed(u) == Trimmed(v)
    ensures CleanedUp(Coins(c.coinBase, c.coinStake, u, c.height, c.version)) == CleanedUp(c.(vout := v))
  {
  }

  /** Decoding, part by part. */
  lemma {:induction false} InParts(version: int, code: nat, body: seq<Token>, mask: seq<bool>, r1: seq<Token>,
                                   vout: seq<TxOut>, height: int, rest: seq<Token>)
    requires ReadMask(body, code / 16 + if TestBit(code, 2) || TestBit(code, 3) then 0 else 1) == Some((mask, r1))
    requires ReadOuts(r1, [TestBit(code, 2), TestBit(code, 3)] + mask) == Some((vout, [VarInt(height)] + rest))
    ensures Decoded([VarInt(version), VarInt(code)] + body)
         == Some((CleanedUp(Coins(TestBit(code, 0), TestBit(code, 1), vout, height, version)), rest))
  {
    hide ReadMask, ReadOuts, TestBit, CleanedUp;
    var s := [VarInt(version), VarInt(code)] + body;
    assert s[0] == VarInt(version) && s[1] == VarInt(code) && s[2..] == body;
    var tail := [VarInt(height)] + rest;
    assert tail[0] == VarInt(height) && tail[1..] == rest;
  }

  lemma LastMask(vout: seq<TxOut>, n: nat)
    requires Covers(vout, n)
    ensures n > 0 ==> Mask(vout, n)[n - 1] != 0
  {
  }

  lemma {:induction false} AllBack(vout: seq<TxOut>, n: nat, rest: seq<Token>)
    requires Covers(vout, n)
    ensures ReadOuts(Outs(vout) + rest, [Avail(vout, 0), Avail(vout, 1)] + Bits8(Mask(vout, n)))
         == Some((Restored(vout, 2 + 8 * n), rest))
  {
    hide Mask, Bits8, Outs, ReadOuts, Restored;
    var avail := [Avail(vout, 0), Avail(vout, 1)] + Bits8(Mask(vout, n));
    forall i | 0 <= i < |avail| ensures avail[i] <==> Avail(vout, i) { AvailBack(vout, n, i); }
    OutsBack(vout, avail, rest);
  }

  lemma {:induction false} DropSpent(vout: seq<TxOut>, n: nat)
    requires Covers(vout, n)
    ensures Trimmed(Restored(vout, 2 + 8 * n)) == Trimmed(Nulled(vout))
  {
    hide Trimmed, MaskByte;
    var got := Restored(vout, 2 + 8 * n);
    forall i: nat ensures Avail(got, i) <==> Avail(Nulled(vout), i) {
      assert Avail(Nulled(vout), i) <==> Avail(vout, i);
    }
    TrimmedSame(got, Nulled(vout));
  }

  lemma CountBack(vout: seq<TxOut>, nonZero: nat)
    requires Avail(vout, 0) || Avail(vout, 1) || nonZero > 0
    ensures Counted(vout, nonZero) >= 0
    ensures nonZero == Counted(vout, nonZero) + if Avail(vout, 0) || Avail(vout, 1) then 0 else 1
    ensures Counted(vout, nonZero) < 0x1000_0000 ==> Counted(vout, nonZero) % 0x1000_0000 == Counted(vout, nonZero)
    ensures Counted(vout, nonZero) >= 0x1000_0000 ==> Counted(vout, nonZero) % 0x1000_0000 < Counted(vout, nonZero)
  {
  }

  /** A reader told of too few non-zero bytes stops right after one of them, or at once. */
  lemma {:induction false} MaskStopsEarly(m: seq<nat>, rest: seq<Token>, need: nat) returns (j: nat)
    requires need < NonZero(m)
    ensures j < |m| && ReadMask(Bytes(m) + rest, need) == Some((Bits8(m[..j]), Bytes(m[j..]) + rest))
    ensures need > 0 ==> j > 0 && m[j - 1] != 0
  {
    assert m != [];
    if need == 0 {
      j := 0;
      assert m[..0] == [] && m[0..] == m;
    } else {
      NonZeroFront(m);
      hide NonZero, Bits8;
      var i := MaskStopsEarly(m[1..], rest, if m[0] != 0 then need - 1 else need);
      j := i + 1;
      ReadMaskNext(m, rest, need);
      Bits8Next(m, i);
      assert m[j..] == m[1..][i..];
      assert i > 0 ==> m[1..][i - 1] == m[j - 1];
    }
  }

  lemma ReadMaskNext(m: seq<nat>, rest: seq<Token>, need: nat)
    requires m != [] && need > 0
    ensures var more := ReadMask(Bytes(m[1..]) + rest, if m[0] != 0 then need - 1 else need);
      ReadMask(Bytes(m) + rest, need)
        == if more == None then None else Some((ByteBits(m[0], 8) + more.value.0, more.value.1))
  {
    assert (Bytes(m) + rest)[1..] == Bytes(m[1..]) + rest;
  }

  lemma Bits8Next(m: seq<nat>, i: nat)
    requires i < |m|
    ensures Bits8(m[..i + 1]) == ByteBits(m[0], 8) + Bits8(m[1..][..i])
  {
    assert m[..i + 1][1..] == m[1..][..i];
  }

  /** An output is looked for where a mask byte still stands. */
  lemma {:induction false} NoOutThere(s: seq<Token>, avail: seq<bool>, i: nat)
    requires s != [] && s[0].Byte? && i < |avail| && avail[i]
    ensures ReadOuts(s, avail) == None
    decreases |avail|
  {
    if !avail[0] { NoOutThere(s, avail[1..], i - 1); }
  }

  lemma {:induction false} SomeBit(vout: seq<TxOut>, n: nat, j: nat) returns (i: nat)
    requires 0 < j <= n && Mask(vout, n)[j - 1] != 0
    ensures i < 8 * j && Bits8(Mask(vout, n)[..j])[i]
  {
    MaskBit(vout, j - 1, 8, 0);
    NoBits(MaskByte(vout, j - 1), 8);
    var p :| 0 <= p < 8 && TestBit(MaskByte(vout, j - 1), p);
    i := 8 * (j - 1) + p;
    Bits8At(Mask(vout, n)[..j], j - 1, p);
  }

  /** When the count does not fit the header, nothing can be read back. */
  lemma {:induction false} NotBack(c: Coins, n: nat, rest: seq<Token>)
    requires Avail(c.vout, 0) || Avail(c.vout, 1) || NonZero(Mask(c.vout, n)) > 0
    requires Counted(c.vout, NonZero(Mask(c.vout, n))) >= 0x1000_0000
    ensures var m := Mask(c.vout, n);
      var s := [VarInt(c.version), VarInt(Code(c, NonZero(m)))] + Bytes(m) + Outs(c.vout) + [VarInt(c.height)] + rest;
      Decoded(s) == None
  {
    hide *;
    var m := Mask(c.vout, n);
    var k, first, second := NonZero(m), Avail(c.vout, 0), Avail(c.vout, 1);
    CodeBack(c, k);
    CountBack(c.vout, k);
    var code := Code(c, k);
    var need := code / 16 + if first || second then 0 else 1;
    var head, after := [VarInt(c.version), VarInt(code)], Outs(c.vout) + ([VarInt(c.height)] + rest);
    var j := MaskStopsEarly(m, after, need);
    var avail, left := [first, second] + Bits8(m[..j]), Bytes(m[j..]) + after;
    assert left[0].Byte?;
    if first {
      NoOutThere(left, avail, 0);
    } else if second {
      NoOutThere(left, avail, 1);
    } else {
      var i := SomeBit(c.vout, n, j);
      assert avail[2 + i];
      NoOutThere(left, avail, 2 + i);
    }
    assert head + Bytes(m) + Outs(c.vout) + [VarInt(c.height)] + rest == head + (Bytes(m) + after);
    NoneInParts(c.version, code, Bytes(m) + after, Bits8(m[..j]), left);
  }

  /** Decoding fails where an output is missing. */
  lemma {:induction false} NoneInParts(version: int, code: nat, body: seq<Token>, mask: seq<bool>, r1: seq<Token>)
    requires ReadMask(body, code / 16 + if TestBit(code, 2) || TestBit(code, 3) then 0 else 1) == Some((mask, r1))
    requires ReadOuts(r1, [TestBit(code, 2), TestBit(code, 3)] + mask) == None
    ensures Decoded([VarInt(version), VarInt(code)] + body) == None
  {
    hide ReadMask, ReadOuts, TestBit, CleanedUp;
    var s := [VarInt(version), VarInt(code)] + body;
    assert s[0] == VarInt(version) && s[1] == VarInt(code) && s[2..] == body;
  }

  lemma {:induction false} NoneZero(m: seq<nat>)
    requires forall i | 0 <= i < |m| :: m[i] != 0
    ensures NonZero(m) == |m|
  {
    if m != [] { NoneZero(m[..|m| - 1]); }
  }

  /** When everything is available no mask byte is zero. */
  lemma {:induction false} FullMask(vout: seq<TxOut>, n: nat)
    requires |vout| == 2 + 8 * n && forall i | 0 <= i < |vout| :: Avail(vout, i)
    ensures MaskLength(vout) == n && NonZero(Mask(vout, n)) == n
  {
    hide MaskByte, MaskLength, Mask, NonZero;
    forall b: nat | b < n ensures MaskByte(vout, b) != 0 {
      MaskByteZero(vout, b);
      assert Avail(vout, 2 + 8 * b);
    }
    LengthCovers(vout);
    CoversOnce(vout, n, MaskLength(vout));
    NoneZero(Mask(vout, n));
  }

  /** The count is not always right: these 2 to the 31 outputs and two more cannot be read back. */
  lemma {:induction false} TooManyOutputs(rest: seq<Token>)
    ensures var c := Coins(false, false, seq(0x8000_0002, _ => TxOut(1, [])), 0, 1);
      !c.IsPruned() && Decoded(Encoded(c) + rest) != Some((CleanedUp(c.(vout := Nulled(c.vout))), rest))
  {
    hide Decoded, Encoded, MaskLength, Mask, NonZero, CleanedUp, Nulled;
    var c := Coins(false, false, seq(0x8000_0002, _ => TxOut(1, [])), 0, 1);
    assert c.vout[0] in c.vout;
    FullMask(c.vout, 0x1000_0000);
    RoundTrip(c, rest);
  }

  /** Writing and reading back gives the same coins, if they are clean and keep nothing of spent outputs. */
  method WriteAndRead(c: Coins, rest: seq<Token>) returns (ok: bool, copy: Coins, left: seq<Token>)
    requires !c.IsPruned()
    ensures ok && left == rest && copy == CleanedUp(c.(vout := Nulled(c.vout)))
      <==> Counted(c.vout, NonZero(Mask(c.vout, MaskLength(c.vout)))) < 0x1000_0000
    ensures c.IsClean() && Nulled(c.vout) == c.vout && |c.vout| <= 0x7fff_fffa ==> ok && left == rest && copy == c
  {
    hide Encoded, Decoded, Mask, NonZero, MaskLength, Counted;
    var s := Serialize(c);
    RoundTrip(c, rest);
    if |c.vout| <= 0x7fff_fffa { FewOutputs(c.vout); }
    ok, copy, left := Unserialize(s + rest);
  }
}

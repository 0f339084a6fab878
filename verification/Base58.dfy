/** Byte strings as text over 58 characters, converted in place between the two radices. */
module Base58 {
  import opened Bits
  import opened Common
  import opened Radix

  /** All letters and digits except 0, I, O and l. */
  const ALPHABET := "12345678" + "9ABCDEFG" + "HJKLMNPQ" + "RSTUVWXY" + "Zabcdefg" + "hijkmnop" + "qrstuvwx" + "yz"

  predicate IsSpace(c: char) {
    c == ' ' || '\t' <= c <= '\r'
  }

  /** The place of a character in the alphabet, if it has one. */
  function IndexOf(c: char, from: nat): (r: Option<nat>)
    requires from <= |ALPHABET|
    ensures r.Some? ==> from <= r.value < |ALPHABET| && ALPHABET[r.value] == c
    ensures r.None? ==> forall i | from <= i < |ALPHABET| :: ALPHABET[i] != c
    decreases |ALPHABET| - from
  {
    if from == |ALPHABET| then None
    else if ALPHABET[from] == c then Some(from)
    else IndexOf(c, from + 1)
  }

  lemma AlphabetRises(i: nat)
    requires i < 57
    ensures |ALPHABET| == 58 && ALPHABET[i] < ALPHABET[i + 1] && !IsSpace(ALPHABET[i]) && !IsSpace(ALPHABET[i + 1])
    ensures ALPHABET[0] == '1'
  {
    if i < 20 { RisesLow(i); } else if i < 40 { RisesMiddle(i); } else { RisesHigh(i); }
  }

  lemma RisesLow(i: nat)
    requires i < 20
    ensures '1' <= ALPHABET[i] < ALPHABET[i + 1]
  {
  }

  lemma RisesMiddle(i: nat)
    requires 20 <= i < 40
    ensures '1' <= ALPHABET[i] < ALPHABET[i + 1]
  {
  }

  lemma RisesHigh(i: nat)
    requires 40 <= i < 57
    ensures '1' <= ALPHABET[i] < ALPHABET[i + 1]
  {
  }

  lemma {:induction false} AlphabetOrder(i: nat, j: nat)
    requires i < j < 58
    ensures |ALPHABET| == 58 && ALPHABET[i] < ALPHABET[j]
  {
    AlphabetRises(j - 1);
    if i < j - 1 { AlphabetOrder(i, j - 1); }
  }

  /** Every character of the alphabet is found at its own place. */
  lemma IndexBack(i: nat)
    requires i < 58
    ensures |ALPHABET| == 58 && IndexOf(ALPHABET[i], 0) == Some(i) && !IsSpace(ALPHABET[i])
    ensures ALPHABET[i] == '1' <==> i == 0
  {
    AlphabetRises(if i < 57 then i else 56);
    var r := IndexOf(ALPHABET[i], 0);
    if r.Some? && r.value < i { AlphabetOrder(r.value, i); }
    if r.Some? && i < r.value { AlphabetOrder(i, r.value); }
    if i > 0 { AlphabetOrder(0, i); }
  }

  /** The alphabet has the digits and the letters, except those that look alike. */
  lemma AlphabetIs(c: char)
    ensures c in ALPHABET <==>
      && ('0' <= c <= '9' || 'A' <= c <= 'Z' || 'a' <= c <= 'z')
      && c != '0' && c != 'I' && c != 'O' && c != 'l'
  {
    DigitsAndCapitals(c);
    Letters(c);
    var first, second := "12345678" + "9ABCDEFG" + "HJKLMNPQ" + "RSTUVWXY", "Zabcdefg" + "hijkmnop" + "qrstuvwx" + "yz";
    assert ALPHABET == first + second;
    assert c in first + second <==> c in first || c in second;
  }

  lemma DigitsAndCapitals(c: char)
    ensures c in "12345678" + "9ABCDEFG" + "HJKLMNPQ" + "RSTUVWXY" <==>
      '1' <= c <= '9' || 'A' <= c <= 'H' || 'J' <= c <= 'N' || 'P' <= c <= 'Y'
  {
    assert c in "12345678" <==> '1' <= c <= '8';
    assert c in "9ABCDEFG" <==> c == '9' || 'A' <= c <= 'G';
    assert c in "HJKLMNPQ" <==> c == 'H' || 'J' <= c <= 'N' || 'P' <= c <= 'Q';
    assert c in "RSTUVWXY" <==> 'R' <= c <= 'Y';
  }

  lemma Letters(c: char)
    ensures c in "Zabcdefg" + "hijkmnop" + "qrstuvwx" + "yz" <==> c == 'Z' || 'a' <= c <= 'k' || 'm' <= c <= 'z'
  {
    assert c in "Zabcdefg" <==> c == 'Z' || 'a' <= c <= 'g';
    assert c in "hijkmnop" <==> 'h' <= c <= 'k' || 'm' <= c <= 'p';
    assert c in "qrstuvwx" <==> 'q' <= c <= 'x';
    assert c in "yz" <==> 'y' <= c <= 'z';
  }

  /* Sizes. */

  lemma PowersOf58()
    ensures Pow(58, 5) == 656356768 && Pow(58, 7) == 2207984167552
    ensures Pow(58, 10) == 430804206899405824 && Pow(58, 22) == 624332378391008467754527498760580235264
  {
    OneFactor(58);
    hide Pow;
    PowSum(58, 1, 1, 58, 58);
    PowSum(58, 2, 2, 3364, 3364);
    PowSum(58, 4, 1, 11316496, 58);
    PowSum(58, 5, 2, 656356768, 3364);
    PowSum(58, 5, 5, 656356768, 656356768);
    PowSum(58, 10, 1, 430804206899405824, 58);
    PowSum(58, 11, 11, 24986644000165537792, 24986644000165537792);
  }

  lemma PowSum(b: nat, e: nat, f: nat, x: nat, y: nat)
    requires Pow(b, e) == x && Pow(b, f) == y
    ensures Pow(b, e + f) == x * y
  {
    PowAdd(b, e, f);
  }

  lemma PowersOf2()
    ensures Pow(2, 8) == 256 && Pow(2, 29) == 536870912 && Pow(2, 41) == 2199023255552
    ensures Pow(2, 59) == 576460752303423488 && Pow(2, 129) == 680564733841876926926749214863536422912
  {
    OneFactor(2);
    hide Pow;
    PowSum(2, 1, 1, 2, 2);
    PowSum(2, 2, 2, 4, 4);
    PowSum(2, 4, 4, 16, 16);
    PowSum(2, 8, 8, 256, 256);
    PowSum(2, 16, 8, 65536, 256);
    PowSum(2, 24, 4, 16777216, 16);
    PowSum(2, 28, 1, 268435456, 2);
    PowSum(2, 29, 8, 536870912, 256);
    PowSum(2, 37, 4, 137438953472, 16);
    PowSum(2, 41, 16, 2199023255552, 65536);
    PowSum(2, 57, 2, 144115188075855872, 4);
    PowSum(2, 59, 59, 576460752303423488, 576460752303423488);
    PowSum(2, 118, 8, 332306998946228968225951765070086144, 256);
    PowSum(2, 126, 2, 85070591730234615865843651857942052864, 4);
    PowSum(2, 128, 1, 340282366920938463463374607431768211456, 2);
  }

  lemma OneFactor(b: nat)
    ensures Pow(b, 1) == b
  {
    assert Pow(b, 0) == 1;
  }

  /** 138 digits to base 58 hold 100 bytes. */
  lemma Holds138()
    ensures Pow(256, 100) <= Pow(58, 138)
  {
    hide Pow;
    PowersOf58();
    PowersOf2();
    PowPow(2, 8, 100);
    PowPow(58, 7, 19);
    PowBase(Pow(2, 41), Pow(58, 7), 19);
    PowPow(2, 41, 19);
    PowAdd(58, 133, 5);
    PowAdd(2, 779, 29);
    Product(Pow(2, 779), Pow(58, 133), Pow(2, 29), Pow(58, 5));
    PowExp(2, 800, 808);
  }

  /** 733 bytes hold 1000 digits to base 58. */
  lemma Holds733()
    ensures Pow(58, 1000) <= Pow(256, 733)
  {
    hide Pow;
    PowersOf58();
    PowersOf2();
    PowPow(2, 8, 733);
    PowPow(58, 22, 45);
    PowBase(Pow(58, 22), Pow(2, 129), 45);
    PowPow(2, 129, 45);
    PowAdd(58, 990, 10);
    PowAdd(2, 5805, 59);
    Product(Pow(58, 990), Pow(2, 5805), Pow(58, 10), Pow(2, 59));
  }

  /* Conversion in place. */

  lemma {:induction false} NumFront(d: seq<nat>, b: nat)
    requires d != []
    ensures Num(d, b) == d[0] * Pow(b, |d| - 1) + Num(d[1..], b)
  {
    if |d| > 1 {
      NumFront(d[..|d| - 1], b);
      assert d[..|d| - 1][1..] == d[1..][..|d| - 2];
      PartsTimes(d[0], Pow(b, |d| - 2), Num(d[1..][..|d| - 2], b), b);
    }
  }

  /** One step of the carry: digit x times mul plus carry, over a suffix worth p. */
  lemma DigitStep(x: nat, carry: nat, base: nat, mul: nat, p: nat, v: nat, w: nat, add: nat)
    requires base >= 2 && carry < mul && x < base
    requires v + carry * p == w * mul + add
    ensures var n := carry + mul * x;
      && 0 <= n / base < mul && 0 <= n % base < base
      && n % base * p + v + n / base * (base * p) == (x * p + w) * mul + add
  {
    var n := carry + mul * x;
    var q, r := n / base, n % base;
    assert n == q * base + r;
    Product(x, base - 1, mul, mul);
    QuotientFits(q, base, mul, r, n);
    PartsTimes(q, base, r, p);
    CarryIn(carry, x, mul, p, w);
  }

  lemma QuotientFits(q: int, base: nat, mul: nat, r: nat, n: nat)
    requires n == q * base + r && r < base && n < mul * base
    ensures 0 <= q < mul
  {
    if q >= mul { Product(mul, q, base, base); }
    if q < 0 { Product(1, -q, base, base); }
  }

  lemma CarryIn(carry: int, x: int, mul: int, p: int, w: int)
    ensures (carry + mul * x) * p + w * mul == carry * p + (x * p + w) * mul
  {
    assert (carry + mul * x) * p == carry * p + mul * x * p;
    assert (x * p + w) * mul == x * p * mul + w * mul;
    assert mul * x * p == x * p * mul;
  }

  /** The digits from k on have been multiplied. */
  ghost predicate Carried(d: seq<nat>, e: seq<nat>, k: nat, base: nat, mul: nat, add: nat, carry: nat) {
    |d| == |e| && k <= |d| && Num(e[k..], base) + carry * Pow(base, |d| - k) == Num(d[k..], base) * mul + add
  }

  lemma CarryOn(d: seq<nat>, e: seq<nat>, k: nat, base: nat, mul: nat, add: nat, carry: nat)
    requires base >= 2 && carry < mul && k < |d| && Carried(d, e, k + 1, base, mul, add, carry)
    requires d[k] < base
    ensures var n := carry + mul * d[k];
      0 <= n / base < mul && 0 <= n % base < base
      && (var digit: nat := n % base; Carried(d, e[k := digit], k, base, mul, add, n / base))
  {
    hide Pow, Num;
    var n := carry + mul * d[k];
    DigitStep(d[k], carry, base, mul, Pow(base, |d| - k - 1), Num(e[k + 1..], base), Num(d[k + 1..], base), add);
    var digit: nat := n % base;
    var f := e[k := digit];
    assert f[k..][1..] == e[k + 1..] && d[k..][1..] == d[k + 1..];
    NumFront(f[k..], base);
    NumFront(d[k..], base);
    PowNext(base, |d| - k - 1);
  }

  /** a = a * mul + add on digits to base base, as far as they fit. */
  method MultiplyAdd(a: array<nat>, base: nat, mul: nat, add: nat) returns (carry: nat)
    requires base >= 2 && add < mul && InRange(a[..], base)
    modifies a
    ensures InRange(a[..], base)
    ensures Num(a[..], base) + carry * Pow(base, a.Length) == old(Num(a[..], base)) * mul + add
  {
    hide Pow, Num, Carried;
    ghost var d := a[..];
    carry := add;
    var k: nat := a.Length;
    CarryNone(d, base, mul, add);
    while k > 0
      invariant k <= a.Length && carry < mul
      invariant forall i | 0 <= i < k :: a[i] == d[i]
      invariant InRange(a[..], base)
      invariant Carried(d, a[..], k, base, mul, add, carry)
    {
      k := k - 1;
      CarryOn(d, a[..], k, base, mul, add, carry);
      carry := carry + mul * a[k];
      ghost var before := a[..];
      var digit: nat := carry % base;
      a[k] := digit;
      assert a[..] == before[k := digit];
      carry := carry / base;
    }
    CarryAll(d, a[..], base, mul, add, carry);
  }

  lemma CarryNone(d: seq<nat>, base: nat, mul: nat, add: nat)
    ensures Carried(d, d, |d|, base, mul, add, add)
  {
    assert d[|d|..] == [];
    assert add * 1 == add && 0 * mul == 0;
  }

  lemma CarryAll(d: seq<nat>, e: seq<nat>, base: nat, mul: nat, add: nat, carry: nat)
    requires Carried(d, e, 0, base, mul, add, carry)
    ensures Num(e, base) + carry * Pow(base, |d|) == Num(d, base) * mul + add
  {
    assert e[0..] == e && d[0..] == d;
  }

  lemma PowNext(b: nat, e: nat)
    ensures Pow(b, e + 1) == b * Pow(b, e)
  {
  }

  /** Nothing is carried out when the result fits. */
  lemma NoCarry(v: nat, carry: nat, p: nat, x: nat)
    requires v + carry * p == x && x < p
    ensures carry == 0 && v == x
  {
    if carry >= 1 { Product(1, carry, p, p); }
  }

  /* Encoding. */

  function Chars(d: seq<nat>): (s: string)
    requires InRange(d, 58)
    ensures |s| == |d| && forall i | 0 <= i < |d| :: |ALPHABET| == 58 && s[i] == ALPHABET[d[i]]
  {
    seq(|d|, i requires 0 <= i < |d| => ALPHABET[d[i]])
  }

  /** The text for some bytes: the same number in the other radix, with as many leading zeros. */
  function Encoded(v: seq<nat>): string {
    ConvertLead(v, 256, 58);
    Chars(Convert(v, 256, 58))
  }

  /** One more digit x of the source goes into the buffer, which is large enough for n of them. */
  method Append(a: array<nat>, base: nat, mul: nat, x: nat, ghost done: seq<nat>, ghost n: nat)
    requires base >= 2 && mul >= 1 && x < mul && InRange(a[..], base)
    requires InRange(done, mul) && |done| < n && Pow(mul, n) <= Pow(base, a.Length)
    requires Num(a[..], base) == Num(done, mul)
    modifies a
    ensures InRange(a[..], base)
    ensures Num(a[..], base) == Num(done + [x], mul)
  {
    hide Pow, Num;
    var carry := MultiplyAdd(a, base, mul, x);
    NumMore(done, x, mul);
    NumBound(done + [x], mul);
    PowExp(mul, |done| + 1, n);
    NoCarry(Num(a[..], base), carry, Pow(base, a.Length), Num(done + [x], mul));
    assert carry == 0;
  }

  lemma NumMore(done: seq<nat>, x: nat, b: nat)
    ensures Num(done + [x], b) == Num(done, b) * b + x
  {
    assert (done + [x])[..|done|] == done;
  }

  lemma BytesInRange(v: seq<byte>)
    ensures InRange(v, 256)
  {
  }

  /** The size computed from the length of the source is enough for it. */
  lemma Sized(n: nat)
    ensures Pow(256, n) <= Pow(58, n * 138 / 100 + 1)
    ensures Pow(58, n) <= Pow(256, n * 733 / 1000 + 1)
  {
    hide Pow;
    Holds138();
    Holds733();
    Enough(256, 58, n, n * 138 / 100 + 1, 138, 100);
    Enough(58, 256, n, n * 733 / 1000 + 1, 733, 1000);
  }

  method EncodeBase58(v: seq<byte>) returns (str: string)
    ensures str == Encoded(v)
  {
    hide Pow, Num, Encoded, Digits, Lead;
    BytesInRange(v);
    var zeroes, pbegin := 0, 0;
    while pbegin < |v| && v[pbegin] == 0
      invariant zeroes == pbegin <= |v| && forall i | 0 <= i < pbegin :: v[i] == 0
    {
      pbegin := pbegin + 1;
      zeroes := zeroes + 1;
    }
    LeadIs<nat>(v, 0, zeroes);
    var size := (|v| - pbegin) * 138 / 100 + 1;
    var b58 := new nat[size](_ => 0);
    Sized(|v| - pbegin);
    NothingYet(b58[..], v[zeroes..pbegin]);
    while pbegin < |v|
      invariant zeroes <= pbegin <= |v|
      invariant InRange(b58[..], 58) && Num(b58[..], 58) == Num(v[zeroes..pbegin], 256)
    {
      Append(b58, 58, 256, v[pbegin], v[zeroes..pbegin], |v| - zeroes);
      assert v[zeroes..pbegin] + [v[pbegin]] == v[zeroes..pbegin + 1];
      pbegin := pbegin + 1;
    }
    assert v[zeroes..|v|] == v[zeroes..];
    NumStrip(v, 256, zeroes);
    str := Translate(b58, zeroes);
    EncodedIs(v, b58[..]);
  }

  lemma EncodedIs(v: seq<nat>, d: seq<nat>)
    requires Num(d, 58) == Num(v, 256)
    ensures InRange(seq(Lead(v, 0), _ => 0) + Digits(Num(d, 58), 58), 58)
    ensures Encoded(v) == Chars(seq(Lead(v, 0), _ => 0) + Digits(Num(d, 58), 58))
  {
    ConvertLead(v, 256, 58);
  }

  /** The digits in the buffer as text, after a '1' for each leading zero. */
  method Translate(b58: array<nat>, zeroes: nat) returns (str: string)
    requires InRange(b58[..], 58)
    ensures InRange(seq(zeroes, _ => 0) + Digits(Num(b58[..], 58), 58), 58)
    ensures str == Chars(seq(zeroes, _ => 0) + Digits(Num(b58[..], 58), 58))
  {
    hide Num;
    var it := SkipZeroes(b58, 58);
    ghost var zs, digits := seq(zeroes, _ => 0), b58[it..];
    AlphabetRises(0);
    str := seq(zeroes, _ => '1');
    assert b58[it..it] == [];
    ghost var from := it;
    while it < b58.Length
      invariant from <= it <= b58.Length
      invariant str == Chars(zs + b58[from..it])
    {
      str := str + [ALPHABET[b58[it]]];
      assert b58[from..it + 1] == b58[from..it] + [b58[it]];
      it := it + 1;
    }
    assert b58[from..it] == digits;
  }

  lemma NothingYet(d: seq<nat>, e: seq<nat>)
    requires (forall i | 0 <= i < |d| :: d[i] == 0) && e == []
    ensures Num(d, 58) == Num(e, 256) == 0 && Num(d, 256) == Num(e, 58) == 0
  {
    NumZero(d, 58);
    NumZero(d, 256);
  }

  /** Where the digits in a buffer start. */
  method SkipZeroes(a: array<nat>, base: nat) returns (it: nat)
    requires base >= 2 && InRange(a[..], base)
    ensures it <= a.Length && a[it..] == Digits(Num(a[..], base), base)
  {
    it := 0;
    while it < a.Length && a[it] == 0
      invariant it <= a.Length && forall i | 0 <= i < it :: a[i] == 0
    {
      it := it + 1;
    }
    NumStrip(a[..], base, it);
    assert a[..][it..] == a[it..];
    NumBack(a[it..], base);
  }

  /* Decoding. */

  function TrimLeft(s: string): string {
    if s != [] && IsSpace(s[0]) then TrimLeft(s[1..]) else s
  }

  function TrimRight(s: string): string {
    if s != [] && IsSpace(s[|s| - 1]) then TrimRight(s[..|s| - 1]) else s
  }

  /** The text without white space around it. */
  function Trim(s: string): string {
    TrimRight(TrimLeft(s))
  }

  predicate AllValid(s: string) {
    forall i | 0 <= i < |s| :: IndexOf(s[i], 0).Some?
  }

  function Values(s: string): (d: seq<nat>)
    requires AllValid(s)
    ensures |d| == |s| && forall i | 0 <= i < |s| :: d[i] == IndexOf(s[i], 0).value
  {
    seq(|s|, i requires 0 <= i < |s| => IndexOf(s[i], 0).value)
  }

  lemma ValuesInRange(s: string)
    requires AllValid(s)
    ensures InRange(Values(s), 58)
  {
    AlphabetRises(0);
  }

  /** The bytes a text stands for, if it is valid: white space around it does not matter. */
  function Decoded(s: string): Option<seq<nat>> {
    if AllValid(Trim(s)) then Some(Convert(Values(Trim(s)), 58, 256)) else None
  }

  lemma {:induction false} TrimLeftIs(s: string, k: nat)
    requires k <= |s| && (forall i | 0 <= i < k :: IsSpace(s[i])) && (k < |s| ==> !IsSpace(s[k]))
    ensures TrimLeft(s) == s[k..]
  {
    if k > 0 {
      TrimLeftIs(s[1..], k - 1);
      assert s[1..][k - 1..] == s[k..];
    } else {
      assert s[0..] == s;
    }
  }

  lemma {:induction false} TrimRightIs(s: string, k: nat)
    requires SpacesFrom(s, k) && (k > 0 ==> !IsSpace(s[k - 1]))
    ensures TrimRight(s) == s[..k]
    decreases |s|
  {
    if k < |s| {
      TrimRightIs(s[..|s| - 1], k);
      assert s[..|s| - 1][..k] == s[..k];
    } else {
      assert s[..k] == s;
    }
  }

  /** Trimming on the right keeps everything up to the last character that is not white space. */
  lemma {:induction false} TrimRightHas(s: string, k: nat)
    requires k < |s| && !IsSpace(s[k])
    ensures |TrimRight(s)| > k && TrimRight(s) <= s
  {
    if IsSpace(s[|s| - 1]) {
      TrimRightHas(s[..|s| - 1], k);
    }
  }

  lemma {:induction false} Broken(s: string, p: nat, k: nat, last: nat)
    requires p <= k <= last < |s| && TrimLeft(s) == s[p..] && !IsSpace(s[last]) && IndexOf(s[k], 0).None?
    ensures Decoded(s) == None
  {
    hide IndexOf, TrimLeft, IsSpace, Convert;
    TrimRightHas(s[p..], last - p);
    var t := Trim(s);
    assert t[k - p] == s[p..][k - p] == s[k];
  }

  /** Spaces are not in the alphabet. */
  lemma SpaceInvalid(c: char)
    requires IsSpace(c)
    ensures IndexOf(c, 0) == None
  {
    var r := IndexOf(c, 0);
    if r.Some? { IndexBack(r.value); }
  }

  /** Reads characters from p on into a buffer, up to white space or the end. Stops at an invalid one. */
  method ReadDigits(psz: string, p: nat) returns (ok: bool, end: nat, b256: array<nat>, ghost done: seq<nat>)
    requires p <= |psz|
    ensures p <= end <= |psz| && forall i | p <= i < end :: !IsSpace(psz[i])
    ensures !ok ==> end < |psz| && !IsSpace(psz[end]) && IndexOf(psz[end], 0).None?
    ensures ok ==> (end < |psz| ==> IsSpace(psz[end])) && AllValid(psz[p..end]) && done == Values(psz[p..end])
    ensures ok ==> InRange(b256[..], 256) && Num(b256[..], 256) == Num(done, 58)
  {
    hide Pow, Num, IndexOf, IsSpace;
    var size := (|psz| - p) * 733 / 1000 + 1;
    b256 := new nat[size](_ => 0);
    Sized(|psz| - p);
    ok, end, done := true, p, [];
    NothingYet(b256[..], done);
    while end < |psz| && !IsSpace(psz[end])
      invariant p <= end <= |psz| && forall i | p <= i < end :: !IsSpace(psz[i])
      invariant AllValid(psz[p..end]) && done == Values(psz[p..end]) && InRange(done, 58)
      invariant InRange(b256[..], 256) && Num(b256[..], 256) == Num(done, 58)
    {
      var ch := IndexOf(psz[end], 0);
      if ch == None {
        ok := false;
        return;
      }
      OnlyOneIsZero(psz[end]);
      Append(b256, 256, 58, ch.value, done, |psz| - p);
      assert psz[p..end + 1] == psz[p..end] + [psz[end]];
      done := done + [ch.value];
      end := end + 1;
    }
  }

  /** Decodes a zero-terminated string, given here without the terminator. */
  method DecodeBase58(psz: string) returns (ok: bool, vch: seq<nat>)
    ensures Decoded(psz) == if ok then Some(vch) else None
  {
    hide Pow, Num, IndexOf, Decoded, Lead, Digits, IsSpace, TrimLeft, TrimRight, Trim, AllValid;
    vch := [];
    var p := 0;
    while p < |psz| && IsSpace(psz[p])
      invariant p <= |psz| && forall i | 0 <= i < p :: IsSpace(psz[i])
    {
      p := p + 1;
    }
    TrimLeftIs(psz, p);
    ghost var start := p;
    var zeroes := 0;
    OneIsZero();
    while p < |psz| && psz[p] == '1'
      invariant start <= p <= |psz| && zeroes == p - start
      invariant forall i | start <= i < p :: psz[i] == '1'
    {
      zeroes := zeroes + 1;
      p := p + 1;
    }
    var end, b256;
    ghost var done;
    ok, end, b256, done := ReadDigits(psz, p);
    if !ok {
      Broken(psz, start, end, end);
      return;
    }
    var q := end;
    while q < |psz| && IsSpace(psz[q])
      invariant end <= q <= |psz| && forall i | end <= i < q :: IsSpace(psz[i])
    {
      q := q + 1;
    }
    if q < |psz| {
      SpaceInvalid(psz[end]);
      Broken(psz, start, end, q);
      return false, [];
    }
    var it := SkipZeroes(b256, 256);
    vch := seq(zeroes, _ => 0) + b256[it..];
    TrimmedIs(psz, start, end);
    DecodedIs(psz, start, p, end);
  }

  lemma {:induction false} TrimmedIs(s: string, start: nat, end: nat)
    requires start <= end <= |s| && TrimLeft(s) == s[start..]
    requires SpacesFrom(s, end) && (end > start ==> !IsSpace(s[end - 1]))
    ensures Trim(s) == s[start..end]
  {
    hide TrimLeft, TrimRight, IsSpace;
    var t, k := s[start..], end - start;
    TrimRightIs(t, k);
    assert t[..k] == s[start..end];
  }

  ghost predicate SpacesFrom(s: string, k: nat) {
    k <= |s| && forall i | k <= i < |s| :: IsSpace(s[i])
  }

  lemma OneIsZero()
    ensures IndexOf('1', 0) == Some(0) && !IsSpace('1')
  {
    IndexBack(0);
  }

  lemma OnlyOneIsZero(c: char)
    ensures IndexOf(c, 0).Some? ==> IndexOf(c, 0).value < 58 && (IndexOf(c, 0).value == 0 ==> c == '1')
  {
    AlphabetRises(0);
  }

  lemma {:induction false} DecodedIs(s: string, start: nat, first: nat, end: nat)
    requires start <= first <= end <= |s| && Trim(s) == s[start..end]
    requires (forall i | start <= i < first :: s[i] == '1') && AllValid(s[first..end])
    requires first < end ==> s[first] != '1'
    ensures Decoded(s) == Some(seq(first - start, _ => 0) + Digits(Num(Values(s[first..end]), 58), 256))
  {
    hide IndexOf, AllValid, Values, Lead;
    var t, k := s[start..end], first - start;
    assert t[k..] == s[first..end] && (first < end ==> t[k] == s[first]);
    ValuesParts(t, k);
    LeadIs<nat>(Values(t), 0, k);
    NumStrip(Values(t), 58, k);
  }

  /** Leading '1's stand for zeros, and nothing else does. */
  lemma {:induction false} ValuesParts(t: string, k: nat)
    requires k <= |t| && (forall i | 0 <= i < k :: t[i] == '1') && AllValid(t[k..]) && (k < |t| ==> t[k] != '1')
    ensures AllValid(t) && Values(t)[k..] == Values(t[k..])
    ensures (forall i | 0 <= i < k :: Values(t)[i] == 0) && (k < |t| ==> Values(t)[k] != 0)
  {
    hide IndexOf;
    OneIsZero();
    forall i | 0 <= i < |t| ensures IndexOf(t[i], 0).Some? && (i < k ==> IndexOf(t[i], 0).value == 0) {
      if i >= k { assert t[k..][i - k] == t[i]; }
    }
    if k < |t| { OnlyOneIsZero(t[k]); }
  }

  /* What the two together promise. */

  lemma {:induction false} EncodedValid(v: seq<nat>)
    ensures AllValid(Encoded(v)) && Values(Encoded(v)) == Convert(v, 256, 58)
    ensures Trim(Encoded(v)) == Encoded(v)
    ensures Lead(Encoded(v), '1') == Lead(v, 0)
  {
    hide AllValid, Values, Trim, Chars;
    ConvertLead(v, 256, 58);
    CharsBack(Convert(v, 256, 58));
    LeadIs(Encoded(v), '1', Lead(v, 0));
  }

  /** Digits written as characters are read back, and no character is white space. */
  lemma {:induction false} CharsBack(d: seq<nat>)
    requires InRange(d, 58)
    ensures AllValid(Chars(d)) && Values(Chars(d)) == d && Trim(Chars(d)) == Chars(d)
    ensures |Chars(d)| == |d| && forall i | 0 <= i < |d| :: Chars(d)[i] == '1' <==> d[i] == 0
  {
    hide IndexOf, IsSpace;
    var s := Chars(d);
    forall i | 0 <= i < |s| ensures IndexOf(s[i], 0) == Some(d[i]) && !IsSpace(s[i]) && (s[i] == '1' <==> d[i] == 0) {
      IndexBack(d[i]);
    }
    TrimLeftIs(s, 0);
    TrimRightIs(s, |s|);
  }

  /** An encoding decodes with any white space before and after it: spaces, tabs, line feeds, vertical
      tabs, form feeds and carriage returns. */
  lemma {:induction false} Padded(before: string, v: seq<nat>, after: string)
    requires InRange(v, 256)
    requires forall c <- before + after :: c == ' ' || c as int in {9, 10, 11, 12, 13}
    ensures Decoded(before + Encoded(v) + after) == Some(v)
  {
    hide Encoded, Decoded, Trim, IndexOf;
    EncodedNoSpace(v);
    AreSpaces(before, after);
    TrimAround(before, Encoded(v), after);
    DecodesExactly(before + Encoded(v) + after, v);
  }

  lemma AreSpaces(before: string, after: string)
    requires forall c <- before + after :: c == ' ' || c as int in {9, 10, 11, 12, 13}
    ensures SpacesFrom(before, 0) && SpacesFrom(after, 0)
  {
    assert forall i | 0 <= i < |before| :: before[i] in before + after;
    assert forall i | 0 <= i < |after| :: after[i] in before + after;
  }

  lemma {:induction false} TrimAround(before: string, t: string, after: string)
    requires SpacesFrom(before, 0) && SpacesFrom(after, 0) && forall i | 0 <= i < |t| :: !IsSpace(t[i])
    ensures Trim(before + t + after) == t
  {
    hide IsSpace, TrimLeft, TrimRight, Trim;
    var s := before + t + after;
    var start, end := |before|, |before| + |t|;
    if t == [] { start, end := |s|, |s|; }
    TrimLeftIs(s, start);
    TrimmedIs(s, start, end);
    assert s[start..end] == t;
  }

  lemma {:induction false} EncodedNoSpace(v: seq<nat>)
    ensures forall i | 0 <= i < |Encoded(v)| :: !IsSpace(Encoded(v)[i])
  {
    hide IndexOf, IsSpace, Digits, Num, Lead;
    ConvertLead(v, 256, 58);
    var d := Convert(v, 256, 58);
    forall i | 0 <= i < |d| ensures !IsSpace(Encoded(v)[i]) { IndexBack(d[i]); }
  }

  /** A text decodes to given bytes exactly when it is their encoding, up to white space around it. */
  lemma {:induction false} DecodesExactly(s: string, v: seq<nat>)
    requires InRange(v, 256)
    ensures Decoded(s) == Some(v) <==> Trim(s) == Encoded(v)
  {
    var t := Trim(s);
    if t == Encoded(v) {
      EncodedValid(v);
      ConvertBack(v, 256, 58);
    }
    if Decoded(s) == Some(v) {
      ValuesInRange(t);
      ConvertBack(Values(t), 58, 256);
      AlphabetRises(0);
      assert Chars(Values(t)) == t;
    }
  }

  /* With a checksum. */

  /** Appends the first four bytes of the hash. */
  method EncodeBase58Check(vchIn: seq<byte>, hash: seq<nat> -> seq<byte>) returns (str: string)
    requires |hash(vchIn)| >= 4
    ensures str == Encoded(vchIn + hash(vchIn)[..4])
  {
    str := EncodeBase58(vchIn + hash(vchIn)[..4]);
  }

  /** A text is accepted exactly when it is what EncodeBase58Check gives, up to white space around it. */
  method DecodeBase58Check(psz: string, hash: seq<nat> -> seq<byte>) returns (ok: bool, vchRet: seq<nat>)
    requires forall d :: |hash(d)| >= 4
    ensures ok ==> InRange(vchRet, 256) && Trim(psz) == Encoded(vchRet + hash(vchRet)[..4])
    ensures !ok ==> vchRet == [] && forall v | InRange(v, 256) :: Trim(psz) != Encoded(v + hash(v)[..4])
  {
    var vch;
    ok, vch := DecodeBase58(psz);
    if ok {
      DecodedInRange(psz);
      DecodesExactly(psz, vch);
    }
    if !ok || |vch| < 4 {
      forall v | InRange(v, 256) ensures Trim(psz) != Encoded(v + hash(v)[..4]) {
        ChecksumNeeded(psz, v, hash);
      }
      return false, [];
    }
    var n := |vch| - 4;
    if hash(vch[..n])[..4] != vch[n..] {
      forall v | InRange(v, 256) ensures Trim(psz) != Encoded(v + hash(v)[..4]) {
        ChecksumNeeded(psz, v, hash);
      }
      return false, [];
    }
    vchRet := vch[..n];
    assert vch == vchRet + hash(vchRet)[..4];
  }

  lemma {:induction false} DecodedInRange(s: string)
    ensures Decoded(s).Some? ==> InRange(Decoded(s).value, 256)
  {
    if Decoded(s).Some? { ConvertLead(Values(Trim(s)), 58, 256); }
  }

  lemma {:induction false} ChecksumNeeded(s: string, v: seq<nat>, hash: seq<nat> -> seq<byte>)
    requires InRange(v, 256) && |hash(v)| >= 4
    ensures Trim(s) == Encoded(v + hash(v)[..4]) ==> Decoded(s) == Some(v + hash(v)[..4])
    ensures var w := v + hash(v)[..4]; |w| >= 4 && w[..|w| - 4] == v && w[|w| - 4..] == hash(v)[..4]
  {
    var w: seq<nat> := v + hash(v)[..4];
    assert forall i | 0 <= i < |w| :: w[i] < 256;
    DecodesExactly(s, w);
  }
}

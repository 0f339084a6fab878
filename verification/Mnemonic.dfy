/** Data as a sentence of words from a list, with a checksum, and the check of such sentences. The word list
    and the hash are given from outside. */
module Mnemonic {
  import opened Bits
  import opened Common

  datatype Library = Library(words: seq<string>, hash: seq<byte> -> seq<byte>)
  {
    ghost predicate Valid() {
      && |words| == 2048
      && (forall i | 0 <= i < 2048 :: 1 <= |words[i]| <= 9 && ' ' !in words[i])
      && (forall i, j | 0 <= i < j < 2048 :: words[i] != words[j])
      && (forall d :: |hash(d)| == 32)
    }
  }

  /* Bits of bytes, the highest first. */

  predicate BitAt(bytes: seq<byte>, k: nat)
    requires k < 8 * |bytes|
  {
    TestBit(bytes[k / 8], 7 - k % 8)
  }

  function Unpacked(bytes: seq<byte>): (b: seq<bool>)
    ensures |b| == 8 * |bytes| && forall k | 0 <= k < |b| :: b[k] == BitAt(bytes, k)
  {
    seq(8 * |bytes|, k requires 0 <= k < 8 * |bytes| => BitAt(bytes, k))
  }

  lemma UnpackedInjective(x: seq<byte>, y: seq<byte>)
    requires |x| == |y| && Unpacked(x) == Unpacked(y)
    ensures x == y
  {
    forall i | 0 <= i < |x| ensures x[i] == y[i] {
      forall p | 0 <= p < 8 ensures TestBit(x[i], p) <==> TestBit(y[i], p) {
        assert BitAt(x, 8 * i + (7 - p)) == Unpacked(x)[8 * i + (7 - p)] == BitAt(y, 8 * i + (7 - p));
      }
      EightBits();
      SameBits(x[i], y[i], 8);
    }
  }

  lemma EightBits()
    ensures Pow2(8) == 256 && Pow2(11) == 2048
  {
    assert Pow2(4) == 16;
    Pow2Add(4, 4);
    assert Pow2(3) == 8;
    Pow2Add(8, 3);
  }

  /** A number from its bits, the highest first. */
  function ValueOf(b: seq<bool>): (n: nat)
    ensures n < Pow2(|b|)
  {
    if b == [] then 0 else 2 * ValueOf(b[..|b| - 1]) + if b[|b| - 1] then 1 else 0
  }

  lemma {:induction false} ValueBit(b: seq<bool>, p: nat)
    requires p < |b|
    ensures TestBit(ValueOf(b), p) <==> b[|b| - 1 - p]
  {
    if p > 0 { ValueBit(b[..|b| - 1], p - 1); }
  }

  /** The eleven bits of a word's place in the list. */
  function IndexBits(n: nat): (b: seq<bool>)
    ensures |b| == 11 && forall j | 0 <= j < 11 :: b[j] == TestBit(n, 10 - j)
  {
    seq(11, j requires 0 <= j < 11 => TestBit(n, 10 - j))
  }

  lemma IndexOfBits(n: nat, b: seq<bool>)
    requires |b| == 11 && n < 2048
    ensures IndexBits(ValueOf(b)) == b && ValueOf(b) < 2048
    ensures ValueOf(IndexBits(n)) == n
  {
    EightBits();
    forall j | 0 <= j < 11 ensures IndexBits(ValueOf(b))[j] == b[j] { ValueBit(b, 10 - j); }
    forall p | 0 <= p < 11 ensures TestBit(ValueOf(IndexBits(n)), p) <==> TestBit(n, p) { ValueBit(IndexBits(n), p); }
    SameBits(ValueOf(IndexBits(n)), n, 11);
  }

  /* Words of a sentence. */

  function Join(ws: seq<string>): string {
    if ws == [] then ""
    else if |ws| == 1 then ws[0]
    else Join(ws[..|ws| - 1]) + " " + ws[|ws| - 1]
  }

  /** The length of the first word of s. */
  function WordEnd(s: string): (e: nat)
    ensures e <= |s| && ' ' !in s[..e] && (e < |s| ==> s[e] == ' ')
  {
    if s == [] || s[0] == ' ' then 0
    else
      assert s[..1 + WordEnd(s[1..])] == [s[0]] + s[1..][..WordEnd(s[1..])];
      1 + WordEnd(s[1..])
  }

  function Split(s: string): (ws: seq<string>)
    ensures |ws| > 0
  {
    var e := WordEnd(s);
    [s[..e]] + if e == |s| then [] else Split(s[e + 1..])
  }

  lemma {:induction false} WordEndIs(w: string, rest: string)
    requires ' ' !in w && (rest == [] || rest[0] == ' ')
    ensures WordEnd(w + rest) == |w|
  {
    if w == [] {
      assert w + rest == rest;
    } else {
      assert w[0] in w;
      assert (w + rest)[1..] == w[1..] + rest;
      WordEndIs(w[1..], rest);
    }
  }

  lemma {:induction false} JoinFront(ws: seq<string>)
    requires |ws| > 1
    ensures Join(ws) == ws[0] + " " + Join(ws[1..])
  {
    var last := ws[|ws| - 1];
    if |ws| == 2 {
      assert ws[..1] == [ws[0]] && ws[1..] == [ws[1]];
    } else {
      JoinFront(ws[..|ws| - 1]);
      assert ws[..|ws| - 1][1..] == ws[1..][..|ws| - 2];
      var mid := Join(ws[1..][..|ws| - 2]);
      assert ws[0] + " " + mid + " " + last == ws[0] + " " + (mid + " " + last);
    }
  }

  /** A sentence of words without spaces falls into these words again. */
  lemma {:induction false} SplitJoin(ws: seq<string>)
    requires ws != [] && forall w <- ws :: ' ' !in w
    ensures Split(Join(ws)) == ws
  {
    var w := ws[0];
    if |ws| == 1 {
      WordEndIs(w, []);
      assert w + [] == w;
    } else {
      JoinFront(ws);
      var tail := Join(ws[1..]);
      assert w + " " + tail == w + (" " + tail);
      WordEndIs(w, " " + tail);
      assert Join(ws)[|w| + 1..] == tail;
      SplitJoin(ws[1..]);
      assert ws == [w] + ws[1..];
    }
  }

  /** Splitting loses nothing. */
  lemma {:induction false} JoinSplit(s: string)
    ensures Join(Split(s)) == s
    decreases |s|
  {
    hide Split, Join, WordEnd;
    SplitStep(s);
    JoinOne(s);
    var e := WordEnd(s);
    if e < |s| {
      JoinSplit(s[e + 1..]);
      JoinHead(s[..e], Split(s[e + 1..]));
      Cut(s, e);
    }
  }

  lemma JoinOne(s: string)
    ensures Join([s]) == s
  {
  }

  lemma {:induction false} JoinHead(head: string, ws: seq<string>)
    requires ws != []
    ensures Join([head] + ws) == head + " " + Join(ws)
  {
    hide Join;
    JoinFront([head] + ws);
    assert ([head] + ws)[1..] == ws;
  }

  lemma Cut(s: string, e: nat)
    requires e < |s| && s[e] == ' '
    ensures s == s[..e] + " " + s[e + 1..]
  {
  }

  lemma {:induction false} SplitStep(s: string)
    ensures var e := WordEnd(s);
      Split(s) == if e == |s| then [s] else [s[..e]] + Split(s[e + 1..])
  {
    hide WordEnd;
    assert s[..|s|] == s;
    assert [s] + [] == [s];
  }

  /* The sentence for some data. */

  /** What FromData takes: 16 to 32 bytes, in steps of four. */
  predicate SizeOk(n: int) {
    16 <= n <= 32 && n % 4 == 0
  }

  /** The data bits and the checksum, cut to whole words. */
  function Coded(lib: Library, data: seq<byte>): (b: seq<bool>)
    requires |lib.hash(data)| == 32 && SizeOk(|data|)
    ensures |b| == 11 * (|data| * 3 / 4) == 8 * |data| + |data| / 4
  {
    Unpacked(data + [lib.hash(data)[0]])[..8 * |data| + |data| / 4]
  }

  /** The place in the list of word i. */
  function WordIndex(lib: Library, data: seq<byte>, i: nat): (n: nat)
    requires |lib.hash(data)| == 32 && SizeOk(|data|) && i < |data| * 3 / 4
    ensures n < 2048
  {
    EightBits();
    ValueOf(Coded(lib, data)[11 * i..11 * i + 11])
  }

  function Words(lib: Library, data: seq<byte>, n: nat): (ws: seq<string>)
    requires |lib.words| == 2048 && |lib.hash(data)| == 32 && SizeOk(|data|) && n <= |data| * 3 / 4
    ensures |ws| == n && forall i | 0 <= i < n :: ws[i] == lib.words[WordIndex(lib, data, i)]
  {
    seq(n, i requires 0 <= i < n => lib.words[WordIndex(lib, data, i)])
  }

  /** The sentence for some data. */
  function Sentence(lib: Library, data: seq<byte>): string
    requires |lib.words| == 2048 && |lib.hash(data)| == 32 && SizeOk(|data|)
  {
    Join(Words(lib, data, |data| * 3 / 4))
  }

  method FromData(lib: Library, data: seq<byte>, len: int) returns (mnemonic: string)
    requires lib.Valid() && len <= |data|
    ensures mnemonic == if SizeOk(len) then Sentence(lib, data[..len]) else ""
  {
    hide Library.Valid, Words, WordIndex, Coded, Join;
    if len % 4 != 0 || len < 16 || len > 32 {
      return "";
    }
    Sizes(lib, data[..len]);
    var checksum := lib.hash(data[..len]);
    var bits := data[..len] + [checksum[0]];
    var mlen := len * 3 / 4;
    mnemonic := "";
    ghost var d := data[..len];
    NoWords(lib, d);
    for i := 0 to mlen
      invariant mnemonic == Join(Words(lib, d, i)) + if 0 < i < mlen then " " else ""
    {
      WordsNext(lib, d, i);
      var idx := NextIndex(lib, d, bits, i);
      mnemonic := mnemonic + lib.words[idx];
      if i < mlen - 1 {
        mnemonic := mnemonic + " ";
      }
    }
  }

  /** Collects the eleven bits of word i. */
  method NextIndex(lib: Library, ghost d: seq<byte>, bits: seq<byte>, i: nat) returns (idx: nat)
    requires |lib.hash(d)| == 32 && SizeOk(|d|) && bits == d + [lib.hash(d)[0]] && i < |d| * 3 / 4
    ensures idx == WordIndex(lib, d, i)
  {
    hide ValueOf, Coded, BitAt, WordIndex, Unpacked;
    ghost var coded := Coded(lib, d);
    var from := i * 11;
    WordBits(lib, d, bits, i);
    assert coded[from..from] == [];
    idx := 0;
    for j := 0 to 11
      invariant idx == ValueOf(coded[from..from + j])
    {
      idx := idx * 2;
      idx := idx + if BitAt(bits, from + j) then 1 else 0;
      NextBit(coded, from, j);
    }
  }

  lemma {:induction false} WordBits(lib: Library, d: seq<byte>, bits: seq<byte>, i: nat)
    requires |lib.hash(d)| == 32 && SizeOk(|d|) && bits == d + [lib.hash(d)[0]] && i < |d| * 3 / 4
    ensures i * 11 + 11 <= |Coded(lib, d)| && i * 11 + 11 <= 8 * |bits|
    ensures forall k | i * 11 <= k < i * 11 + 11 :: Coded(lib, d)[k] == BitAt(bits, k)
    ensures WordIndex(lib, d, i) == ValueOf(Coded(lib, d)[i * 11..i * 11 + 11])
    ensures ValueOf([]) == 0
  {
    hide ValueOf, Coded, BitAt;
    NoBits0();
    forall k | i * 11 <= k < i * 11 + 11 ensures Coded(lib, d)[k] == BitAt(bits, k) {
      CodedBit(lib, d, bits, k);
    }
  }

  lemma CodedBit(lib: Library, d: seq<byte>, bits: seq<byte>, k: nat)
    requires |lib.hash(d)| == 32 && SizeOk(|d|) && bits == d + [lib.hash(d)[0]] && k < 11 * (|d| * 3 / 4)
    ensures k < 8 * |bits| && Coded(lib, d)[k] == BitAt(bits, k)
  {
    hide TestBit, BitAt;
    assert Coded(lib, d)[k] == Unpacked(bits)[k];
  }

  lemma Sizes(lib: Library, d: seq<byte>)
    requires lib.Valid()
    ensures |lib.words| == 2048 && |lib.hash(d)| == 32
  {
  }

  lemma NoBits0()
    ensures ValueOf([]) == 0
  {
  }

  lemma NoWords(lib: Library, d: seq<byte>)
    requires |lib.words| == 2048 && |lib.hash(d)| == 32 && SizeOk(|d|)
    ensures Join(Words(lib, d, 0)) == ""
  {
  }

  lemma NextBit(b: seq<bool>, from: nat, j: nat)
    requires from + j < |b|
    ensures ValueOf(b[from..from + j + 1]) == 2 * ValueOf(b[from..from + j]) + if b[from + j] then 1 else 0
  {
    assert b[from..from + j + 1][..j] == b[from..from + j];
  }

  lemma WordsNext(lib: Library, d: seq<byte>, i: nat)
    requires |lib.words| == 2048 && |lib.hash(d)| == 32 && SizeOk(|d|) && i < |d| * 3 / 4
    ensures var w := lib.words[WordIndex(lib, d, i)];
      Join(Words(lib, d, i + 1)) == if i == 0 then w else Join(Words(lib, d, i)) + " " + w
  {
    assert Words(lib, d, i + 1)[..i] == Words(lib, d, i);
  }

  /* The check. */

  /** The place of a word in the list, if it is there. */
  ghost predicate Listed(lib: Library, w: string) {
    exists i :: 0 <= i < |lib.words| && lib.words[i] == w
  }

  ghost function Place(lib: Library, w: string): (i: nat)
    requires Listed(lib, w)
    ensures i < |lib.words| && lib.words[i] == w
  {
    var i :| 0 <= i < |lib.words| && lib.words[i] == w;
    i
  }

  /** The bits of all words. */
  ghost function AllBits(lib: Library, ws: seq<string>): (b: seq<bool>)
    requires forall w <- ws :: Listed(lib, w)
    ensures |b| == 11 * |ws|
  {
    if ws == [] then []
    else AllBits(lib, ws[..|ws| - 1]) + IndexBits(Place(lib, ws[|ws| - 1]))
  }

  lemma {:induction false} AllBitsAt(lib: Library, ws: seq<string>, i: nat)
    requires i < |ws| && forall w <- ws :: Listed(lib, w)
    ensures AllBits(lib, ws)[11 * i..11 * i + 11] == IndexBits(Place(lib, ws[i]))
  {
    var front := ws[..|ws| - 1];
    if i < |front| {
      AllBitsAt(lib, front, i);
      assert AllBits(lib, ws)[11 * i..11 * i + 11] == AllBits(lib, front)[11 * i..11 * i + 11];
    }
  }

  /** Bits are equal when they are equal word by word. */
  lemma ByWords(x: seq<bool>, y: seq<bool>, n: nat)
    requires |x| == |y| == 11 * n
    requires forall i | 0 <= i < n :: x[11 * i..11 * i + 11] == y[11 * i..11 * i + 11]
    ensures x == y
  {
    forall k | 0 <= k < 11 * n ensures x[k] == y[k] {
      var i, j := k / 11, k % 11;
      assert x[11 * i..11 * i + 11][j] == x[k] && y[11 * i..11 * i + 11][j] == y[k];
    }
  }

  /** A text is the sentence for some data exactly when its words are in the list and their bits are
      those of the data and its checksum. */
  lemma {:induction false} SentenceExactly(lib: Library, s: string, data: seq<byte>)
    requires lib.Valid() && SizeOk(|data|)
    ensures s == Sentence(lib, data) <==>
      && |Split(s)| == |data| * 3 / 4 && (forall w <- Split(s) :: Listed(lib, w))
      && AllBits(lib, Split(s)) == Coded(lib, data)
  {
    var n, ws := |data| * 3 / 4, Split(s);
    hide Split, Join, AllBits, Coded, Words, Listed;
    if s == Sentence(lib, data) {
      SentenceBits(lib, data);
      SplitJoin(Words(lib, data, n));
    }
    if |ws| == n && (forall w <- ws :: Listed(lib, w)) && AllBits(lib, ws) == Coded(lib, data) {
      WordsFromBits(lib, ws, data);
      JoinSplit(s);
    }
  }

  lemma {:induction false} WordsFromBits(lib: Library, ws: seq<string>, data: seq<byte>)
    requires lib.Valid() && SizeOk(|data|) && |ws| == |data| * 3 / 4
    requires (forall w <- ws :: Listed(lib, w)) && AllBits(lib, ws) == Coded(lib, data)
    ensures ws == Words(lib, data, |ws|)
  {
    hide AllBits, Coded, ValueOf;
    var us, coded := Words(lib, data, |ws|), Coded(lib, data);
    forall i | 0 <= i < |ws| ensures ws[i] == us[i] {
      AllBitsAt(lib, ws, i);
      EveryPlace(lib, ws[i], Place(lib, ws[i]));
      IndexOfBits(Place(lib, ws[i]), coded[11 * i..11 * i + 11]);
    }
  }

  lemma {:induction false} SentenceBits(lib: Library, data: seq<byte>)
    requires lib.Valid() && SizeOk(|data|)
    ensures var ws := Words(lib, data, |data| * 3 / 4);
      (forall w <- ws :: Listed(lib, w) && ' ' !in w) && AllBits(lib, ws) == Coded(lib, data)
  {
    hide Coded, AllBits, IndexBits, ValueOf;
    var n, coded := |data| * 3 / 4, Coded(lib, data);
    var ws := Words(lib, data, n);
    forall i | 0 <= i < n ensures Listed(lib, ws[i]) && ' ' !in ws[i] && Place(lib, ws[i]) == WordIndex(lib, data, i) {
      EveryPlace(lib, ws[i], WordIndex(lib, data, i));
    }
    hide Listed, Place, Library.Valid;
    forall i | 0 <= i < n ensures AllBits(lib, ws)[11 * i..11 * i + 11] == coded[11 * i..11 * i + 11] {
      AllBitsAt(lib, ws, i);
      IndexOfBits(0, coded[11 * i..11 * i + 11]);
    }
    ByWords(AllBits(lib, ws), coded, n);
  }

  lemma Distinct(lib: Library, i: nat, j: nat)
    requires lib.Valid() && i < 2048 && j < 2048 && lib.words[i] == lib.words[j]
    ensures i == j
  {
  }

  lemma EveryPlace(lib: Library, w: string, i: nat)
    requires lib.Valid() && i < 2048 && lib.words[i] == w
    ensures Listed(lib, w) && Place(lib, w) == i && ' ' !in w && 1 <= |w| <= 9
  {
    assert Listed(lib, w);
    Distinct(lib, Place(lib, w), i);
  }

  /** Written out: bit j, from the top, of the place of word i is bit 11i + j of the data, the highest bit
      of each byte first, or past its end a bit of the first byte of the hash. */
  lemma SentenceSays(lib: Library, data: seq<byte>, i: nat, j: nat)
    requires lib.Valid() && SizeOk(|data|) && i < |data| * 3 / 4 && j < 11
    ensures var ws, k := Split(Sentence(lib, data)), 11 * i + j;
      && |ws| == |data| * 3 / 4 && Listed(lib, ws[i])
      && (Place(lib, ws[i]) / Pow2(10 - j) % 2 == 1 <==>
          if k < 8 * |data| then data[k / 8] / Pow2(7 - k % 8) % 2 == 1
          else lib.hash(data)[0] / Pow2(7 - (k - 8 * |data|)) % 2 == 1)
  {
    hide *;
    Sizes(lib, data);
    WordSays(lib, data, i, j);
    CodedSays(lib, data, 11 * i + j);
  }

  lemma {:induction false} WordSays(lib: Library, data: seq<byte>, i: nat, j: nat)
    requires lib.Valid() && SizeOk(|data|) && i < |data| * 3 / 4 && j < 11
    ensures var ws := Split(Sentence(lib, data));
      && |ws| == |data| * 3 / 4 && Listed(lib, ws[i])
      && (Place(lib, ws[i]) / Pow2(10 - j) % 2 == 1 <==> Coded(lib, data)[11 * i + j])
  {
    hide Split, Sentence, AllBits, Coded, Listed, Pow2, TestBit, Library.Valid;
    Sizes(lib, data);
    var ws := Split(Sentence(lib, data));
    SentenceExactly(lib, Sentence(lib, data), data);
    assert ws[i] in ws;
    AllBitsAt(lib, ws, i);
    assert Coded(lib, data)[11 * i..11 * i + 11][j] == Coded(lib, data)[11 * i + j];
    TestBitIs(Place(lib, ws[i]), 10 - j);
  }

  lemma {:induction false} CodedSays(lib: Library, data: seq<byte>, k: nat)
    requires |lib.hash(data)| == 32 && SizeOk(|data|) && k < 11 * (|data| * 3 / 4)
    ensures Coded(lib, data)[k] <==>
      if k < 8 * |data| then data[k / 8] / Pow2(7 - k % 8) % 2 == 1
      else lib.hash(data)[0] / Pow2(7 - (k - 8 * |data|)) % 2 == 1
  {
    hide Coded, Pow2, TestBit;
    CodedBit(lib, data, data + [lib.hash(data)[0]], k);
    if k < 8 * |data| {
      TestBitIs(data[k / 8], 7 - k % 8);
    } else {
      TestBitIs(lib.hash(data)[0], 7 - (k - 8 * |data|));
    }
  }

  /** A sentence of 12, 18 or 24 words for some data. */
  ghost predicate Makes(lib: Library, s: string, data: seq<byte>)
    requires lib.Valid()
  {
    (|data| == 16 || |data| == 24 || |data| == 32) && s == Sentence(lib, data)
  }

  /** The word from position i on, unless it is longer than nine characters. */
  method ReadWord(s: string, i: nat) returns (ok: bool, word: string)
    requires i < |s|
    ensures ok ==> word == s[i..][..WordEnd(s[i..])]
    ensures !ok ==> WordEnd(s[i..]) > 9
  {
    word := "";
    while i + |word| < |s| && s[i + |word|] != ' '
      invariant i + |word| <= |s| && word == s[i..][..|word|] && ' ' !in word
    {
      if |word| >= 9 {
        WordLonger(s[i..], |word|);
        return false, "";
      }
      word := word + [s[i + |word|]];
    }
    WordStops(s[i..], |word|);
    ok := true;
  }

  lemma {:induction false} WordLonger(s: string, n: nat)
    requires n < |s| && ' ' !in s[..n] && s[n] != ' '
    ensures WordEnd(s) > n
  {
    if n > 0 {
      assert s[..n][0] == s[0];
      assert s[1..][..n - 1] == s[..n][1..];
      WordLonger(s[1..], n - 1);
    }
  }

  lemma WordStops(s: string, n: nat)
    requires n <= |s| && ' ' !in s[..n] && (n < |s| ==> s[n] == ' ')
    ensures WordEnd(s) == n
  {
    assert s[..n] + s[n..] == s;
    WordEndIs(s[..n], s[n..]);
  }

  /** Looks a word up, from the start of the list to its end. */
  method FindWord(lib: Library, word: string) returns (found: bool, nWordIndex: nat)
    requires lib.Valid()
    ensures found <==> Listed(lib, word)
    ensures found ==> nWordIndex < 2048 && nWordIndex == Place(lib, word)
  {
    nWordIndex := 0;
    while nWordIndex < |lib.words|
      invariant nWordIndex <= 2048 && forall i | 0 <= i < nWordIndex :: lib.words[i] != word
    {
      if word == lib.words[nWordIndex] {
        EveryPlace(lib, word, nWordIndex);
        return true, nWordIndex;
      }
      nWordIndex := nWordIndex + 1;
    }
    found := false;
  }

  /** The buffer holds these bits, and no others. */
  ghost predicate Holds(a: seq<nat>, b: seq<bool>) {
    && |a| == 33 && |b| <= 264
    && (forall i | 0 <= i < 33 :: a[i] < 256)
    && (forall k: nat | k < 264 :: TestBit(a[k / 8], 7 - k % 8) <==> k < |b| && b[k])
  }

  lemma HoldsNothing(a: seq<nat>)
    requires |a| == 33 && forall i | 0 <= i < 33 :: a[i] == 0
    ensures Holds(a, [])
  {
    forall k: nat | k < 264 ensures !TestBit(a[k / 8], 7 - k % 8) { TestBitZero(7 - k % 8); }
  }

  lemma HoldsMore(a: seq<nat>, b: seq<bool>)
    requires Holds(a, b) && |b| < 264
    ensures Holds(a, b + [false])
    ensures var n := |b|; Holds(a[n / 8 := SetBit(a[n / 8], 7 - n % 8)], b + [true])
  {
    hide TestBit, SetBit;
    var n := |b|;
    var c := a[n / 8 := SetBit(a[n / 8], 7 - n % 8)];
    EightBits();
    SetBitBound(a[n / 8], 7 - n % 8, 8);
    forall k: nat | k < 264 ensures TestBit(c[k / 8], 7 - k % 8) <==> k < |b + [true]| && (b + [true])[k] {
      if k / 8 == n / 8 { SetBitTest(a[n / 8], 7 - n % 8, 7 - k % 8); }
      assert k < n ==> (b + [true])[k] == b[k];
    }
    forall k: nat | k < 264 ensures TestBit(a[k / 8], 7 - k % 8) <==> k < |b + [false]| && (b + [false])[k] {
      assert k < n ==> (b + [false])[k] == b[k];
    }
  }

  /** Appends the eleven bits of a word's place. */
  method PutIndex(bits: array<nat>, nBitsCount: nat, nWordIndex: nat, ghost b: seq<bool>)
    requires Holds(bits[..], b) && nBitsCount == |b| <= 253
    modifies bits
    ensures Holds(bits[..], b + IndexBits(nWordIndex))
  {
    hide Holds, TestBit, SetBit;
    var n := nBitsCount;
    ghost var c := b;
    BufferSize(bits[..], b);
    for ki := 0 to 11
      invariant n == |c| == nBitsCount + ki && c == b + IndexBits(nWordIndex)[..ki]
      invariant bits.Length == 33 && Holds(bits[..], c)
    {
      HoldsMore(bits[..], c);
      var bit := TestBit(nWordIndex, 10 - ki);
      if bit {
        ghost var before := bits[..];
        bits[n / 8] := SetBit(bits[n / 8], 7 - n % 8);
        assert bits[..] == before[n / 8 := SetBit(before[n / 8], 7 - n % 8)];
      }
      n := n + 1;
      assert IndexBits(nWordIndex)[..ki + 1] == IndexBits(nWordIndex)[..ki] + [bit];
      c := c + [bit];
    }
    assert IndexBits(nWordIndex)[..11] == IndexBits(nWordIndex);
  }

  lemma BufferSize(a: seq<nat>, b: seq<bool>)
    requires Holds(a, b)
    ensures |a| == 33 && forall i | 0 <= i < 33 :: a[i] < 256
  {
  }

  /** One more than the number of spaces is the number of words. */
  method CountWords(s: string) returns (nWordCount: nat)
    ensures nWordCount == |Split(s)|
  {
    nWordCount := 0;
    assert s[0..] == s;
    for i := 0 to |s|
      invariant nWordCount + |Split(s[i..])| == |Split(s)|
    {
      SplitChar(s[i..]);
      assert s[i..][1..] == s[i + 1..];
      if s[i] == ' ' {
        nWordCount := nWordCount + 1;
      }
    }
    assert s[|s|..] == [];
    nWordCount := nWordCount + 1;
  }

  lemma {:induction false} SplitChar(s: string)
    requires s != []
    ensures |Split(s)| == |Split(s[1..])| + if s[0] == ' ' then 1 else 0
  {
    hide Split;
    SplitStep(s);
    SplitStep(s[1..]);
    if s[0] == ' ' {
      assert WordEnd(s) == 0;
    } else {
      var e := WordEnd(s[1..]);
      assert WordEnd(s) == 1 + e;
      hide WordEnd;
      assert e < |s[1..]| ==> s[1..][e + 1..] == s[e + 2..];
    }
  }

  /** Reads all words into the buffer. */
  method ReadWords(lib: Library, s: string, bits: array<nat>) returns (ok: bool, nBitsCount: nat)
    requires lib.Valid() && s != [] && |Split(s)| <= 24
    requires bits.Length == 33 && forall i | 0 <= i < 33 :: bits[i] == 0
    modifies bits
    ensures ok && nBitsCount == 11 * |Split(s)| ==>
      (forall w <- Split(s) :: Listed(lib, w)) && Holds(bits[..], AllBits(lib, Split(s)))
    ensures !ok || nBitsCount != 11 * |Split(s)| ==> exists w <- Split(s) :: !Listed(lib, w)
  {
    hide Holds, AllBits, Split, WordEnd, Listed, Place, IndexBits, Library.Valid;
    var i := 0;
    nBitsCount := 0;
    ghost var ws: seq<string> := [];
    ghost var rest := Split(s);
    HoldsNothing(bits[..]);
    NoAllBits(lib);
    assert s[0..] == s;
    while i < |s|
      invariant i <= |s| + 1 && ws + rest == Split(s)
      invariant rest == if i <= |s| then Split(s[i..]) else []
      invariant forall w <- ws :: Listed(lib, w)
      invariant nBitsCount == 11 * |ws| && bits.Length == 33
      invariant Holds(bits[..], AllBits(lib, ws))
    {
      var word;
      SplitStep(s[i..]);
      ok, word := ReadWord(s, i);
      if !ok {
        LongUnlisted(lib, rest[0]);
        assert rest[0] in Split(s);
        return;
      }
      assert rest[0] == word && rest[0] in Split(s);
      i := i + |word|;
      var nWordIndex;
      ok, nWordIndex := FindWord(lib, word);
      if !ok { return; }
      PutIndex(bits, nBitsCount, nWordIndex, AllBits(lib, ws));
      AllBitsNext(lib, ws, word);
      ws, rest := ws + [word], rest[1..];
      nBitsCount := nBitsCount + 11;
      i := i + 1;
    }
    ok := true;
    if i == |s| {
      EmptyUnlisted(lib);
      assert s[i..] == [];
      assert |rest| == 1 && rest[0] == "" && rest[0] in Split(s);
    } else {
      assert ws + [] == ws;
    }
  }

  lemma NoAllBits(lib: Library)
    ensures AllBits(lib, []) == []
  {
  }

  lemma AllBitsNext(lib: Library, ws: seq<string>, w: string)
    requires (forall v <- ws :: Listed(lib, v)) && Listed(lib, w)
    ensures AllBits(lib, ws + [w]) == AllBits(lib, ws) + IndexBits(Place(lib, w))
  {
    assert (ws + [w])[..|ws|] == ws;
  }

  lemma LongUnlisted(lib: Library, w: string)
    requires lib.Valid() && |w| > 9
    ensures !Listed(lib, w)
  {
  }

  lemma EmptyUnlisted(lib: Library)
    requires lib.Valid()
    ensures !Listed(lib, "") && Split("") == [""]
  {
  }

  /** A text passes exactly when it is the sentence for some 16, 24 or 32 bytes. */
  method Check(lib: Library, mnemonic: string) returns (fResult: bool)
    requires lib.Valid()
    ensures fResult <==> exists data :: Makes(lib, mnemonic, data)
  {
    hide Holds, AllBits, Split, Makes, Library.Valid, And;
    if mnemonic == "" {
      WrongCount(lib, mnemonic);
      return false;
    }
    var nWordCount := CountWords(mnemonic);
    if nWordCount != 12 && nWordCount != 18 && nWordCount != 24 {
      WrongCount(lib, mnemonic);
      return false;
    }
    var bits := new nat[33](_ => 0);
    var ok, nBitsCount := ReadWords(lib, mnemonic, bits);
    if !ok || nBitsCount != nWordCount * 11 {
      WrongWord(lib, mnemonic);
      return false;
    }
    var len := nWordCount * 4 / 3;
    BufferSize(bits[..], AllBits(lib, Split(mnemonic)));
    ghost var held := bits[..];
    ghost var all := AllBits(lib, Split(mnemonic));
    bits[32] := bits[len];
    var data: seq<byte> := bits[..len];
    HashSize(lib, data);
    var hash := lib.hash(data);
    forall k | 0 <= k < 32 { bits[k] := hash[k]; }
    if nWordCount == 12 {
      fResult := And(bits[0], 0xF0) == And(bits[32], 0xF0);
      MaskF0(bits[0], bits[32]);
    } else if nWordCount == 18 {
      fResult := And(bits[0], 0xFC) == And(bits[32], 0xFC);
      MaskFC(bits[0], bits[32]);
    } else {
      fResult := bits[0] == bits[32];
      MaskFF(bits[0], bits[32]);
    }
    assert data == held[..len];
    Decided(lib, mnemonic, held, data, fResult);
  }

  lemma HashSize(lib: Library, data: seq<byte>)
    requires lib.Valid()
    ensures |lib.hash(data)| == 32
  {
  }

  lemma NoWords0()
    ensures |Split("")| == 1
  {
  }

  lemma {:induction false} WrongCount(lib: Library, s: string)
    requires lib.Valid() && (s == "" || (|Split(s)| != 12 && |Split(s)| != 18 && |Split(s)| != 24))
    ensures forall data :: !Makes(lib, s, data)
  {
    hide Split, Sentence, AllBits, Coded, Listed, Library.Valid;
    NoWords0();
    forall data ensures !Makes(lib, s, data) {
      if SizeOk(|data|) { SentenceExactly(lib, s, data); }
    }
  }

  lemma {:induction false} WrongWord(lib: Library, s: string)
    requires lib.Valid() && exists w <- Split(s) :: !Listed(lib, w)
    ensures forall data :: !Makes(lib, s, data)
  {
    hide Split, Sentence, AllBits, Coded, Listed;
    forall data ensures !Makes(lib, s, data) {
      if SizeOk(|data|) { SentenceExactly(lib, s, data); }
    }
  }

  /** The first n bits are equal. */
  ghost predicate TopEqual(x: nat, y: nat, n: nat) {
    n <= 8 && forall p | 8 - n <= p < 8 :: TestBit(x, p) <==> TestBit(y, p)
  }

  lemma MaskIs(x: nat, y: nat, mask: nat, n: nat)
    requires x < 256 && y < 256 && n <= 8
    requires forall p | 0 <= p < 8 :: TestBit(mask, p) <==> p >= 8 - n
    ensures And(x, mask) == And(y, mask) <==> TopEqual(x, y, n)
  {
    hide And, TestBit;
    EightBits();
    forall p: nat ensures TestBit(And(x, mask), p) <==> TestBit(x, p) && TestBit(mask, p)
      ensures TestBit(And(y, mask), p) <==> TestBit(y, p) && TestBit(mask, p)
      ensures And(x, mask) <= x && And(y, mask) <= y
    {
      AndTest(x, mask, p);
      AndTest(y, mask, p);
    }
    AndTest(x, mask, 0);
    AndTest(y, mask, 0);
    if TopEqual(x, y, n) { SameBits(And(x, mask), And(y, mask), 8); }
    if And(x, mask) == And(y, mask) {
      forall p | 8 - n <= p < 8 ensures TestBit(x, p) <==> TestBit(y, p) {
        assert TestBit(And(x, mask), p) <==> TestBit(And(y, mask), p);
      }
    }
  }

  lemma {:induction false} ShiftedBits(q: nat, k: nat, p: nat)
    ensures TestBit(q * Pow2(k), p) <==> p >= k && TestBit(q, p - k)
  {
    if k > 0 {
      var x := q * Pow2(k);
      assert x == 2 * (q * Pow2(k - 1));
      if p > 0 { ShiftedBits(q, k - 1, p - 1); }
    }
  }

  lemma {:induction false} OnesBits(n: nat, p: nat)
    ensures TestBit(Pow2(n) - 1, p) <==> p < n
  {
    if n == 0 {
      TestBitZero(p);
    } else if p > 0 {
      assert (Pow2(n) - 1) / 2 == Pow2(n - 1) - 1;
      OnesBits(n - 1, p - 1);
    }
  }

  lemma MaskF0(x: nat, y: nat)
    requires x < 256 && y < 256
    ensures And(x, 0xF0) == And(y, 0xF0) <==> TopEqual(x, y, 4)
  {
    assert Pow2(4) == 16;
    forall p | 0 <= p < 8 ensures TestBit(0xF0, p) <==> p >= 4 {
      ShiftedBits(15, 4, p);
      if p >= 4 { OnesBits(4, p - 4); }
    }
    MaskIs(x, y, 0xF0, 4);
  }

  lemma MaskFC(x: nat, y: nat)
    requires x < 256 && y < 256
    ensures And(x, 0xFC) == And(y, 0xFC) <==> TopEqual(x, y, 6)
  {
    assert Pow2(2) == 4;
    Pow2Add(4, 2);
    assert Pow2(4) == 16;
    forall p | 0 <= p < 8 ensures TestBit(0xFC, p) <==> p >= 2 {
      ShiftedBits(63, 2, p);
      if p >= 2 { OnesBits(6, p - 2); }
    }
    MaskIs(x, y, 0xFC, 6);
  }

  lemma MaskFF(x: nat, y: nat)
    requires x < 256 && y < 256
    ensures x == y <==> TopEqual(x, y, 8)
  {
    EightBits();
    if TopEqual(x, y, 8) { SameBits(x, y, 8); }
  }

  /** Bit k of the data and checksum byte. */
  lemma JoinedBit(data: seq<byte>, h: byte, k: nat)
    requires k < 8 * |data| + 8
    ensures Unpacked(data + [h])[k] == if k < 8 * |data| then BitAt(data, k) else TestBit(h, 7 - (k - 8 * |data|))
  {
    hide TestBit;
    assert Unpacked(data + [h])[k] == BitAt(data + [h], k);
  }

  lemma HeldBit(held: seq<nat>, all: seq<bool>, data: seq<byte>, k: nat)
    requires Holds(held, all) && SizeOk(|data|) && data == held[..|data|] && k < |all| <= 8 * |data| + 8
    ensures all[k] == if k < 8 * |data| then BitAt(data, k) else TestBit(held[|data|], 7 - (k - 8 * |data|))
  {
    hide TestBit;
    assert all[k] <==> TestBit(held[k / 8], 7 - k % 8);
  }

  /** The data bits are those of the first bytes held, and the checksum is in the next one. */
  lemma {:induction false} HeldBits(held: seq<nat>, all: seq<bool>, data: seq<byte>, h: byte)
    requires Holds(held, all) && SizeOk(|data|) && data == held[..|data|] && |all| == 8 * |data| + |data| / 4
    ensures Unpacked(data) == all[..8 * |data|]
    ensures all == Unpacked(data + [h])[..|all|] <==> TopEqual(h, held[|data|], |data| / 4)
  {
    hide TestBit, Holds, BitAt, TopEqual;
    BufferSize(held, all);
    var u := Unpacked(data + [h])[..|all|];
    forall k | 0 <= k < 8 * |data| ensures Unpacked(data)[k] == all[k] == u[k] {
      HeldBit(held, all, data, k);
      JoinedBit(data, h, k);
    }
    if TopEqual(h, held[|data|], |data| / 4) {
      forall k | 0 <= k < |all| ensures u[k] == all[k] {
        HeldBit(held, all, data, k);
        JoinedBit(data, h, k);
        if k >= 8 * |data| { TopBits(h, held[|data|], |data| / 4, 7 - (k - 8 * |data|)); }
      }
    }
    if all == u {
      forall p | 8 - |data| / 4 <= p < 8 ensures TestBit(h, p) <==> TestBit(held[|data|], p) {
        HeldBit(held, all, data, 8 * |data| + (7 - p));
        JoinedBit(data, h, 8 * |data| + (7 - p));
      }
      TopEqualIf(h, held[|data|], |data| / 4);
    }
  }

  lemma TopBits(x: nat, y: nat, n: nat, p: nat)
    requires TopEqual(x, y, n) && 8 - n <= p < 8
    ensures TestBit(x, p) <==> TestBit(y, p)
  {
  }

  lemma TopEqualIf(x: nat, y: nat, n: nat)
    requires n <= 8 && forall p | 8 - n <= p < 8 :: TestBit(x, p) <==> TestBit(y, p)
    ensures TopEqual(x, y, n)
  {
  }

  lemma {:induction false} Decided(lib: Library, s: string, held: seq<nat>, data: seq<byte>, accepted: bool)
    requires lib.Valid() && (|data| == 16 || |data| == 24 || |data| == 32)
    requires |Split(s)| == |data| * 3 / 4 && (forall w <- Split(s) :: Listed(lib, w)) && Holds(held, AllBits(lib, Split(s)))
    requires data == held[..|data|]
    requires accepted <==> TopEqual(lib.hash(data)[0], held[|data|], |data| / 4)
    ensures accepted <==> exists d :: Makes(lib, s, d)
  {
    hide Split, AllBits, Holds, TopEqual, Unpacked, Sentence, Listed;
    var all := AllBits(lib, Split(s));
    HeldBits(held, all, data, lib.hash(data)[0]);
    if accepted {
      SentenceExactly(lib, s, data);
      assert Makes(lib, s, data);
    }
    forall d | Makes(lib, s, d) ensures accepted {
      SentenceExactly(lib, s, d);
      CodedFront(lib, d);
      UnpackedInjective(d, data);
    }
  }

  lemma CodedFront(lib: Library, d: seq<byte>)
    requires |lib.hash(d)| == 32 && SizeOk(|d|)
    ensures Coded(lib, d)[..8 * |d|] == Unpacked(d)
  {
    hide TestBit;
    forall k | 0 <= k < 8 * |d| ensures Coded(lib, d)[k] == Unpacked(d)[k] {
      assert Coded(lib, d)[k] == BitAt(d + [lib.hash(d)[0]], k);
    }
  }
}

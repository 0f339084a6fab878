/** Stake modifiers: up to 64 recent blocks are drawn by hash, one in each round, and give one bit each. */
module StakeModifier {
  import opened Bits
  import opened Common
  import Sorting

  datatype Block = Block(hash: nat, time: nat, height: nat, proofOfStake: bool, generated: bool, modifier: nat)

  /** A block's time and hash, as candidates are sorted. */
  type Candidate = (nat, nat)

  /** What comes from outside: the index of all blocks, the hash of a proof and the previous modifier, the
      modifier of the first block, the length of the interval and the height of the rule change. */
  datatype World = World(index: map<nat, Block>, hash: (nat, nat) -> nat, seed: nat, interval: nat, upgradeHeight: nat)

  const MODIFIER_INTERVAL_RATIO := 3

  function Entropy(b: Block): nat { b.hash % 2 }

  function SelectionHash(w: World, b: Block, v2: bool, modifierPrev: nat): nat {
    var proof := if v2 || !b.proofOfStake then b.hash else 0;
    var h := w.hash(proof, modifierPrev);
    if b.proofOfStake then h / 0x1_0000_0000 else h
  }

  ghost predicate Sorted(c: seq<Candidate>) {
    forall i, j | 0 <= i < j < |c| :: Sorting.Below(c[i], c[j])
  }

  /** Candidates are blocks of the index. */
  ghost predicate Known(w: World, c: seq<Candidate>) {
    forall k | 0 <= k < |c| :: c[k].1 in w.index && (var b := w.index[c[k].1]; b.time == c[k].0 && b.hash == c[k].1)
  }

  /** Whether the rules after the upgrade apply: the first candidate decides. */
  predicate V2(w: World, c: seq<Candidate>) {
    c != [] && c[0].1 in w.index && w.index[c[0].1].height >= w.upgradeHeight
  }

  function HashAt(w: World, c: seq<Candidate>, modifierPrev: nat, k: nat): nat
    requires k < |c| && c[k].1 in w.index
  {
    SelectionHash(w, w.index[c[k].1], V2(w, c), modifierPrev)
  }

  /** Candidate k is the one to select: the least selection hash among those not selected yet and not later
      than stop, or the earliest of those not selected if all are later. */
  ghost predicate Best(w: World, c: seq<Candidate>, selected: set<nat>, stop: int, modifierPrev: nat, k: nat)
    requires Known(w, c)
  {
    && k < |c| && c[k].1 !in selected
    && (if c[k].0 <= stop then
          forall j | 0 <= j < |c| && j != k && c[j].1 !in selected && c[j].0 <= stop ::
            HashAt(w, c, modifierPrev, k) < HashAt(w, c, modifierPrev, j)
            || (HashAt(w, c, modifierPrev, k) == HashAt(w, c, modifierPrev, j) && k < j)
        else
          forall j | 0 <= j < k :: c[j].1 in selected)
  }

  /** No two candidates can both be the one to select. */
  lemma BestUnique(w: World, c: seq<Candidate>, selected: set<nat>, stop: int, modifierPrev: nat, k: nat, l: nat)
    requires Known(w, c) && Sorted(c)
    requires Best(w, c, selected, stop, modifierPrev, k) && Best(w, c, selected, stop, modifierPrev, l)
    ensures k == l
  {
    assert k < l ==> Sorting.Below(c[k], c[l]);
    assert l < k ==> Sorting.Below(c[l], c[k]);
  }

  /** What is hashed for a block together with the old modifier: since the upgrade its own hash, before it
      nothing for a stake. */
  function Proof(w: World, c: seq<Candidate>, b: Block): (proof: nat)
    requires c != [] && c[0].1 in w.index
    ensures w.index[c[0].1].height >= w.upgradeHeight || !b.proofOfStake ==> proof == b.hash
    ensures w.index[c[0].1].height < w.upgradeHeight && b.proofOfStake ==> proof == 0
  {
    if V2(w, c) || !b.proofOfStake then b.hash else 0
  }

  /** Between two candidates the hashes decide, with that of a stake divided by 2 to the 32, and among equals
      the earlier one: so a stake beats work unless its hash is more than 2 to the 32 times as large. */
  ghost predicate Beats(w: World, c: seq<Candidate>, modifierPrev: nat, k: nat, j: nat)
    requires Known(w, c) && k < |c| && j < |c|
  {
    var a, b := w.index[c[k].1], w.index[c[j].1];
    var x, y := w.hash(Proof(w, c, a), modifierPrev), w.hash(Proof(w, c, b), modifierPrev);
    && (!a.proofOfStake && !b.proofOfStake ==> x < y || (x == y && k < j))
    && (!a.proofOfStake && b.proofOfStake ==> x < y / 0x1_0000_0000 || (x == y / 0x1_0000_0000 && k < j))
    && (a.proofOfStake && !b.proofOfStake ==> x / 0x1_0000_0000 < y || (x / 0x1_0000_0000 == y && k < j))
    && (a.proofOfStake && b.proofOfStake ==>
          x / 0x1_0000_0000 < y / 0x1_0000_0000 || (x / 0x1_0000_0000 == y / 0x1_0000_0000 && k < j))
  }

  /** The one to select, if it is in time, beats every other that could be selected in time. */
  lemma BestBeats(w: World, c: seq<Candidate>, selected: set<nat>, stop: int, modifierPrev: nat, k: nat)
    requires Known(w, c) && Best(w, c, selected, stop, modifierPrev, k) && c[k].0 <= stop
    ensures forall j | 0 <= j < |c| && j != k && c[j].1 !in selected && c[j].0 <= stop ::
      Beats(w, c, modifierPrev, k, j)
  {
    forall j | 0 <= j < |c| && j != k && c[j].1 !in selected && c[j].0 <= stop
      ensures Beats(w, c, modifierPrev, k, j)
    {
      assert HashAt(w, c, modifierPrev, k) <= HashAt(w, c, modifierPrev, j);
    }
  }

  method SelectBlockFromCandidates(w: World, c: seq<Candidate>, selected: set<nat>, stop: int, modifierPrev: nat)
    returns (fSelected: bool, pindexSelected: Option<Block>, ghost k: nat)
    ensures fSelected <==> pindexSelected.Some?
    ensures Known(w, c) && Sorted(c) ==>
      (fSelected <==> exists j :: 0 <= j < |c| && c[j].1 !in selected)
    ensures Known(w, c) && Sorted(c) && fSelected ==>
      Best(w, c, selected, stop, modifierPrev, k) && pindexSelected == Some(w.index[c[k].1])
    ensures Known(w, c) && Sorted(c) && fSelected && pindexSelected.value.time <= stop ==>
      forall j | 0 <= j < |c| && j != k && c[j].1 !in selected && c[j].0 <= stop :: Beats(w, c, modifierPrev, k, j)
  {
    hide SelectionHash, Beats;
    fSelected, pindexSelected, k := false, None, 0;
    var fModifierV2, fFirstRun, hashBest := false, true, 0;
    for i := 0 to |c|
      invariant fFirstRun == (i == 0)
      invariant i > 0 ==> fModifierV2 == V2(w, c)
      invariant fSelected <==> pindexSelected.Some?
      invariant forall j | 0 <= j < i :: c[j].1 in w.index
      invariant !fSelected ==> Known(w, c) ==> forall j | 0 <= j < i :: c[j].1 in selected
      invariant fSelected ==> k < i && pindexSelected == Some(w.index[c[k].1]) && hashBest == HashAt(w, c, modifierPrev, k)
      invariant fSelected ==> Known(w, c) && Sorted(c) ==> Best(w, c[..i], selected, stop, modifierPrev, k)
    {
      if c[i].1 !in w.index {
        return false, None, 0;
      }
      var pindex := w.index[c[i].1];
      if fSelected && pindex.time > stop {
        break;
      }
      if fFirstRun {
        fModifierV2 := pindex.height >= w.upgradeHeight;
        fFirstRun := false;
      }
      if pindex.hash in selected {
        continue;
      }
      var hashSelection := SelectionHash(w, pindex, fModifierV2, modifierPrev);
      if fSelected && hashSelection < hashBest {
        hashBest, pindexSelected, k := hashSelection, Some(pindex), i;
      } else if !fSelected {
        fSelected, hashBest, pindexSelected, k := true, hashSelection, Some(pindex), i;
      }
    }
    if Known(w, c) && Sorted(c) && fSelected && pindexSelected.value.time <= stop {
      BestBeats(w, c, selected, stop, modifierPrev, k);
    }
  }

  /* Rounds. */

  lemma Quotient(x: nat, d: nat)
    requires d > 0
    ensures 0 <= x / d && x / d * d <= x < (x / d + 1) * d
  {
    DivNat(x, d);
    assert x == x / d * d + x % d;
    assert (x / d + 1) * d == x / d * d + d;
  }

  /** The length of section n of the selection interval: a third of the modifier interval for the first one,
      rising to all of it for the last. */
  function Section(interval: nat, n: nat): (s: nat)
    requires n < 64
    ensures s * (189 - 2 * n) <= 63 * interval < (s + 1) * (189 - 2 * n)
  {
    Quotient(interval * 63, 63 + (63 - n) * (MODIFIER_INTERVAL_RATIO - 1));
    interval * 63 / (63 + (63 - n) * (MODIFIER_INTERVAL_RATIO - 1))
  }

  /** Where the first n sections end. */
  function Sections(interval: nat, n: nat): nat
    requires n <= 64
  {
    if n == 0 then 0 else Sections(interval, n - 1) + Section(interval, n - 1)
  }

  /** Section n is 63 parts in 189 - 2n of the modifier interval, rounded down. */
  lemma SectionsGrow(interval: nat, n: nat)
    requires n < 64
    ensures Sections(interval, 0) == 0
    ensures var last := Sections(interval, n + 1) - Sections(interval, n);
      last * (189 - 2 * n) <= 63 * interval < (last + 1) * (189 - 2 * n)
  {
    var last := Section(interval, n);
    assert Sections(interval, n + 1) - Sections(interval, n) == last;
  }

  ghost predicate InBounds(c: seq<Candidate>, picks: seq<nat>) {
    forall r | 0 <= r < |picks| :: picks[r] < |c|
  }

  ghost predicate Indexed(w: World, c: seq<Candidate>) {
    forall k | 0 <= k < |c| :: c[k].1 in w.index
  }

  ghost function Hashes(c: seq<Candidate>, picks: seq<nat>): set<nat>
    requires InBounds(c, picks)
  {
    set r | 0 <= r < |picks| :: c[picks[r]].1
  }

  /** In every round the one to select is taken. */
  ghost predicate Rounds(w: World, c: seq<Candidate>, start: int, modifierPrev: nat, picks: seq<nat>)
    requires Known(w, c)
  {
    && |picks| <= 64
    && InBounds(c, picks)
    && forall r | 0 <= r < |picks| :: Drawn(w, c, start, modifierPrev, picks, r)
  }

  ghost predicate Drawn(w: World, c: seq<Candidate>, start: int, modifierPrev: nat, picks: seq<nat>, r: nat)
    requires Known(w, c) && r < |picks| <= 64 && InBounds(c, picks)
  {
    Best(w, c, Hashes(c, picks[..r]), start + Sections(w.interval, r + 1), modifierPrev, picks[r])
  }

  /** The rounds leave no choice: everybody draws the same blocks. */
  lemma {:induction false} RoundsUnique(w: World, c: seq<Candidate>, start: int, modifierPrev: nat, x: seq<nat>, y: seq<nat>)
    requires Known(w, c) && Sorted(c) && |x| == |y|
    requires Rounds(w, c, start, modifierPrev, x) && Rounds(w, c, start, modifierPrev, y)
    ensures x == y
    decreases |x|
  {
    if x != [] {
      var n := |x| - 1;
      RoundsFront(w, c, start, modifierPrev, x);
      RoundsFront(w, c, start, modifierPrev, y);
      RoundsUnique(w, c, start, modifierPrev, x[..n], y[..n]);
      assert Drawn(w, c, start, modifierPrev, x, n) && Drawn(w, c, start, modifierPrev, y, n);
      BestUnique(w, c, Hashes(c, x[..n]), start + Sections(w.interval, n + 1), modifierPrev, x[n], y[n]);
      assert x == x[..n] + [x[n]] && y == y[..n] + [y[n]];
    }
  }

  /** In each round the block drawn, if it is in time, beats every other in time that was not drawn before. */
  lemma {:induction false} RoundsBeat(w: World, c: seq<Candidate>, start: int, modifierPrev: nat, picks: seq<nat>,
                                      r: nat, j: nat)
    requires Known(w, c) && Rounds(w, c, start, modifierPrev, picks) && r < |picks| && j < |c| && j != picks[r]
    requires c[j].1 !in Hashes(c, picks[..r])
    requires c[picks[r]].0 <= start + Sections(w.interval, r + 1) && c[j].0 <= start + Sections(w.interval, r + 1)
    ensures Beats(w, c, modifierPrev, picks[r], j)
  {
    hide Best, Beats, Hashes;
    assert Drawn(w, c, start, modifierPrev, picks, r);
    BestBeats(w, c, Hashes(c, picks[..r]), start + Sections(w.interval, r + 1), modifierPrev, picks[r]);
  }

  lemma RoundsFront(w: World, c: seq<Candidate>, start: int, modifierPrev: nat, x: seq<nat>)
    requires Known(w, c) && Rounds(w, c, start, modifierPrev, x) && x != []
    ensures Rounds(w, c, start, modifierPrev, x[..|x| - 1])
  {
    hide Best, Drawn;
    var front := x[..|x| - 1];
    forall r | 0 <= r < |front| ensures Drawn(w, c, start, modifierPrev, front, r) {
      assert front[..r + 1] == x[..r + 1];
      DrawnSame(w, c, start, modifierPrev, x, front, r);
    }
  }

  lemma RoundsMore(w: World, c: seq<Candidate>, start: int, modifierPrev: nat, x: seq<nat>, k: nat)
    requires Known(w, c) && Rounds(w, c, start, modifierPrev, x) && |x| < 64 && k < |c|
    requires Best(w, c, Hashes(c, x), start + Sections(w.interval, |x| + 1), modifierPrev, k)
    ensures Rounds(w, c, start, modifierPrev, x + [k])
    ensures Hashes(c, x + [k]) == Hashes(c, x) + {c[k].1}
  {
    hide Best, Hashes, Drawn;
    var more := x + [k];
    forall r | 0 <= r < |more| ensures Drawn(w, c, start, modifierPrev, more, r) {
      if r < |x| {
        DrawnSame(w, c, start, modifierPrev, x, more, r);
      } else {
        DrawnLast(w, c, start, modifierPrev, x, k);
      }
    }
    HashesMore(c, x, k);
  }

  lemma DrawnSame(w: World, c: seq<Candidate>, start: int, modifierPrev: nat, x: seq<nat>, y: seq<nat>, r: nat)
    requires Known(w, c) && r < |x| <= 64 && r < |y| <= 64 && InBounds(c, x) && InBounds(c, y)
    requires x[..r + 1] == y[..r + 1] && Drawn(w, c, start, modifierPrev, x, r)
    ensures Drawn(w, c, start, modifierPrev, y, r)
  {
    hide Best, Hashes;
    assert x[..r + 1][..r] == x[..r] && y[..r + 1][..r] == y[..r];
    assert x[..r + 1][r] == x[r] && y[..r + 1][r] == y[r];
  }

  lemma DrawnLast(w: World, c: seq<Candidate>, start: int, modifierPrev: nat, x: seq<nat>, k: nat)
    requires Known(w, c) && |x| < 64 && InBounds(c, x) && k < |c|
    requires Best(w, c, Hashes(c, x), start + Sections(w.interval, |x| + 1), modifierPrev, k)
    ensures Drawn(w, c, start, modifierPrev, x + [k], |x|)
  {
    hide Best, Hashes;
    assert (x + [k])[..|x|] == x;
  }

  lemma HashesMore(c: seq<Candidate>, x: seq<nat>, k: nat)
    requires InBounds(c, x) && k < |c|
    ensures Hashes(c, x + [k]) == Hashes(c, x) + {c[k].1}
  {
    var more := x + [k];
    forall h ensures h in Hashes(c, more) <==> h in Hashes(c, x) + {c[k].1} {
      if h in Hashes(c, x) {
        var r :| 0 <= r < |x| && c[x[r]].1 == h;
        assert c[more[r]].1 == h;
      }
      if h == c[k].1 { assert c[more[|x|]].1 == h; }
    }
  }

  /** The blocks drawn are different, so some candidate is left as long as fewer were drawn. */
  lemma {:induction false} SomeLeft(c: seq<Candidate>, selected: set<nat>)
    requires Distinct(c) && |selected| < |c|
    ensures exists j :: 0 <= j < |c| && c[j].1 !in selected
  {
    if forall j | 0 <= j < |c| :: c[j].1 in selected {
      var front, last := c[..|c| - 1], c[|c| - 1].1;
      assert c[|c| - 1].1 in selected;
      if |selected - {last}| < |front| {
        SomeLeft(front, selected - {last});
      }
    }
  }

  /** Bit r comes from the block drawn in round r. */
  ghost function ModifierOf(w: World, c: seq<Candidate>, picks: seq<nat>): nat
    requires InBounds(c, picks) && Indexed(w, c)
  {
    if picks == [] then 0
    else
      ModifierOf(w, c, picks[..|picks| - 1]) + Entropy(w.index[c[picks[|picks| - 1]].1]) * Pow2(|picks| - 1)
  }

  lemma {:induction false} ModifierBits(w: World, c: seq<Candidate>, picks: seq<nat>, r: nat)
    requires InBounds(c, picks) && Indexed(w, c)
    ensures ModifierOf(w, c, picks) < Pow2(|picks|)
    ensures TestBit(ModifierOf(w, c, picks), r) <==> r < |picks| && w.index[c[picks[r]].1].hash % 2 == 1
  {
    if picks == [] {
      TestBitZero(r);
    } else {
      var n := |picks| - 1;
      var front := picks[..n];
      ModifierBits(w, c, front, r);
      var e := Entropy(w.index[c[picks[n]].1]);
      AddTop(ModifierOf(w, c, front), e, n, r);
    }
  }

  lemma {:induction false} AddTop(x: nat, e: nat, n: nat, r: nat)
    requires x < Pow2(n) && e <= 1
    ensures x + e * Pow2(n) < Pow2(n + 1)
    ensures TestBit(x + e * Pow2(n), r) <==> if r == n then e == 1 else TestBit(x, r)
  {
    if n == 0 {
      if r > 0 { assert x + e * Pow2(0) == e && e / 2 == 0; }
    } else {
      var y := x + e * Pow2(n);
      assert y == x + 2 * (e * Pow2(n - 1));
      assert y / 2 == x / 2 + e * Pow2(n - 1) && y % 2 == x % 2;
      if r > 0 { AddTop(x / 2, e, n - 1, r - 1); } else { AddTop(x / 2, e, n - 1, 0); }
    }
  }

  /* Candidates. */

  ghost predicate Distinct(c: seq<Candidate>) {
    forall i, j | 0 <= i < j < |c| :: c[i].1 != c[j].1
  }

  /** Candidates ordered as pairs. */
  const BY_TIME := (x: Candidate) => (x.0, x.1)

  lemma SortedStrictly(c: seq<Candidate>, r: seq<Candidate>)
    requires Distinct(c) && multiset(r) == multiset(c) && Sorting.InOrder(r, BY_TIME)
    ensures Sorted(r)
  {
    forall i, j | 0 <= i < j < |c| ensures BY_TIME(c[i]) != BY_TIME(c[j]) { assert c[i].1 != c[j].1; }
    Sorting.Ascends(c, r, BY_TIME);
    forall i, j | 0 <= i < j < |r| ensures Sorting.Below(r[i], r[j]) { assert Sorting.Below(BY_TIME(r[i]), BY_TIME(r[j])); }
  }

  /* The computation for the block after a chain. */

  /** The chain from the genesis block on, all of it in the index. */
  ghost predicate ChainOk(w: World, chain: seq<Block>) {
    forall i | 0 <= i < |chain| ::
      chain[i].height == i && chain[i].hash in w.index && w.index[chain[i].hash] == chain[i]
  }

  /** Block g is the last one that came with a new modifier. */
  ghost predicate LastGenerated(chain: seq<Block>, g: nat) {
    g < |chain| && chain[g].generated && forall j | g < j < |chain| :: !chain[j].generated
  }

  function Items(chain: seq<Block>): (c: seq<Candidate>)
    ensures |c| == |chain| && forall i | 0 <= i < |c| :: c[i] == (chain[i].time, chain[i].hash)
  {
    seq(|chain|, i requires 0 <= i < |chain| => (chain[i].time, chain[i].hash))
  }

  /** The selection interval ends where the modifier interval of the time begins. */
  function SelectionStart(w: World, time: nat): (start: int)
    requires w.interval > 0
    ensures (start + Sections(w.interval, 64)) % w.interval == 0
    ensures start + Sections(w.interval, 64) <= time < start + Sections(w.interval, 64) + w.interval
  {
    RoundedDown(time, w.interval);
    var end := time / w.interval * w.interval;
    assert end - Sections(w.interval, 64) + Sections(w.interval, 64) == end;
    end - Sections(w.interval, 64)
  }

  lemma RoundedDown(x: nat, d: nat)
    requires d > 0
    ensures x / d * d % d == 0 && x / d * d <= x < x / d * d + d
  {
    Quotient(x, d);
    assert (x / d + 1) * d == x / d * d + d;
    DivMod(x / d * d, d, x / d, 0);
  }

  /** The candidates are the blocks at the end of the chain that are not older than the selection interval,
      sorted by time. */
  ghost predicate Candidates(w: World, chain: seq<Block>, c: seq<Candidate>)
    requires w.interval > 0 && chain != []
  {
    var start := SelectionStart(w, chain[|chain| - 1].time);
    Sorted(c) && exists lo: nat ::
      && lo <= |chain| && multiset(c) == multiset(Items(chain[lo..]))
      && (forall i | lo <= i < |chain| :: chain[i].time >= start)
      && (lo > 0 ==> chain[lo - 1].time < start)
  }

  method GetLastStakeModifier(chain: seq<Block>) returns (found: bool, nStakeModifier: nat, nModifierTime: nat, ghost g: nat)
    requires chain != []
    ensures found <==> exists j :: 0 <= j < |chain| && chain[j].generated
    ensures found ==> LastGenerated(chain, g) && nStakeModifier == chain[g].modifier && nModifierTime == chain[g].time
  {
    var i := |chain| - 1;
    while i > 0 && !chain[i].generated
      invariant 0 <= i < |chain| && forall j | i < j < |chain| :: !chain[j].generated
    {
      i := i - 1;
    }
    g := i;
    if !chain[i].generated { return false, 0, 0, 0; }
    return true, chain[i].modifier, chain[i].time, i;
  }

  method CollectCandidates(w: World, chain: seq<Block>) returns (c: seq<Candidate>)
    requires w.interval > 0 && chain != [] && ChainOk(w, chain)
    ensures Known(w, c) && Distinct(c) && Candidates(w, chain, c)
  {
    var start := SelectionStart(w, chain[|chain| - 1].time);
    var i := |chain|;
    c := [];
    while i > 0 && chain[i - 1].time >= start
      invariant 0 <= i <= |chain| && |c| == |chain| - i
      invariant forall k | 0 <= k < |c| :: c[k] == (chain[|chain| - 1 - k].time, chain[|chain| - 1 - k].hash)
      invariant forall k | i <= k < |chain| :: chain[k].time >= start
    {
      c := c + [(chain[i - 1].time, chain[i - 1].hash)];
      i := i - 1;
    }
    c := seq(|c|, k requires 0 <= k < |c| => c[|c| - 1 - k]);
    assert c == Items(chain[i..]);
    ghost var items := c;
    ChainDistinct(w, chain, i);
    c := Sorting.Sort(c, BY_TIME);
    SortedStrictly(items, c);
    KnownSorted(w, items, c);
  }

  lemma ChainDistinct(w: World, chain: seq<Block>, lo: nat)
    requires lo <= |chain| && ChainOk(w, chain)
    ensures Distinct(Items(chain[lo..])) && Known(w, Items(chain[lo..]))
  {
    var c := Items(chain[lo..]);
    forall i, j | 0 <= i < j < |c| ensures c[i].1 != c[j].1 {
      assert chain[lo + i].height != chain[lo + j].height;
    }
  }

  lemma KnownSorted(w: World, items: seq<Candidate>, c: seq<Candidate>)
    requires Known(w, items) && multiset(c) == multiset(items) && Sorted(c)
    ensures Known(w, c)
    ensures Distinct(items) ==> Distinct(c)
  {
    forall k | 0 <= k < |c| ensures c[k] in items { assert c[k] in multiset(c); }
    forall i, j | 0 <= i < j < |c| ensures Distinct(items) ==> c[i].1 != c[j].1 {
      assert Sorting.Below(c[i], c[j]) && c[i] in items && c[j] in items;
    }
  }

  /** The modifier for the block after the chain. It never fails for want of a block to draw. */
  method ComputeNextStakeModifier(w: World, chain: seq<Block>)
    returns (ok: bool, nStakeModifier: nat, fGenerated: bool, ghost g: nat, ghost c: seq<Candidate>, ghost picks: seq<nat>)
    requires w.interval > 0 && ChainOk(w, chain)
    ensures chain == [] ==> ok && fGenerated && nStakeModifier == 0
    ensures |chain| == 1 ==> ok && fGenerated && nStakeModifier == w.seed
    ensures |chain| > 1 ==> (ok <==> exists j :: 0 <= j < |chain| && chain[j].generated)
    ensures |chain| > 1 && ok ==>
      && LastGenerated(chain, g)
      && (fGenerated <==> chain[g].time / w.interval < chain[|chain| - 1].time / w.interval)
      && (!fGenerated ==> nStakeModifier == chain[g].modifier)
    ensures |chain| > 1 && ok && fGenerated ==>
      && Known(w, c) && Candidates(w, chain, c) && |picks| == (if |c| < 64 then |c| else 64)
      && Rounds(w, c, SelectionStart(w, chain[|chain| - 1].time), chain[g].modifier, picks)
      && (forall r: nat :: TestBit(nStakeModifier, r) <==> r < |picks| && w.index[c[picks[r]].1].hash % 2 == 1)
  {
    g, c, picks := 0, [], [];
    if chain == [] { return true, 0, true, g, c, picks; }
    var prev := chain[|chain| - 1];
    if prev.height == 0 { return true, w.seed, true, g, c, picks; }
    var nModifierTime;
    ok, nStakeModifier, nModifierTime, g := GetLastStakeModifier(chain);
    if !ok { return false, 0, false, g, c, picks; }
    fGenerated := false;
    if nModifierTime / w.interval >= prev.time / w.interval { return; }
    var vSorted := CollectCandidates(w, chain);
    c := vSorted;
    ok, nStakeModifier, picks := RunRounds(w, vSorted, SelectionStart(w, prev.time), nStakeModifier);
    fGenerated := true;
  }

  method RunRounds(w: World, c: seq<Candidate>, start: int, modifierPrev: nat)
    returns (ok: bool, nStakeModifierNew: nat, ghost picks: seq<nat>)
    requires Known(w, c) && Sorted(c) && Distinct(c)
    ensures ok && |picks| == (if |c| < 64 then |c| else 64) && Rounds(w, c, start, modifierPrev, picks)
    ensures forall r: nat :: TestBit(nStakeModifierNew, r) <==> r < |picks| && w.index[c[picks[r]].1].hash % 2 == 1
  {
    hide Best, Or, Rounds, Pow2, TestBit, Hashes, ModifierOf, Section, Sections, Distinct, Sorted;
    var nStop: int := start;
    var selected: set<nat> := {};
    nStakeModifierNew, picks := 0, [];
    NoRounds(w, c, start, modifierPrev);
    var rounds := if |c| < 64 then |c| else 64;
    for nRound := 0 to rounds
      invariant |picks| == nRound && Rounds(w, c, start, modifierPrev, picks) && InBounds(c, picks)
      invariant selected == Hashes(c, picks) && |selected| <= nRound
      invariant nStop == start + Sections(w.interval, nRound)
      invariant nStakeModifierNew == ModifierOf(w, c, picks)
    {
      nStop := nStop + Section(w.interval, nRound);
      SectionNext(w.interval, nRound);
      SomeLeft(c, selected);
      var fSelected, pindex;
      ghost var k;
      fSelected, pindex, k := SelectBlockFromCandidates(w, c, selected, nStop, modifierPrev);
      BestIs(w, c, selected, nStop, modifierPrev, k);
      ModifierBits(w, c, picks, 0);
      OrDisjoint(nStakeModifierNew, Entropy(pindex.value), nRound);
      nStakeModifierNew := Or(nStakeModifierNew, Entropy(pindex.value) * Pow2(nRound));
      ModifierNext(w, c, picks, k);
      RoundsMore(w, c, start, modifierPrev, picks, k);
      selected := selected + {pindex.value.hash};
      picks := picks + [k];
    }
    ok := true;
    forall r: nat ensures TestBit(nStakeModifierNew, r) <==> r < |picks| && w.index[c[picks[r]].1].hash % 2 == 1 {
      ModifierBits(w, c, picks, r);
    }
  }

  lemma NoRounds(w: World, c: seq<Candidate>, start: int, modifierPrev: nat)
    requires Known(w, c)
    ensures Rounds(w, c, start, modifierPrev, []) && Hashes(c, []) == {} && Indexed(w, c)
    ensures ModifierOf(w, c, []) == 0 && Sections(w.interval, 0) == 0
  {
  }

  lemma SectionNext(interval: nat, n: nat)
    requires n < 64
    ensures Sections(interval, n + 1) == Sections(interval, n) + Section(interval, n)
  {
  }

  lemma BestIs(w: World, c: seq<Candidate>, selected: set<nat>, stop: int, modifierPrev: nat, k: nat)
    requires Known(w, c) && Best(w, c, selected, stop, modifierPrev, k)
    ensures k < |c| && c[k].1 !in selected
  {
  }

  lemma ModifierNext(w: World, c: seq<Candidate>, picks: seq<nat>, k: nat)
    requires InBounds(c, picks) && Indexed(w, c) && k < |c|
    ensures InBounds(c, picks + [k])
    ensures ModifierOf(w, c, picks + [k]) == ModifierOf(w, c, picks) + Entropy(w.index[c[k].1]) * Pow2(|picks|)
  {
    assert (picks + [k])[..|picks|] == picks;
  }

  /* The modifier that a kernel is hashed with. */

  /** Walks the active chain from the block after height h, up to the first new modifier that is a selection
      interval later. */
  method GetKernelStakeModifier(w: World, from: Block, active: seq<Block>)
    returns (ok: bool, nStakeModifier: nat, nHeight: nat, nTime: nat)
    requires forall i | 0 <= i < |active| :: active[i].height == i
    requires Sections(w.interval, 64) > 0
    ensures var due := from.time + Sections(w.interval, 64);
      ok <==> exists k :: from.height < k < |active| && active[k].generated && active[k].time >= due
    ensures ok ==>
      var due := from.time + Sections(w.interval, 64);
      && from.height < nHeight < |active| && active[nHeight].generated && active[nHeight].time >= due
      && nStakeModifier == active[nHeight].modifier && nTime == active[nHeight].time
      && forall k | from.height < k < nHeight :: !active[k].generated || active[k].time < due
  {
    nHeight, nTime := from.height, from.time;
    ghost var due := from.time + Sections(w.interval, 64);
    var pindex, next := from, from.height + 1;
    while nTime < from.time + Sections(w.interval, 64)
      invariant from.height < next && (next == from.height + 1 || next <= |active|)
      invariant next == from.height + 1 ==> nTime == from.time
      invariant next > from.height + 1 ==> pindex == active[next - 1]
      invariant forall k | from.height < k < next && k < |active| && active[k].generated && active[k].time >= due ::
        k == next - 1 && nTime == active[k].time
      invariant nTime >= due ==>
        && next > from.height + 1 && nHeight == next - 1
        && nTime == active[nHeight].time && active[nHeight].generated && active[nHeight].time >= due
      decreases |active| - next
    {
      if next >= |active| {
        return false, 0, nHeight, nTime;
      }
      pindex := active[next];
      next := next + 1;
      if pindex.generated {
        nHeight, nTime := pindex.height, pindex.time;
      }
    }
    ok, nStakeModifier := true, pindex.modifier;
  }
}

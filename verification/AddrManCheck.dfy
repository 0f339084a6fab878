/** The manager's own consistency check: what it demands, and how far that is the invariant. */
module AddrManCheck {
  import opened AddrManTypes
  import opened AddrManSteps

  /** What looking an address up with operator[] gives: a missing one counts as id 0. */
  function Looked(m: map<NetAddr, int>, a: NetAddr): int {
    if a in m then m[a] else 0
  }

  /** The lookups have only put ids 0 in for addresses that were missing. */
  ghost predicate Filled(was: map<NetAddr, int>, now: map<NetAddr, int>) {
    (forall a <- was :: a in now && now[a] == was[a]) && (forall a <- now :: a in was || now[a] == 0)
  }

  /** Entry n as Check_ sees it (codes -1 to -6, -8 and -14). */
  ghost predicate EntryPasses(t: Tables, n: int)
    requires n in t.info
  {
    var i := t.info[n];
    && (if i.inTried then i.lastSuccess != 0 && i.refCount == 0
        else 0 < i.refCount <= NEW_BUCKETS_PER_ADDRESS)
    && Looked(t.addr, i.Ip()) == n
    && 0 <= i.randomPos < |t.random| && t.random[i.randomPos] == n
    && i.lastTry >= 0 && i.lastSuccess >= 0
  }

  /** Every tried slot holds a tried entry that belongs there (codes -11, -17 and -18). */
  ghost predicate TriedPasses(h: Hashes, t: Tables) {
    forall s <- t.tried :: var n := t.tried[s]; n in TriedIds(t) && s == h.TriedSlot(t.key, t.info[n].addr.svc)
  }

  /** Every new slot holds a new entry, at its position (codes -12 and -19). */
  ghost predicate NewPasses(h: Hashes, t: Tables) {
    forall s <- t.new_ ::
      var n := t.new_[s]; n in NewIds(t, {}) && s.pos == h.BucketPosition(t.key, true, s.bucket, t.info[n].addr.svc)
  }

  /** Every new entry is in as many slots as it counts (codes -12 and -15). */
  ghost predicate CountsPass(t: Tables) {
    forall n <- NewIds(t, {}) :: |SlotsOf(t.new_, n)| == t.info[n].refCount
  }

  /** What Check_ demands when it returns 0. */
  ghost predicate CheckPasses(h: Hashes, t: Tables) {
    && |t.random| == t.nTried + t.nNew                                     // -7
    && (forall n <- t.info :: EntryPasses(t, n))
    && |TriedIds(t)| == t.nTried && |NewIds(t, {})| == t.nNew              // -9, -10
    && TriedPasses(h, t)
    && (forall n <- TriedIds(t) :: SlotsOf(t.tried, n) != {})              // -13
    && NewPasses(h, t) && CountsPass(t)
    && t.key != 0                                                          // -16
  }

  /** What Check_ cannot tell: that `mapAddr` holds every entry's address and nothing else, and that ids
      are below the next one. */
  ghost predicate NoStrays(t: Tables) {
    && (forall n <- t.info :: t.info[n].Ip() in t.addr)
    && (forall a <- t.addr :: var n := t.addr[a]; n in t.info && t.info[n].Ip() == a)
    && (forall n <- t.info :: 0 <= n < t.idCount) && 0 <= t.idCount
    && (forall s <- t.new_ :: InNewTable(s))
  }

  lemma IdsSplit(t: Tables)
    ensures |t.info.Keys| == |TriedIds(t)| + |NewIds(t, {})|
  {
    assert t.info.Keys == TriedIds(t) + NewIds(t, {});
    assert TriedIds(t) !! NewIds(t, {});
  }

  lemma {:induction false} InjectionOnto(t: Tables, m: nat, ids: set<int>)
    requires ids <= t.info.Keys && m <= |t.random|
    requires forall n <- ids :: 0 <= t.info[n].randomPos < m && t.random[t.info[n].randomPos] == n
    ensures |ids| <= m
    ensures |ids| == m ==> forall k | 0 <= k < m :: var n := t.random[k]; n in ids && t.info[n].randomPos == k
  {
    if m == 0 {
      forall n ensures n !in ids { if n in ids { assert false; } }
      assert ids == {};
    } else {
      var n := t.random[m - 1];
      var rest := if n in ids && t.info[n].randomPos == m - 1 then ids - {n} else ids;
      forall i | i in rest ensures t.info[i].randomPos < m - 1 {
        assert t.info[i].randomPos == m - 1 ==> i == n;
      }
      InjectionOnto(t, m - 1, rest);
      if |ids| == m {
        forall k | 0 <= k < m ensures var i := t.random[k]; i in ids && t.info[i].randomPos == k {
          if k < m - 1 {
            var i := t.random[k];
            assert i in rest && t.info[i].randomPos == k;
          }
        }
      }
    }
  }

  /** The full consistency condition is Check_ returning 0, for tables without strays. */
  lemma ConsistentIffCheckPasses(h: Hashes, t: Tables)
    ensures Inv(h, t, {}) <==> CheckPasses(h, t) && NoStrays(t)
  {
    IdsSplit(t);
    if Inv(h, t, {}) {
      ConsistentPassesCheck(h, t);
    }
    if CheckPasses(h, t) && NoStrays(t) {
      CheckMeansConsistent(h, t);
    }
  }

  lemma ConsistentPassesCheck(h: Hashes, t: Tables)
    requires Inv(h, t, {})
    ensures CheckPasses(h, t) && NoStrays(t)
  {
    RandomSize(t);
    IdsSplit(t);
    EntriesPass(h, t);
    TablesPass(h, t);
    hide RandomOk, EntryPasses, TriedPasses, NewPasses, CountsPass;
  }

  lemma {:induction false} EntriesPass(h: Hashes, t: Tables)
    requires Inv(h, t, {})
    ensures forall n <- t.info :: EntryPasses(t, n)
  {
    hide TriedOk, NewOk, RandomOk;
    forall n | n in t.info ensures EntryPasses(t, n) {
      RandomAt(t, n);
    }
  }

  lemma {:induction false} TablesPass(h: Hashes, t: Tables)
    requires TriedOk(h, t) && NewOk(h, t)
    ensures TriedPasses(h, t) && NewPasses(h, t) && CountsPass(t)
    ensures forall n <- TriedIds(t) :: SlotsOf(t.tried, n) != {}
  {
    forall n | n in TriedIds(t) ensures SlotsOf(t.tried, n) != {} {
      TriedSlots(h, t, n);
    }
    forall s | s in t.new_ ensures var n := t.new_[s]; n in NewIds(t, {}) {
    }
  }

  lemma RandomSize(t: Tables)
    requires RandomOk(t)
    ensures |t.random| == |t.info.Keys|
  {
    var values := set k | 0 <= k < |t.random| :: t.random[k];
    forall n | n in t.info ensures n in values {
      assert t.random[t.info[n].randomPos] == n;
    }
    forall n | n in values ensures n in t.info {
    }
    assert values == t.info.Keys;
    DistinctSize(t.random, values);
  }

  lemma {:induction false} DistinctSize(s: seq<int>, values: set<int>)
    requires forall j, k | 0 <= j < k < |s| :: s[j] != s[k]
    requires forall n :: n in values <==> n in s
    ensures |s| == |values|
  {
    if s == [] {
      assert forall n :: n in values ==> n in s;
      assert values == {};
    } else {
      var n := |s| - 1;
      assert s == s[..n] + [s[n]];
      DistinctSize(s[..n], values - {s[n]});
    }
  }

  lemma CheckMeansConsistent(h: Hashes, t: Tables)
    requires CheckPasses(h, t) && NoStrays(t)
    ensures Inv(h, t, {})
  {
    IdsSplit(t);
    CheckRandom(h, t);
    CheckTried(h, t);
    CheckNew(h, t);
    assert AddrOk(t) by {
      forall n | n in t.info ensures var a := t.info[n].Ip(); a in t.addr && t.addr[a] == n {
        assert EntryPasses(t, n);
      }
    }
    assert EntriesOk(t, {}) by {
      forall n | n in t.info ensures EntryPasses(t, n) {}
    }
  }

  lemma CheckRandom(h: Hashes, t: Tables)
    requires CheckPasses(h, t) && |t.random| == |t.info.Keys|
    ensures RandomOk(t)
  {
    forall n | n in t.info ensures 0 <= t.info[n].randomPos < |t.random| && t.random[t.info[n].randomPos] == n {
      assert EntryPasses(t, n);
    }
    InjectionOnto(t, |t.random|, t.info.Keys);
  }

  lemma CheckTried(h: Hashes, t: Tables)
    requires CheckPasses(h, t)
    ensures TriedOk(h, t)
  {
    forall n | n in t.info && t.info[n].inTried
      ensures var s := h.TriedSlot(t.key, t.info[n].addr.svc); s in t.tried && t.tried[s] == n
    {
      assert n in TriedIds(t);
      var s :| s in SlotsOf(t.tried, n);
      assert t.tried[s] == n;
    }
  }

  lemma CheckNew(h: Hashes, t: Tables)
    requires CheckPasses(h, t) && NoStrays(t)
    ensures NewOk(h, t)
  {
    forall n | n in t.info ensures t.info[n].refCount == |SlotsOf(t.new_, n)| {
      assert EntryPasses(t, n);
      if t.info[n].inTried {
        forall s ensures s !in SlotsOf(t.new_, n) {
          assert s in t.new_ ==> t.new_[s] in NewIds(t, {});
        }
        assert SlotsOf(t.new_, n) == {};
      } else {
        assert n in NewIds(t, {});
      }
    }
  }

  /** Without the last condition this is false: an entry under id 0 passes though its address is missing. */
  lemma UnmappedZeroPasses(h: Hashes)
    ensures var svc := Service(1, 1);
      var i := AddrInfo(Address(svc, {}, 0), 2, 0, 0, 0, 1, false, 0);
      var t := Tables(1, 1, map[0 := i], map[], [0], 0, map[], 1, map[Slot(0, h.BucketPosition(1, true, 0, svc)) := 0]);
      CheckPasses(h, t) && !NoStrays(t) && !Inv(h, t, {})
  {
    var svc := Service(1, 1);
    var s := Slot(0, h.BucketPosition(1, true, 0, svc));
    var i := AddrInfo(Address(svc, {}, 0), 2, 0, 0, 0, 1, false, 0);
    var t := Tables(1, 1, map[0 := i], map[], [0], 0, map[], 1, map[s := 0]);
    assert TriedIds(t) == {} && NewIds(t, {}) == {0} && SlotsOf(t.new_, 0) == {s};
    assert 0 in t.info && t.info[0].Ip() !in t.addr;
  }

  // ----- the loops

  /** The table of references that the first loop builds. */
  ghost predicate CountsOf(t: Tables, mapNew: map<int, int>, ids: set<int>) {
    mapNew.Keys == NewIds(t, {}) * ids && forall n <- mapNew :: mapNew[n] == t.info[n].refCount
  }

  /** What the first loop has noted of the entries `ids`. */
  ghost predicate EntriesSeen(t: Tables, ids: set<int>, setTried: set<int>, mapNew: map<int, int>) {
    setTried == TriedIds(t) * ids && CountsOf(t, mapNew, ids)
  }

  lemma EntriesStart(t: Tables)
    ensures EntriesSeen(t, t.info.Keys - t.info.Keys, {}, map[]) && Filled(t.addr, t.addr)
  {
  }

  lemma EntriesStep(t: Tables, ids: set<int>, n: int, setTried: set<int>, mapNew: map<int, int>)
    requires EntriesSeen(t, ids, setTried, mapNew) && n in t.info
    ensures if t.info[n].inTried then EntriesSeen(t, ids + {n}, setTried + {n}, mapNew)
            else EntriesSeen(t, ids + {n}, setTried, mapNew[n := t.info[n].refCount])
  {
  }

  lemma EntriesEnd(t: Tables, u: Tables, setTried: set<int>, mapNew: map<int, int>)
    requires EntriesSeen(t, t.info.Keys, setTried, mapNew) && u == t.(addr := u.addr)
    ensures setTried == TriedIds(u) && CountsOf(u, mapNew, u.info.Keys)
  {
  }

  lemma {:induction false} LeastOf(ids: set<int>) returns (n: int)
    requires ids != {}
    ensures n in ids && forall m <- ids :: n <= m
  {
    var x := SomeMember(ids);
    var rest := ids - {x};
    if rest == {} {
      n := x;
      assert forall m <- ids :: m == x || m in rest;
    } else {
      var y := LeastOf(rest);
      n := if x < y then x else y;
      assert forall m <- ids :: m == x || m in rest;
    }
  }

  /** The tried entries whose slot is still to come after the slots before (b, i). */
  ghost predicate TriedLeft(h: Hashes, t: Tables, left: set<int>, b: int, i: int) {
    var d := Done(t.tried, b, i);
    && (forall s <- d :: var n := d[s]; n in TriedIds(t) && s == h.TriedSlot(t.key, t.info[n].addr.svc))
    && (forall n :: n in left <==> n in TriedIds(t) && SlotsOf(d, n) == {})
  }

  lemma TriedLeftStart(h: Hashes, t: Tables)
    requires forall s <- t.tried :: 0 <= s.bucket && 0 <= s.pos
    ensures TriedLeft(h, t, TriedIds(t), 0, 0)
  {
    DoneNone(t.tried);
  }

  lemma TriedLeftStep(h: Hashes, t: Tables, left: set<int>, b: int, i: int)
    requires TriedLeft(h, t, left, b, i)
    ensures Slot(b, i) !in t.tried ==> TriedLeft(h, t, left, b, i + 1)
    ensures Slot(b, i) in t.tried ==>
      var n := t.tried[Slot(b, i)];
      && (n !in left ==> !TriedPasses(h, t))
      && (n in left ==> n in t.info)
      && (n in left && Slot(b, i) != h.TriedSlot(t.key, t.info[n].addr.svc) ==> !TriedPasses(h, t))
      && (n in left && Slot(b, i) == h.TriedSlot(t.key, t.info[n].addr.svc) ==> TriedLeft(h, t, left - {n}, b, i + 1))
  {
    var d, s := Done(t.tried, b, i), Slot(b, i);
    DoneStep(t.tried, b, i);
    if s in t.tried {
      var n := t.tried[s];
      if n !in left && n in TriedIds(t) {
        var r :| r in SlotsOf(d, n);
        assert r in t.tried && t.tried[r] == n && r != s;
      }
      forall m ensures SlotsOf(d[s := n], m) == if m == n then SlotsOf(d, m) + {s} else SlotsOf(d, m) {
        SlotsPut(d, s, n, m);
      }
    }
  }

  lemma TriedLeftBucket(h: Hashes, t: Tables, left: set<int>, b: int)
    requires TriedLeft(h, t, left, b, BUCKET_SIZE) && forall s <- t.tried :: 0 <= s.pos < BUCKET_SIZE
    ensures TriedLeft(h, t, left, b + 1, 0)
  {
    DoneBucket(t.tried, b);
  }

  lemma TriedLeftEnd(h: Hashes, t: Tables, left: set<int>)
    requires TriedLeft(h, t, left, TRIED_BUCKET_COUNT, 0) && forall s <- t.tried :: s.bucket < TRIED_BUCKET_COUNT
    ensures TriedPasses(h, t) && (left == {} <==> forall n <- TriedIds(t) :: SlotsOf(t.tried, n) != {})
  {
    DoneAll(t.tried, TRIED_BUCKET_COUNT);
    assert (exists n :: n in TriedIds(t) && SlotsOf(t.tried, n) == {}) ==> left != {};
    if left != {} {
      var n := SomeMember(left);
      assert n in TriedIds(t) && SlotsOf(t.tried, n) == {};
    }
  }

  /** What is left of the references after the slots before (b, i). */
  ghost predicate NewLeft(h: Hashes, t: Tables, left: map<int, int>, b: int, i: int) {
    var d := Done(t.new_, b, i);
    && (forall s <- d ::
          var n := d[s]; n in NewIds(t, {}) && s.pos == h.BucketPosition(t.key, true, s.bucket, t.info[n].addr.svc))
    && left.Keys <= NewIds(t, {})
    && (forall n <- NewIds(t, {}) ::
          |SlotsOf(d, n)| + (if n in left then left[n] else 0) == t.info[n].refCount && (n in left ==> left[n] > 0))
  }

  lemma NewLeftStart(h: Hashes, t: Tables, left: map<int, int>)
    requires CountsOf(t, left, t.info.Keys) && forall n <- NewIds(t, {}) :: t.info[n].refCount > 0
    requires forall s <- t.new_ :: 0 <= s.bucket && 0 <= s.pos
    ensures NewLeft(h, t, left, 0, 0)
  {
    DoneNone(t.new_);
    assert forall n :: SlotsOf(Done(t.new_, 0, 0), n) == {};
  }

  lemma {:induction false} NewLeftStep(h: Hashes, t: Tables, left: map<int, int>, b: int, i: int)
    requires NewLeft(h, t, left, b, i)
    ensures Slot(b, i) !in t.new_ ==> NewLeft(h, t, left, b, i + 1)
    ensures Slot(b, i) in t.new_ ==>
      var n := t.new_[Slot(b, i)];
      && (n !in left ==> !(NewPasses(h, t) && CountsPass(t)))
      && (n in left ==> n in t.info)
      && (n in left && i != h.BucketPosition(t.key, true, b, t.info[n].addr.svc) ==> !NewPasses(h, t))
      && (n in left && i == h.BucketPosition(t.key, true, b, t.info[n].addr.svc) ==>
            NewLeft(h, t, if left[n] == 1 then left - {n} else left[n := left[n] - 1], b, i + 1))
  {
    hide SlotsOf, Done;
    DoneStep(t.new_, b, i);
    if Slot(b, i) in t.new_ {
      var n := t.new_[Slot(b, i)];
      if n !in left {
        DoneCount(t.new_, b, i);
      } else if i == h.BucketPosition(t.key, true, b, t.info[n].addr.svc) {
        NewLeftTaken(h, t, left, b, i);
      }
    }
  }

  /** One reference of a new entry that is still expected is found. */
  lemma {:induction false} NewLeftTaken(h: Hashes, t: Tables, left: map<int, int>, b: int, i: int)
    requires NewLeft(h, t, left, b, i) && Slot(b, i) in t.new_ && t.new_[Slot(b, i)] in left
    requires i == h.BucketPosition(t.key, true, b, t.info[t.new_[Slot(b, i)]].addr.svc)
    ensures var n := t.new_[Slot(b, i)];
            NewLeft(h, t, if left[n] == 1 then left - {n} else left[n := left[n] - 1], b, i + 1)
  {
    hide SlotsOf, NewIds, Done;
    var d, s := Done(t.new_, b, i), Slot(b, i);
    var n := t.new_[s];
    DoneStep(t.new_, b, i);
    forall m | m in NewIds(t, {}) ensures |SlotsOf(d[s := n], m)| == |SlotsOf(d, m)| + if m == n then 1 else 0 {
      SlotsPut(d, s, n, m);
    }
  }

  lemma NewLeftBucket(h: Hashes, t: Tables, left: map<int, int>, b: int)
    requires NewLeft(h, t, left, b, BUCKET_SIZE) && forall s <- t.new_ :: 0 <= s.pos < BUCKET_SIZE
    ensures NewLeft(h, t, left, b + 1, 0)
  {
    DoneBucket(t.new_, b);
  }

  lemma NewLeftEnd(h: Hashes, t: Tables, left: map<int, int>)
    requires NewLeft(h, t, left, NEW_BUCKET_COUNT, 0) && forall s <- t.new_ :: s.bucket < NEW_BUCKET_COUNT
    ensures NewPasses(h, t) && (left == map[] <==> CountsPass(t))
  {
    DoneAll(t.new_, NEW_BUCKET_COUNT);
    if left != map[] {
      var n := SomeMember(left.Keys);
      assert |SlotsOf(t.new_, n)| < t.info[n].refCount;
    }
  }

  lemma NoStraysMapped(t: Tables)
    ensures NoStrays(t) ==> forall n <- t.info :: t.info[n].Ip() in t.addr
  {
  }

  lemma SizeCounted(t: Tables, mapNew: map<int, int>)
    requires CountsOf(t, mapNew, t.info.Keys)
    ensures |mapNew| == |NewIds(t, {})|
  {
    assert NewIds(t, {}) * t.info.Keys == NewIds(t, {});
  }

  /** The tables and the counts are judged without looking at the addresses. */
  lemma LookupsAside(h: Hashes, t: Tables, u: Tables)
    requires u == t.(addr := u.addr)
    requires forall n <- t.info :: EntryPasses(t, n)
    ensures TriedPasses(h, u) <==> TriedPasses(h, t)
    ensures NewPasses(h, u) <==> NewPasses(h, t)
    ensures CountsPass(u) <==> CountsPass(t)
    ensures TriedIds(u) == TriedIds(t) && NewIds(u, {}) == NewIds(t, {})
    ensures forall n <- NewIds(t, {}) :: t.info[n].refCount > 0
  {
  }
}
